/** The cache of DNS responses (src/api/dns_cache.c): a table of slots searched and updated in
    place, whose contents are a map from (lowercased name, record type) to an answer and the time
    it dies. The machine sees that time modulo 2^32 and compares it through a signed difference. */
module DnsCache {

  import opened Common

  const TTL_MIN: nat := 30
  const TTL_MAX: nat := 3600
  const NEG_TTL: nat := 30
  const MAXRESP: nat := 1024
  const W: int := 0x1_0000_0000
  const HALF: int := 0x8000_0000

  // ---- Names --------------------------------------------------------------------------------

  function LowerChar(c: char): char {
    if 'A' <= c <= 'Z' then (c as int + 32) as char else c
  }

  function Lower(s: string): (r: string)
    ensures |r| == |s|
  {
    seq(|s|, i requires 0 <= i < |s| => LowerChar(s[i]))
  }

  /** The same letters, whatever their case. */
  ghost predicate SameButForCase(a: string, b: string) {
    |a| == |b| && forall i | 0 <= i < |a| :: SameLetter(a[i], b[i])
  }

  ghost predicate SameLetter(c: char, d: char) {
    c == d || ('A' <= c <= 'Z' && d as int == c as int + 32) || ('A' <= d <= 'Z' && c as int == d as int + 32)
  }

  /** Two names have one lowercase form, in which no capital is left, exactly if only case tells them apart. */
  lemma LowerExactly(a: string, b: string)
    ensures Lower(a) == Lower(b) <==> SameButForCase(a, b)
    ensures SameButForCase(Lower(a), a) && forall c <- Lower(a) :: !('A' <= c <= 'Z')
  {
    if Lower(a) == Lower(b) {
      forall i | 0 <= i < |a|
        ensures SameLetter(a[i], b[i])
      {
        assert Lower(a)[i] == Lower(b)[i];
      }
    }
  }

  /** name_ieq: does the stored lowercase name equal the raw one but for case? */
  method NameIeq(lc: string, raw: string) returns (same: bool)
    ensures same <==> lc == Lower(raw)
  {
    var i := 0;
    while i < |raw|
      invariant 0 <= i <= |raw| && i <= |lc| && lc[..i] == Lower(raw)[..i]
    {
      if i == |lc| || lc[i] != LowerChar(raw[i]) {
        assert i == |lc| || lc[i] != Lower(raw)[i];
        return false;
      }
      assert lc[..i + 1] == lc[..i] + [lc[i]] && Lower(raw)[..i + 1] == Lower(raw)[..i] + [Lower(raw)[i]];
      i := i + 1;
    }
    assert Lower(raw) == lc[..i];
    assert |lc| == |raw| ==> lc == lc[..i];
    return i == |lc|;
  }

  // ---- Time ---------------------------------------------------------------------------------

  /** The test (LONG)(a - b) >= 0 on 32-bit clock readings. */
  predicate NotBefore(a: u32, b: u32) {
    (a - b) % W < HALF
  }

  /** a is close enough to b for the signed test to be right. */
  predicate Near(a: int, b: int) {
    -HALF <= a - b < HALF
  }

  function Clock(t: int): u32 {
    t % W
  }

  /** The signed test is right about times a and b exactly when the whole half-turns of the clock from
      b to a are even in number if a is not earlier, and odd if it is: so always within half a turn,
      which is 2^31 seconds. */
  lemma SignedTestExactly(a: int, b: int)
    ensures (NotBefore(Clock(a), Clock(b)) <==> b <= a)
      <==> (a - b) / 0x8000_0000 % 2 == (if b <= a then 0 else 1)
    ensures -0x8000_0000 <= a - b < 0x8000_0000 ==> (NotBefore(Clock(a), Clock(b)) <==> b <= a)
  {
    ClockDifference(a, b);
    HalfTurns(a - b);
  }

  lemma HalfTurns(d: int)
    ensures d % W < HALF <==> d / HALF % 2 == 0
  {
    var q, r := d / HALF, d % HALF;
    assert d == q / 2 * W + (q % 2 * HALF + r);
    ModShift(q % 2 * HALF + r, q / 2);
  }

  lemma ClockDifference(a: int, b: int)
    ensures (Clock(a) - Clock(b)) % W == (a - b) % W
  {
    var qa, qb := a / W, b / W;
    assert a - b == (Clock(a) - Clock(b)) + (qa - qb) * W;
    ModShift(Clock(a) - Clock(b), qa - qb);
  }

  lemma ModShift(x: int, k: int)
    ensures (x + k * W) % W == x % W
  {
    var q := x / W;
    assert x + k * W == (q + k) * W + x % W;
  }

  /** What the test for an expired entry makes of one that dies at a given time. */
  predicate ReadsLive(now: int, dies: int) {
    !NotBefore(Clock(now), Clock(dies))
  }

  /** A dead entry that stays in its slot reads as live again, and Get serves it, exactly while the
      seconds since it died are in an odd period of 2^31. */
  lemma DeadEntryRevives(dies: int, since: nat)
    ensures ReadsLive(dies + since, dies) <==> since / 0x8000_0000 % 2 == 1
  {
    ClockDifference(dies + since, dies);
    HalfTurns(since);
  }

  // ---- Slots and what they stand for --------------------------------------------------------

  datatype Answer = Negative | Response(bytes: seq<byte>)

  datatype Slot = Empty | Entry(name: string, kind: int, answer: Answer, expiry: u32)

  datatype Key = Key(name: string, kind: int)

  datatype Timed = Timed(answer: Answer, dies: int)

  type Contents = map<Key, Timed>

  predicate Holds(s: Slot, k: Key) {
    s.Entry? && s.name == k.name && s.kind == k.kind
  }

  function KeyOf(s: Slot): Key
    requires s.Entry?
  {
    Key(s.name, s.kind)
  }

  ghost predicate SlotStands(s: Slot, m: Contents) {
    s.Entry? ==> KeyOf(s) in m && m[KeyOf(s)].answer == s.answer && s.expiry == Clock(m[KeyOf(s)].dies)
  }

  ghost predicate OneSlotPerKey(slots: seq<Slot>) {
    forall i, j | 0 <= i < j < |slots| :: slots[i].Entry? && slots[j].Entry? ==> KeyOf(slots[i]) != KeyOf(slots[j])
  }

  ghost predicate Held(slots: seq<Slot>, k: Key) {
    exists i | 0 <= i < |slots| :: Holds(slots[i], k)
  }

  /** The slots hold exactly the map m, each key once. */
  ghost predicate Represents(slots: seq<Slot>, m: Contents) {
    && (forall i | 0 <= i < |slots| :: SlotStands(slots[i], m))
    && OneSlotPerKey(slots)
    && (forall k <- m :: Held(slots, k))
  }

  /** The time is near enough to every expiry for the signed tests. */
  ghost predicate Timely(m: Contents, now: int) {
    forall k <- m :: Near(now, m[k].dies)
  }

  function Without(m: Contents, s: Slot): Contents {
    if s.Entry? then m - {KeyOf(s)} else m
  }

  lemma ClearAt(slots: seq<Slot>, i: nat, m: Contents)
    requires i < |slots| && Represents(slots, m)
    ensures Represents(slots[i := Empty], Without(m, slots[i]))
  {
    var after, w := slots[i := Empty], Without(m, slots[i]);
    forall k | k in w
      ensures Held(after, k)
    {
      assert Held(slots, k);
      var j :| 0 <= j < |slots| && Holds(slots[j], k);
      assert j != i;
      assert Holds(after[j], k);
    }
  }

  lemma StoreAt(slots: seq<Slot>, i: nat, s: Slot, dies: int, m: Contents)
    requires i < |slots| && slots[i] == Empty && Represents(slots, m)
    requires s.Entry? && KeyOf(s) !in m && s.expiry == Clock(dies)
    ensures Represents(slots[i := s], m[KeyOf(s) := Timed(s.answer, dies)])
  {
    var after, w := slots[i := s], m[KeyOf(s) := Timed(s.answer, dies)];
    forall k | k in w
      ensures Held(after, k)
    {
      if k == KeyOf(s) {
        assert Holds(after[i], k);
      } else {
        assert Held(slots, k);
        var j :| 0 <= j < |slots| && Holds(slots[j], k);
        assert j != i;
        assert Holds(after[j], k);
      }
    }
  }

  lemma ReplaceAt(slots: seq<Slot>, i: nat, s: Slot, dies: int, m: Contents)
    requires i < |slots| && Represents(slots, m)
    requires s.Entry? && KeyOf(s) !in Without(m, slots[i]) && s.expiry == Clock(dies)
    ensures Represents(slots[i := s], Without(m, slots[i])[KeyOf(s) := Timed(s.answer, dies)])
  {
    ClearAt(slots, i, m);
    StoreAt(slots[i := Empty], i, s, dies, Without(m, slots[i]));
    assert slots[i := Empty][i := s] == slots[i := s];
  }

  // ---- What has been written ----------------------------------------------------------------

  datatype Event = Wrote(key: Key, value: Timed) | Flushed

  /** The last value written for k since the last flush. */
  ghost function LastWrite(h: seq<Event>, k: Key): Option<Timed> {
    if h == [] then None
    else match h[|h| - 1]
         case Flushed => None
         case Wrote(key, value) => if key == k then Some(value) else LastWrite(h[..|h| - 1], k)
  }

  /** Every entry is the last thing written for its key. */
  ghost predicate Current(m: Contents, h: seq<Event>) {
    forall k <- m :: LastWrite(h, k) == Some(m[k])
  }

  lemma WriteKeepsCurrent(m: Contents, h: seq<Event>, k: Key, v: Timed)
    requires Current(m, h)
    ensures Current(m[k := v], h + [Wrote(k, v)])
  {
    assert (h + [Wrote(k, v)])[..|h|] == h;
  }

  // ---- The cache ----------------------------------------------------------------------------

  datatype Lookup = Miss | NotFound | Hit(response: seq<byte>)

  /** Which key, if any, had to make room. */
  ghost predicate MadeRoom(slots: seq<Slot>, m: Contents, now: int, k: Key, gone: Option<Key>) {
    gone.Some? ==>
      && gone.value in m && gone.value != k && (k in m ==> m[k].dies <= now)
      && (m[gone.value].dies <= now || OldestOfFull(slots, m, now, k, gone.value))
  }

  /** x dies first among the entries of a full table that are all live, none of them for k. */
  ghost predicate OldestOfFull(slots: seq<Slot>, m: Contents, now: int, k: Key, x: Key)
    requires x in m
  {
    && k !in m && (forall i | 0 <= i < |slots| :: slots[i].Entry?)
    && forall y <- m :: now < m[y].dies && m[x].dies <= m[y].dies
  }

  function Minus(m: Contents, gone: Option<Key>): Contents {
    if gone.None? then m else m - {gone.value}
  }

  /** The slots not yet passed by the scan for a victim cannot be empty or expired. */
  ghost predicate Scanned(slots: seq<Slot>, m: Contents, now: int, victim: int, i: nat) {
    && i <= |slots| && -1 <= victim < i && (victim == -1 ==> i == 0)
    && (forall j | 0 <= j < i :: slots[j].Entry? && now < DiesAt(slots[j], m))
    && (0 <= victim ==> forall j | 0 <= j < i :: DiesAt(slots[victim], m) <= DiesAt(slots[j], m))
    && (0 <= victim ==> forall j | 0 <= j < victim :: DiesAt(slots[victim], m) < DiesAt(slots[j], m))
  }

  lemma ScannedNext(slots: seq<Slot>, m: Contents, now: int, victim: int, i: nat, sooner: bool)
    requires Scanned(slots, m, now, victim, i) && i < |slots| && slots[i].Entry? && now < DiesAt(slots[i], m)
    requires sooner <==> victim == -1 || DiesAt(slots[i], m) < DiesAt(slots[victim], m)
    ensures Scanned(slots, m, now, if sooner then i else victim, i + 1)
  {
  }

  /** Slot j was passed over for slot i: it is live, and if i is too, it dies after i. */
  ghost predicate Passed(slots: seq<Slot>, m: Contents, now: int, i: nat, j: nat)
    requires j < i < |slots|
  {
    && slots[j].Entry? && now < DiesAt(slots[j], m)
    && (slots[i].Entry? && now < DiesAt(slots[i], m) ==> DiesAt(slots[i], m) < DiesAt(slots[j], m))
  }

  ghost function DiesAt(s: Slot, m: Contents): int {
    if s.Entry? && KeyOf(s) in m then m[KeyOf(s)].dies else 0
  }

  class Cache {
    const slots: array<Slot>
    ghost var contents: Contents
    ghost var history: seq<Event>

    ghost predicate Valid()
      reads this, slots
    {
      Represents(slots[..], contents) && Current(contents, history)
    }

    constructor (n: nat)
      ensures Valid() && fresh(slots) && slots.Length == n && contents == map[] && history == []
    {
      slots := new Slot[n](_ => Empty);
      contents, history := map[], [];
    }

    /** ent_find: the slot of the entry for the key if it reads as live, or -1; one that reads as expired is
        cleared. */
    method EntFind(name: string, kind: int, now: int) returns (found: int)
      requires Valid()
      modifies this`contents, slots
      ensures Valid() && history == old(history)
      ensures var k := Key(Lower(name), kind);
              if k in old(contents) && ReadsLive(now, old(contents)[k].dies) then (
                && 0 <= found < slots.Length && Holds(slots[found], k)
                && contents == old(contents) && slots[..] == old(slots[..]))
              else (
                && found == -1 && contents == old(contents) - {k}
                && if k in old(contents) then Empty in slots[..] else slots[..] == old(slots[..]))
    {
      ghost var k := Key(Lower(name), kind);
      var i := 0;
      while i < slots.Length
        invariant 0 <= i <= slots.Length
        invariant Valid() && contents == old(contents) && slots[..] == old(slots[..]) && history == old(history)
        invariant forall j | 0 <= j < i :: !Holds(slots[j], k)
      {
        var s := slots[i];
        if s.Entry? && s.kind == kind {
          var same := NameIeq(s.name, name);
          if same {
            assert KeyOf(s) == k && SlotStands(slots[..][i], contents);
            if NotBefore(Clock(now), s.expiry) {
              ClearAt(slots[..], i, contents);
              slots[i] := Empty;
              contents := contents - {k};
              assert slots[..] == old(slots[..])[i := Empty] && slots[..][i] == Empty;
              return -1;
            }
            return i;
          }
        }
        i := i + 1;
      }
      assert k in contents ==> Held(slots[..], k);
      assert contents == contents - {k};
      return -1;
    }

    /** pick_slot: the first slot that is empty or expired, else the first of those that die first. */
    method PickSlot(now: int) returns (found: int)
      requires Valid() && Timely(contents, now)
      ensures slots.Length == 0 <==> found == -1
      ensures found != -1 ==> 0 <= found < slots.Length && Pickable(slots[..], contents, now, found)
      ensures found != -1 ==> forall j | 0 <= j < found :: Passed(slots[..], contents, now, found, j)
    {
      var victim := -1;
      var i := 0;
      while i < slots.Length
        invariant Scanned(slots[..], contents, now, victim, i)
      {
        var c := slots[i];
        if c.Empty? {
          return i;
        }
        assert SlotStands(slots[..][i], contents);
        SignedTestExactly(now, DiesAt(c, contents));
        if NotBefore(Clock(now), c.expiry) {
          return i;
        }
        var sooner := victim == -1;
        if !sooner {
          assert SlotStands(slots[..][victim], contents);
          sooner := Sooner(c, slots[victim], now);
        }
        ScannedNext(slots[..], contents, now, victim, i, sooner);
        victim := if sooner then i else victim;
        i := i + 1;
      }
      return victim;
    }

    /** (LONG)(c->expiry - victim->expiry) < 0 of two live entries */
    method Sooner(c: Slot, v: Slot, now: int) returns (sooner: bool)
      requires c.Entry? && v.Entry? && SlotStands(c, contents) && SlotStands(v, contents) && Timely(contents, now)
      requires now < DiesAt(c, contents) && now < DiesAt(v, contents)
      ensures sooner <==> DiesAt(c, contents) < DiesAt(v, contents)
    {
      SignedTestExactly(DiesAt(c, contents), DiesAt(v, contents));
      return !NotBefore(c.expiry, v.expiry);
    }

    /** The slot for a write: that of the live entry for the key, or one that may be reused. */
    method ChooseSlot(name: string, kind: int, now: int, ghost answer: Answer, ghost ttl: nat)
      returns (e: nat, ghost gone: Option<Key>)
      requires Valid() && Timely(contents, now) && 0 < slots.Length
      modifies this`contents, slots
      ensures Valid() && history == old(history) && e < slots.Length
      ensures var k := Key(Lower(name), kind); var kept := Without(contents, slots[e]);
              && k !in kept && (forall x <- kept :: x in old(contents) && kept[x] == old(contents)[x])
              && Stored(old(slots[..]), old(contents), kept[k := Timed(answer, now + ttl)], k, answer, now, ttl, gone)
    {
      ghost var k := Key(Lower(name), kind);
      if k in contents {
        SignedTestExactly(now, contents[k].dies);
      }
      var found := EntFind(name, kind, now);
      if found == -1 {
        found := PickSlot(now);
      }
      e := found;
      ghost var s := slots[e];
      gone := if s.Entry? && KeyOf(s) != k then Some(KeyOf(s)) else None;
      RoomMade(old(slots[..]), slots[..], old(contents), contents, now, k, answer, ttl, e, gone);
    }

    /** ent_clear and the new contents. */
    method Overwrite(e: nat, s: Slot, ghost dies: int)
      requires Valid() && e < slots.Length && s.Entry? && s.expiry == Clock(dies)
      requires KeyOf(s) !in Without(contents, slots[e])
      modifies this, slots
      ensures Valid() && contents == old(Without(contents, slots[e]))[KeyOf(s) := Timed(s.answer, dies)]
      ensures history == old(history) + [Wrote(KeyOf(s), Timed(s.answer, dies))]
    {
      ghost var was, kept := slots[..], Without(contents, slots[e]);
      ReplaceAt(was, e, s, dies, contents);
      slots[e] := Empty;
      slots[e] := s;
      assert slots[..] == was[e := s];
      CurrentWithout(contents, kept, history);
      WriteKeepsCurrent(kept, history, KeyOf(s), Timed(s.answer, dies));
      contents := kept[KeyOf(s) := Timed(s.answer, dies)];
      history := history + [Wrote(KeyOf(s), Timed(s.answer, dies))];
    }

    /** The update that put and put_negative share: replace the entry for the key, or take a slot
        that may be reused. */
    method Store(name: string, kind: int, answer: Answer, now: int, ttl: nat) returns (ghost gone: Option<Key>)
      requires Valid() && Timely(contents, now) && 0 < slots.Length
      modifies this, slots
      ensures Valid() && Stored(old(slots[..]), old(contents), contents, Key(Lower(name), kind), answer, now, ttl, gone)
      ensures history == old(history) + [Wrote(Key(Lower(name), kind), Timed(answer, now + ttl))]
    {
      var e;
      e, gone := ChooseSlot(name, kind, now, answer, ttl);
      Overwrite(e, Entry(Lower(name), kind, answer, Clock(now + ttl)), now + ttl);
    }

    /** ng_dnscache_put. The flags say whether the copies of the name and the response fit. */
    method Put(name: string, kind: int, response: seq<byte>, minTtl: nat, now: int, fits: bool)
      returns (ghost gone: Option<Key>)
      requires Valid() && Timely(contents, now)
      modifies this, slots
      ensures Valid()
      ensures if !fits || slots.Length == 0 || !(0 < |response| <= MAXRESP)
              then contents == old(contents) && history == old(history)
              else var ttl := Clamp(minTtl); var k := Key(Lower(name), kind);
                && Stored(old(slots[..]), old(contents), contents, k, Response(response), now, ttl, gone)
                && history == old(history) + [Wrote(k, Timed(Response(response), now + ttl))]
    {
      gone := None;
      if slots.Length == 0 || |response| == 0 || |response| > MAXRESP || !fits {
        return;
      }
      var ttl := if minTtl < TTL_MIN then TTL_MIN else if minTtl > TTL_MAX then TTL_MAX else minTtl;
      gone := Store(name, kind, Response(response), now, ttl);
    }

    /** ng_dnscache_put_negative */
    method PutNegative(name: string, kind: int, now: int, fits: bool) returns (ghost gone: Option<Key>)
      requires Valid() && Timely(contents, now)
      modifies this, slots
      ensures Valid()
      ensures if !fits || slots.Length == 0 then contents == old(contents) && history == old(history)
              else var k := Key(Lower(name), kind);
                && Stored(old(slots[..]), old(contents), contents, k, Negative, now, NEG_TTL, gone)
                && history == old(history) + [Wrote(k, Timed(Negative, now + NEG_TTL))]
    {
      gone := None;
      if slots.Length == 0 || !fits {
        return;
      }
      gone := Store(name, kind, Negative, now, NEG_TTL);
    }

    /** ng_dnscache_get, up to the replay of the response. fits: the scratch buffer was had. At any time
        it answers exactly when the map has an entry for the key that reads as live; within 2^31
        seconds of its expiry that is the last thing written for the key since the last flush,
        within its lifetime. */
    method Get(name: string, kind: int, now: int, fits: bool) returns (r: Lookup)
      requires Valid()
      modifies this`contents, slots
      ensures Valid() && history == old(history)
      ensures contents == old(contents) || contents == old(contents) - {Key(Lower(name), kind)}
      ensures var k := Key(Lower(name), kind); var m := old(contents);
              r == if fits && k in m && ReadsLive(now, m[k].dies) then Answered(m[k].answer) else Miss
      ensures var last := LastWrite(history, Key(Lower(name), kind));
              r != Miss ==> (
                && last.Some? && r == Answered(last.value.answer)
                && (Near(now, last.value.dies) ==> now < last.value.dies))
    {
      if slots.Length == 0 || !fits {
        assert Key(Lower(name), kind) in contents ==> Held(slots[..], Key(Lower(name), kind));
        return Miss;
      }
      if Key(Lower(name), kind) in contents {
        LiveIsLast(contents, history, Key(Lower(name), kind), now);
      }
      var e := EntFind(name, kind, now);
      if e == -1 {
        return Miss;
      }
      assert SlotStands(slots[..][e], contents);
      match slots[e].answer {
        case Negative => r := NotFound;
        case Response(bytes) => r := if 0 < |bytes| <= MAXRESP then Hit(bytes) else Miss;
      }
    }

    /** ng_dnscache_flush */
    method Flush()
      requires Valid()
      modifies this, slots
      ensures Valid() && contents == map[] && history == old(history) + [Flushed]
      ensures forall i | 0 <= i < slots.Length :: slots[i] == Empty
    {
      var i := 0;
      while i < slots.Length
        invariant 0 <= i <= slots.Length && forall j | 0 <= j < i :: slots[j] == Empty
        invariant history == old(history)
      {
        slots[i] := Empty;
        i := i + 1;
      }
      contents, history := map[], history + [Flushed];
    }
  }

  /** A slot that may be reused: empty, expired, or the first to die of a table that is all live. */
  ghost predicate Pickable(slots: seq<Slot>, m: Contents, now: int, i: nat)
    requires i < |slots|
  {
    var s := slots[i];
    s.Empty? || DiesAt(s, m) <= now || FirstToDie(slots, m, now, i)
  }

  ghost predicate FirstToDie(slots: seq<Slot>, m: Contents, now: int, i: nat)
    requires i < |slots|
  {
    forall j | 0 <= j < |slots| ::
      slots[j].Entry? && now < DiesAt(slots[j], m) && DiesAt(slots[i], m) <= DiesAt(slots[j], m)
  }

  function Clamp(ttl: nat): (t: nat)
    ensures 30 <= t <= 3600 && (30 <= ttl <= 3600 ==> t == ttl)
    ensures (ttl < 30 ==> t == 30) && (ttl > 3600 ==> t == 3600)
  {
    if ttl < TTL_MIN then TTL_MIN else Min(ttl, TTL_MAX)
  }

  function Answered(a: Answer): Lookup {
    match a
    case Negative => NotFound
    case Response(bytes) => if 0 < |bytes| <= MAXRESP then Hit(bytes) else Miss
  }

  /** The map after a write: the new entry, and everything else but at most one key that had died
      or was the first to die of a full live table. */
  ghost predicate Stored(slots: seq<Slot>, m: Contents, m': Contents, k: Key, answer: Answer, now: int, ttl: nat,
                         gone: Option<Key>) {
    && m' == Minus(m, gone)[k := Timed(answer, now + ttl)]
    && MadeRoom(slots, m, now, k, gone)
  }

  lemma CurrentWithout(m: Contents, w: Contents, h: seq<Event>)
    requires Current(m, h) && forall k <- w :: k in m && w[k] == m[k]
    ensures Current(w, h)
  {
  }

  /** An entry is the last thing written for its key, and if it reads as live near its expiry, it is. */
  lemma LiveIsLast(m: Contents, h: seq<Event>, k: Key, now: int)
    requires Current(m, h) && k in m
    ensures LastWrite(h, k) == Some(m[k])
    ensures ReadsLive(now, m[k].dies) && Near(now, m[k].dies) ==> now < m[k].dies
  {
    SignedTestExactly(now, m[k].dies);
  }

  /** The slot a write takes is the key's own or may be reused. */
  lemma RoomMade(slots: seq<Slot>, slots1: seq<Slot>, m: Contents, m1: Contents, now: int, k: Key,
                 answer: Answer, ttl: nat, e: nat, gone: Option<Key>)
    requires Represents(slots1, m1) && e < |slots1| && |slots1| == |slots|
    requires m1 == m || m1 == m - {k}
    requires if k in m then m1 == m || Empty in slots1 else slots1 == slots
    requires Holds(slots1[e], k) || Pickable(slots1, m1, now, e)
    requires var s := slots1[e]; gone == if s.Entry? && KeyOf(s) != k then Some(KeyOf(s)) else None
    requires !Holds(slots1[e], k) ==> k !in m1 && (k in m ==> m[k].dies <= now)
    ensures k !in Without(m1, slots1[e])
    ensures Stored(slots, m, Without(m1, slots1[e])[k := Timed(answer, now + ttl)], k, answer, now, ttl, gone)
  {
    var s := slots1[e];
    assert SlotStands(s, m1);
    if gone.Some? && !(m[gone.value].dies <= now) {
      assert FirstToDie(slots1, m1, now, e);
      assert Empty !in slots1;
      forall y | y in m
        ensures now < m[y].dies && m[gone.value].dies <= m[y].dies
      {
        assert Held(slots1, y);
        var j :| 0 <= j < |slots1| && Holds(slots1[j], y);
        assert DiesAt(slots1[j], m1) == m1[y].dies;
      }
    }
  }

  // ---- Written and read again ---------------------------------------------------------------

  /** A response is served from the moment it is put for as long as its time to live, taken to be at least 30 and
      at most 3600 seconds, under its name in any case; and for 2^31 seconds not after. */
  method PutThenGet(c: Cache, name: string, kind: int, response: seq<byte>, minTtl: nat, now: int, again: string,
                    later: int) returns (r: Lookup)
    requires c.Valid() && Timely(c.contents, now) && 0 < c.slots.Length && 0 < |response| <= 1024
    requires SameButForCase(name, again) && now <= later < now + 0x8000_0000
    modifies c, c.slots
    ensures r == if later < now + (if minTtl < 30 then 30 else if minTtl > 3600 then 3600 else minTtl)
                 then Hit(response) else Miss
  {
    ghost var gone := c.Put(name, kind, response, minTtl, now, true);
    LowerExactly(name, again);
    SignedTestExactly(later, now + Clamp(minTtl));
    r := c.Get(again, kind, later, true);
  }

  /** Likewise a name that was not found, for 30 seconds. */
  method PutNegativeThenGet(c: Cache, name: string, kind: int, now: int, again: string, later: int) returns (r: Lookup)
    requires c.Valid() && Timely(c.contents, now) && 0 < c.slots.Length
    requires SameButForCase(name, again) && now <= later < now + 0x8000_0000
    modifies c, c.slots
    ensures r == if later < now + 30 then NotFound else Miss
  {
    ghost var gone := c.PutNegative(name, kind, now, true);
    LowerExactly(name, again);
    SignedTestExactly(later, now + 30);
    r := c.Get(again, kind, later, true);
  }
}
