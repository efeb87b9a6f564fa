/** DNS responses, octet by octet as section 4.1 of RFC 1035 lays them out, and what getanswer makes of them
    (src/api/gethostnamadr.c). */
module Responses {

  import opened Common
  import opened Names
  import opened NameMeaning
  import opened Answer

  /** A resource record as a server means it. */
  datatype Record = Record(name: seq<Item>, kind: u16, cls: u16, ttl: u32, data: seq<byte>)

  // ---- The octets ---------------------------------------------------------------------------

  /** Two octets and four octets, high one first. */
  function Two(x: u16): seq<byte> {
    [x / 0x100, x % 0x100]
  }

  function Four(x: u32): seq<byte> {
    [x / 0x100_0000, x / 0x1_0000 % 0x100, x / 0x100 % 0x100, x % 0x100]
  }

  /** A name at p, whose labels and pointers are as given; fewer octets than the message has are passed. */
  ghost predicate NameStands(msg: seq<byte>, p: nat, name: seq<Item>) {
    Spelt(msg, p, name) && Passed(name) < |msg|
  }

  ghost predicate OctetsAt(msg: seq<byte>, p: nat, octets: seq<byte>) {
    p + |octets| <= |msg| && forall i | 0 <= i < |octets| :: msg[p + i] == octets[i]
  }

  ghost predicate RecordStands(msg: seq<byte>, p: nat, r: Record) {
    var h := p + Occupied(r.name);
    && NameStands(msg, p, r.name) && |r.data| < 0x1_0000
    && OctetsAt(msg, h, Two(r.kind)) && OctetsAt(msg, h + 2, Two(r.cls)) && OctetsAt(msg, h + 4, Four(r.ttl))
    && OctetsAt(msg, h + 8, Two(|r.data|)) && OctetsAt(msg, h + 10, r.data)
  }

  function Size(r: Record): nat {
    Occupied(r.name) + 10 + |r.data|
  }

  /** Where record n stands when the first stands at p. */
  function RecordAt(p: nat, rs: seq<Record>, n: nat): nat
    requires n <= |rs|
  {
    if n == 0 then p else RecordAt(p, rs, n - 1) + Size(rs[n - 1])
  }

  /** Where the answers start, after the header and the questions: each a name, a type and a class. */
  function QuestionsEnd(qs: seq<seq<Item>>, n: nat): nat
    requires n <= |qs|
  {
    if n == 0 then 12 else QuestionsEnd(qs, n - 1) + Occupied(qs[n - 1]) + 4
  }

  ghost predicate QuestionsStand(msg: seq<byte>, qs: seq<seq<Item>>, n: nat)
    requires n <= |qs|
  {
    n > 0 ==> QuestionsStand(msg, qs, n - 1) && NameStands(msg, QuestionsEnd(qs, n - 1), qs[n - 1])
  }

  ghost predicate RecordsStand(msg: seq<byte>, p: nat, rs: seq<Record>, n: nat)
    requires n <= |rs|
  {
    n > 0 ==> RecordsStand(msg, p, rs, n - 1) && RecordStands(msg, RecordAt(p, rs, n - 1), rs[n - 1])
  }

  /** A response with these questions and answers; whatever it has after them does not matter. */
  ghost predicate Response(msg: seq<byte>, qs: seq<seq<Item>>, rs: seq<Record>) {
    && 12 <= |msg| && |qs| < 0x1_0000 && |rs| < 0x1_0000
    && OctetsAt(msg, 4, Two(|qs|)) && OctetsAt(msg, 6, Two(|rs|))
    && QuestionsStand(msg, qs, |qs|) && RecordsStand(msg, QuestionsEnd(qs, |qs|), rs, |rs|)
  }

  // ---- What a client is to learn from it ------------------------------------------------------

  function Text(r: Record): seq<byte> {
    Dotted(LabelsOf(r.name))
  }

  /** Which of the first n records are aliases: the owners of canonical names. */
  function AliasNumbers(rs: seq<Record>, n: nat): (ns: seq<nat>)
    requires n <= |rs|
    ensures forall k | 0 <= k < |ns| :: ns[k] < n
  {
    if n == 0 then []
    else if rs[n - 1].kind == 5 then AliasNumbers(rs, n - 1) + [n - 1] else AliasNumbers(rs, n - 1)
  }

  /** Which of them are addresses: four octets, and of the class of the first of them. */
  function AddressNumbers(rs: seq<Record>, n: nat): (ns: seq<nat>)
    requires n <= |rs|
    ensures forall k | 0 <= k < |ns| :: ns[k] < n
  {
    if n == 0 then []
    else
      var before := AddressNumbers(rs, n - 1);
      if IsAddress(rs, before, n - 1) then before + [n - 1] else before
  }

  predicate IsAddress(rs: seq<Record>, before: seq<nat>, n: nat)
    requires n < |rs| && forall k | 0 <= k < |before| :: before[k] < |rs|
  {
    rs[n].kind == 1 && |rs[n].data| == 4 && (before == [] || rs[n].cls == rs[before[0]].cls)
  }

  /** The octets of a C string and its NUL. */
  ghost function StringSize(r: Record): nat {
    |CString(Text(r))| + 1
  }

  /** What record n takes of the buffer. */
  ghost function Takes(rs: seq<Record>, n: nat): nat
    requires n < |rs|
  {
    var r, addrs := rs[n], AddressNumbers(rs, n);
    if r.kind == 5 then if |AliasNumbers(rs, n)| < 34 then StringSize(r) else 0
    else if IsAddress(rs, addrs, n) then (if addrs == [] then StringSize(r) else 0) + if |addrs| < 34 then 4 else 0
    else 0
  }

  /** And the first n records together. */
  ghost function Taken(rs: seq<Record>, n: nat): nat
    requires n <= |rs|
  {
    if n == 0 then 0 else Taken(rs, n - 1) + Takes(rs, n - 1)
  }

  /** Record n finds room in the 512 octets: its name for as long as it is looked at, and its address. */
  ghost predicate Fits(rs: seq<Record>, n: nat)
    requires n < |rs|
  {
    var addrs := AddressNumbers(rs, n);
    && Taken(rs, n) + |Text(rs[n])| < 512
    && (IsAddress(rs, addrs, n) ==> Taken(rs, n) + (if addrs == [] then StringSize(rs[n]) else 0) + 4 < 512)
  }

  // ---- How the parser sees it ---------------------------------------------------------------

  function RecOf(p: nat, r: Record): Rec {
    Rec(p, p + Occupied(r.name), r.kind, r.cls, r.ttl, |r.data|)
  }

  function RecsOf(p: nat, rs: seq<Record>, n: nat): (recs: seq<Rec>)
    requires n <= |rs|
    ensures |recs| == n
  {
    if n == 0 then [] else RecsOf(p, rs, n - 1) + [RecOf(RecordAt(p, rs, n - 1), rs[n - 1])]
  }

  lemma TwoReads(msg: seq<byte>, p: nat, x: u16)
    requires OctetsAt(msg, p, Two(x))
    ensures p + 2 <= |msg| && Be16(msg, p) == x
  {
    assert msg[p + 0] == Two(x)[0] && msg[p + 1] == Two(x)[1];
  }

  lemma FourReads(msg: seq<byte>, p: nat, x: u32)
    requires OctetsAt(msg, p, Four(x))
    ensures p + 4 <= |msg| && Be32(msg, p) == x
  {
    assert msg[p + 0] == Four(x)[0] && msg[p + 1] == Four(x)[1] && msg[p + 2] == Four(x)[2] && msg[p + 3] == Four(x)[3];
  }

  lemma NameReads(msg: seq<byte>, p: nat, name: seq<Item>)
    requires NameStands(msg, p, name)
    ensures NameAt(msg, p) == Some(Names.Found(LabelsOf(name), Passed(name)))
    ensures Render(LabelsOf(name)) == Dotted(LabelsOf(name)) && WireLength(msg, p) == Some(Occupied(name))
  {
    SpeltIsDecoded(msg, p, name, |msg|);
    RenderIsDotted(LabelsOf(name));
  }

  /** The parser's record says what the record says. */
  ghost predicate Same(msg: seq<byte>, x: Rec, r: Record) {
    && IsRec(msg, x) && After(x) <= |msg|
    && x.kind == r.kind && x.cls == r.cls && x.ttl == r.ttl && x.len == |r.data| && msg[Data(x)..After(x)] == r.data
    && NameAt(msg, x.at).value.labels == LabelsOf(r.name) && Render(LabelsOf(r.name)) == Text(r)
  }

  lemma FieldsRead(msg: seq<byte>, p: nat, r: Record)
    requires RecordStands(msg, p, r)
    ensures var h := p + Occupied(r.name);
            && h + 10 + |r.data| <= |msg| && Be16(msg, h) == r.kind && Be16(msg, h + 2) == r.cls
            && Be32(msg, h + 4) == r.ttl && Be16(msg, h + 8) == |r.data| && msg[h + 10..h + 10 + |r.data|] == r.data
  {
    var h := p + Occupied(r.name);
    TwoReads(msg, h, r.kind);
    TwoReads(msg, h + 2, r.cls);
    FourReads(msg, h + 4, r.ttl);
    TwoReads(msg, h + 8, |r.data|);
  }

  lemma RecordReads(msg: seq<byte>, p: nat, r: Record)
    requires RecordStands(msg, p, r)
    ensures Same(msg, RecOf(p, r), r) && After(RecOf(p, r)) == p + Size(r)
  {
    NameReads(msg, p, r.name);
    FieldsRead(msg, p, r);
    SameFields(msg, p, r);
  }

  lemma SameFields(msg: seq<byte>, p: nat, r: Record)
    requires var h := p + Occupied(r.name);
             && h + 10 + |r.data| <= |msg| && Be16(msg, h) == r.kind && Be16(msg, h + 2) == r.cls
             && Be32(msg, h + 4) == r.ttl && Be16(msg, h + 8) == |r.data| && msg[h + 10..h + 10 + |r.data|] == r.data
    requires NameAt(msg, p).Some? && NameAt(msg, p).value.labels == LabelsOf(r.name)
    requires Render(LabelsOf(r.name)) == Text(r) && WireLength(msg, p) == Some(Occupied(r.name))
    ensures Same(msg, RecOf(p, r), r) && After(RecOf(p, r)) == p + Size(r)
  {
  }

  /** There is no other reading. */
  lemma OnlyReading(msg: seq<byte>, p: nat, r: Record, x: Rec)
    requires RecordStands(msg, p, r) && IsRec(msg, x) && x.at == p
    ensures x == RecOf(p, r)
  {
    NameReads(msg, p, r.name);
    FieldsRead(msg, p, r);
  }

  lemma {:induction false} QuestionsRead(msg: seq<byte>, qs: seq<seq<Item>>, n: nat)
    requires n <= |qs| && QuestionsStand(msg, qs, n)
    ensures PastQuestions(msg, 12, |qs|) == PastQuestions(msg, QuestionsEnd(qs, n), |qs| - n)
  {
    if n > 0 {
      QuestionsRead(msg, qs, n - 1);
      NameReads(msg, QuestionsEnd(qs, n - 1), qs[n - 1]);
      NextQuestion(msg, QuestionsEnd(qs, n - 1), Occupied(qs[n - 1]), |qs| - n + 1);
    }
  }

  lemma NextQuestion(msg: seq<byte>, cp: nat, w: nat, k: nat)
    requires WireLength(msg, cp) == Some(w) && k > 0
    ensures PastQuestions(msg, cp, k) == PastQuestions(msg, cp + w + 4, k - 1)
  {
    assert cp + w + 4 == cp + QFIXEDSZ + w;
  }

  lemma WalkAt(msg: seq<byte>, p: nat, recs: seq<Rec>, k: nat)
    requires k < |recs| && Walk(msg, p, recs)
    ensures IsRec(msg, recs[k]) && After(recs[k]) <= |msg|
    ensures recs[k].at == if k == 0 then p else After(recs[k - 1])
  {
    assert IsRec(msg, recs[k]) && Follows(p, recs, k);
  }

  /** A walk without its last record is a walk. */
  lemma WalkBefore(msg: seq<byte>, p: nat, recs: seq<Rec>)
    requires recs != [] && Walk(msg, p, recs)
    ensures Walk(msg, p, recs[..|recs| - 1])
  {
    var before := recs[..|recs| - 1];
    forall k | 0 <= k < |before|
      ensures IsRec(msg, before[k]) && After(before[k]) <= |msg| && Follows(p, before, k)
    {
      WalkAt(msg, p, recs, k);
    }
  }

  lemma {:induction false} StandsAt(msg: seq<byte>, p: nat, rs: seq<Record>, n: nat, k: nat)
    requires k < n <= |rs| && RecordsStand(msg, p, rs, n)
    ensures RecordStands(msg, RecordAt(p, rs, k), rs[k]) && RecordsStand(msg, p, rs, k)
  {
    if k < n - 1 {
      StandsAt(msg, p, rs, n - 1, k);
    }
  }

  /** A walk goes along the records. */
  lemma {:induction false} WalkIsRecords(msg: seq<byte>, p: nat, rs: seq<Record>, recs: seq<Rec>)
    requires |recs| <= |rs| && RecordsStand(msg, p, rs, |recs|) && Walk(msg, p, recs)
    ensures recs == RecsOf(p, rs, |recs|) && EndOf(p, recs) == RecordAt(p, rs, |recs|)
    decreases |recs|
  {
    if recs != [] {
      var n := |recs| - 1;
      WalkBefore(msg, p, recs);
      WalkAt(msg, p, recs, n);
      WalkIsRecords(msg, p, rs, recs[..n]);
      assert recs == recs[..n] + [recs[n]];
      RecordReads(msg, RecordAt(p, rs, n), rs[n]);
      OnlyReading(msg, RecordAt(p, rs, n), rs[n], recs[n]);
    }
  }

  /** Record n as the parser has it. */
  function Nth(p: nat, rs: seq<Record>, n: nat): Rec
    requires n < |rs|
  {
    RecOf(RecordAt(p, rs, n), rs[n])
  }

  function Pick(p: nat, rs: seq<Record>, ns: seq<nat>): (recs: seq<Rec>)
    requires forall k | 0 <= k < |ns| :: ns[k] < |rs|
    ensures |recs| == |ns| && forall k | 0 <= k < |ns| :: recs[k] == Nth(p, rs, ns[k])
  {
    seq(|ns|, k requires 0 <= k < |ns| => Nth(p, rs, ns[k]))
  }

  /** Aliases and addresses are the same records, seen by the parser and as they were meant. */
  lemma {:induction false} AliasesSeen(p: nat, rs: seq<Record>, n: nat)
    requires n <= |rs|
    ensures Cnames(RecsOf(p, rs, n)) == Pick(p, rs, AliasNumbers(rs, n))
  {
    if n > 0 {
      AliasesSeen(p, rs, n - 1);
      Snoc(RecsOf(p, rs, n - 1), Nth(p, rs, n - 1));
      PickMore(p, rs, AliasNumbers(rs, n - 1), n - 1);
    }
  }

  lemma {:induction false} AddressesSeen(p: nat, rs: seq<Record>, n: nat)
    requires n <= |rs|
    ensures Addresses(RecsOf(p, rs, n)) == Pick(p, rs, AddressNumbers(rs, n))
  {
    if n > 0 {
      AddressesSeen(p, rs, n - 1);
      var ns := AddressNumbers(rs, n - 1);
      AddressSeen(p, rs, RecsOf(p, rs, n - 1), ns, n - 1);
      assert AddressNumbers(rs, n) == if IsAddress(rs, ns, n - 1) then ns + [n - 1] else ns;
    }
  }

  lemma AddressSeen(p: nat, rs: seq<Record>, recs: seq<Rec>, ns: seq<nat>, n: nat)
    requires n < |rs| && ns == AddressNumbers(rs, n) && Addresses(recs) == Pick(p, rs, ns)
    ensures Addresses(recs + [Nth(p, rs, n)]) == Pick(p, rs, if IsAddress(rs, ns, n) then ns + [n] else ns)
  {
    AddressKind(p, rs, recs, n);
    Snoc(recs, Nth(p, rs, n));
    PickMore(p, rs, ns, n);
  }

  lemma PickMore(p: nat, rs: seq<Record>, ns: seq<nat>, n: nat)
    requires n < |rs| && forall k | 0 <= k < |ns| :: ns[k] < |rs|
    ensures Pick(p, rs, ns + [n]) == Pick(p, rs, ns) + [Nth(p, rs, n)]
  {
  }

  lemma AddressKind(p: nat, rs: seq<Record>, recs: seq<Rec>, n: nat)
    requires n < |rs| && Addresses(recs) == Pick(p, rs, AddressNumbers(rs, n))
    ensures Answer.Taken(recs, Nth(p, rs, n)) <==> IsAddress(rs, AddressNumbers(rs, n), n)
  {
    var ns := AddressNumbers(rs, n);
    if ns != [] {
      assert Addresses(recs)[0] == Nth(p, rs, ns[0]);
    }
  }

  /** And take the same room. */
  lemma {:induction false} Room(msg: seq<byte>, p: nat, rs: seq<Record>, n: nat)
    requires n <= |rs| && RecordsStand(msg, p, rs, n)
    ensures AllInside(msg, RecsOf(p, rs, n)) && Used(msg, RecsOf(p, rs, n)) == Taken(rs, n)
  {
    if n > 0 {
      Room(msg, p, rs, n - 1);
      RecordReads(msg, RecordAt(p, rs, n - 1), rs[n - 1]);
      UsedMore(msg, RecsOf(p, rs, n - 1), Nth(p, rs, n - 1));
      RoomStep(msg, p, rs, n - 1);
    }
  }

  lemma RoomStep(msg: seq<byte>, p: nat, rs: seq<Record>, n: nat)
    requires n < |rs| && Same(msg, Nth(p, rs, n), rs[n])
    ensures Added(msg, RecsOf(p, rs, n), Nth(p, rs, n)) == Takes(rs, n)
    ensures Answer.Taken(RecsOf(p, rs, n), Nth(p, rs, n)) <==> IsAddress(rs, AddressNumbers(rs, n), n)
  {
    AliasesSeen(p, rs, n);
    AddressesSeen(p, rs, n);
    AddressKind(p, rs, RecsOf(p, rs, n), n);
  }

  lemma NameFits(msg: seq<byte>, p: nat, r: Record, room: int)
    requires RecordStands(msg, p, r) && |Text(r)| < room
    ensures !NoRecord(msg, p, room) && p < |msg|
  {
    NameReads(msg, p, r.name);
    FieldsRead(msg, p, r);
  }

  /** Where a record fits, the walk does not stop before it. */
  lemma NothingStops(msg: seq<byte>, p: nat, rs: seq<Record>, recs: seq<Rec>, last: seq<Rec>, end: nat)
    requires |recs| < |rs| && recs == RecsOf(p, rs, |recs|) && end == Taken(rs, |recs|)
    requires RecordStands(msg, RecordAt(p, rs, |recs|), rs[|recs|]) && Fits(rs, |recs|)
    requires EndOf(p, recs) == RecordAt(p, rs, |recs|)
    ensures !Halted(msg, p, |rs|, recs, last, end)
  {
    var n := |recs|;
    var at, r := RecordAt(p, rs, n), rs[n];
    NameFits(msg, at, r, HOSTBUF - end);
    RecordReads(msg, at, r);
    RoomStep(msg, p, rs, n);
    AddressesSeen(p, rs, n);
    if |last| == 1 && IsRec(msg, last[0]) && last[0].at == at {
      OnlyReading(msg, at, r, last[0]);
    }
  }

  /** So the walk takes every record. */
  lemma WalksAll(msg: seq<byte>, p: nat, rs: seq<Record>, recs: seq<Rec>, last: seq<Rec>, end: nat)
    requires RecordsStand(msg, p, rs, |rs|) && (forall n | 0 <= n < |rs| :: Fits(rs, n))
    requires Walk(msg, p, recs) && |recs| <= |rs| && end == Used(msg, recs)
    requires Halted(msg, p, |rs|, recs, last, end)
    ensures recs == RecsOf(p, rs, |rs|) && last == []
  {
    var n := |recs|;
    if n < |rs| {
      StandsAt(msg, p, rs, |rs|, n);
      WalkIsRecords(msg, p, rs, recs);
      Room(msg, p, rs, n);
      NothingStops(msg, p, rs, recs, last, end);
      assert false;
    }
    WalkIsRecords(msg, p, rs, recs);
  }

  // ---- What getanswer makes of it -----------------------------------------------------------

  /** The string at an offset of the buffer is the owner of a record, cut at a NUL if it has one. */
  ghost predicate OwnerAt(o: seq<byte>, at: nat, r: Record) {
    HoldsString(o, at, CString(Text(r)))
  }

  /** The host entry says what the records say: name, aliases and addresses, in order and up to 34 each. */
  ghost predicate Told(o: seq<byte>, h: Host, rs: seq<Record>) {
    var aliases, addrs := AliasNumbers(rs, |rs|), AddressNumbers(rs, |rs|);
    && |h.aliases| == Min(34, |aliases|) && |h.addrs| == Min(34, |addrs|)
    && (forall k | 0 <= k < |h.aliases| :: OwnerAt(o, h.aliases[k], rs[aliases[k]]))
    && (forall k | 0 <= k < |h.addrs| :: HoldsBytes(o, h.addrs[k], rs[addrs[k]].data))
    && (addrs != [] ==> OwnerAt(o, h.name, rs[addrs[0]]))
  }

  ghost predicate LeastTtl(ttl: nat, rs: seq<Record>, n: nat)
    requires n <= |rs|
  {
    && (forall k | 0 <= k < n :: ttl <= rs[k].ttl)
    && if n == 0 then ttl == 0xFFFF_FFFF else exists k | 0 <= k < n :: rs[k].ttl == ttl
  }

  lemma {:induction false} TtlRead(recs: seq<Rec>, rs: seq<Record>, n: nat)
    requires |recs| == n <= |rs| && forall k | 0 <= k < n :: recs[k].ttl == rs[k].ttl
    ensures LeastTtl(MinTtl(recs), rs, n)
  {
    if n > 0 {
      TtlRead(recs[..n - 1], rs, n - 1);
      LeastNext(rs, n - 1, MinTtl(recs[..n - 1]), MinTtl(recs));
    }
  }

  lemma {:induction false} TtlsOf(p: nat, rs: seq<Record>, n: nat, k: nat)
    requires k < n <= |rs|
    ensures RecsOf(p, rs, n)[k].ttl == rs[k].ttl
  {
    if k < n - 1 {
      TtlsOf(p, rs, n - 1, k);
    }
  }

  lemma LeastNext(rs: seq<Record>, n: nat, before: nat, now: nat)
    requires n < |rs| && LeastTtl(before, rs, n) && now == Min(before, rs[n].ttl)
    ensures LeastTtl(now, rs, n + 1)
  {
    if now == rs[n].ttl {
    } else {
      var k :| 0 <= k < n && rs[k].ttl == before;
    }
  }

  lemma EntryTells(msg: seq<byte>, p: nat, rs: seq<Record>, o: seq<byte>, h: Host)
    requires RecordsStand(msg, p, rs, |rs|) && Holds(msg, RecsOf(p, rs, |rs|), o, h)
    ensures Told(o, h, rs)
  {
    var aliases, addrs := AliasNumbers(rs, |rs|), AddressNumbers(rs, |rs|);
    AliasesSeen(p, rs, |rs|);
    AddressesSeen(p, rs, |rs|);
    forall k | 0 <= k < |h.aliases|
      ensures OwnerAt(o, h.aliases[k], rs[aliases[k]])
    {
      NameTold(msg, p, rs, aliases[k]);
    }
    forall k | 0 <= k < |h.addrs|
      ensures HoldsBytes(o, h.addrs[k], rs[addrs[k]].data)
    {
      AddressTold(msg, p, rs, addrs, k);
    }
    if addrs != [] {
      NameTold(msg, p, rs, addrs[0]);
    }
  }

  lemma NameTold(msg: seq<byte>, p: nat, rs: seq<Record>, n: nat)
    requires n < |rs| && RecordsStand(msg, p, rs, |rs|)
    ensures IsRec(msg, Nth(p, rs, n)) && NameOf(msg, Nth(p, rs, n)) == CString(Text(rs[n]))
  {
    StandsAt(msg, p, rs, |rs|, n);
    RecordReads(msg, RecordAt(p, rs, n), rs[n]);
  }

  lemma AddressTold(msg: seq<byte>, p: nat, rs: seq<Record>, addrs: seq<nat>, k: nat)
    requires addrs == AddressNumbers(rs, |rs|) && k < |addrs| && RecordsStand(msg, p, rs, |rs|)
    ensures var x := Nth(p, rs, addrs[k]); Data(x) + 4 <= |msg| && msg[Data(x)..Data(x) + 4] == rs[addrs[k]].data
  {
    AddressLength(rs, |rs|, k);
    StandsAt(msg, p, rs, |rs|, addrs[k]);
    RecordReads(msg, RecordAt(p, rs, addrs[k]), rs[addrs[k]]);
  }

  lemma {:induction false} AddressLength(rs: seq<Record>, n: nat, k: nat)
    requires n <= |rs| && k < |AddressNumbers(rs, n)|
    ensures |rs[AddressNumbers(rs, n)[k]].data| == 4
  {
    if k < |AddressNumbers(rs, n - 1)| {
      AddressLength(rs, n - 1, k);
    }
  }

  lemma {:induction false} SomeAddress(rs: seq<Record>, n: nat)
    requires n <= |rs|
    ensures AddressNumbers(rs, n) != [] <==> exists k | 0 <= k < n :: rs[k].kind == 1 && |rs[k].data| == 4
  {
    if n > 0 {
      SomeAddress(rs, n - 1);
    }
  }

  /** A response whose names and addresses fit the 512 octets: getanswer walks all its records, finds an answer
      exactly if one of them is a four-octet address, and tells what they say; its time to live is the least. */
  method ReadResponse(msg: seq<byte>, out: array<byte>, ghost qs: seq<seq<Item>>, ghost rs: seq<Record>)
    returns (found: bool, h: Host, ttl: nat, end: nat)
    requires Response(msg, qs, rs) && (forall n | 0 <= n < |rs| :: Fits(rs, n)) && 512 <= out.Length
    modifies out
    ensures found <==> exists k | 0 <= k < |rs| :: rs[k].kind == 1 && |rs[k].data| == 4
    ensures end <= 512 && Told(out[..end], h, rs) && LeastTtl(ttl, rs, |rs|)
  {
    ghost var recs, last, p := [], [], QuestionsEnd(qs, |qs|);
    CountsRead(msg, qs, rs);
    found, h, ttl, end, recs, last := GetAnswer(msg, out);
    WalksAll(msg, p, rs, recs, last, end);
    assert recs + [] == recs;
    EntryTells(msg, p, rs, out[..end], h);
    forall k | 0 <= k < |rs|
      ensures recs[k].ttl == rs[k].ttl
    {
      TtlsOf(p, rs, |rs|, k);
    }
    TtlRead(recs, rs, |rs|);
    AddressesSeen(p, rs, |rs|);
    SomeAddress(rs, |rs|);
  }

  lemma CountsRead(msg: seq<byte>, qs: seq<seq<Item>>, rs: seq<Record>)
    requires Response(msg, qs, rs)
    ensures Be16(msg, 4) == |qs| && Be16(msg, 6) == |rs| && PastQuestions(msg, 12, |qs|) == QuestionsEnd(qs, |qs|)
  {
    TwoReads(msg, 4, |qs|);
    TwoReads(msg, 6, |rs|);
    QuestionsRead(msg, qs, |qs|);
  }
}
