/** dn_comp and dn_find (src/api/res_comp.c): writing names with pointers to earlier ones. */
module Compress {
  import opened Common
  import opened Names

  // ---- Names as dn_comp writes them ---------------------------------------------------------

  /** The name at pos, inside a run of octets that began at start and stays below lim, when
      every pointer leads before the run that holds it, to a name lying wholly before it. */
  ghost function Written(buf: seq<byte>, start: nat, pos: nat, lim: nat): Option<seq<Label>>
    requires start <= pos && lim <= |buf|
    decreases start, lim - pos
  {
    if pos >= lim then None
    else
      var n := buf[pos];
      if n == 0 then Some([])
      else if n <= MAXLABEL then
        if pos + 1 + n > lim then None
        else match Written(buf, start, pos + 1 + n, lim)
             case None => None
             case Some(rest) => Some([buf[pos + 1..pos + 1 + n]] + rest)
      else if n < INDIR || pos + 1 >= lim then None
      else
        var t := PointerTarget(n, buf[pos + 1]);
        if t >= start || buf[t] == 0 then None else Written(buf, t, t, start)
  }

  lemma SameSlice(a: seq<byte>, b: seq<byte>, lim: nat, i: nat, j: nat)
    requires i <= j <= lim <= |a| && lim <= |b| && a[..lim] == b[..lim]
    ensures a[i..j] == b[i..j]
  {
    assert a[i..j] == a[..lim][i..j];
    assert b[i..j] == b[..lim][i..j];
  }

  /** Writing elsewhere, or later, keeps a name. */
  lemma {:induction false} WrittenFrame(a: seq<byte>, b: seq<byte>, start: nat, pos: nat, lim: nat, lim': nat)
    requires lim <= lim' <= |b| && lim <= |a| && start <= pos && a[..lim] == b[..lim]
    requires Written(a, start, pos, lim).Some?
    ensures Written(b, start, pos, lim') == Written(a, start, pos, lim)
    decreases start, lim - pos
  {
    var n := a[pos];
    assert a[..lim][pos] == b[..lim][pos];
    if n == 0 {
    } else if n <= MAXLABEL {
      WrittenFrame(a, b, start, pos + 1 + n, lim, lim');
      SameSlice(a, b, lim, pos + 1, pos + 1 + n);
      assert b[pos] == n;
    } else {
      assert a[..lim][pos + 1] == b[..lim][pos + 1];
      assert a[..start] == a[..lim][..start] == b[..start];
      var t := PointerTarget(n, a[pos + 1]);
      assert a[..start][t] == b[..start][t];
      WrittenFrame(a, b, t, t, start, start);
    }
  }

  /** A written name is found by dn_expand: its runs lie one before another, so fewer octets
      than the message holds are passed up to the last pointer. */
  lemma {:induction false} WrittenIsFound(msg: seq<byte>, start: nat, pos: nat, lim: nat, hops: nat)
    requires start <= pos && lim <= |msg| && start <= hops
    requires Written(msg, start, pos, lim).Some?
    ensures Decode(msg, pos, hops).Some?
    ensures Decode(msg, pos, hops).value.labels == Written(msg, start, pos, lim).value
    ensures Decode(msg, pos, hops).value.walked <= lim - pos + start
    ensures var walked := Decode(msg, pos, hops).value.walked; walked == 0 || (start > 0 && walked < lim - pos + start)
    decreases start, lim - pos
  {
    var n := msg[pos];
    if n == 0 {
    } else if n <= MAXLABEL {
      WrittenIsFound(msg, start, pos + 1 + n, lim, hops);
    } else {
      var t := PointerTarget(n, msg[pos + 1]);
      WrittenIsFound(msg, t, t, start, hops - 1);
    }
  }

  // ---- dn_find ------------------------------------------------------------------------------

  /** *(dn) for the C string name: its end reads as NUL. */
  function At(name: seq<byte>, i: nat): byte
    requires i <= |name|
  {
    if i < |name| then name[i] else 0
  }

  /** The scan of the label at name[j] has gone through done and stands at name[dn]. */
  ghost predicate Scanned(name: seq<byte>, j: nat, done: Label, dn: nat) {
    && j <= dn <= |name|
    && ScanLabel(name, j) == (done + ScanLabel(name, dn).0, ScanLabel(name, dn).1)
    && (Ended(name, j) <==> Ended(name, dn))
  }

  lemma ScannedStart(name: seq<byte>, j: nat)
    requires j <= |name|
    ensures Scanned(name, j, [], j)
  {
    assert [] + ScanLabel(name, j).0 == ScanLabel(name, j).0;
  }

  /** One more character, plain or after a backslash. */
  lemma ScannedNext(name: seq<byte>, j: nat, done: Label, dn: nat, c: byte)
    requires Scanned(name, j, done, dn) && dn < |name| && name[dn] != DOT
    requires if name[dn] == BACKSLASH then dn + 1 < |name| && name[dn + 1] == c else name[dn] == c
    ensures Scanned(name, j, done + [c], dn + if name[dn] == BACKSLASH then 2 else 1)
  {
    var dn' := dn + if name[dn] == BACKSLASH then 2 else 1;
    assert ScanLabel(name, dn).0 == [c] + ScanLabel(name, dn').0;
    Assoc(done, [c], ScanLabel(name, dn').0);
  }

  /** The inner comparison: msg[cp..cp + n] against the label text from name[j]. */
  method MatchLabel(name: seq<byte>, j: nat, msg: seq<byte>, cp0: nat, n0: nat) returns (same: bool, dn: nat)
    requires j <= |name| && cp0 + n0 <= |msg| && NoNul(msg[cp0..cp0 + n0])
    ensures same ==> j <= dn <= |name| && (n0 > 0 ==> j < dn)
    ensures same ==> Scanned(name, j, msg[cp0..cp0 + n0], dn)
    ensures !same ==> !(msg[cp0..cp0 + n0] <= ScanLabel(name, j).0)
  {
    var k := 0;
    dn := j;
    ghost var l := msg[cp0..cp0 + n0];
    ScannedStart(name, j);
    assert l[..0] == [];
    while k < n0
      invariant 0 <= k <= n0 && (k > 0 ==> j < dn) && Scanned(name, j, l[..k], dn)
    {
      ghost var dn0 := dn;
      var b := msg[cp0 + k];
      assert b == l[k];
      if At(name, dn) == DOT {
        Longer(l, l[..k]);
        return false, dn;
      }
      if At(name, dn) == BACKSLASH {
        dn := dn + 1;
      }
      if At(name, dn) != b {
        Differs(l, l[..k], ScanLabel(name, dn0).0);
        return false, dn;
      }
      ScannedNext(name, j, l[..k], dn0, b);
      assert l[..k] + [b] == l[..k + 1];
      dn, k := dn + 1, k + 1;
    }
    assert l[..n0] == l;
    same := true;
  }

  lemma Longer(l: Label, p: Label)
    requires |p| < |l|
    ensures !(l <= p + [])
  {
  }

  lemma Differs(l: Label, p: Label, more: Label)
    requires |p| < |l| && (more == [] || more[0] != l[|p|])
    ensures !(l <= p + more)
  {
  }

  /** Labels already matched, put before what parses from there on. */
  ghost function Prepend(done: seq<Label>, rest: Option<seq<Label>>): Option<seq<Label>> {
    match rest case None => None case Some(x) => Some(done + x)
  }

  /** Matching has got as far as name[j] on one side and octet cp on the other. */
  ghost predicate Matching(name: seq<byte>, i: nat, j: nat, msg: seq<byte>, entry: nat, lim: nat,
                           start: nat, cp: nat, m: nat, done: seq<Label>)
  {
    && i <= j <= |name| && entry <= lim <= |msg| && start <= cp && m <= lim
    && Parse(name, i) == Prepend(done, Parse(name, j))
    && Written(msg, entry, entry, lim).Some? && Written(msg, start, cp, m).Some?
    && Written(msg, entry, entry, lim) == Prepend(done, Written(msg, start, cp, m))
    && (Searchable(name, i) <==> Searchable(name, j))
  }

  lemma PrependSnoc(done: seq<Label>, l: Label, rest: Option<seq<Label>>)
    ensures Prepend(done, Prepend([l], rest)) == Prepend(done + [l], rest)
  {
    if rest.Some? {
      Assoc(done, [l], rest.value);
    }
  }

  /** One label matched, and a dot follows it in the text. */
  lemma MatchingNext(name: seq<byte>, i: nat, j: nat, dn: nat, msg: seq<byte>, entry: nat, lim: nat,
                     start: nat, cp: nat, m: nat, done: seq<Label>)
    requires Matching(name, i, j, msg, entry, lim, start, cp, m, done) && i < |name|
    requires cp < |msg| && 0 < msg[cp] <= MAXLABEL && cp + 1 + msg[cp] <= m
    requires j < dn < |name| && name[dn] == DOT && Ended(name, j)
    requires ScanLabel(name, j) == (msg[cp + 1..cp + 1 + msg[cp]], dn)
    ensures var l := msg[cp + 1..cp + 1 + msg[cp]];
            Matching(name, i, dn + 1, msg, entry, lim, start, cp + 1 + |l|, m, done + [l])
  {
    var l := msg[cp + 1..cp + 1 + msg[cp]];
    PrependSnoc(done, l, Parse(name, dn + 1));
    PrependSnoc(done, l, Written(msg, start, cp + 1 + msg[cp], m));
  }

  /** What is left decides, one way and the other. */
  lemma MatchingDecides(name: seq<byte>, i: nat, j: nat, msg: seq<byte>, entry: nat, lim: nat,
                        start: nat, cp: nat, m: nat, done: seq<Label>)
    requires Matching(name, i, j, msg, entry, lim, start, cp, m, done)
    ensures Parse(name, i) == Written(msg, entry, entry, lim) <==> Parse(name, j) == Written(msg, start, cp, m)
  {
    if Parse(name, j).Some? {
      var a, b := Parse(name, j).value, Written(msg, start, cp, m).value;
      assert a == (done + a)[|done|..] && b == (done + b)[|done|..];
    }
  }

  /** The label octets at cp agree with the text up to name[dn]; the next character decides. */
  lemma LabelDecides(name: seq<byte>, j: nat, same: bool, dn: nat, msg: seq<byte>, start: nat, cp: nat, m: nat)
    requires j <= |name| && start <= cp < m <= |msg| && 0 < msg[cp] <= MAXLABEL && cp + 1 + msg[cp] <= m
    requires Written(msg, start, cp, m).Some?
    requires var l := msg[cp + 1..cp + 1 + msg[cp]];
             if same then j < dn && Scanned(name, j, l, dn) else !(l <= ScanLabel(name, j).0)
    ensures !same ==> Parse(name, j) != Written(msg, start, cp, m)
    ensures same && dn == |name| ==> Searchable(name, j)
    ensures same && dn == |name| ==>
              (Parse(name, j) == Written(msg, start, cp, m) <==> Written(msg, start, cp + 1 + msg[cp], m) == Some([]))
    ensures same && dn < |name| && name[dn] == DOT ==>
              ScanLabel(name, j) == (msg[cp + 1..cp + 1 + msg[cp]], dn) && Ended(name, j)
    ensures same && dn < |name| && name[dn] != DOT && Searchable(name, j) ==>
              Parse(name, j) != Written(msg, start, cp, m)
  {
    var l := msg[cp + 1..cp + 1 + msg[cp]];
    var rest := Written(msg, start, cp + 1 + msg[cp], m);
    assert Written(msg, start, cp, m) == Some([l] + rest.value);
    assert ([l] + rest.value)[0] == l && ([l] + rest.value)[1..] == rest.value;
    if same {
      assert l + [] == l;
      if dn < |name| && name[dn] != DOT && Searchable(name, j) {
        assert ScanLabel(name, dn).0 != [];
        assert |ScanLabel(name, j).0| > |l|;
      }
    }
  }

  lemma {:induction false} NonzeroIsNotRoot(msg: seq<byte>, start: nat, cp: nat, m: nat)
    requires start <= cp && m <= |msg| && Written(msg, start, cp, m).Some?
    ensures Written(msg, start, cp, m) == Some([]) <==> msg[cp] == 0
    decreases start, m - cp
  {
    if msg[cp] > MAXLABEL {
      var t := PointerTarget(msg[cp], msg[cp + 1]);
      NonzeroIsNotRoot(msg, t, t, start);
    }
  }

  /** The label arm of dn_find: what each of its three exits knows. */
  lemma LabelArm(name: seq<byte>, i: nat, j: nat, same: bool, dn: nat, msg: seq<byte>, entry: nat, lim: nat,
                 start: nat, cp: nat, m: nat, done: seq<Label>)
    requires Matching(name, i, j, msg, entry, lim, start, cp, m, done) && i < |name| && NoNul(name)
    requires cp < m && 0 < msg[cp] <= MAXLABEL && cp + 1 + msg[cp] < m
    requires var l := msg[cp + 1..cp + 1 + msg[cp]];
             if same then j < dn && Scanned(name, j, l, dn) else !(l <= ScanLabel(name, j).0)
    ensures !same ==> !Spells(name, i, msg, entry, lim)
    ensures same && dn == |name| ==> (Spells(name, i, msg, entry, lim) <==> msg[cp + 1 + msg[cp]] == 0)
    ensures same && dn < |name| && name[dn] != DOT ==> !Spells(name, i, msg, entry, lim)
    ensures same && dn < |name| && name[dn] == DOT ==>
              var l := msg[cp + 1..cp + 1 + msg[cp]];
              Matching(name, i, dn + 1, msg, entry, lim, start, cp + 1 + |l|, m, done + [l])
  {
    MatchingDecides(name, i, j, msg, entry, lim, start, cp, m, done);
    LabelDecides(name, j, same, dn, msg, start, cp, m);
    NonzeroIsNotRoot(msg, start, cp + 1 + msg[cp], m);
    if same && dn < |name| && name[dn] == DOT {
      MatchingNext(name, i, j, dn, msg, entry, lim, start, cp, m, done);
    }
  }

  lemma PointerArm(name: seq<byte>, i: nat, j: nat, msg: seq<byte>, entry: nat, lim: nat,
                   start: nat, cp: nat, m: nat, done: seq<Label>)
    requires Matching(name, i, j, msg, entry, lim, start, cp, m, done)
    requires cp < m && msg[cp] > MAXLABEL
    ensures cp + 1 < m && msg[cp] >= INDIR
    ensures var t := PointerTarget(msg[cp], msg[cp + 1]);
            && t < start && Matching(name, i, j, msg, entry, lim, t, t, start, done)
            && Written(msg, t, t, start) == Written(msg, start, cp, m)
  {
  }

  /** The entry's terminator: its labels are used up. */
  lemma EntryEnds(name: seq<byte>, i: nat, j: nat, msg: seq<byte>, entry: nat, lim: nat,
                  start: nat, cp: nat, m: nat, done: seq<Label>)
    requires Matching(name, i, j, msg, entry, lim, start, cp, m, done) && i < |name|
    requires cp < m && msg[cp] == 0
    ensures Spells(name, i, msg, entry, lim) <==> j == |name|
  {
    MatchingDecides(name, i, j, msg, entry, lim, start, cp, m, done);
  }

  /** The entry spells the rest of the name, and the text ends as the search can read it. */
  ghost predicate Spells(name: seq<byte>, i: nat, msg: seq<byte>, entry: nat, lim: nat)
    requires i <= |name| && entry <= lim <= |msg|
  {
    Searchable(name, i) && Parse(name, i) == Written(msg, entry, entry, lim)
  }

  /** Does the entry spell the rest of the name? */
  method MatchEntry(name: seq<byte>, i: nat, msg: seq<byte>, entry: nat, ghost lim: nat) returns (found: bool)
    requires i < |name| && entry <= lim <= |msg| && NoNul(name)
    requires Written(msg, entry, entry, lim).Some? && NoNulIn(Written(msg, entry, entry, lim).value)
    ensures found <==> Spells(name, i, msg, entry, lim)
    ensures found ==> msg[entry] != 0
  {
    var dn, cp: nat := i, entry;
    ghost var start: nat, m: nat, done: seq<Label> := entry, lim, [];
    MatchingStart(name, i, msg, entry, lim);
    while msg[cp] != 0
      invariant Matching(name, i, dn, msg, entry, lim, start, cp, m, done)
      invariant cp < m && NoNulIn(Written(msg, start, cp, m).value)
      invariant msg[entry] == 0 ==> dn == i
      decreases start, m - cp
    {
      var n := msg[cp];
      if n <= MAXLABEL {
        ghost var j, at := dn, cp;
        NoNulTail(msg, start, at, m);
        var same;
        same, dn := MatchLabel(name, dn, msg, cp + 1, n);
        LabelArm(name, i, j, same, dn, msg, entry, lim, start, at, m, done);
        if !same {
          return false;
        }
        cp := cp + 1 + n;
        var c := At(name, dn);
        if c == 0 && msg[cp] == 0 {
          return true;
        }
        if c != DOT {
          return false;
        }
        done := done + [msg[at + 1..at + 1 + n]];
        dn := dn + 1;
      } else {
        PointerArm(name, i, dn, msg, entry, lim, start, cp, m, done);
        var t := PointerTarget(n, msg[cp + 1]);
        cp, start, m := t, t, start;
      }
    }
    found := dn == |name|;
    EntryEnds(name, i, dn, msg, entry, lim, start, cp, m, done);
  }

  lemma MatchingStart(name: seq<byte>, i: nat, msg: seq<byte>, entry: nat, lim: nat)
    requires i < |name| && entry <= lim <= |msg| && Written(msg, entry, entry, lim).Some?
    ensures Matching(name, i, i, msg, entry, lim, entry, entry, lim, [])
  {
    assert [] + Written(msg, entry, entry, lim).value == Written(msg, entry, entry, lim).value;
    if Parse(name, i).Some? {
      assert [] + Parse(name, i).value == Parse(name, i).value;
    }
  }

  lemma NoNulTail(msg: seq<byte>, start: nat, cp: nat, m: nat)
    requires start <= cp < m <= |msg| && 0 < msg[cp] <= MAXLABEL
    requires Written(msg, start, cp, m).Some? && NoNulIn(Written(msg, start, cp, m).value)
    ensures NoNulIn(Written(msg, start, cp + 1 + msg[cp], m).value)
    ensures cp + 1 + msg[cp] < m && NoNul(msg[cp + 1..cp + 1 + msg[cp]])
  {
    var all, rest := Written(msg, start, cp, m).value, Written(msg, start, cp + 1 + msg[cp], m).value;
    assert all[0] == msg[cp + 1..cp + 1 + msg[cp]];
    forall k | 0 <= k < |rest| ensures NoNul(rest[k]) {
      assert rest[k] == all[k + 1];
    }
  }

  /** A list of entries: each starts a name that was written before lim, free of NULs. */
  ghost predicate Listed(msg: seq<byte>, list: seq<int>, lim: nat)
    requires lim <= |msg|
  {
    forall k | 0 <= k < |list| ::
      && 0 <= list[k] < lim
      && Written(msg, list[k], list[k], lim).Some? && NoNulIn(Written(msg, list[k], list[k], lim).value)
  }

  /** `dn_find`: the first entry that spells the rest of the name from name[i]; -1 exactly when none
      does or the text does not end as the search reads it. */
  method DnFind(name: seq<byte>, i: nat, msg: seq<byte>, dnptrs: seq<int>, ghost lim: nat) returns (l: int)
    requires i < |name| && NoNul(name) && lim <= |msg| && Listed(msg, dnptrs, lim)
    ensures l == if Searchable(name, i) && Parse(name, i).Some?
                 then FirstSpelling(msg, dnptrs, Parse(name, i).value, 0, lim) else -1
    ensures l >= 0 ==> l in dnptrs && msg[l] != 0 && Spells(name, i, msg, l, lim)
  {
    var cpp := 0;
    while cpp < |dnptrs|
      invariant 0 <= cpp <= |dnptrs|
      invariant Searchable(name, i) && Parse(name, i).Some? ==>
                  FirstSpelling(msg, dnptrs, Parse(name, i).value, 0, lim)
                  == FirstSpelling(msg, dnptrs, Parse(name, i).value, cpp, lim)
    {
      var found := MatchEntry(name, i, msg, dnptrs[cpp], lim);
      if found {
        return dnptrs[cpp];
      }
      cpp := cpp + 1;
    }
    l := -1;
  }

  /** Why the end of the text matters: dn_comp takes "a.." for the one label "a", but dn_find does not
      find an entry that spells it. */
  lemma DottedEndIsNotFound()
    ensures var name: seq<byte> := [97, DOT, DOT]; Parse(name, 0) == Some([[97]]) && !Searchable(name, 0)
  {
    var name: seq<byte> := [97, DOT, DOT];
    var a: Label := [97];
    assert ScanLabel(name, 1) == ([], 1) && ScanLabel(name, 2) == ([], 2);
    assert [97] + ScanLabel(name, 1).0 == a;
    assert ScanLabel(name, 0) == (a, 1);
    assert Parse(name, 2) == Some([]);
    assert [a] + [] == [a];
    assert Searchable(name, 0) == (Ended(name, 0) && Searchable(name, 2));
  }

  /** Canonical text always ends as the search reads it. */
  lemma {:induction false} CanonicalIsSearchable(name: seq<byte>, i: nat)
    requires i <= |name| && CanonicalFrom(name, i)
    ensures Searchable(name, i)
    decreases |name| - i
  {
    if i < |name| {
      CanonicalSplit(name, i);
      CanonicalEnded(name, i);
      CanonicalIsSearchable(name, Next(name, ScanLabel(name, i).1));
    }
  }

  lemma {:induction false} CanonicalEnded(name: seq<byte>, i: nat)
    requires i <= |name| && DotsEscaped(name, i, |name|)
    ensures Ended(name, i)
    decreases |name| - i
  {
    if i < |name| && name[i] != DOT {
      CanonicalEnded(name, i + if name[i] == BACKSLASH then 2 else 1);
    }
  }

  // ---- dn_comp ------------------------------------------------------------------------------

  /** Labels as octets, each after its length (section 3.1 of RFC 1035). */
  ghost function Wire(labels: seq<Label>): seq<byte>
    requires ProperLabels(labels)
  {
    if labels == [] then [] else [|labels[0]|] + labels[0] + Wire(labels[1..])
  }

  lemma {:induction false} WireSnoc(labels: seq<Label>, l: Label)
    requires ProperLabels(labels) && 1 <= |l| <= MAXLABEL
    ensures ProperLabels(labels + [l]) && Wire(labels + [l]) == Wire(labels) + ([|l|] + l)
  {
    if labels == [] {
      assert Wire([l]) == [|l|] + l + [];
      assert [] + [l] == [l];
    } else {
      assert (labels + [l])[1..] == labels[1..] + [l];
      WireSnoc(labels[1..], l);
    }
  }

  /** Octets e..q hold whole labels, so far without an end. */
  ghost predicate Laid(buf: seq<byte>, e: nat, labels: seq<Label>, q: nat) {
    e <= q <= |buf| && ProperLabels(labels) && NoNulIn(labels) && buf[e..q] == Wire(labels)
  }

  ghost predicate Open(buf: seq<byte>, e: nat, q: nat) {
    exists labels :: Laid(buf, e, labels, q)
  }

  lemma LaidHead(buf: seq<byte>, e: nat, labels: seq<Label>, q: nat)
    requires Laid(buf, e, labels, q) && labels != []
    ensures var l := labels[0];
            && 1 <= |l| <= MAXLABEL && e + 1 + |l| <= q
            && buf[e] == |l| && buf[e + 1..e + 1 + |l|] == l && Laid(buf, e + 1 + |l|, labels[1..], q)
  {
    var l := labels[0];
    var w := buf[e..q];
    assert w == [|l|] + l + Wire(labels[1..]);
    assert w[0] == |l| && w[1..1 + |l|] == l && w[1 + |l|..] == Wire(labels[1..]);
    SubSlice(buf, e, q, 1, 1 + |l|);
    SubSlice(buf, e, q, 1 + |l|, q - e);
    assert w[1 + |l|..q - e] == w[1 + |l|..];
  }

  lemma ConsAppend(labels: seq<Label>, tail: seq<Label>)
    requires labels != []
    ensures [labels[0]] + (labels[1..] + tail) == labels + tail
  {
  }

  lemma WrittenHead(buf: seq<byte>, start: nat, e: nat, l: Label, lim: nat)
    requires start <= e && e + 1 + |l| <= lim <= |buf|
    requires 1 <= |l| <= MAXLABEL && buf[e] == |l| && buf[e + 1..e + 1 + |l|] == l
    requires Written(buf, start, e + 1 + |l|, lim).Some?
    ensures Written(buf, start, e, lim) == Some([l] + Written(buf, start, e + 1 + |l|, lim).value)
  {
  }

  /** An end for labels that were laid out: they and what follows are a written name. */
  lemma {:induction false} WrittenLaid(buf: seq<byte>, start: nat, e: nat, labels: seq<Label>, q: nat, lim: nat)
    requires Laid(buf, e, labels, q) && start <= e && q <= lim <= |buf|
    requires Written(buf, start, q, lim).Some?
    ensures Written(buf, start, e, lim) == Some(labels + Written(buf, start, q, lim).value)
    decreases |labels|
  {
    var tail := Written(buf, start, q, lim).value;
    if labels == [] {
      assert [] + tail == tail;
    } else {
      var l, rest := labels[0], labels[1..];
      LaidHead(buf, e, labels, q);
      WrittenLaid(buf, start, e + 1 + |l|, rest, q, lim);
      WrittenHead(buf, start, e, l, lim);
      ConsAppend(labels, tail);
    }
  }

  lemma {:induction false} WireLengthLaid(buf: seq<byte>, e: nat, labels: seq<Label>, q: nat, lim: nat)
    requires Laid(buf, e, labels, q) && q <= lim && WireLength(buf, q) == Some(lim - q)
    ensures WireLength(buf, e) == Some(lim - e)
    decreases |labels|
  {
    if labels != [] {
      LaidHead(buf, e, labels, q);
      WireLengthLaid(buf, e + 1 + |labels[0]|, labels[1..], q, lim);
    }
  }

  lemma LaidSnoc(buf: seq<byte>, e: nat, labels: seq<Label>, q: nat, l: Label, q': nat)
    requires Laid(buf, e, labels, q) && 1 <= |l| <= MAXLABEL && NoNul(l)
    requires q' == q + 1 + |l| <= |buf| && buf[q] == |l| && buf[q + 1..q'] == l
    ensures Laid(buf, e, labels + [l], q')
  {
    WireSnoc(labels, l);
    assert buf[e..q'] == buf[e..q] + ([buf[q]] + buf[q + 1..q']);
  }

  lemma LaidFrame(a: seq<byte>, b: seq<byte>, e: nat, labels: seq<Label>, q: nat)
    requires Laid(a, e, labels, q) && q <= |b| && (forall k | e <= k < q :: a[k] == b[k])
    ensures Laid(b, e, labels, q)
  {
    assert a[e..q] == b[e..q];
  }

  /** `dnptrs[end]` is the NULL that ends the list, whose entries are dnptrs[1..end]. */
  ghost predicate EndsAt(ptrs: seq<int>, end: nat) {
    1 <= end < |ptrs| && ptrs[end] == -1 && forall k | 1 <= k < end :: 0 <= ptrs[k]
  }

  /** The do-while loop: one label of the text, unescaped, into buf[sp + 1..eob]. */
  method PutLabel(name: seq<byte>, i: nat, buf: array<byte>, sp: nat, eob: int) returns (ok: bool, j: nat, cp: nat)
    requires i < |name| && eob <= buf.Length
    modifies buf
    ensures forall k | 0 <= k < buf.Length && !(sp < k < eob) :: buf[k] == old(buf[k])
    ensures ok ==> cp == sp + 1 + |ScanLabel(name, i).0| && j == Next(name, ScanLabel(name, i).1)
    ensures ok && sp + 1 < cp ==> cp <= eob && buf[sp + 1..cp] == ScanLabel(name, i).0
    ensures !ok ==> ScanLabel(name, i).0 != [] && sp + 1 + |ScanLabel(name, i).0| > eob
  {
    j, cp := i, sp + 1;
    ghost var done: Label := [];
    ScannedStart(name, i);
    while j < |name|
      invariant i <= j <= |name| && Scanned(name, i, done, j)
      invariant cp == sp + 1 + |done| && (done != [] ==> cp <= eob && buf[sp + 1..cp] == done)
      invariant forall k | 0 <= k < buf.Length && !(sp < k < eob) :: buf[k] == old(buf[k])
    {
      ghost var j0 := j;
      assert done + [] == done;
      if name[j] == DOT {
        return true, j + 1, cp;
      }
      if name[j] == BACKSLASH {
        j := j + 1;
        if j == |name| {
          return true, j, cp;
        }
      }
      if cp >= eob {
        return false, j, cp;
      }
      ScannedNext(name, i, done, j0, name[j]);
      buf[cp] := name[j];
      assert buf[sp + 1..cp] == done && buf[sp + 1..cp + 1] == done + [name[j]];
      done := done + [name[j]];
      j, cp := j + 1, cp + 1;
    }
    assert done + [] == done;
    ok := true;
  }

  // ---- What compression should achieve ------------------------------------------------------

  /** Some entry of the list spells exactly these labels. */
  ghost predicate Spelled(pre: seq<byte>, list: seq<int>, labels: seq<Label>)
    requires Listed(pre, list, |pre|)
  {
    exists k | 0 <= k < |list| :: Written(pre, list[k], list[k], |pre|) == Some(labels)
  }

  /** The size of a name whose longest already written suffix becomes a pointer. */
  ghost function CompressedSize(pre: seq<byte>, list: seq<int>, labels: seq<Label>): nat
    requires Listed(pre, list, |pre|)
    decreases |labels|
  {
    if labels == [] then 1
    else if Spelled(pre, list, labels) then 2
    else 1 + |labels[0]| + CompressedSize(pre, list, labels[1..])
  }

  /** How many labels are written before such a suffix. */
  ghost function Leading(pre: seq<byte>, list: seq<int>, labels: seq<Label>): (n: nat)
    requires Listed(pre, list, |pre|)
    ensures n <= |labels|
    decreases |labels|
  {
    if labels == [] || Spelled(pre, list, labels) then 0 else 1 + Leading(pre, list, labels[1..])
  }

  /** With this much room, labels are written (so entries were saved) and then a pointer fails. */
  ghost predicate StopsShort(pre: seq<byte>, list: seq<int>, labels: seq<Label>, room: int, first: bool)
    requires Listed(pre, list, |pre|)
    decreases |labels|
  {
    labels != [] &&
    if Spelled(pre, list, labels) then !first && room < 2
    else 1 + |labels[0]| <= room && StopsShort(pre, list, labels[1..], room - 1 - |labels[0]|, false)
  }

  /** The first entry from k on that spells exactly these labels; -1 if none does. */
  ghost function FirstSpelling(msg: seq<byte>, list: seq<int>, labels: seq<Label>, k: nat, lim: nat): (l: int)
    requires lim <= |msg| && Listed(msg, list, lim) && k <= |list|
    ensures l == -1 || (l in list && Written(msg, l, l, lim) == Some(labels))
    ensures l == -1 <==> forall j | k <= j < |list| :: Written(msg, list[j], list[j], lim) != Some(labels)
    decreases |list| - k
  {
    if k == |list| then -1
    else if Written(msg, list[k], list[k], lim) == Some(labels) then list[k]
    else FirstSpelling(msg, list, labels, k + 1, lim)
  }

  /** It is the first: no entry before it does. */
  lemma {:induction false} FirstIsFirst(msg: seq<byte>, list: seq<int>, labels: seq<Label>, k: nat, lim: nat)
    returns (j: nat)
    requires lim <= |msg| && Listed(msg, list, lim) && k <= |list| && FirstSpelling(msg, list, labels, k, lim) != -1
    ensures k <= j < |list| && list[j] == FirstSpelling(msg, list, labels, k, lim)
    ensures Written(msg, list[j], list[j], lim) == Some(labels)
    ensures forall i | k <= i < j :: Written(msg, list[i], list[i], lim) != Some(labels)
    decreases |list| - k
  {
    j := k;
    if Written(msg, list[k], list[k], lim) != Some(labels) {
      j := FirstIsFirst(msg, list, labels, k + 1, lim);
    }
  }

  /** The entry that the longest already written suffix of a name is pointed at; -1 if none is. */
  ghost function Target(pre: seq<byte>, list: seq<int>, labels: seq<Label>): int
    requires Listed(pre, list, |pre|)
    decreases |labels|
  {
    if labels == [] then -1
    else if Spelled(pre, list, labels) then FirstSpelling(pre, list, labels, 0, |pre|)
    else Target(pre, list, labels[1..])
  }

  /** The two octets of a pointer to offset l. */
  function PointerHi(l: nat): byte { l / 256 % 64 + INDIR }
  function PointerLo(l: nat): byte { l % 256 }

  /** A pointer keeps the low 14 bits of its offset. */
  lemma PointerFar(l: nat)
    ensures PointerTarget(PointerHi(l), PointerLo(l)) == l % 0x4000
  {
  }

  /** A pointer leads back to its offset exactly when the offset is below 2^14. */
  lemma PointerRoundTrip(l: nat)
    ensures PointerTarget(PointerHi(l), PointerLo(l)) == l <==> l < 0x4000
  {
  }

  // ---- The size is the least there is -------------------------------------------------------

  /** Some entry of the list is a name that ends these labels from number k on, where a pointer can go. */
  ghost predicate Points(pre: seq<byte>, list: seq<int>, labels: seq<Label>, k: nat) {
    k < |labels| && exists e <- list :: 0 <= e < |pre| && Written(pre, e, e, |pre|) == Some(labels[k..])
  }

  lemma PointsLater(pre: seq<byte>, list: seq<int>, labels: seq<Label>, k: nat)
    requires labels != []
    ensures Points(pre, list, labels[1..], k) <==> Points(pre, list, labels, k + 1)
  {
    if k + 1 < |labels| {
      assert labels[1..][k..] == labels[k + 1..];
    }
  }

  lemma PointsNow(pre: seq<byte>, list: seq<int>, labels: seq<Label>)
    requires Listed(pre, list, |pre|) && labels != []
    ensures Points(pre, list, labels, 0) <==> Spelled(pre, list, labels)
  {
    assert labels[0..] == labels;
    if Spelled(pre, list, labels) {
      var k :| 0 <= k < |list| && Written(pre, list[k], list[k], |pre|) == Some(labels);
      assert list[k] in list;
    }
  }

  /** What comes before a pointer, or before the end, after one more label. */
  lemma WireMore(labels: seq<Label>, k: nat)
    requires ProperLabels(labels) && 0 < k <= |labels|
    ensures |Wire(labels[..k])| == 1 + |labels[0]| + |Wire(labels[1..][..k - 1])|
  {
    assert labels[..k][1..] == labels[1..][..k - 1];
  }

  /** Nothing shorter can be written: not the labels in full, nor any of their beginnings and a pointer to an
      entry for the rest; and it is one of these. */
  lemma {:induction false} SizeIsLeast(pre: seq<byte>, list: seq<int>, labels: seq<Label>, k: nat)
    requires Listed(pre, list, |pre|) && ProperLabels(labels)
    ensures var size, m := CompressedSize(pre, list, labels), Leading(pre, list, labels);
            && size <= |Wire(labels)| + 1 && (Points(pre, list, labels, k) ==> size <= |Wire(labels[..k])| + 2)
            && size == |Wire(labels[..m])| + (if m < |labels| then 2 else 1)
            && (m < |labels| ==> Points(pre, list, labels, m))
    decreases |labels|
  {
    if labels != [] {
      var rest := labels[1..];
      PointsNow(pre, list, labels);
      assert labels[..|labels|] == labels;
      if Spelled(pre, list, labels) {
        assert Wire(labels[..0]) == [];
      } else {
        var m := Leading(pre, list, rest);
        SizeIsLeast(pre, list, rest, if k > 0 then k - 1 else 0);
        PointsLater(pre, list, labels, m);
        WireMore(labels, m + 1);
        if 0 < k <= |labels| {
          PointsLater(pre, list, labels, k - 1);
          WireMore(labels, k);
        }
      }
    }
  }

  // ---- dn_comp, between two labels ----------------------------------------------------------

  /** One call: the text, the room, the message before it, the earlier entries, whether names are
      compressed, and how many entries there is space to save. */
  datatype Job = Job(name: seq<byte>, length: int, pre: seq<byte>, list: seq<int>, on: bool, slots: nat)

  /** The entries that can be pointed at: none unless the text ends as the search reads it. */
  ghost function Usable(g: Job): seq<int> {
    if Searchable(g.name, 0) then g.list else []
  }

  ghost predicate Unspelled(g: Job, i: nat) {
    i <= |g.name| && Listed(g.pre, g.list, |g.pre|)
    && (Parse(g.name, i).Some? ==> !Spelled(g.pre, Usable(g), Parse(g.name, i).value))
  }

  /** Labels w are written at comp..cp and name[i..] is left; the list's first lpp slots are as
      they were, and slots lpp..cpp are entries saved on the way. */
  ghost predicate Composing(name: seq<byte>, i: nat, buf: seq<byte>, comp: nat, cp: nat, w: seq<Label>,
                            ptrs: seq<int>, lpp: nat, cpp: nat)
  {
    && i <= |name|
    && Parse(name, 0) == Prepend(w, Parse(name, i))
    && (Searchable(name, 0) ==> Searchable(name, i))
    && (i < |name| && Searchable(name, i) ==> Searchable(name, 0))
    && Laid(buf, comp, w, cp)
    && 1 <= lpp <= cpp <= |ptrs|
    && forall k | lpp <= k < cpp :: comp <= ptrs[k] <= cp && Open(buf, ptrs[k], cp)
  }

  /** What is left to write decides the final size. */
  ghost predicate Sized(g: Job, i: nat, done: nat, w: seq<Label>)
    requires i <= |g.name| && Listed(g.pre, g.list, |g.pre|)
  {
    Parse(g.name, 0).Some? && Parse(g.name, i).Some? ==>
      var all, rest := Parse(g.name, 0).value, Parse(g.name, i).value;
      && CompressedSize(g.pre, Usable(g), all) == done + CompressedSize(g.pre, Usable(g), rest)
      && Target(g.pre, Usable(g), all) == Target(g.pre, Usable(g), rest)
      && Leading(g.pre, Usable(g), all) == |w| + Leading(g.pre, Usable(g), rest)
      && (StopsShort(g.pre, Usable(g), all, g.length, true)
          <==> StopsShort(g.pre, Usable(g), rest, g.length - done, w == []))
  }

  /** How a name whose remaining labels are t ends, at cp: a terminator (l < 0), or a pointer to
      the earlier name at l. */
  ghost predicate EndsWith(pre: seq<byte>, buf: seq<byte>, cp: nat, lim: nat, l: int, t: seq<Label>)
  {
    && |pre| <= cp < lim <= |buf| && pre == buf[..|pre|]
    && if l < 0 then lim == cp + 1 && buf[cp] == 0 && t == []
       else
         && lim == cp + 2 && buf[cp] == PointerHi(l) && buf[cp + 1] == PointerLo(l)
         && l < |pre| && l < 0x4000 && pre[l] != 0 && Written(pre, l, l, |pre|) == Some(t)
  }

  /** Such an end closes any run of labels before it that began after the earlier names. */
  lemma EndIsWritten(pre: seq<byte>, buf: seq<byte>, cp: nat, lim: nat, l: int, t: seq<Label>, start: nat)
    requires EndsWith(pre, buf, cp, lim, l, t) && |pre| <= start <= cp
    ensures Written(buf, start, cp, lim) == Some(t) && WireLength(buf, cp) == Some(lim - cp)
  {
    if l >= 0 {
      PointerRoundTrip(l);
      WrittenFrame(pre, buf, l, l, |pre|, start);
      assert buf[..|pre|][l] == buf[l];
    }
  }

  lemma EndOpen(pre: seq<byte>, buf: seq<byte>, e: nat, cp: nat, lim: nat, l: int, t: seq<Label>)
    requires |pre| <= e <= cp && EndsWith(pre, buf, cp, lim, l, t) && Open(buf, e, cp) && NoNulIn(t)
    ensures Written(buf, e, e, lim).Some? && NoNulIn(Written(buf, e, e, lim).value)
  {
    var labels :| Laid(buf, e, labels, cp);
    EndIsWritten(pre, buf, cp, lim, l, t, e);
    WrittenLaid(buf, e, e, labels, cp, lim);
  }

  /** The name is complete: it reads back as the labels of the text, and the list, old entries
      and new, is well formed for the next name. */
  lemma ComposedReads(name: seq<byte>, i: nat, pre: seq<byte>, buf: seq<byte>, cp: nat, w: seq<Label>,
                 ptrs: seq<int>, lpp: nat, cpp: nat, lim: nat, l: int, t: seq<Label>)
    requires Composing(name, i, buf, |pre|, cp, w, ptrs, lpp, cpp) && Listed(pre, ptrs[1..lpp], |pre|)
    requires EndsWith(pre, buf, cp, lim, l, t) && NoNulIn(t) && Parse(name, i) == Some(t)
    ensures Written(buf, |pre|, |pre|, lim) == Parse(name, 0) && WireLength(buf, |pre|) == Some(lim - |pre|)
    ensures Listed(buf, ptrs[1..cpp], lim)
  {
    EndIsWritten(pre, buf, cp, lim, l, t, |pre|);
    WrittenLaid(buf, |pre|, |pre|, w, cp, lim);
    WireLengthLaid(buf, |pre|, w, cp, lim);
    forall k | 0 <= k < cpp - 1
      ensures var e := ptrs[1..cpp][k];
              0 <= e < lim && Written(buf, e, e, lim).Some? && NoNulIn(Written(buf, e, e, lim).value)
    {
      var e := ptrs[k + 1];
      if k + 1 < lpp {
        assert e == ptrs[1..lpp][k];
        WrittenFrame(pre, buf, e, e, |pre|, lim);
      } else {
        EndOpen(pre, buf, e, cp, lim, l, t);
      }
    }
  }

  lemma ComposingSaved(name: seq<byte>, i: nat, buf: seq<byte>, comp: nat, cp: nat, w: seq<Label>,
                       ptrs: seq<int>, ptrs': seq<int>, lpp: nat, cpp: nat)
    requires Composing(name, i, buf, comp, cp, w, ptrs, lpp, cpp)
    requires cpp + 1 < |ptrs| && ptrs' == ptrs[cpp := cp][cpp + 1 := -1]
    ensures Composing(name, i, buf, comp, cp, w, ptrs', lpp, cpp + 1)
  {
    assert Laid(buf, cp, [], cp);
  }

  lemma OpenSnoc(buf: seq<byte>, buf': seq<byte>, e: nat, cp: nat, l: Label, cp': nat)
    requires Open(buf, e, cp) && 1 <= |l| <= MAXLABEL && NoNul(l)
    requires cp' == cp + 1 + |l| <= |buf'| && buf'[cp] == |l| && buf'[cp + 1..cp'] == l
    requires forall k | e <= k < cp :: buf'[k] == buf[k]
    ensures Open(buf', e, cp')
  {
    var labels :| Laid(buf, e, labels, cp);
    LaidFrame(buf, buf', e, labels, cp);
    LaidSnoc(buf', e, labels, cp, l, cp');
  }

  lemma {:induction false} EndedAtDot(name: seq<byte>, i: nat)
    requires i <= |name| && ScanLabel(name, i).1 < |name|
    ensures Ended(name, i)
    decreases |name| - i
  {
    if name[i] == BACKSLASH {
      EndedAtDot(name, i + 2);
    } else if name[i] != DOT {
      EndedAtDot(name, i + 1);
    }
  }

  lemma ComposingLabel(name: seq<byte>, i: nat, buf: seq<byte>, buf': seq<byte>, comp: nat, cp: nat, w: seq<Label>,
                       ptrs: seq<int>, lpp: nat, cpp: nat, cp': nat)
    requires Composing(name, i, buf, comp, cp, w, ptrs, lpp, cpp) && i < |name| && NoNul(name)
    requires var l := ScanLabel(name, i).0;
             && 1 <= |l| <= MAXLABEL && cp' == cp + 1 + |l| <= |buf'| && buf'[cp] == |l| && buf'[cp + 1..cp'] == l
    requires forall k | comp <= k < cp :: buf'[k] == buf[k]
    ensures var (l, e) := ScanLabel(name, i);
            Composing(name, Next(name, e), buf', comp, cp', w + [l], ptrs, lpp, cpp)
  {
    var (l, e) := ScanLabel(name, i);
    ScanNoNul(name, i);
    PrependSnoc(w, l, Parse(name, Next(name, e)));
    LaidFrame(buf, buf', comp, w, cp);
    LaidSnoc(buf', comp, w, cp, l, cp');
    if e < |name| {
      EndedAtDot(name, i);
    }
    forall k | lpp <= k < cpp ensures Open(buf', ptrs[k], cp') {
      OpenSnoc(buf, buf', ptrs[k], cp, l, cp');
    }
  }

  /** One label that stands before an unspelled rest. */
  lemma SizeStep(pre: seq<byte>, list: seq<int>, l: Label, rest: seq<Label>, room: int, first: bool)
    requires Listed(pre, list, |pre|) && !Spelled(pre, list, [l] + rest)
    ensures CompressedSize(pre, list, [l] + rest) == 1 + |l| + CompressedSize(pre, list, rest)
    ensures Target(pre, list, [l] + rest) == Target(pre, list, rest)
    ensures Leading(pre, list, [l] + rest) == 1 + Leading(pre, list, rest)
    ensures StopsShort(pre, list, [l] + rest, room, first)
            <==> 1 + |l| <= room && StopsShort(pre, list, rest, room - 1 - |l|, false)
  {
    assert ([l] + rest)[1..] == rest && ([l] + rest)[0] == l;
  }

  lemma SizedLabel(g: Job, i: nat, done: nat, w: seq<Label>)
    requires i < |g.name| && Unspelled(g, i) && Sized(g, i, done, w)
    requires 1 <= |ScanLabel(g.name, i).0| <= MAXLABEL
    ensures var (l, e) := ScanLabel(g.name, i);
            && (done + 1 + |l| <= g.length ==> Sized(g, Next(g.name, e), done + 1 + |l|, w + [l]))
            && (done + 1 + |l| > g.length && Parse(g.name, 0).Some? && Parse(g.name, i).Some? ==>
                  && CompressedSize(g.pre, Usable(g), Parse(g.name, 0).value) > g.length
                  && !StopsShort(g.pre, Usable(g), Parse(g.name, 0).value, g.length, true))
  {
    var (l, e) := ScanLabel(g.name, i);
    var rest := Parse(g.name, Next(g.name, e));
    if rest.Some? {
      SizeStep(g.pre, Usable(g), l, rest.value, g.length - done, w == []);
    }
  }

  /** The rest of the text ends in an empty label, which is searched for and saved but not written. */
  ghost predicate EmptyEnd(name: seq<byte>, i: nat)
    requires i <= |name|
  {
    i < |name| && Parse(name, i) == Some([])
  }

  /** So far one entry was saved for each label, where it begins, while there was space; and one more if the
      search has gone on to an empty end. */
  ghost predicate SavedFor(g: Job, w: seq<Label>, ptrs: seq<int>, cpp: nat, more: bool) {
    && ProperLabels(w) && |g.list| + 1 <= cpp <= |ptrs|
    && var n := cpp - |g.list| - 1;
       n == Min(|w| + (if more then 1 else 0), g.slots) && SavedStarts(ptrs, |g.list| + 1, n, |g.pre|, w)
  }

  /** Slots from .. from + n say where the first n labels begin. */
  ghost predicate SavedStarts(ptrs: seq<int>, from: nat, n: nat, comp: nat, labels: seq<Label>) {
    && ProperLabels(labels) && from + n <= |ptrs| && n <= |labels| + 1
    && forall k | 0 <= k < n :: IsStart(ptrs, from, comp, labels, k)
  }

  /** Entry k is where label k begins, or, after the last label, where they end. */
  ghost predicate IsStart(ptrs: seq<int>, from: nat, comp: nat, labels: seq<Label>, k: nat)
    requires ProperLabels(labels)
  {
    k <= |labels| && from + k < |ptrs| && ptrs[from + k] == comp + |Wire(labels[..k])|
  }

  /** Between two labels: what is written, what is left, and the list. */
  ghost predicate Between(g: Job, i: nat,
      buf: seq<byte>, cp: nat, w: seq<Label>, ptrs: seq<int>, cpp: nat)
  {
    && |g.pre| <= |buf| && buf[..|g.pre|] == g.pre && (cp == |g.pre| || cp <= |g.pre| + g.length)
    && Listed(g.pre, g.list, |g.pre|)
    && (if g.on then EndsAt(ptrs, cpp) && |g.list| < cpp && ptrs[1..|g.list| + 1] == g.list
        else g.list == [] && cpp == 1)
    && Composing(g.name, i, buf, |g.pre|, cp, w, ptrs, |g.list| + 1, cpp)
    && Sized(g, i, cp - |g.pre|, w)
  }

  /** Everything that holds between two labels. */
  ghost predicate Progress(g: Job, i: nat,
      buf: seq<byte>, cp: nat, w: seq<Label>, ptrs: seq<int>, cpp: nat)
  {
    Between(g, i, buf, cp, w, ptrs, cpp) && SavedFor(g, w, ptrs, cpp, false)
  }

  /** And where the text has no more labels, though perhaps an empty end. */
  ghost predicate AtEnd(g: Job, i: nat,
      buf: seq<byte>, cp: nat, w: seq<Label>, ptrs: seq<int>, cpp: nat)
  {
    && Between(g, i, buf, cp, w, ptrs, cpp) && Parse(g.name, i) == Some([])
    && (SavedFor(g, w, ptrs, cpp, false) || (EmptyEnd(g.name, i) && SavedFor(g, w, ptrs, cpp, true)))
  }

  /** The entries a success has saved: where each label begins that comes before the pointer or the end, as far as
      there was space; and one more for an empty end. */
  ghost predicate EntriesSaved(g: Job, ptrs: seq<int>, cpp: nat)
    requires Listed(g.pre, g.list, |g.pre|) && Parse(g.name, 0).Some?
  {
    var labels := Parse(g.name, 0).value;
    var m := Leading(g.pre, Usable(g), labels);
    && ProperLabels(labels) && |g.list| + 1 <= cpp <= |ptrs|
    && var n := cpp - |g.list| - 1;
       && (n == Min(m, g.slots) || (!Searchable(g.name, 0) && n == Min(m + 1, g.slots)))
       && SavedStarts(ptrs, |g.list| + 1, n, |g.pre|, labels)
  }

  lemma EntriesAre(g: Job, i: nat, buf: seq<byte>, cp: nat, w: seq<Label>, ptrs: seq<int>, cpp: nat, more: bool)
    requires Between(g, i, buf, cp, w, ptrs, cpp) && SavedFor(g, w, ptrs, cpp, more) && Parse(g.name, i).Some?
    requires Leading(g.pre, Usable(g), Parse(g.name, i).value) == 0 && (more ==> EmptyEnd(g.name, i))
    ensures Parse(g.name, 0).Some? && EntriesSaved(g, ptrs, cpp)
  {
    var t := Parse(g.name, i).value;
    assert Parse(g.name, 0) == Some(w + t);
    ParseProper(g.name, 0);
    StartsExtend(ptrs, |g.list| + 1, cpp - |g.list| - 1, |g.pre|, w, t);
  }

  lemma StartsExtend(ptrs: seq<int>, from: nat, n: nat, comp: nat, w: seq<Label>, t: seq<Label>)
    requires ProperLabels(w) && ProperLabels(w + t) && from + n <= |ptrs| && SavedStarts(ptrs, from, n, comp, w)
    ensures SavedStarts(ptrs, from, n, comp, w + t)
  {
    forall k | 0 <= k < n
      ensures IsStart(ptrs, from, comp, w + t, k)
    {
      assert IsStart(ptrs, from, comp, w, k);
      assert (w + t)[..k] == w[..k];
    }
  }

  /** One label more, or the empty end: an entry more if there is space. */
  lemma SavedMore(g: Job, w: seq<Label>, ptrs: seq<int>, cpp: nat, cp: nat, saves: bool, ptrs': seq<int>, cpp': nat)
    requires SavedFor(g, w, ptrs, cpp, false) && cp == |g.pre| + |Wire(w)|
    requires Saved(saves, ptrs, cpp, cp, ptrs', cpp') && saves == (cpp - |g.list| - 1 < g.slots)
    ensures SavedFor(g, w, ptrs', cpp', true)
  {
    var from, n := |g.list| + 1, cpp - |g.list| - 1;
    if saves {
      forall k | 0 <= k < n + 1
        ensures IsStart(ptrs', from, |g.pre|, w, k)
      {
        if k < n {
          assert IsStart(ptrs, from, |g.pre|, w, k);
        } else {
          assert w[..k] == w;
        }
      }
    }
  }

  lemma SavedLabel(g: Job, w: seq<Label>, ptrs: seq<int>, cpp: nat, l: Label)
    requires SavedFor(g, w, ptrs, cpp, true) && 1 <= |l| <= MAXLABEL
    ensures SavedFor(g, w + [l], ptrs, cpp, false)
  {
    StartsExtend(ptrs, |g.list| + 1, cpp - |g.list| - 1, |g.pre|, w, [l]);
  }

  /** A success: the octets written read back as the labels of the text, the list is well formed
      for a name written after them, and the text is compressed as far as the entries allow. */
  ghost predicate Succeeded(g: Job, buf: seq<byte>, ptrs: seq<int>, cpp: nat, r: int)
    requires Listed(g.pre, g.list, |g.pre|)
  {
    && 0 < r <= g.length && |g.pre| + r <= |buf|
    && Parse(g.name, 0).Some?
    && Written(buf, |g.pre|, |g.pre|, |g.pre| + r) == Parse(g.name, 0) && WireLength(buf, |g.pre|) == Some(r)
    && (g.on ==> EndsAt(ptrs, cpp) && Listed(buf, ptrs[1..cpp], |g.pre| + r))
    && r == CompressedSize(g.pre, Usable(g), Parse(g.name, 0).value)
  }

  /** The other success: the entry to point at lies at or beyond offset 2^14, and the two octets at the
      end, which cannot hold it, lead elsewhere. */
  ghost predicate Misled(g: Job, buf: seq<byte>, ptrs: seq<int>, cpp: nat, r: int)
    requires Listed(g.pre, g.list, |g.pre|) && Parse(g.name, 0).Some?
  {
    var l, p := Target(g.pre, Usable(g), Parse(g.name, 0).value), |g.pre| + r - 2;
    && 2 <= r <= g.length && |g.pre| + r <= |buf|
    && r == CompressedSize(g.pre, Usable(g), Parse(g.name, 0).value)
    && l >= 0x4000 && buf[p] == PointerHi(l) && buf[p + 1] == PointerLo(l)
    && PointerTarget(buf[p], buf[p + 1]) == l % 0x4000 != l
    && (g.on ==> EndsAt(ptrs, cpp))
  }

  /** Every call that succeeds is of one kind or the other, and which decides the entry pointed at. */
  ghost predicate Composed(g: Job, buf: seq<byte>, ptrs: seq<int>, cpp: nat, r: int)
    requires Listed(g.pre, g.list, |g.pre|)
  {
    && Parse(g.name, 0).Some? && (g.on ==> EntriesSaved(g, ptrs, cpp))
    && if Target(g.pre, Usable(g), Parse(g.name, 0).value) < 0x4000 then Succeeded(g, buf, ptrs, cpp, r)
       else Misled(g, buf, ptrs, cpp, r)
  }

  /** A failure: the text has no labels or too many octets; and what it leaves: the list as it was,
      except that the pointer branch, out of room, leaves the entries saved so far (it does not
      cut the list back). */
  ghost predicate Failed(g: Job, kept: bool)
    requires Listed(g.pre, g.list, |g.pre|)
  {
    && (Parse(g.name, 0).Some? ==> CompressedSize(g.pre, Usable(g), Parse(g.name, 0).value) > g.length)
    && (kept <==> && g.slots > 0 && Parse(g.name, 0).Some?
                  && StopsShort(g.pre, Usable(g), Parse(g.name, 0).value, g.length, true))
  }

  /** l is what dn_find reports for the rest of the name. */
  ghost predicate Found(g: Job, i: nat, l: int) {
    && i <= |g.name| && Listed(g.pre, g.list, |g.pre|) && l in g.list && g.pre[l] != 0
    && Spells(g.name, i, g.pre, l, |g.pre|)
    && l == FirstSpelling(g.pre, g.list, Parse(g.name, i).value, 0, |g.pre|)
  }

  lemma FoundIsSpelled(g: Job, i: nat, l: int)
    requires Found(g, i, l) && (Searchable(g.name, i) ==> Searchable(g.name, 0))
    ensures var t := Parse(g.name, i); t.Some? && Spelled(g.pre, Usable(g), t.value) && NoNulIn(t.value)
    ensures l == FirstSpelling(g.pre, Usable(g), Parse(g.name, i).value, 0, |g.pre|)
  {
  }

  /** A pointer too far was put after the labels. */
  lemma FinishFar(g: Job, i: nat, buf: seq<byte>, cp: nat, w: seq<Label>, ptrs: seq<int>, cpp: nat, buf': seq<byte>,
                  l: int)
    requires Progress(g, i, buf, cp, w, ptrs, cpp) && i < |g.name| && Found(g, i, l) && l >= 0x4000
    requires cp + 2 <= |g.pre| + g.length && |buf'| == |buf| && cp + 2 <= |buf'|
    requires buf'[cp] == PointerHi(l) && buf'[cp + 1] == PointerLo(l)
    ensures Composed(g, buf', ptrs, cpp, cp + 2 - |g.pre|)
  {
    TargetFound(g, i, buf, cp, w, ptrs, cpp, l);
    EntriesAre(g, i, buf, cp, w, ptrs, cpp, false);
    PointerFar(l);
  }

  lemma FinishPointer(g: Job, i: nat, buf: seq<byte>, cp: nat, w: seq<Label>, ptrs: seq<int>, cpp: nat,
                      buf': seq<byte>, l: int)
    requires Progress(g, i, buf, cp, w, ptrs, cpp) && i < |g.name| && Found(g, i, l)
    requires cp + 2 <= |g.pre| + g.length && cp + 2 <= |buf|
    requires buf' == buf[cp := PointerHi(l)][cp + 1 := PointerLo(l)]
    ensures Composed(g, buf', ptrs, cpp, cp + 2 - |g.pre|)
  {
    assert buf'[..|g.pre|] == g.pre;
    TargetFound(g, i, buf, cp, w, ptrs, cpp, l);
    EntriesAre(g, i, buf, cp, w, ptrs, cpp, false);
    if l < 0x4000 {
      Finish(g, i, buf, cp, w, ptrs, cpp, buf', cp + 2, l);
    } else {
      FinishFar(g, i, buf, cp, w, ptrs, cpp, buf', l);
    }
  }

  /** What the search found is what the whole name is to be pointed at. */
  lemma TargetFound(g: Job, i: nat, buf: seq<byte>, cp: nat, w: seq<Label>, ptrs: seq<int>, cpp: nat, l: int)
    requires Between(g, i, buf, cp, w, ptrs, cpp) && i < |g.name| && Found(g, i, l)
    ensures Parse(g.name, 0).Some? && Parse(g.name, i).Some? && NoNulIn(Parse(g.name, i).value)
    ensures Leading(g.pre, Usable(g), Parse(g.name, i).value) == 0
    ensures Target(g.pre, Usable(g), Parse(g.name, 0).value) == l
    ensures CompressedSize(g.pre, Usable(g), Parse(g.name, 0).value) == cp - |g.pre| + 2
  {
    FoundIsSpelled(g, i, l);
    NonzeroIsNotRoot(g.pre, l, l, |g.pre|);
  }

  /** An end was put after the labels: a success. */
  lemma Finish(g: Job, i: nat,
      buf: seq<byte>, cp: nat, w: seq<Label>, ptrs: seq<int>, cpp: nat, buf': seq<byte>, lim: nat, l: int)
    requires Between(g, i, buf, cp, w, ptrs, cpp) && Parse(g.name, i).Some?
    requires if l >= 0 then i < |g.name| && Found(g, i, l) else Parse(g.name, i) == Some([])
    requires lim <= |g.pre| + g.length && |buf'| == |buf| && forall k | 0 <= k < cp :: buf'[k] == buf[k]
    requires EndsWith(g.pre, buf', cp, lim, l, Parse(g.name, i).value)
    ensures Parse(g.name, 0).Some? && Target(g.pre, Usable(g), Parse(g.name, 0).value) < 0x4000
    ensures Succeeded(g, buf', ptrs, cpp, lim - |g.pre|)
  {
    if l >= 0 {
      TargetFound(g, i, buf, cp, w, ptrs, cpp, l);
    }
    ComposingFrame(g.name, i, buf, buf', |g.pre|, cp, w, ptrs, |g.list| + 1, cpp);
    ComposedReads(g.name, i, g.pre, buf', cp, w, ptrs, |g.list| + 1, cpp, lim, l, Parse(g.name, i).value);
  }

  lemma ComposingFrame(name: seq<byte>, i: nat, buf: seq<byte>, buf': seq<byte>, comp: nat, cp: nat, w: seq<Label>,
                       ptrs: seq<int>, lpp: nat, cpp: nat)
    requires Composing(name, i, buf, comp, cp, w, ptrs, lpp, cpp)
    requires cp <= |buf'| && forall k | comp <= k < cp :: buf'[k] == buf[k]
    ensures Composing(name, i, buf', comp, cp, w, ptrs, lpp, cpp)
  {
    LaidFrame(buf, buf', comp, w, cp);
    forall k | lpp <= k < cpp ensures Open(buf', ptrs[k], cp) {
      var labels :| Laid(buf, ptrs[k], labels, cp);
      LaidFrame(buf, buf', ptrs[k], labels, cp);
    }
  }

  lemma FailPointer(g: Job, i: nat,
      buf: seq<byte>, cp: nat, w: seq<Label>, ptrs: seq<int>, cpp: nat, l: nat)
    requires Progress(g, i, buf, cp, w, ptrs, cpp)
    requires i < |g.name| && Found(g, i, l)
    requires cp + 1 >= |g.pre| + g.length
    ensures Failed(g, g.on && cpp > |g.list| + 1)
  {
    FoundIsSpelled(g, i, l);
    NonzeroIsNotRoot(g.pre, l, l, |g.pre|);
  }

  /** A label that does not fit, is empty, or is too long. */
  lemma FailLabel(g: Job, i: nat,
      buf: seq<byte>, cp: nat, w: seq<Label>, ptrs: seq<int>, cpp: nat)
    requires Progress(g, i, buf, cp, w, ptrs, cpp)
    requires i < |g.name| && Unspelled(g, i)
    requires var l := ScanLabel(g.name, i).0;
             Parse(g.name, i) == None || (l != [] && cp + 1 + |l| > |g.pre| + g.length)
    ensures Failed(g, false)
  {
    if Parse(g.name, i).Some? {
      SizedLabel(g, i, cp - |g.pre|, w);
    }
  }

  lemma FailRoot(g: Job, i: nat,
      buf: seq<byte>, cp: nat, w: seq<Label>, ptrs: seq<int>, cpp: nat)
    requires AtEnd(g, i, buf, cp, w, ptrs, cpp) && cp >= |g.pre| + g.length
    ensures Failed(g, false)
  {
  }

  /** The list after "not found, save it" (which does nothing when the array is full). */
  ghost predicate Saved(saves: bool, ptrs: seq<int>, cpp: nat, cp: nat, ptrs': seq<int>, cpp': nat) {
    if saves then cpp + 1 < |ptrs| && cpp' == cpp + 1 && ptrs' == ptrs[cpp := cp][cpp + 1 := -1]
    else cpp' == cpp && ptrs' == ptrs
  }

  lemma ProgressSaved(g: Job, i: nat, buf: seq<byte>, cp: nat, w: seq<Label>, ptrs: seq<int>, cpp: nat,
                      saves: bool, ptrs': seq<int>, cpp': nat)
    requires Progress(g, i, buf, cp, w, ptrs, cpp)
    requires Saved(saves, ptrs, cpp, cp, ptrs', cpp') && (saves ==> g.on)
    ensures Composing(g.name, i, buf, |g.pre|, cp, w, ptrs', |g.list| + 1, cpp')
    ensures g.on ==> EndsAt(ptrs', cpp') && |g.list| < cpp' && ptrs'[1..|g.list| + 1] == g.list
  {
    if saves {
      ComposingSaved(g.name, i, buf, |g.pre|, cp, w, ptrs, ptrs', |g.list| + 1, cpp);
      assert ptrs'[1..|g.list| + 1] == g.list;
    }
  }

  lemma ProgressLabel(g: Job, i: nat,
      buf: seq<byte>, cp: nat, w: seq<Label>, ptrs: seq<int>, cpp: nat,
                      saves: bool, ptrs': seq<int>, cpp': nat, buf': seq<byte>, cp': nat)
    requires Progress(g, i, buf, cp, w, ptrs, cpp)
    requires Unspelled(g, i)
    requires Saved(saves, ptrs, cpp, cp, ptrs', cpp')
    requires (saves ==> g.on) && saves == (cpp - |g.list| - 1 < g.slots)
    requires i < |g.name| && NoNul(g.name)
    requires var l := ScanLabel(g.name, i).0;
             && 1 <= |l| <= MAXLABEL && cp' == cp + 1 + |l| <= |g.pre| + g.length
             && |buf'| == |buf| && cp' <= |buf'| && buf'[cp] == |l| && buf'[cp + 1..cp'] == l
    requires forall k | 0 <= k < cp :: buf'[k] == buf[k]
    ensures Progress(g, Next(g.name, ScanLabel(g.name, i).1), buf', cp', w + [ScanLabel(g.name, i).0], ptrs', cpp')
  {
    assert buf'[..|g.pre|] == g.pre;
    ProgressSaved(g, i, buf, cp, w, ptrs, cpp, saves, ptrs', cpp');
    ComposingLabel(g.name, i, buf, buf', |g.pre|, cp, w, ptrs', |g.list| + 1, cpp', cp');
    SizedLabel(g, i, cp - |g.pre|, w);
    SavedMore(g, w, ptrs, cpp, cp, saves, ptrs', cpp');
    SavedLabel(g, w, ptrs', cpp', ScanLabel(g.name, i).0);
  }

  /** An empty last label: whatever was saved for it starts the root name. */
  lemma ProgressJunk(g: Job, i: nat,
      buf: seq<byte>, cp: nat, w: seq<Label>, ptrs: seq<int>, cpp: nat,
                     saves: bool, ptrs': seq<int>, cpp': nat, buf': seq<byte>)
    requires Progress(g, i, buf, cp, w, ptrs, cpp)
    requires Saved(saves, ptrs, cpp, cp, ptrs', cpp') && (saves ==> g.on) && saves == (cpp - |g.list| - 1 < g.slots)
    requires i < |g.name| && Parse(g.name, i) == Some([])
    requires |buf'| == |buf| && forall k | 0 <= k < cp :: buf'[k] == buf[k]
    ensures AtEnd(g, i, buf', cp, w, ptrs', cpp')
  {
    assert buf'[..|g.pre|] == g.pre;
    SavedMore(g, w, ptrs, cpp, cp, saves, ptrs', cpp');
    ProgressSaved(g, i, buf, cp, w, ptrs, cpp, saves, ptrs', cpp');
    ComposingFrame(g.name, i, buf, buf', |g.pre|, cp, w, ptrs', |g.list| + 1, cpp');
  }

  lemma ProgressStart(g: Job, buf: seq<byte>, ptrs: seq<int>, cpp: nat)
    requires |g.pre| <= |buf| && buf[..|g.pre|] == g.pre
    requires Listed(g.pre, g.list, |g.pre|)
    requires if g.on then EndsAt(ptrs, cpp) && g.list == ptrs[1..cpp] else g.list == [] && cpp == 1 <= |ptrs|
    ensures Progress(g, 0, buf, |g.pre|, [], ptrs, cpp)
  {
    assert Laid(buf, |g.pre|, [], |g.pre|);
    if Parse(g.name, 0).Some? {
      assert [] + Parse(g.name, 0).value == Parse(g.name, 0).value;
    }
  }

  /** Walk to the NULL that ends the list. */
  method FindEnd(dnptrs: array<int>, ghost end: nat) returns (cpp: nat)
    requires EndsAt(dnptrs[..], end)
    ensures cpp == end
  {
    cpp := 1;
    while dnptrs[cpp] != -1
      invariant 1 <= cpp <= end
      decreases end - cpp
    {
      cpp := cpp + 1;
    }
  }

  /** `*lpp = NULL`: cut the list back to what it was. */
  method Restore(on: bool, dnptrs: array<int>, lpp: nat, ghost was: seq<int>)
    requires on ==> 1 <= lpp < dnptrs.Length && |was| == dnptrs.Length && EndsAt(was, lpp)
    requires on ==> forall k | 0 <= k < lpp :: dnptrs[k] == was[k]
    modifies dnptrs
    ensures on ==> EndsAt(dnptrs[..], lpp)
    ensures forall k | 0 <= k < dnptrs.Length && !(on && k == lpp) :: dnptrs[k] == old(dnptrs[k])
  {
    if on {
      dnptrs[lpp] := -1;
    }
  }

  datatype Step = More | Last | Bad

  ghost predicate IsJob(g: Job, name: seq<byte>, comp: nat, length: int, size: nat) {
    g.name == name && |g.pre| == comp && g.length == length && comp + length <= size
  }

  /** The space for entries from end on, before the NULL that must stay the last: none without a list. */
  function Slots(on: bool, end: nat, last: int): nat {
    if on && end < last - 1 then last - 1 - end else 0
  }

  /** The rest of the outer loop's body, once no entry was found: one label. */
  method ComposeLabel(name: seq<byte>, i: nat, comp: nat, length: int, buf: array<byte>, cp0: nat,
                      ghost g: Job, ghost w: seq<Label>,
                      ghost ptrs: seq<int>, ghost cpp: nat, ghost saves: bool, ghost ptrs': seq<int>, ghost cpp': nat)
    returns (step: Step, j: nat, cp: nat)
    requires i < |name| && NoNul(name) && IsJob(g, name, comp, length, buf.Length)
    requires Progress(g, i, buf[..], cp0, w, ptrs, cpp)
    requires Unspelled(g, i)
    requires Saved(saves, ptrs, cpp, cp0, ptrs', cpp')
    requires (saves ==> g.on) && saves == (cpp - |g.list| - 1 < g.slots)
    modifies buf
    ensures forall k | 0 <= k < buf.Length && !(cp0 <= k < comp + length) :: buf[k] == old(buf[k])
    ensures step.More? ==> i < j && Progress(g, j, buf[..], cp, w + [ScanLabel(name, i).0], ptrs', cpp')
    ensures step.Last? ==>
              cp == cp0 && AtEnd(g, i, buf[..], cp, w, ptrs', cpp')
    ensures step.Bad? ==> Failed(g, false)
  {
    ghost var before := buf[..];
    var sp, eob := cp0, comp + length;
    var ok;
    ok, j, cp := PutLabel(name, i, buf, sp, eob);
    if !ok {
      FailLabel(g, i, before, sp, w, ptrs, cpp);
      return Bad, j, cp;
    }
    var l := cp - sp - 1;
    if l == 0 && j == |name| {
      cp := cp - 1;
      ProgressJunk(g, i, before, cp, w, ptrs, cpp, saves, ptrs', cpp', buf[..]);
      return Last, j, cp;
    }
    if l <= 0 || l > MAXLABEL {
      FailLabel(g, i, before, sp, w, ptrs, cpp);
      return Bad, j, cp;
    }
    buf[sp] := l;
    assert buf[sp + 1..cp] == ScanLabel(name, i).0;
    ProgressLabel(g, i, before, sp, w, ptrs, cpp, saves, ptrs', cpp', buf[..], cp);
    step := More;
  }

  /** *cp++ = a; *cp++ = b */
  method PutTwo(buf: array<byte>, cp: nat, a: byte, b: byte)
    requires cp + 2 <= buf.Length
    modifies buf
    ensures buf[..] == old(buf[..])[cp := a][cp + 1 := b]
  {
    buf[cp] := a;
    buf[cp + 1] := b;
  }

  /** The pointer, if both its octets fit. */
  method PutPointer(ghost name: seq<byte>, ghost i: nat, comp: nat, length: int, buf: array<byte>, cp: nat, l: nat,
                    ghost g: Job, ghost w: seq<Label>, ghost ptrs: seq<int>, ghost cpp: nat)
    returns (r: int)
    requires i < |name| && IsJob(g, name, comp, length, buf.Length)
    requires Progress(g, i, buf[..], cp, w, ptrs, cpp)
    requires Found(g, i, l)
    modifies buf
    ensures forall k | 0 <= k < buf.Length && !(cp <= k < comp + length) :: buf[k] == old(buf[k])
    ensures if r >= 0 then Composed(g, buf[..], ptrs, cpp, r)
            else r == -1 && Failed(g, g.on && cpp > |g.list| + 1)
  {
    if cp + 1 >= comp + length {
      FailPointer(g, i, buf[..], cp, w, ptrs, cpp, l);
      return -1;
    }
    FinishPointer(g, i, buf[..], cp, w, ptrs, cpp, buf[..][cp := PointerHi(l)][cp + 1 := PointerLo(l)], l);
    PutTwo(buf, cp, PointerHi(l), PointerLo(l));
    r := cp + 2 - comp;
  }

  /** The terminator, if it fits. */
  method PutRoot(ghost name: seq<byte>, ghost i: nat, comp: nat, length: int, buf: array<byte>, cp: nat,
                 ghost g: Job, ghost w: seq<Label>, ghost ptrs: seq<int>, ghost cpp: nat)
    returns (r: int)
    requires IsJob(g, name, comp, length, buf.Length)
    requires AtEnd(g, i, buf[..], cp, w, ptrs, cpp)
    modifies buf
    ensures forall k | 0 <= k < buf.Length && !(cp <= k < comp + length) :: buf[k] == old(buf[k])
    ensures if r >= 0 then Composed(g, buf[..], ptrs, cpp, r)
            else r == -1 && Failed(g, false)
  {
    if cp >= comp + length {
      FailRoot(g, i, buf[..], cp, w, ptrs, cpp);
      return -1;
    }
    ghost var before := buf[..];
    buf[cp] := 0;
    assert buf[..|g.pre|] == g.pre;
    EntriesAre(g, i, before, cp, w, ptrs, cpp, !SavedFor(g, w, ptrs, cpp, false));
    Finish(g, i, before, cp, w, ptrs, cpp, buf[..], cp + 1, -1);
    r := cp + 1 - comp;
  }

  /** "not found, save it", if the array has room for an entry and the NULL after it. */
  method Save(on: bool, dnptrs: array<int>, last: int, cpp: nat, cp: nat) returns (cpp': nat, ghost saves: bool)
    requires last <= dnptrs.Length && (on ==> EndsAt(dnptrs[..], cpp))
    modifies dnptrs
    ensures saves == (on && cpp < last - 1) && Saved(saves, old(dnptrs[..]), cpp, cp, dnptrs[..], cpp')
    ensures forall k | 0 <= k < dnptrs.Length && k < cpp :: dnptrs[k] == old(dnptrs[k])
    ensures on ==> EndsAt(dnptrs[..], cpp')
  {
    cpp', saves := cpp, on && cpp < last - 1;
    if on && cpp < last - 1 {
      dnptrs[cpp'] := cp;
      cpp' := cpp' + 1;
      dnptrs[cpp'] := -1;
    }
  }

  /** No entry was found: save one, write one label; on failure cut the list back. */
  method SaveAndLabel(name: seq<byte>, i: nat, comp: nat, length: int, buf: array<byte>, cp0: nat,
                      on: bool, dnptrs: array<int>, last: int, lpp: nat, cpp0: nat,
                      ghost g: Job, ghost w: seq<Label>, ghost was: seq<int>)
    returns (step: Step, j: nat, cp: nat, cpp: nat)
    requires i < |name| && NoNul(name) && IsJob(g, name, comp, length, buf.Length) && last <= dnptrs.Length
    requires Progress(g, i, buf[..], cp0, w, dnptrs[..], cpp0)
    requires Unspelled(g, i) && g.slots == Slots(on, lpp, last)
    requires g.on == on && lpp == |g.list| + 1 && |was| == dnptrs.Length && (on ==> EndsAt(was, lpp))
    requires forall k | 0 <= k < lpp :: dnptrs[k] == was[k]
    modifies buf, dnptrs
    ensures forall k | 0 <= k < buf.Length && !(comp <= k < comp + length) :: buf[k] == old(buf[k])
    ensures forall k | 0 <= k < lpp :: dnptrs[k] == was[k]
    ensures step.More? ==> i < j && Progress(g, j, buf[..], cp, w + [ScanLabel(name, i).0], dnptrs[..], cpp)
    ensures step.Last? ==>
              AtEnd(g, i, buf[..], cp, w, dnptrs[..], cpp)
    ensures step.Bad? ==> Failed(g, false) && (on ==> EndsAt(dnptrs[..], lpp))
  {
    ghost var ptrs, saves := dnptrs[..], false;
    cpp, saves := Save(on, dnptrs, last, cpp0, cp0);
    step, j, cp := ComposeLabel(name, i, comp, length, buf, cp0, g, w, ptrs, cpp0, saves, dnptrs[..], cpp);
    if step.Bad? {
      Restore(on, dnptrs, lpp, was);
    }
  }

  /** The end of the text: the terminator, or the list cut back. */
  method RootOrRestore(ghost name: seq<byte>, ghost i: nat, comp: nat, length: int, buf: array<byte>, cp: nat,
                       on: bool, dnptrs: array<int>, lpp: nat, cpp: nat,
                       ghost g: Job, ghost w: seq<Label>, ghost was: seq<int>)
    returns (r: int, ghost end': nat)
    requires IsJob(g, name, comp, length, buf.Length)
    requires AtEnd(g, i, buf[..], cp, w, dnptrs[..], cpp)
    requires g.on == on && lpp == |g.list| + 1 && |was| == dnptrs.Length && (on ==> EndsAt(was, lpp))
    requires forall k | 0 <= k < lpp :: dnptrs[k] == was[k]
    modifies buf, dnptrs
    ensures forall k | 0 <= k < buf.Length && !(comp <= k < comp + length) :: buf[k] == old(buf[k])
    ensures forall k | 0 <= k < lpp :: dnptrs[k] == was[k]
    ensures on ==> EndsAt(dnptrs[..], end') && lpp <= end'
    ensures if r >= 0 then Composed(g, buf[..], dnptrs[..], end', r)
            else r == -1 && end' == lpp && Failed(g, false)
  {
    r := PutRoot(name, i, comp, length, buf, cp, g, w, dnptrs[..], cpp);
    end' := cpp;
    if r < 0 {
      Restore(on, dnptrs, lpp, was);
      end' := lpp;
    }
  }

  /** The search for an entry that spells the rest, and the pointer to it. */
  method SearchAndPoint(name: seq<byte>, i: nat, comp: nat, length: int, buf: array<byte>, cp: nat,
                        on: bool, dnptrs: array<int>, lpp: nat, ghost cpp: nat, ghost g: Job, ghost w: seq<Label>)
    returns (found: bool, r: int)
    requires i < |name| && NoNul(name) && IsJob(g, name, comp, length, buf.Length) && g.on == on && lpp == |g.list| + 1
    requires Progress(g, i, buf[..], cp, w, dnptrs[..], cpp)
    modifies buf
    ensures forall k | 0 <= k < buf.Length && !(comp <= k < comp + length) :: buf[k] == old(buf[k])
    ensures !found ==> buf[..] == old(buf[..])
    ensures !found ==> Unspelled(g, i)
    ensures found ==>
              if r >= 0 then Composed(g, buf[..], dnptrs[..], cpp, r)
              else r == -1 && Failed(g, g.on && cpp > |g.list| + 1)
  {
    found, r := false, -1;
    if on {
      assert buf[..comp] == g.pre && dnptrs[1..lpp] == g.list;
      var l := DnFind(name, i, buf[..comp], dnptrs[1..lpp], comp);
      if l >= 0 {
        r := PutPointer(name, i, comp, length, buf, cp, l, g, w, dnptrs[..], cpp);
        found := true;
      }
    }
  }

  /** The body of dn_comp once the end of the list is known. */
  method ComposeName(name: seq<byte>, buf: array<byte>, comp: nat, length: int, on: bool, dnptrs: array<int>,
                     last: int, lpp: nat, ghost g: Job)
    returns (r: int, ghost end': nat)
    requires NoNul(name) && comp <= buf.Length && IsJob(g, name, comp, length, buf.Length) && buf[..comp] == g.pre
    requires 1 <= lpp <= dnptrs.Length && last <= dnptrs.Length && Listed(g.pre, g.list, comp)
    requires g.on == on && g.slots == Slots(on, lpp, last)
    requires if on then EndsAt(dnptrs[..], lpp) && g.list == dnptrs[1..lpp] else g.list == [] && lpp == 1
    modifies buf, dnptrs
    ensures forall k | 0 <= k < buf.Length && !(comp <= k < comp + length) :: buf[k] == old(buf[k])
    ensures forall k | 0 <= k < lpp :: dnptrs[k] == old(dnptrs[k])
    ensures on ==> EndsAt(dnptrs[..], end') && lpp <= end'
    ensures if r >= 0 then Composed(g, buf[..], dnptrs[..], end', r)
            else r == -1 && Failed(g, on && end' > lpp)
  {
    ghost var w: seq<Label>, at, was := [], 0, dnptrs[..];
    var cp: nat, cpp: nat := comp, lpp;
    ProgressStart(g, buf[..], dnptrs[..], cpp);
    var i: nat, step := 0, More;
    while i < |name|
      invariant at == i && Progress(g, i, buf[..], cp, w, dnptrs[..], cpp)
      invariant forall k | 0 <= k < lpp :: dnptrs[k] == was[k]
      invariant forall k | 0 <= k < buf.Length && !(comp <= k < comp + length) :: buf[k] == old(buf[k])
      decreases |name| - i
    {
      var found;
      found, r := SearchAndPoint(name, i, comp, length, buf, cp, on, dnptrs, lpp, cpp, g, w);
      if found {
        return r, cpp;
      }
      at := i;
      step, i, cp, cpp := SaveAndLabel(name, i, comp, length, buf, cp, on, dnptrs, last, lpp, cpp, g, w, was);
      if step.Bad? {
        return -1, lpp;
      }
      if step.Last? {
        break;
      }
      w := w + [ScanLabel(name, at).0];
      at := i;
    }
    r, end' := RootOrRestore(name, at, comp, length, buf, cp, on, dnptrs, lpp, cpp, g, w, was);
  }

  /** The job that the arguments of dn_comp stand for. */
  ghost function JobOf(name: seq<byte>, pre: seq<byte>, length: int, ptrs: seq<int>, last: int, end: nat): Job
    requires |ptrs| > 0 && (ptrs[0] != -1 ==> 1 <= end <= |ptrs|)
  {
    var on := ptrs[0] != -1;
    Job(name, length, pre, if on then ptrs[1..end] else [], on, Slots(on, end, last))
  }

  /** What a success has added to a list that ended at end: where the first labels begin, one entry each. For text
      that ends tidily these are all that were written before the pointer or the end, as far as the array
      has room for them and the NULL. */
  lemma AddedEntries(name: seq<byte>, pre: seq<byte>, length: int, was: seq<int>, last: int, end: nat,
                     buf: seq<byte>, ptrs: seq<int>, end': nat, r: int)
    requires |was| > 0 && was[0] != -1 && 1 <= end <= |was| && Listed(pre, was[1..end], |pre|) && end <= end'
    requires Composed(JobOf(name, pre, length, was, last, end), buf, ptrs, end', r)
    ensures Parse(name, 0).Some? && SavedStarts(ptrs, end, end' - end, |pre|, Parse(name, 0).value)
    ensures Searchable(name, 0) ==>
              var most := if end < last - 1 then last - 1 - end else 0;
              end' - end == Min(Leading(pre, was[1..end], Parse(name, 0).value), most)
  {
    EntriesAdded(JobOf(name, pre, length, was, last, end), ptrs, end');
  }

  lemma EntriesAdded(g: Job, ptrs: seq<int>, end: nat)
    requires Listed(g.pre, g.list, |g.pre|) && Parse(g.name, 0).Some? && EntriesSaved(g, ptrs, end)
    ensures SavedStarts(ptrs, |g.list| + 1, end - |g.list| - 1, |g.pre|, Parse(g.name, 0).value)
    ensures Searchable(g.name, 0) ==>
              end - |g.list| - 1 == Min(Leading(g.pre, g.list, Parse(g.name, 0).value), g.slots)
  {
  }

  /** `dn_comp(name, buf + comp, length, dnptrs, lastdnptr)`. A first slot of -1 stands for no
      compression (dnptrs or *dnptrs NULL); otherwise the earlier names are dnptrs[1..end]. last
      is the index of lastdnptr, -1 when that is NULL. */
  method DnComp(name: seq<byte>, buf: array<byte>, comp: nat, length: int, dnptrs: array<int>, last: int,
                ghost end: nat)
    returns (r: int, ghost end': nat)
    requires NoNul(name) && comp <= buf.Length && comp + length <= buf.Length
    requires dnptrs.Length > 0 && last <= dnptrs.Length
    requires dnptrs[0] != -1 ==> EndsAt(dnptrs[..], end) && Listed(buf[..comp], dnptrs[1..end], comp)
    modifies buf, dnptrs
    ensures forall k | 0 <= k < buf.Length && !(comp <= k < comp + length) :: buf[k] == old(buf[k])
    ensures dnptrs[0] == old(dnptrs[0])
    ensures old(dnptrs[0]) != -1 ==> EndsAt(dnptrs[..], end') && end <= end' && dnptrs[..end] == old(dnptrs[..end])
    ensures var g := old(JobOf(name, buf[..comp], length, dnptrs[..], last, end));
            if r >= 0 then Composed(g, buf[..], dnptrs[..], end', r)
            else r == -1 && Failed(g, g.on && end' > end)
  {
    var on, lpp := dnptrs[0] != -1, 1;
    if on {
      lpp := FindEnd(dnptrs, end);
    }
    ghost var g := JobOf(name, buf[..comp], length, dnptrs[..], last, end);
    assert on ==> dnptrs[..][1..end] == dnptrs[1..end];
    r, end' := ComposeName(name, buf, comp, length, on, dnptrs, last, lpp, g);
  }
}
