/** Names through dn_comp and back through dn_expand. */
module RoundTrip {
  import opened Common
  import opened Names
  import Expand
  import opened Compress

  lemma {:induction false} WireLengthFrame(a: seq<byte>, b: seq<byte>, start: nat, pos: nat, lim: nat)
    requires start <= pos && lim <= |a| && lim <= |b| && a[..lim] == b[..lim] && Written(a, start, pos, lim).Some?
    ensures WireLength(b, pos) == WireLength(a, pos)
    decreases lim - pos
  {
    assert a[pos] == a[..lim][pos] == b[pos];
    if a[pos] != 0 && a[pos] <= MAXLABEL {
      WireLengthFrame(a, b, start, pos + 1 + a[pos], lim);
    }
  }

  /** A name that dn_comp wrote at |g.pre| in a message: dn_expand there accepts it in any buffer
      that holds its text and a terminator, takes as many octets as dn_comp wrote, and prints the
      very text that dn_comp was given exactly when that text is canonical. */
  lemma NameRoundTrip(g: Job, buf: seq<byte>, ptrs: seq<int>, end: nat, r: int, msg: seq<byte>, room: int)
    requires Listed(g.pre, g.list, |g.pre|) && Succeeded(g, buf, ptrs, end, r)
    requires |g.pre| + r <= |msg| && msg[..|g.pre| + r] == buf[..|g.pre| + r]
    ensures NameAt(msg, |g.pre|).Some? && Some(NameAt(msg, |g.pre|).value.labels) == Parse(g.name, 0)
    ensures WireLength(msg, |g.pre|) == Some(r)
    ensures var text := Render(NameAt(msg, |g.pre|).value.labels);
            && (Expand.Accepted(NameAt(msg, |g.pre|), room, |msg|) <==> |text| < room)
            && (text == g.name <==> Canonical(g.name))
  {
    WrittenFrame(buf, msg, |g.pre|, |g.pre|, |g.pre| + r, |g.pre| + r);
    WrittenIsFound(msg, |g.pre|, |g.pre|, |g.pre| + r, |msg|);
    WireLengthFrame(buf, msg, |g.pre|, |g.pre|, |g.pre| + r);
    TextRoundTrip(g.name, Parse(g.name, 0).value);
  }

  /** Does the name end up pointing at an entry that a pointer can reach, or at none? */
  ghost predicate Reachable(g: Job)
    requires Listed(g.pre, g.list, |g.pre|)
  {
    Parse(g.name, 0).Some? ==> Target(g.pre, Usable(g), Parse(g.name, 0).value) < 0x4000
  }

  /** The harness of the law: compress a name into a message, then expand it again. */
  method CompressThenExpand(name: seq<byte>, buf: array<byte>, comp: nat, length: int, dnptrs: array<int>, last: int,
                            ghost end: nat, out: array<byte>)
    returns (written: int, read: int)
    requires out != buf && NoNul(name) && comp <= buf.Length && comp + length <= buf.Length
    requires dnptrs.Length > 0 && last <= dnptrs.Length
    requires dnptrs[0] != -1 ==> EndsAt(dnptrs[..], end) && Listed(buf[..comp], dnptrs[1..end], comp)
    modifies buf, dnptrs, out
    ensures var g := old(JobOf(name, buf[..comp], length, dnptrs[..], last, end));
            written >= 0 && Reachable(g) && |name| < out.Length && Canonical(name) ==>
              read == written && out[..|name|] == name && out[|name|] == 0
  {
    ghost var g, end' := JobOf(name, buf[..comp], length, dnptrs[..], last, end), 0;
    assert dnptrs[0] != -1 ==> dnptrs[..][1..end] == dnptrs[1..end];
    written, end' := DnComp(name, buf, comp, length, dnptrs, last, end);
    read := -1;
    if written >= 0 {
      read := Expand.DnExpand(buf[..], comp, out, 0, out.Length);
      if Reachable(g) {
        NameRoundTrip(g, buf[..], dnptrs[..], end', written, buf[..], out.Length);
        ghost var text := Render(NameAt(buf[..], comp).value.labels);
        assert read >= 0 ==> out[0..0 + |text|] == out[..|text|];
      }
    }
  }

  // ---- As short as can be -------------------------------------------------------------------

  /** A name written is as short as any: shorter neither in full nor with a pointer to any entry for the rest. */
  lemma WrittenShortest(g: Job, buf: seq<byte>, ptrs: seq<int>, end: nat, r: int, k: nat)
    requires Listed(g.pre, g.list, |g.pre|) && Composed(g, buf, ptrs, end, r) && Searchable(g.name, 0)
    ensures var labels := Parse(g.name, 0).value;
            && ProperLabels(labels) && r <= |Wire(labels)| + 1
            && (Points(g.pre, g.list, labels, k) ==> r <= |Wire(labels[..k])| + 2)
  {
    ParseProper(g.name, 0);
    SizeIsLeast(g.pre, g.list, Parse(g.name, 0).value, k);
  }

  /** And a name with labels is refused only if nothing that could be written fits. */
  lemma RefusedDoesNotFit(g: Job, kept: bool, k: nat)
    requires Listed(g.pre, g.list, |g.pre|) && Failed(g, kept) && Searchable(g.name, 0) && Parse(g.name, 0).Some?
    ensures var labels := Parse(g.name, 0).value;
            && ProperLabels(labels) && g.length < |Wire(labels)| + 1
            && (Points(g.pre, g.list, labels, k) ==> g.length < |Wire(labels[..k])| + 2)
  {
    ParseProper(g.name, 0);
    SizeIsLeast(g.pre, g.list, Parse(g.name, 0).value, k);
  }

  /** The entries of a message are those of any prefix that holds them. */
  lemma ListedInPrefix(buf: seq<byte>, list: seq<int>, lim: nat)
    requires lim <= |buf| && Listed(buf, list, lim)
    ensures Listed(buf[..lim], list, lim)
    ensures forall e <- list :: Written(buf[..lim], e, e, lim) == Written(buf, e, e, lim)
  {
    forall k | 0 <= k < |list|
      ensures 0 <= list[k] < lim && Written(buf[..lim], list[k], list[k], lim) == Written(buf, list[k], list[k], lim)
    {
      WrittenFrame(buf, buf[..lim], list[k], list[k], lim, lim);
    }
  }

  /** Some entry spells these labels. */
  ghost predicate Has(buf: seq<byte>, list: seq<int>, lim: nat, labels: Option<seq<Label>>) {
    lim <= |buf| && exists e <- list :: 0 <= e < lim && Written(buf, e, e, lim) == labels
  }

  /** After a success the labels are spelled by an entry: an earlier one, or the one just saved for them. */
  lemma NowSpelled(g: Job, buf: seq<byte>, ptrs: seq<int>, end: nat, r: int)
    requires Listed(g.pre, g.list, |g.pre|) && Succeeded(g, buf, ptrs, end, r) && EntriesSaved(g, ptrs, end)
    requires g.on && Searchable(g.name, 0) && g.slots > 0 && ptrs[1..|g.list| + 1] == g.list && g.pre == buf[..|g.pre|]
    requires Parse(g.name, 0) != Some([])
    ensures Has(buf, ptrs[1..end], |g.pre| + r, Parse(g.name, 0))
  {
    if Spelled(g.pre, g.list, Parse(g.name, 0).value) {
      SpelledBefore(g, buf, ptrs, end, r);
    } else {
      SpelledNow(g, ptrs, end);
    }
  }

  /** By an earlier entry. */
  lemma SpelledBefore(g: Job, buf: seq<byte>, ptrs: seq<int>, end: nat, r: int)
    requires Listed(g.pre, g.list, |g.pre|) && 0 <= r && |g.pre| + r <= |buf| && |g.list| < end <= |ptrs|
    requires ptrs[1..|g.list| + 1] == g.list && g.pre == buf[..|g.pre|]
    requires Parse(g.name, 0).Some? && Spelled(g.pre, g.list, Parse(g.name, 0).value)
    ensures Has(buf, ptrs[1..end], |g.pre| + r, Parse(g.name, 0))
  {
    var k :| 0 <= k < |g.list| && Written(g.pre, g.list[k], g.list[k], |g.pre|) == Parse(g.name, 0);
    WrittenFrame(g.pre, buf, g.list[k], g.list[k], |g.pre|, |g.pre| + r);
    assert g.list[k] == ptrs[k + 1];
    InSlice(ptrs, k + 1, end);
  }

  /** By the first entry saved: where the name was written. */
  lemma SpelledNow(g: Job, ptrs: seq<int>, end: nat)
    requires Listed(g.pre, g.list, |g.pre|) && Parse(g.name, 0).Some? && EntriesSaved(g, ptrs, end)
    requires Searchable(g.name, 0) && g.slots > 0 && Parse(g.name, 0) != Some([])
    requires !Spelled(g.pre, g.list, Parse(g.name, 0).value)
    ensures |g.pre| in ptrs[1..end]
  {
    assert IsStart(ptrs, |g.list| + 1, |g.pre|, Parse(g.name, 0).value, 0);
    InSlice(ptrs, |g.list| + 1, end);
  }

  lemma InSlice(ptrs: seq<int>, k: nat, end: nat)
    requires 1 <= k < end <= |ptrs|
    ensures ptrs[k] in ptrs[1..end]
  {
    assert ptrs[1..end][k - 1] == ptrs[k];
  }

  /** A name that is listed takes two octets. */
  lemma ListedTakesTwo(g: Job, labels: seq<Label>)
    requires Listed(g.pre, g.list, |g.pre|) && Searchable(g.name, 0) && Parse(g.name, 0) == Some(labels) && labels != []
    requires Has(g.pre, g.list, |g.pre|, Some(labels))
    ensures CompressedSize(g.pre, Usable(g), labels) == 2
  {
    var e :| e in g.list && Written(g.pre, e, e, |g.pre|) == Some(labels);
    var k :| 0 <= k < |g.list| && g.list[k] == e;
    assert Spelled(g.pre, g.list, labels);
  }

  lemma {:induction false} TargetIsBefore(pre: seq<byte>, list: seq<int>, labels: seq<Label>)
    requires Listed(pre, list, |pre|)
    ensures Target(pre, list, labels) < |pre| || Target(pre, list, labels) == -1
    decreases |labels|
  {
    if labels != [] && !Spelled(pre, list, labels) {
      TargetIsBefore(pre, list, labels[1..]);
    }
  }

  /** The message up to at and the list can take another name; and if saved, the list has this one. */
  ghost predicate Again(name: seq<byte>, buf: seq<byte>, at: int, ptrs: seq<int>, end: nat, saved: bool) {
    && 0 <= at <= |buf| && EndsAt(ptrs, end) && Listed(buf[..at], ptrs[1..end], at)
    && (saved && Searchable(name, 0) && Parse(name, 0) != Some([]) ==>
          Has(buf[..at], ptrs[1..end], at, Parse(name, 0)))
  }

  /** What a success leaves for the next call. */
  lemma LeftForNext(g: Job, buf: seq<byte>, ptrs: seq<int>, end: nat, r: int)
    requires Listed(g.pre, g.list, |g.pre|) && Succeeded(g, buf, ptrs, end, r) && EntriesSaved(g, ptrs, end)
    requires g.on && g.pre == buf[..|g.pre|] && ptrs[1..|g.list| + 1] == g.list
    ensures Again(g.name, buf, |g.pre| + r, ptrs, end, g.slots > 0)
  {
    var lim := |g.pre| + r;
    ListedInPrefix(buf, ptrs[1..end], lim);
    if Searchable(g.name, 0) && g.slots > 0 && Parse(g.name, 0) != Some([]) {
      NowSpelled(g, buf, ptrs, end, r);
      var e :| e in ptrs[1..end] && 0 <= e < lim && Written(buf, e, e, lim) == Parse(g.name, 0);
      assert Written(buf[..lim], e, e, lim) == Parse(g.name, 0);
    }
  }

  lemma SecondStart(g: Job, buf: seq<byte>, was: seq<int>, ptrs: seq<int>, end: nat, r: int)
    requires Listed(g.pre, g.list, |g.pre|) && Composed(g, buf, ptrs, end, r) && |g.pre| + r <= 0x4000
    requires g.on && |g.pre| <= |buf| && g.pre == buf[..|g.pre|]
    requires |was| == |g.list| + 1 <= |ptrs| && was[1..] == g.list && ptrs[..|was|] == was
    ensures Again(g.name, buf, |g.pre| + r, ptrs, end, g.slots > 0)
  {
    assert ptrs[1..|was|] == ptrs[..|was|][1..];
    TargetIsBefore(g.pre, Usable(g), Parse(g.name, 0).value);
    LeftForNext(g, buf, ptrs, end, r);
  }

  /** A call for a name that is listed. */
  method CompressListed(name: seq<byte>, buf: array<byte>, comp: nat, length: int, dnptrs: array<int>, last: int,
                        ghost end: nat, ghost saved: bool)
    returns (r: int)
    requires NoNul(name) && comp <= buf.Length && comp + length <= buf.Length
    requires dnptrs.Length > 0 && last <= dnptrs.Length && dnptrs[0] != -1
    requires Again(name, buf[..], comp, dnptrs[..], end, saved)
    modifies buf, dnptrs
    ensures length >= 2 && saved && Searchable(name, 0) && Parse(name, 0).Some? && Parse(name, 0) != Some([]) ==> r == 2
  {
    ghost var g, end' := JobOf(name, buf[..][..comp], length, dnptrs[..], last, end), 0;
    assert dnptrs[..][1..end] == dnptrs[1..end] && buf[..][..comp] == buf[..comp];
    if saved && Searchable(name, 0) && Parse(name, 0).Some? && Parse(name, 0) != Some([]) {
      ListedTakesTwo(g, Parse(name, 0).value);
    }
    r, end' := DnComp(name, buf, comp, length, dnptrs, last, end);
  }

  /** A call after which the name is listed, if there was space to save it. */
  method CompressNew(name: seq<byte>, buf: array<byte>, comp: nat, length: int, dnptrs: array<int>, last: int,
                     ghost end: nat)
    returns (r: int, ghost end': nat)
    requires NoNul(name) && comp <= buf.Length && comp + length <= buf.Length
    requires dnptrs.Length > 0 && last <= dnptrs.Length && dnptrs[0] != -1
    requires EndsAt(dnptrs[..], end) && Listed(buf[..comp], dnptrs[1..end], comp)
    modifies buf, dnptrs
    ensures dnptrs[0] != -1 && (0 <= r ==> Parse(name, 0).Some?)
    ensures 0 <= r && comp + r <= 0x4000 ==> Again(name, buf[..], comp + r, dnptrs[..], end', end < last - 1)
  {
    ghost var g, was := JobOf(name, buf[..comp], length, dnptrs[..], last, end), dnptrs[..end];
    assert dnptrs[..][1..end] == was[1..] && dnptrs[..][1..end] == dnptrs[1..end];
    r, end' := DnComp(name, buf, comp, length, dnptrs, last, end);
    if 0 <= r && comp + r <= 0x4000 {
      ghost var b, d := buf[..], dnptrs[..];
      assert d[..end] == was && b[..comp] == g.pre;
      SecondStart(g, b, was, d, end', r);
    }
  }

  /** Compress a name into a message, and then once more behind it: given space to save it and a place that a
      pointer can reach, the second time takes two octets. */
  method CompressTwice(name: seq<byte>, buf: array<byte>, comp: nat, length: int, dnptrs: array<int>, last: int,
                       ghost end: nat)
    returns (first: int, second: int)
    requires NoNul(name) && comp <= buf.Length && comp + length <= buf.Length
    requires dnptrs.Length > 0 && last <= dnptrs.Length && dnptrs[0] != -1
    requires EndsAt(dnptrs[..], end) && Listed(buf[..comp], dnptrs[1..end], comp)
    modifies buf, dnptrs
    ensures (first >= 0 && comp + first <= 0x4000 && comp + first + 2 <= buf.Length
             && Searchable(name, 0) && Parse(name, 0) != Some([]) && end < last - 1) ==> second == 2
  {
    ghost var end' := 0;
    first, end' := CompressNew(name, buf, comp, length, dnptrs, last, end);
    second := -1;
    if 0 <= first && comp + first <= 0x4000 {
      ghost var saved := end < last - 1;
      second := CompressListed(name, buf, comp + first, buf.Length - comp - first, dnptrs, last, end', saved);
    }
  }
}
