/** Domain names in their three forms: dotted text, a list of labels, and octets in a message
    (sections 3.1 and 4.1.4 of RFC 1035). The definitions here are the meaning that the code of
    src/api/res_comp.c is proved against. */
module Names {
  import opened Common

  type Label = seq<byte>

  const DOT: byte := 46
  const BACKSLASH: byte := 92

  /** The longest label; the two top bits of a length octet mark a pointer. */
  const MAXLABEL: nat := 63
  const INDIR: int := 192

  // ---- Text ---------------------------------------------------------------------------------

  /** A character of a label as dn_expand prints it: a dot is escaped, nothing else is. */
  function EscapeByte(c: byte): seq<byte> {
    if c == DOT then [BACKSLASH, DOT] else [c]
  }

  ghost function EscapeTo(l: Label, n: nat): seq<byte>
    requires n <= |l|
  {
    if n == 0 then [] else EscapeTo(l, n - 1) + EscapeByte(l[n - 1])
  }

  ghost function Escape(l: Label): seq<byte> {
    EscapeTo(l, |l|)
  }

  /** Labels as text, with a dot between each two. */
  ghost function Render(labels: seq<Label>): seq<byte>
    decreases |labels|, 0
  {
    if labels == [] then []
    else RenderBefore(labels[..|labels| - 1]) + Escape(labels[|labels| - 1])
  }

  /** The text of some labels, made ready for one more. */
  ghost function RenderBefore(labels: seq<Label>): seq<byte>
    decreases |labels|, 1
  {
    if labels == [] then [] else Render(labels) + [DOT]
  }

  /** The label that begins at name[i], and the index of the dot that closes it (|name| when
      the end does). A backslash takes the next character literally; one at the end is dropped. */
  ghost function ScanLabel(name: seq<byte>, i: nat): (r: (Label, nat))
    requires i <= |name|
    ensures i <= r.1 <= |name| && |r.0| <= r.1 - i
    ensures r.1 < |name| ==> name[r.1] == DOT
    ensures i < |name| && r.1 == i ==> r.0 == [] && name[i] == DOT
    decreases |name| - i
  {
    if i == |name| || name[i] == DOT then ([], i)
    else if name[i] == BACKSLASH then
      if i + 1 == |name| then ([], i + 1)
      else var (l, e) := ScanLabel(name, i + 2); ([name[i + 1]] + l, e)
    else var (l, e) := ScanLabel(name, i + 1); ([name[i]] + l, e)
  }

  /** Where the text after a label begins. */
  function Next(name: seq<byte>, e: nat): nat
    requires e <= |name|
  {
    if e < |name| then e + 1 else e
  }

  /** The labels of name[i..], or None when one is empty or too long. An empty last label is
      not an error: "a.", "a.." and "." all end that way. */
  ghost function Parse(name: seq<byte>, i: nat): Option<seq<Label>>
    requires i <= |name|
    decreases |name| - i
  {
    if i == |name| then Some([])
    else
      var (l, e) := ScanLabel(name, i);
      if l == [] && Next(name, e) == |name| then Some([])
      else if l == [] || |l| > MAXLABEL then None
      else match Parse(name, Next(name, e))
           case None => None
           case Some(rest) => Some([l] + rest)
  }

  ghost predicate ProperLabels(labels: seq<Label>) {
    forall i | 0 <= i < |labels| :: 1 <= |labels[i]| <= MAXLABEL
  }

  lemma {:induction false} ParseProper(name: seq<byte>, i: nat)
    requires i <= |name| && Parse(name, i).Some?
    ensures ProperLabels(Parse(name, i).value)
    decreases |name| - i
  {
    if i < |name| {
      var (l, e) := ScanLabel(name, i);
      if !(l == [] && Next(name, e) == |name|) {
        ParseProper(name, Next(name, e));
      }
    }
  }

  ghost predicate NoNul(s: seq<byte>) {
    forall i | 0 <= i < |s| :: s[i] != 0
  }

  ghost predicate NoNulIn(labels: seq<Label>) {
    forall i | 0 <= i < |labels| :: NoNul(labels[i])
  }

  /** The label at name[i] does not end in a lone backslash. */
  ghost predicate Ended(name: seq<byte>, i: nat)
    requires i <= |name|
    decreases |name| - i
  {
    if i == |name| || name[i] == DOT then true
    else if name[i] == BACKSLASH then i + 1 < |name| && Ended(name, i + 2)
    else Ended(name, i + 1)
  }

  /** What the search for earlier names needs: the text ends neither in a lone backslash nor in an
      empty label, which dn_comp drops and dn_find does not. */
  ghost predicate Searchable(name: seq<byte>, i: nat)
    requires i <= |name|
    decreases |name| - i
  {
    i == |name| ||
      var (l, e) := ScanLabel(name, i);
      Ended(name, i) && !(l == [] && Next(name, e) == |name|) && Searchable(name, Next(name, e))
  }

  // ---- Octets -------------------------------------------------------------------------------

  function PointerTarget(hi: byte, lo: byte): nat
    requires hi >= INDIR
  {
    (hi - INDIR) * 256 + lo as int
  }

  /** A name found in a message: its labels, and how many octets of labels and pointers are
      passed up to its last pointer (0 when it has none). */
  datatype Found = Found(labels: seq<Label>, walked: nat)

  /** The name at pos, following at most hops pointers. */
  ghost function Decode(msg: seq<byte>, pos: nat, hops: nat): Option<Found>
    decreases hops, |msg| - pos
  {
    if pos >= |msg| then None
    else
      var n := msg[pos];
      if n == 0 then Some(Found([], 0))
      else if n <= MAXLABEL then
        if pos + 1 + n > |msg| then None
        else match Decode(msg, pos + 1 + n, hops)
             case None => None
             case Some(f) =>
               Some(Found([msg[pos + 1..pos + 1 + n]] + f.labels, if f.walked == 0 then 0 else f.walked + n + 1))
      else if n < INDIR || pos + 1 >= |msg| || hops == 0 then None
      else match Decode(msg, PointerTarget(n, msg[pos + 1]), hops - 1)
           case None => None
           case Some(f) => Some(Found(f.labels, f.walked + 2))
  }

  /** More pointers than octets cannot all be different, so |msg| hops decide. */
  ghost function NameAt(msg: seq<byte>, pos: nat): Option<Found> {
    Decode(msg, pos, |msg|)
  }

  /** The octets that a name occupies where it stands: its own labels, and then its terminator
      or its first pointer. A message that ends first ends the name; None for an illegal octet. */
  ghost function WireLength(msg: seq<byte>, pos: nat): Option<nat>
    decreases |msg| - pos
  {
    if pos >= |msg| then Some(0)
    else if msg[pos] == 0 then Some(1)
    else if msg[pos] <= MAXLABEL then
      match WireLength(msg, pos + 1 + msg[pos])
      case None => None
      case Some(n) => Some(1 + msg[pos] + n)
    else if msg[pos] < INDIR then None
    else Some(2)
  }

  // ---- Text and labels ----------------------------------------------------------------------

  lemma {:induction false} EscapeToCons(c: byte, l: Label, n: nat)
    requires n <= |l|
    ensures EscapeTo([c] + l, n + 1) == EscapeByte(c) + EscapeTo(l, n)
  {
    assert ([c] + l)[n] == if n == 0 then c else l[n - 1];
    if n == 0 {
      assert EscapeTo([c] + l, 0) == [];
    } else {
      EscapeToCons(c, l, n - 1);
      Assoc(EscapeByte(c), EscapeTo(l, n - 1), EscapeByte(l[n - 1]));
    }
  }

  lemma EscapeCons(c: byte, l: Label)
    ensures Escape([c] + l) == EscapeByte(c) + Escape(l)
  {
    EscapeToCons(c, l, |l|);
  }

  lemma {:induction false} EscapeToLength(l: Label, n: nat)
    requires n <= |l|
    ensures n <= |EscapeTo(l, n)| <= 2 * n
    ensures |EscapeTo(l, n)| + |l| - n <= |Escape(l)|
    decreases |l| - n, n
  {
    EscapeToBounds(l, n);
    if n < |l| {
      EscapeToLength(l, n + 1);
    }
  }

  lemma {:induction false} EscapeToBounds(l: Label, n: nat)
    requires n <= |l|
    ensures n <= |EscapeTo(l, n)| <= 2 * n
  {
    if n > 0 {
      EscapeToBounds(l, n - 1);
    }
  }

  lemma EscapeLength(l: Label)
    ensures |l| <= |Escape(l)| <= 2 * |l|
  {
    EscapeToBounds(l, |l|);
  }

  lemma RenderSnoc(labels: seq<Label>, l: Label)
    ensures Render(labels + [l]) == RenderBefore(labels) + Escape(l)
  {
    assert (labels + [l])[..|labels|] == labels;
  }

  /** The text that follows a first label. */
  ghost function RenderAfter(rest: seq<Label>): seq<byte> {
    if rest == [] then [] else [DOT] + Render(rest)
  }

  /** The same text, built from the front. */
  lemma {:induction false} RenderCons(l: Label, rest: seq<Label>)
    ensures Render([l] + rest) == Escape(l) + RenderAfter(rest)
    decreases |rest|
  {
    if rest == [] {
      RenderOne(l);
      assert [l] + rest == [l] && Escape(l) + [] == Escape(l);
    } else {
      var init, last := rest[..|rest| - 1], rest[|rest| - 1];
      assert rest == init + [last];
      RenderCons(l, init);
      RenderConsStep(l, init, last);
    }
  }

  lemma RenderOne(l: Label)
    ensures Render([l]) == Escape(l)
  {
    RenderSnoc([], l);
    assert [] + [l] == [l] && [] + Escape(l) == Escape(l);
  }

  lemma ShiftDot(init: seq<Label>)
    ensures RenderAfter(init) + [DOT] == [DOT] + RenderBefore(init)
  {
    if init != [] {
      Assoc([DOT], Render(init), [DOT]);
    }
  }

  lemma Regroup(x: seq<byte>, e: seq<byte>, a: seq<byte>, b: seq<byte>, dot: seq<byte>, l: seq<byte>)
    requires x == e + a && a + dot == dot + b
    ensures (x + dot) + l == e + (dot + (b + l))
  {
    assert (x + dot) + l == e + (a + dot) + l;
  }

  lemma RenderConsStep(l: Label, init: seq<Label>, last: Label)
    requires Render([l] + init) == Escape(l) + RenderAfter(init)
    ensures Render([l] + (init + [last])) == Escape(l) + RenderAfter(init + [last])
  {
    Assoc([l], init, [last]);
    RenderSnoc([l] + init, last);
    RenderSnoc(init, last);
    ShiftDot(init);
    Regroup(Render([l] + init), Escape(l), RenderAfter(init), RenderBefore(init), [DOT], Escape(last));
  }

  // ---- When text survives the trip through labels -------------------------------------------

  ghost predicate DotsEscaped(name: seq<byte>, i: nat, e: nat)
    requires i <= e <= |name|
  {
    forall k | i <= k < e && name[k] == BACKSLASH :: k + 1 < |name| && name[k + 1] == DOT
  }

  /** What a caller can check before the call: every backslash escapes a dot, and an unescaped
      dot does not come last. */
  ghost predicate CanonicalFrom(name: seq<byte>, i: nat)
    requires i <= |name|
  {
    && DotsEscaped(name, i, |name|)
    && (i < |name| && name[|name| - 1] == DOT ==> i + 2 <= |name| && name[|name| - 2] == BACKSLASH)
  }

  ghost predicate Canonical(name: seq<byte>) {
    CanonicalFrom(name, 0)
  }

  ghost predicate NoBackslash(labels: seq<Label>) {
    forall i | 0 <= i < |labels| :: BACKSLASH !in labels[i]
  }

  /** One label's text: printed back it is the same when every backslash in it escapes a dot,
      and shorter otherwise. */
  ghost predicate PrintsBack(name: seq<byte>, i: nat, l: Label, e: nat)
    requires i <= e <= |name|
  {
    if DotsEscaped(name, i, e) then Escape(l) == name[i..e] else |Escape(l)| < e - i
  }

  lemma PrintsBackPlain(name: seq<byte>, i: nat, l: Label, e: nat)
    requires i < e <= |name| && name[i] != DOT && name[i] != BACKSLASH
    requires PrintsBack(name, i + 1, l, e)
    ensures PrintsBack(name, i, [name[i]] + l, e)
  {
    EscapeCons(name[i], l);
    if DotsEscaped(name, i, e) {
      assert name[i..e] == [name[i]] + name[i + 1..e];
    } else {
      assert !DotsEscaped(name, i + 1, e);
    }
  }

  lemma PrintsBackEscaped(name: seq<byte>, i: nat, l: Label, e: nat)
    requires i + 2 <= e <= |name| && name[i] == BACKSLASH
    requires PrintsBack(name, i + 2, l, e)
    ensures PrintsBack(name, i, [name[i + 1]] + l, e)
  {
    EscapeCons(name[i + 1], l);
    if DotsEscaped(name, i, e) {
      assert name[i..e] == [BACKSLASH, DOT] + name[i + 2..e];
    } else if name[i + 1] == DOT {
      assert !DotsEscaped(name, i + 2, e);
    } else {
      assert DotsEscaped(name, i + 2, e) ==> |Escape(l)| == e - i - 2;
    }
  }

  lemma {:induction false} ScanText(name: seq<byte>, i: nat)
    requires i <= |name|
    ensures PrintsBack(name, i, ScanLabel(name, i).0, ScanLabel(name, i).1)
    decreases |name| - i
  {
    if i == |name| || name[i] == DOT || (name[i] == BACKSLASH && i + 1 == |name|) {
    } else if name[i] == BACKSLASH {
      ScanText(name, i + 2);
      PrintsBackEscaped(name, i, ScanLabel(name, i + 2).0, ScanLabel(name, i).1);
    } else {
      ScanText(name, i + 1);
      PrintsBackPlain(name, i, ScanLabel(name, i + 1).0, ScanLabel(name, i).1);
    }
  }

  lemma {:induction false} ScanNoBackslash(name: seq<byte>, i: nat)
    requires i <= |name| && DotsEscaped(name, i, ScanLabel(name, i).1)
    ensures BACKSLASH !in ScanLabel(name, i).0
    ensures i < ScanLabel(name, i).1 < |name| ==> name[ScanLabel(name, i).1 - 1] != BACKSLASH
    decreases |name| - i
  {
    if i == |name| || name[i] == DOT || (name[i] == BACKSLASH && i + 1 == |name|) {
    } else if name[i] == BACKSLASH {
      ScanNoBackslash(name, i + 2);
    } else {
      ScanNoBackslash(name, i + 1);
    }
  }

  lemma {:induction false} ScanInnerDots(name: seq<byte>, i: nat, k: nat)
    requires i <= |name| && i <= k < ScanLabel(name, i).1 && name[k] == DOT
    ensures i < k && name[k - 1] == BACKSLASH
    decreases |name| - i
  {
    if name[i] == BACKSLASH {
      if i + 2 <= k {
        ScanInnerDots(name, i + 2, k);
      }
    } else if i < k {
      ScanInnerDots(name, i + 1, k);
    }
  }

  /** Canonical text is a canonical label, and if a dot follows it, canonical text after that. */
  lemma CanonicalSplit(name: seq<byte>, i: nat)
    requires i < |name|
    ensures var e := ScanLabel(name, i).1;
            CanonicalFrom(name, i) <==>
              DotsEscaped(name, i, e) && (e < |name| ==> Next(name, e) < |name| && CanonicalFrom(name, e + 1))
  {
    var e := ScanLabel(name, i).1;
    if DotsEscaped(name, i, e) {
      ScanNoBackslash(name, i);
      if e == |name| && name[|name| - 1] == DOT {
        ScanInnerDots(name, i, |name| - 1);
      }
    }
  }

  /** Text printed back from its labels is the same when canonical, and shorter otherwise. */
  lemma {:induction false} TextRoundTripFrom(name: seq<byte>, i: nat, labels: seq<Label>)
    requires i <= |name| && Parse(name, i) == Some(labels)
    ensures if CanonicalFrom(name, i) then Render(labels) == name[i..] else |Render(labels)| < |name| - i
    ensures CanonicalFrom(name, i) ==> NoBackslash(labels)
    decreases |name| - i
  {
    if i < |name| {
      var (l, e) := ScanLabel(name, i);
      var j := Next(name, e);
      ScanText(name, i);
      CanonicalSplit(name, i);
      if l == [] && j == |name| {
        assert Render(labels) == [];
      } else {
        var rest := labels[1..];
        assert labels == [l] + rest && Parse(name, j) == Some(rest);
        TextRoundTripFrom(name, j, rest);
        RenderCons(l, rest);
        TextRoundTripStep(name, i, e, l, rest);
        if CanonicalFrom(name, i) {
          ScanNoBackslash(name, i);
        }
      }
    }
  }

  lemma TextRoundTripStep(name: seq<byte>, i: nat, e: nat, l: Label, rest: seq<Label>)
    requires i <= e <= |name| && (e < |name| ==> name[e] == DOT)
    ensures e < |name| && Escape(l) == name[i..e] && Next(name, e) < |name| && Render(rest) == name[e + 1..] ==>
              Escape(l) + RenderAfter(rest) == name[i..]
    ensures e == |name| && rest == [] && Escape(l) == name[i..e] ==> Escape(l) + RenderAfter(rest) == name[i..]
    ensures |RenderAfter(rest)| == (if rest == [] then 0 else 1 + |Render(rest)|)
  {
    if e < |name| {
      assert name[i..] == name[i..e] + ([DOT] + name[e + 1..]);
    }
  }

  /** A name given to dn_comp comes back from dn_expand unchanged exactly when it is canonical. */
  lemma TextRoundTrip(name: seq<byte>, labels: seq<Label>)
    requires Parse(name, 0) == Some(labels)
    ensures Render(labels) == name <==> Canonical(name)
  {
    TextRoundTripFrom(name, 0, labels);
    assert name[0..] == name;
  }

  /** One character of printed text is scanned as that character. */
  lemma ScanStep(name: seq<byte>, i: nat, c: byte, l: Label, e: nat)
    requires c != BACKSLASH && i + |EscapeByte(c)| <= |name|
    requires forall k | 0 <= k < |EscapeByte(c)| :: name[i + k] == EscapeByte(c)[k]
    requires ScanLabel(name, i + |EscapeByte(c)|) == (l, e)
    ensures ScanLabel(name, i) == ([c] + l, e)
  {
    assert name[i] == EscapeByte(c)[0];
    if c == DOT {
      assert name[i + 1] == EscapeByte(c)[1];
    }
  }

  /** A label without a backslash is scanned back from its printed text. */
  lemma {:induction false} ScanEscape(name: seq<byte>, i: nat, l: Label, e: nat)
    requires BACKSLASH !in l && i <= e <= |name| && name[i..e] == Escape(l) && (e == |name| || name[e] == DOT)
    ensures ScanLabel(name, i) == (l, e)
    decreases |l|
  {
    if l == [] {
      assert Escape(l) == [];
    } else {
      var c, rest := l[0], l[1..];
      var k := |EscapeByte(c)|;
      assert l == [c] + rest;
      EscapeCons(c, rest);
      SplitSlice(name, i, e, EscapeByte(c), Escape(rest));
      ScanEscape(name, i + k, rest, e);
      ScanStep(name, i, c, rest, e);
    }
  }

  lemma SplitSlice(name: seq<byte>, i: nat, e: nat, a: seq<byte>, b: seq<byte>)
    requires i <= e <= |name| && name[i..e] == a + b
    ensures i + |a| <= e && name[i..i + |a|] == a && name[i + |a|..e] == b
    ensures forall k | 0 <= k < |a| :: name[i + k] == a[k]
  {
    var w := name[i..e];
    forall k | 0 <= k < |a| ensures name[i + k] == a[k] {
      assert w[k] == name[i + k];
    }
    assert name[i..i + |a|] == a;
    SubSlice(name, i, e, |a|, e - i);
    assert w[|a|..e - i] == b;
  }

  /** A first label is parsed back, given that the rest is. */
  lemma ParseFirst(name: seq<byte>, i: nat, l: Label, e: nat, rest: seq<Label>)
    requires 1 <= |l| <= MAXLABEL && BACKSLASH !in l && i < e <= |name| && name[i..e] == Escape(l)
    requires if rest == [] then e == |name|
             else e + 1 < |name| && name[e] == DOT && Parse(name, e + 1) == Some(rest)
    ensures Parse(name, i) == Some([l] + rest)
  {
    ScanEscape(name, i, l, e);
  }

  /** Where the printed text of a first label ends. */
  lemma FirstText(name: seq<byte>, i: nat, l: Label, rest: seq<Label>) returns (e: nat)
    requires l != [] && i <= |name| && name[i..|name|] == Escape(l) + RenderAfter(rest)
    ensures i < e <= |name| && name[i..e] == Escape(l)
    ensures if rest == [] then e == |name| else e < |name| && name[e] == DOT && name[e + 1..|name|] == Render(rest)
  {
    EscapeLength(l);
    var text, after := Escape(l), RenderAfter(rest);
    e := i + |text|;
    SplitSlice(name, i, |name|, text, after);
    if rest == [] {
      assert after == [];
    } else {
      AfterText(name, e, rest);
    }
  }

  lemma AfterText(name: seq<byte>, e: nat, rest: seq<Label>)
    requires rest != [] && e <= |name| && name[e..|name|] == RenderAfter(rest)
    ensures e < |name| && name[e] == DOT && name[e + 1..|name|] == Render(rest)
  {
    SplitSlice(name, e, |name|, [DOT], Render(rest));
    assert name[e + 0] == [DOT][0];
  }

  lemma {:induction false} ParseRender(name: seq<byte>, i: nat, labels: seq<Label>)
    requires ProperLabels(labels) && NoBackslash(labels)
    requires i <= |name| && name[i..|name|] == Render(labels)
    ensures Parse(name, i) == Some(labels)
    decreases |labels|
  {
    if labels == [] {
      assert i == |name|;
    } else {
      var l, rest := labels[0], labels[1..];
      assert labels == [l] + rest;
      RenderCons(l, rest);
      var e := FirstText(name, i, l, rest);
      if rest != [] {
        ParseRender(name, e + 1, rest);
        RenderHasText(rest);
      }
      ParseFirst(name, i, l, e, rest);
    }
  }

  lemma RenderHasText(labels: seq<Label>)
    requires labels != [] && ProperLabels(labels)
    ensures Render(labels) != []
  {
    EscapeLength(labels[|labels| - 1]);
  }

  // ---- C strings ----------------------------------------------------------------------------

  /** Where the C string that starts a text ends: at its first NUL, or at its end. */
  ghost function NulAt(text: seq<byte>, i: nat): (n: nat)
    requires i <= |text|
    ensures i <= n <= |text| && (n < |text| ==> text[n] == 0) && forall k | i <= k < n :: text[k] != 0
    decreases |text| - i
  {
    if i == |text| || text[i] == 0 then i else NulAt(text, i + 1)
  }

  /** What a reader of C strings sees of a text. */
  ghost function CString(text: seq<byte>): seq<byte> {
    text[..NulAt(text, 0)]
  }

  lemma {:induction false} ScanNoNul(name: seq<byte>, i: nat)
    requires i <= |name| && NoNul(name)
    ensures NoNul(ScanLabel(name, i).0)
    decreases |name| - i
  {
    if i == |name| || name[i] == DOT || (name[i] == BACKSLASH && i + 1 == |name|) {
    } else if name[i] == BACKSLASH {
      ScanNoNul(name, i + 2);
    } else {
      ScanNoNul(name, i + 1);
    }
  }

  lemma {:induction false} ParseNoNul(name: seq<byte>, i: nat)
    requires i <= |name| && NoNul(name) && Parse(name, i).Some?
    ensures NoNulIn(Parse(name, i).value)
    decreases |name| - i
  {
    if i < |name| {
      var (l, e) := ScanLabel(name, i);
      ScanNoNul(name, i);
      if !(l == [] && Next(name, e) == |name|) {
        ParseNoNul(name, Next(name, e));
      }
    }
  }

  lemma {:induction false} EscapeToNoNul(l: Label, n: nat)
    requires n <= |l| && NoNul(l)
    ensures NoNul(EscapeTo(l, n))
  {
    if n > 0 {
      EscapeToNoNul(l, n - 1);
    }
  }

  lemma {:induction false} RenderNoNul(labels: seq<Label>)
    requires NoNulIn(labels)
    ensures NoNul(Render(labels))
    decreases |labels|
  {
    if labels != [] {
      var init, last := labels[..|labels| - 1], labels[|labels| - 1];
      RenderNoNul(init);
      EscapeToNoNul(last, |last|);
    }
  }

  /** A name printed by dn_expand is read back by dn_comp, which reads a C string, as the same labels
      exactly when no label contains a backslash or a NUL. */
  lemma LabelRoundTrip(labels: seq<Label>)
    requires ProperLabels(labels)
    ensures Parse(CString(Render(labels)), 0) == Some(labels) <==> NoBackslash(labels) && NoNulIn(labels)
  {
    var text := Render(labels);
    if NoNulIn(labels) {
      RenderNoNul(labels);
      assert CString(text) == text;
      if NoBackslash(labels) {
        assert text[0..|text|] == text;
        ParseRender(text, 0, labels);
      }
      if Parse(text, 0) == Some(labels) {
        TextRoundTripFrom(text, 0, labels);
      }
    } else if Parse(CString(text), 0).Some? {
      ParseNoNul(CString(text), 0);
    }
  }

  /** A NUL inside a label cuts the text short: of "a", NUL, "b" only "a" is read back. */
  lemma NulCutsLabel()
    ensures var l: Label := [97, 0, 98];
            ProperLabels([l]) && NoBackslash([l]) && Parse(CString(Render([l])), 0) == Some([[97]])
  {
    var l: Label, a: Label := [97, 0, 98], [97];
    RenderOne(l);
    assert EscapeTo(l, 1) == [97] && EscapeTo(l, 2) == [97, 0] && EscapeTo(l, 3) == l;
    assert Render([l]) == l;
    assert NulAt(l, 1) == 1 && NulAt(l, 0) == 1;
    assert CString(l) == a;
    assert a + [] == a && [a] + [] == [a];
    assert ScanLabel(a, 1) == ([], 1);
    assert ScanLabel(a, 0) == (a, 1);
  }
}
