/** What names mean, independently of how src/api/res_comp.c reads them: octets as section 4.1.4 of
    RFC 1035 lays them out, and text as a list of plain and escaped characters. The readings in Names
    are shown to be exactly these. */
module NameMeaning {

  import opened Common
  import opened Names
  import opened Expand

  // ---- Octets -------------------------------------------------------------------------------

  /** A name in a message is labels, each after its length, and pointers to where it goes on. */
  datatype Item = Word(l: Label) | Jump(to: nat)

  /** These items stand at p, one after the other, and after the last one a zero. */
  ghost predicate Spelt(msg: seq<byte>, p: nat, items: seq<Item>)
    decreases |items|
  {
    if items == [] then p < |msg| && msg[p] == 0
    else match items[0]
         case Word(l) =>
           && 1 <= |l| <= 63 && p + 1 + |l| <= |msg| && msg[p] == |l| && msg[p + 1..p + 1 + |l|] == l
           && Spelt(msg, p + 1 + |l|, items[1..])
         case Jump(to) =>
           && p + 2 <= |msg| && to < 0x4000 && msg[p] == 0xC0 + to / 0x100 && msg[p + 1] == to % 0x100
           && Spelt(msg, to, items[1..])
  }

  function LabelsOf(items: seq<Item>): seq<Label> {
    if items == [] then []
    else if items[0].Word? then [items[0].l] + LabelsOf(items[1..])
    else LabelsOf(items[1..])
  }

  function Jumps(items: seq<Item>): nat {
    if items == [] then 0 else (if items[0].Jump? then 1 else 0) + Jumps(items[1..])
  }

  /** The octets of the items up to the last pointer. */
  function Passed(items: seq<Item>): (n: nat)
    ensures 2 * Jumps(items) <= n
  {
    if Jumps(items) == 0 then 0 else (if items[0].Word? then |items[0].l| + 1 else 2) + Passed(items[1..])
  }

  /** The octets of the items up to the first pointer, or to the zero at the end. */
  function Occupied(items: seq<Item>): nat {
    if items == [] then 1 else if items[0].Jump? then 2 else |items[0].l| + 1 + Occupied(items[1..])
  }

  lemma {:induction false} SpeltIsDecoded(msg: seq<byte>, p: nat, items: seq<Item>, hops: nat)
    requires Spelt(msg, p, items) && Jumps(items) <= hops
    ensures Decode(msg, p, hops) == Some(Found(LabelsOf(items), Passed(items)))
    ensures WireLength(msg, p) == Some(Occupied(items))
    decreases |items|
  {
    if items != [] {
      match items[0]
      case Word(l) =>
        SpeltIsDecoded(msg, p + 1 + |l|, items[1..], hops);
        WordIsRead(msg, p, l, hops);
      case Jump(to) =>
        SpeltIsDecoded(msg, to, items[1..], hops - 1);
        JumpIsFollowed(msg, p, to, hops);
    }
  }

  lemma WordIsRead(msg: seq<byte>, p: nat, l: Label, hops: nat)
    requires 1 <= |l| <= 63 && p + 1 + |l| <= |msg| && msg[p] == |l| && msg[p + 1..p + 1 + |l|] == l
    requires Decode(msg, p + 1 + |l|, hops).Some? && WireLength(msg, p + 1 + |l|).Some?
    ensures var f := Decode(msg, p + 1 + |l|, hops).value;
            Decode(msg, p, hops) == Some(Found([l] + f.labels, if f.walked == 0 then 0 else f.walked + |l| + 1))
    ensures WireLength(msg, p) == Some(|l| + 1 + WireLength(msg, p + 1 + |l|).value)
  {
  }

  lemma JumpIsFollowed(msg: seq<byte>, p: nat, to: nat, hops: nat)
    requires p + 2 <= |msg| && to < 0x4000 && msg[p] == 0xC0 + to / 0x100 && msg[p + 1] == to % 0x100
    requires hops > 0 && Decode(msg, to, hops - 1).Some?
    ensures var f := Decode(msg, to, hops - 1).value; Decode(msg, p, hops) == Some(Found(f.labels, f.walked + 2))
    ensures WireLength(msg, p) == Some(2)
  {
    assert PointerTarget(msg[p], msg[p + 1]) == to;
  }

  lemma {:induction false} DecodedIsSpelt(msg: seq<byte>, p: nat, hops: nat) returns (items: seq<Item>)
    requires Decode(msg, p, hops).Some?
    ensures Spelt(msg, p, items) && Jumps(items) <= hops
    decreases hops, |msg| - p
  {
    var n := msg[p];
    if n == 0 {
      items := [];
    } else {
      var first, rest;
      if n <= MAXLABEL {
        first := Word(msg[p + 1..p + 1 + n]);
        rest := DecodedIsSpelt(msg, p + 1 + n, hops);
      } else {
        first := Jump(PointerTarget(n, msg[p + 1]));
        rest := DecodedIsSpelt(msg, PointerTarget(n, msg[p + 1]), hops - 1);
      }
      items := [first] + rest;
      assert items[1..] == rest;
    }
  }

  /** The name at p has this text, is no longer than the room, and passes fewer octets than the message has. */
  ghost predicate Reads(msg: seq<byte>, p: nat, room: int, items: seq<Item>) {
    Spelt(msg, p, items) && |Dotted(LabelsOf(items))| < room && Passed(items) < |msg|
  }

  /** dn_expand accepts exactly the names that are spelt in the message with a text that fits and fewer octets
      passed than the message has, prints that text, and __dn_skipname passes what they occupy. */
  lemma AcceptedExactly(msg: seq<byte>, p: nat, room: int)
    ensures Accepted(NameAt(msg, p), room, |msg|) <==> exists items :: Reads(msg, p, room, items)
    ensures forall items | Reads(msg, p, room, items) ::
              NameAt(msg, p).Some? && Render(NameAt(msg, p).value.labels) == Dotted(LabelsOf(items))
              && WireLength(msg, p) == Some(Occupied(items))
  {
    forall items | Reads(msg, p, room, items)
      ensures NameAt(msg, p) == Some(Found(LabelsOf(items), Passed(items)))
      ensures Render(LabelsOf(items)) == Dotted(LabelsOf(items)) && WireLength(msg, p) == Some(Occupied(items))
    {
      SpeltIsDecoded(msg, p, items, |msg|);
      RenderIsDotted(LabelsOf(items));
    }
    if Accepted(NameAt(msg, p), room, |msg|) {
      var items := DecodedIsSpelt(msg, p, |msg|);
      SpeltIsDecoded(msg, p, items, |msg|);
      RenderIsDotted(LabelsOf(items));
      assert Reads(msg, p, room, items);
    }
  }

  // ---- Text out -----------------------------------------------------------------------------

  /** A label with a backslash before each dot. */
  function Escaping(l: Label): seq<byte> {
    if l == [] then [] else (if l[0] == 46 then [92, 46] else [l[0]]) + Escaping(l[1..])
  }

  /** Labels with a dot between each two. */
  function Dotted(labels: seq<Label>): seq<byte> {
    if labels == [] then []
    else if |labels| == 1 then Escaping(labels[0])
    else Escaping(labels[0]) + ([46] + Dotted(labels[1..]))
  }

  lemma {:induction false} EscapeIsEscaping(l: Label)
    ensures Escape(l) == Escaping(l)
    decreases |l|
  {
    if l != [] {
      EscapeIsEscaping(l[1..]);
      EscapeCons(l[0], l[1..]);
      assert l == [l[0]] + l[1..];
    }
  }

  lemma {:induction false} RenderIsDotted(labels: seq<Label>)
    ensures Render(labels) == Dotted(labels)
    decreases |labels|
  {
    if labels != [] {
      assert labels == [labels[0]] + labels[1..];
      EscapeIsEscaping(labels[0]);
      RenderCons(labels[0], labels[1..]);
      RenderIsDotted(labels[1..]);
      assert Escaping(labels[0]) + [] == Escaping(labels[0]);
    }
  }

  // ---- Text in ------------------------------------------------------------------------------

  /** A character of a label as it is typed: plain, or after a backslash. */
  datatype Typed = Plain(c: byte) | Escaped(c: byte)

  /** How many characters of text were typed. */
  function Span(cs: seq<Typed>): nat {
    if cs == [] then 0 else (if cs[0].Plain? then 1 else 2) + Span(cs[1..])
  }

  /** The label they mean. */
  function Meant(cs: seq<Typed>): (l: Label)
    ensures |l| == |cs|
  {
    if cs == [] then [] else [cs[0].c] + Meant(cs[1..])
  }

  /** They stand at name[i]; a dot or a backslash is never plain. */
  ghost predicate TypedAt(name: seq<byte>, i: nat, cs: seq<Typed>)
    decreases |cs|
  {
    if cs == [] then i <= |name|
    else match cs[0]
         case Plain(c) => i < |name| && name[i] == c && c != 46 && c != 92 && TypedAt(name, i + 1, cs[1..])
         case Escaped(c) => i + 1 < |name| && name[i] == 92 && name[i + 1] == c && TypedAt(name, i + 2, cs[1..])
  }

  /** The text from i on is these labels with a dot between each two. After them a last dot may come, and then or
      at once one more dot, which ends an empty label, or a backslash with nothing behind it. */
  ghost predicate TextAt(name: seq<byte>, i: nat, words: seq<seq<Typed>>)
    decreases |words|
  {
    if words == [] then i == |name| || (i + 1 == |name| && (name[i] == 46 || name[i] == 92))
    else
      var e := i + Span(words[0]);
      && 1 <= |words[0]| <= 63 && TypedAt(name, i, words[0])
      && ((|words| == 1 && (e == |name| || (e + 1 == |name| && name[e] == 92)))
          || (e < |name| && name[e] == 46 && TextAt(name, e + 1, words[1..])))
  }

  /** Of those endings, none but the one dot. */
  ghost predicate TidyAt(name: seq<byte>, i: nat, words: seq<seq<Typed>>)
    decreases |words|
  {
    if words == [] then i == |name|
    else
      var e := i + Span(words[0]);
      (|words| == 1 && e == |name|) || (e < |name| && name[e] == 46 && TidyAt(name, e + 1, words[1..]))
  }

  function AllMeant(words: seq<seq<Typed>>): seq<Label> {
    if words == [] then [] else [Meant(words[0])] + AllMeant(words[1..])
  }

  lemma {:induction false} TypedIsScanned(name: seq<byte>, i: nat, cs: seq<Typed>)
    requires TypedAt(name, i, cs)
    ensures var e := i + Span(cs);
            && e <= |name| && ScanLabel(name, i) == (Meant(cs) + ScanLabel(name, e).0, ScanLabel(name, e).1)
            && (Ended(name, i) <==> Ended(name, e))
    decreases |cs|
  {
    if cs == [] {
      assert Meant(cs) + ScanLabel(name, i).0 == ScanLabel(name, i).0;
    } else {
      var k := if cs[0].Plain? then 1 else 2;
      TypedIsScanned(name, i + k, cs[1..]);
      Assoc([cs[0].c], Meant(cs[1..]), ScanLabel(name, i + Span(cs)).0);
    }
  }

  /** A label ends at a dot, at the end, or with a backslash that has nothing behind it. */
  lemma LabelIsScanned(name: seq<byte>, i: nat, cs: seq<Typed>)
    requires TypedAt(name, i, cs)
    ensures var e := i + Span(cs);
            && e <= |name|
            && (e == |name| || name[e] == 46 ==> ScanLabel(name, i) == (Meant(cs), e) && Ended(name, i))
            && (e + 1 == |name| && name[e] == 92 ==> ScanLabel(name, i) == (Meant(cs), e + 1) && !Ended(name, i))
  {
    TypedIsScanned(name, i, cs);
    assert Meant(cs) + [] == Meant(cs);
  }

  /** Text parses to what was meant, and can be searched for exactly if it ends tidily. */
  lemma {:induction false} TextIsParsed(name: seq<byte>, i: nat, words: seq<seq<Typed>>)
    requires TextAt(name, i, words)
    ensures i <= |name| && Parse(name, i) == Some(AllMeant(words)) && (Searchable(name, i) <==> TidyAt(name, i, words))
    decreases |words|
  {
    if words != [] {
      var e := i + Span(words[0]);
      LabelIsScanned(name, i, words[0]);
      if e < |name| && name[e] == 46 {
        TextIsParsed(name, e + 1, words[1..]);
      } else {
        assert AllMeant(words[1..]) == [];
      }
    }
  }

  lemma {:induction false} ScannedIsTyped(name: seq<byte>, i: nat) returns (cs: seq<Typed>)
    requires i <= |name|
    ensures TypedAt(name, i, cs)
    ensures var e := i + Span(cs); e == |name| || (e < |name| && name[e] == 46) || (e + 1 == |name| && name[e] == 92)
    decreases |name| - i
  {
    if i == |name| || name[i] == 46 || (name[i] == 92 && i + 1 == |name|) {
      cs := [];
    } else {
      var first := if name[i] == 92 then Escaped(name[i + 1]) else Plain(name[i]);
      var rest := ScannedIsTyped(name, i + if name[i] == 92 then 2 else 1);
      cs := [first] + rest;
      assert cs[1..] == rest;
    }
  }

  /** And whatever parses is such text. */
  lemma {:induction false} ParsedIsText(name: seq<byte>, i: nat) returns (words: seq<seq<Typed>>)
    requires i <= |name| && Parse(name, i).Some?
    ensures TextAt(name, i, words)
    decreases |name| - i
  {
    words := [];
    if i < |name| {
      var cs := ScannedIsTyped(name, i);
      LabelIsScanned(name, i, cs);
      var e := i + Span(cs);
      if cs != [] {
        var rest := [];
        if e < |name| && name[e] == 46 {
          rest := ParsedIsText(name, e + 1);
        }
        words := [cs] + rest;
        assert words[1..] == rest;
      }
    }
  }

  ghost predicate IsText(name: seq<byte>, words: seq<seq<Typed>>) {
    TextAt(name, 0, words)
  }

  /** dn_comp takes exactly such text, and dn_find such as ends tidily. */
  lemma ParsedExactly(name: seq<byte>)
    ensures Parse(name, 0).Some? <==> exists words :: IsText(name, words)
    ensures forall words | IsText(name, words) ::
              Parse(name, 0) == Some(AllMeant(words)) && (Searchable(name, 0) <==> TidyAt(name, 0, words))
  {
    forall words | IsText(name, words)
      ensures Parse(name, 0) == Some(AllMeant(words)) && (Searchable(name, 0) <==> TidyAt(name, 0, words))
    {
      TextIsParsed(name, 0, words);
    }
    if Parse(name, 0).Some? {
      var words := ParsedIsText(name, 0);
      assert IsText(name, words);
    }
  }
}
