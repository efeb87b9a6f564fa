/** getanswer for a forward query and makehostent (src/api/gethostnamadr.c): from a DNS response to
    a host entry. The host entry's strings and addresses are written one after the other into a
    buffer of 512 bytes; pointers into it are offsets. */
module Answer {

  import opened Common
  import opened Names
  import opened Expand

  const HFIXEDSZ: nat := 12
  const QFIXEDSZ: nat := 4
  const RRFIXEDSZ: nat := 10
  const T_A: nat := 1
  const T_CNAME: nat := 5
  const MOST: nat := 34        // MAXALIASES - 1 and MAXADDRS - 1: the counts start at 1
  const HOSTBUF: nat := 512
  const SLACK: nat := 3        // what an aligned copy may read past the buffer

  function Be16(msg: seq<byte>, p: nat): nat
    requires p + 2 <= |msg|
  {
    msg[p] as int * 0x100 + msg[p + 1]
  }

  function Be32(msg: seq<byte>, p: nat): nat
    requires p + 4 <= |msg|
  {
    Be16(msg, p) * 0x1_0000 + Be16(msg, p + 2)
  }

  // ---- Resource records ---------------------------------------------------------------------

  /** A record: its owner name is at at, its fixed fields at head, its data len octets after them. */
  datatype Rec = Rec(at: nat, head: nat, kind: nat, cls: nat, ttl: nat, len: nat)

  function Data(r: Rec): nat {
    r.head + RRFIXEDSZ
  }

  function After(r: Rec): nat {
    Data(r) + r.len
  }

  /** The message has this record's name and fixed fields; its data may still run past the end. */
  ghost predicate IsRec(msg: seq<byte>, r: Rec) {
    && r.at <= r.head && Data(r) <= |msg|
    && NameAt(msg, r.at).Some? && WireLength(msg, r.at) == Some(r.head - r.at)
    && r.kind == Be16(msg, r.head) && r.cls == Be16(msg, r.head + 2)
    && r.ttl == Be32(msg, r.head + 4) && r.len == Be16(msg, r.head + 8)
  }

  ghost predicate AllInside(msg: seq<byte>, recs: seq<Rec>) {
    forall k | 0 <= k < |recs| :: IsRec(msg, recs[k]) && After(recs[k]) <= |msg|
  }

  /** The records follow one another from start on, all inside the message. */
  ghost predicate Walk(msg: seq<byte>, start: nat, recs: seq<Rec>) {
    && AllInside(msg, recs)
    && (forall k | 0 <= k < |recs| :: Follows(start, recs, k))
  }

  ghost predicate Follows(start: nat, recs: seq<Rec>, k: nat)
    requires k < |recs|
  {
    recs[k].at == if k == 0 then start else After(recs[k - 1])
  }

  function EndOf(start: nat, recs: seq<Rec>): nat {
    if recs == [] then start else After(recs[|recs| - 1])
  }

  /** The canonical-name records, in order. */
  function Cnames(recs: seq<Rec>): seq<Rec> {
    if recs == [] then []
    else
      var r, before := recs[|recs| - 1], Cnames(recs[..|recs| - 1]);
      if r.kind == T_CNAME then before + [r] else before
  }

  /** The address records of four octets that have the class of the first of them, in order. */
  function Addresses(recs: seq<Rec>): (m: seq<Rec>)
    ensures forall k | 0 <= k < |m| :: m[k].kind == T_A && m[k].len == 4 && m[k].cls == m[0].cls
  {
    if recs == [] then []
    else
      var r, before := recs[|recs| - 1], Addresses(recs[..|recs| - 1]);
      if r.kind == T_A && r.len == 4 && (before == [] || r.cls == before[0].cls) then before + [r] else before
  }

  function MinTtl(recs: seq<Rec>): nat {
    if recs == [] then 0xFFFF_FFFF else Min(MinTtl(recs[..|recs| - 1]), recs[|recs| - 1].ttl)
  }

  /** MinTtl is the least of them. */
  lemma {:induction false} MinTtlIsLeast(recs: seq<Rec>, k: nat)
    requires k < |recs| && forall j | 0 <= j < |recs| :: recs[j].ttl <= 0xFFFF_FFFF
    ensures MinTtl(recs) <= recs[k].ttl && exists j | 0 <= j < |recs| :: recs[j].ttl == MinTtl(recs)
  {
    var before := recs[..|recs| - 1];
    if |before| > 0 {
      MinTtlIsLeast(before, if k < |before| then k else 0);
      var j :| 0 <= j < |before| && before[j].ttl == MinTtl(before);
      assert recs[j].ttl == MinTtl(before);
      assert k < |before| ==> recs[k] == before[k];
    }
    assert recs[|recs| - 1].ttl >= MinTtl(recs);
  }

  // ---- Strings in the buffer ----------------------------------------------------------------

  /** The text of a record's owner name, as a C string sees it. */
  ghost function NameOf(msg: seq<byte>, r: Rec): seq<byte>
    requires IsRec(msg, r)
  {
    CString(Render(NameAt(msg, r.at).value.labels))
  }

  ghost predicate HoldsString(o: seq<byte>, at: nat, text: seq<byte>) {
    at + |text| < |o| && o[at..at + |text|] == text && o[at + |text|] == 0 && forall b <- text :: b != 0
  }

  ghost predicate HoldsBytes(o: seq<byte>, at: nat, bytes: seq<byte>) {
    at + |bytes| <= |o| && o[at..at + |bytes|] == bytes
  }

  /** What the host entry points at, in the committed part o of the buffer, after the records recs. */
  ghost predicate Filled(msg: seq<byte>, recs: seq<Rec>, o: seq<byte>, name: nat, aliases: seq<nat>, addrs: seq<nat>) {
    && AllInside(msg, recs)
    && AliasesHeld(msg, Cnames(recs), o, aliases)
    && AddressesHeld(msg, Addresses(recs), o, name, addrs)
  }

  ghost predicate AliasesHeld(msg: seq<byte>, cn: seq<Rec>, o: seq<byte>, aliases: seq<nat>) {
    && |aliases| == Min(MOST, |cn|)
    && forall k | 0 <= k < |aliases| :: IsRec(msg, cn[k]) && HoldsString(o, aliases[k], NameOf(msg, cn[k]))
  }

  ghost predicate AddressesHeld(msg: seq<byte>, m: seq<Rec>, o: seq<byte>, name: nat, addrs: seq<nat>) {
    && |addrs| == Min(MOST, |m|)
    && (m != [] ==> IsRec(msg, m[0]) && HoldsString(o, name, NameOf(msg, m[0])))
    && forall k | 0 <= k < |addrs| ::
         Data(m[k]) + 4 <= |msg| && HoldsBytes(o, addrs[k], msg[Data(m[k])..Data(m[k]) + 4])
  }

  lemma Grows(msg: seq<byte>, o: seq<byte>, more: seq<byte>, cn: seq<Rec>, aliases: seq<nat>, m: seq<Rec>, name: nat,
              addrs: seq<nat>)
    ensures AliasesHeld(msg, cn, o, aliases) ==> AliasesHeld(msg, cn, o + more, aliases)
    ensures AddressesHeld(msg, m, o, name, addrs) ==> AddressesHeld(msg, m, o + more, name, addrs)
  {
    if AliasesHeld(msg, cn, o, aliases) {
      forall k | 0 <= k < |aliases|
        ensures HoldsString(o + more, aliases[k], NameOf(msg, cn[k]))
      {
        StringGrows(o, more, aliases[k], NameOf(msg, cn[k]));
      }
    }
    if AddressesHeld(msg, m, o, name, addrs) {
      if m != [] {
        StringGrows(o, more, name, NameOf(msg, m[0]));
      }
      forall k | 0 <= k < |addrs|
        ensures HoldsBytes(o + more, addrs[k], msg[Data(m[k])..Data(m[k]) + 4])
      {
        BytesGrow(o, more, addrs[k], msg[Data(m[k])..Data(m[k]) + 4]);
      }
    }
  }

  lemma StringGrows(o: seq<byte>, more: seq<byte>, at: nat, text: seq<byte>)
    requires HoldsString(o, at, text)
    ensures HoldsString(o + more, at, text)
  {
    assert (o + more)[at..at + |text|] == o[at..at + |text|];
  }

  lemma BytesGrow(o: seq<byte>, more: seq<byte>, at: nat, bytes: seq<byte>)
    requires HoldsBytes(o, at, bytes)
    ensures HoldsBytes(o + more, at, bytes)
  {
    assert (o + more)[at..at + |bytes|] == o[at..at + |bytes|];
  }

  lemma JustWritten(o: seq<byte>, text: seq<byte>)
    requires forall b <- text :: b != 0
    ensures HoldsString(o + (text + [0]), |o|, text) && HoldsBytes(o + text, |o|, text)
  {
    var w := o + (text + [0]);
    assert w[|o|..|o| + |text|] == text;
    assert (o + text)[|o|..|o| + |text|] == text;
  }

  // What each kind of record adds.

  lemma Snoc(recs: seq<Rec>, r: Rec)
    ensures Cnames(recs + [r]) == if r.kind == T_CNAME then Cnames(recs) + [r] else Cnames(recs)
    ensures Addresses(recs + [r]) == if Taken(recs, r) then Addresses(recs) + [r] else Addresses(recs)
    ensures MinTtl(recs + [r]) == Min(MinTtl(recs), r.ttl)
  {
    assert (recs + [r])[..|recs|] == recs;
  }

  ghost predicate Taken(recs: seq<Rec>, r: Rec) {
    r.kind == T_A && r.len == 4 && (Addresses(recs) == [] || r.cls == Addresses(recs)[0].cls)
  }

  /** What one more record takes of the buffer: its name, if it is an alias or that of the first address, and
      the address, both while there are fewer than 34. */
  ghost function Added(msg: seq<byte>, recs: seq<Rec>, r: Rec): nat
    requires IsRec(msg, r)
  {
    if r.kind == T_CNAME then if |Cnames(recs)| < MOST then |NameOf(msg, r)| + 1 else 0
    else if Taken(recs, r)
    then (if Addresses(recs) == [] then |NameOf(msg, r)| + 1 else 0) + if |Addresses(recs)| < MOST then 4 else 0
    else 0
  }

  ghost function Used(msg: seq<byte>, recs: seq<Rec>): nat
    requires AllInside(msg, recs)
    decreases |recs|
  {
    if recs == [] then 0
    else
      var before := recs[..|recs| - 1];
      Used(msg, before) + Added(msg, before, recs[|recs| - 1])
  }

  lemma UsedMore(msg: seq<byte>, recs: seq<Rec>, r: Rec)
    requires AllInside(msg, recs) && IsRec(msg, r) && After(r) <= |msg|
    ensures AllInside(msg, recs + [r]) && Used(msg, recs + [r]) == Used(msg, recs) + Added(msg, recs, r)
  {
    assert (recs + [r])[..|recs|] == recs;
  }

  lemma OneMore(msg: seq<byte>, recs: seq<Rec>, r: Rec)
    requires AllInside(msg, recs) && IsRec(msg, r) && After(r) <= |msg|
    ensures AllInside(msg, recs + [r])
  {
  }

  lemma AliasesFull(msg: seq<byte>, cn: seq<Rec>, r: Rec, o: seq<byte>, aliases: seq<nat>)
    requires AliasesHeld(msg, cn, o, aliases) && |aliases| == MOST
    ensures AliasesHeld(msg, cn + [r], o, aliases)
  {
  }

  lemma AliasPushed(msg: seq<byte>, cn: seq<Rec>, r: Rec, o: seq<byte>, aliases: seq<nat>)
    requires AliasesHeld(msg, cn, o, aliases) && |aliases| < MOST && IsRec(msg, r)
    ensures AliasesHeld(msg, cn + [r], o + (NameOf(msg, r) + [0]), aliases + [|o|])
  {
    Grows(msg, o, NameOf(msg, r) + [0], cn, aliases, [], 0, []);
    JustWritten(o, NameOf(msg, r));
  }

  lemma AddressesFull(msg: seq<byte>, m: seq<Rec>, r: Rec, o: seq<byte>, name: nat, addrs: seq<nat>)
    requires AddressesHeld(msg, m, o, name, addrs) && |addrs| == MOST
    ensures AddressesHeld(msg, m + [r], o, name, addrs)
  {
  }

  lemma FirstAddressPushed(msg: seq<byte>, r: Rec, o: seq<byte>)
    requires IsRec(msg, r) && Data(r) + 4 <= |msg|
    ensures var o1 := o + (NameOf(msg, r) + [0]);
            AddressesHeld(msg, [r], o1 + msg[Data(r)..Data(r) + 4], |o|, [|o1|])
  {
    var o1, data := o + (NameOf(msg, r) + [0]), msg[Data(r)..Data(r) + 4];
    JustWritten(o, NameOf(msg, r));
    StringGrows(o1, data, |o|, NameOf(msg, r));
    assert (o1 + data)[|o1|..|o1| + 4] == data;
  }

  lemma NextAddressPushed(msg: seq<byte>, m: seq<Rec>, r: Rec, o: seq<byte>, name: nat, addrs: seq<nat>)
    requires AddressesHeld(msg, m, o, name, addrs) && m != [] && |addrs| < MOST && Data(r) + 4 <= |msg|
    ensures AddressesHeld(msg, m + [r], o + msg[Data(r)..Data(r) + 4], name, addrs + [|o|])
  {
    var data := msg[Data(r)..Data(r) + 4];
    Grows(msg, o, data, [], [], m, name, addrs);
    assert (o + data)[|o|..|o| + 4] == data;
  }

  lemma NothingAdded(msg: seq<byte>, recs: seq<Rec>, r: Rec, o: seq<byte>, name: nat, aliases: seq<nat>,
                     addrs: seq<nat>)
    requires Filled(msg, recs, o, name, aliases, addrs) && IsRec(msg, r) && After(r) <= |msg|
    requires r.kind == T_CNAME ==> |aliases| == MOST
    requires Taken(recs, r) ==> |addrs| == MOST
    ensures Filled(msg, recs + [r], o, name, aliases, addrs)
  {
    Snoc(recs, r);
    OneMore(msg, recs, r);
    if r.kind == T_CNAME {
      AliasesFull(msg, Cnames(recs), r, o, aliases);
    }
    if Taken(recs, r) {
      AddressesFull(msg, Addresses(recs), r, o, name, addrs);
    }
  }

  lemma AliasAdded(msg: seq<byte>, recs: seq<Rec>, r: Rec, o: seq<byte>, name: nat, aliases: seq<nat>, addrs: seq<nat>)
    requires Filled(msg, recs, o, name, aliases, addrs) && IsRec(msg, r) && After(r) <= |msg|
    requires r.kind == T_CNAME && |aliases| < MOST
    ensures Filled(msg, recs + [r], o + (NameOf(msg, r) + [0]), name, aliases + [|o|], addrs)
  {
    Snoc(recs, r);
    OneMore(msg, recs, r);
    AliasPushed(msg, Cnames(recs), r, o, aliases);
    Grows(msg, o, NameOf(msg, r) + [0], [], [], Addresses(recs), name, addrs);
  }

  /** The first address also commits the name. */
  lemma FirstAddressAdded(msg: seq<byte>, recs: seq<Rec>, r: Rec, o: seq<byte>, name: nat, aliases: seq<nat>)
    requires Filled(msg, recs, o, name, aliases, []) && IsRec(msg, r) && After(r) <= |msg| && Taken(recs, r)
    ensures var o1 := o + (NameOf(msg, r) + [0]);
            Filled(msg, recs + [r], o1 + msg[Data(r)..Data(r) + 4], |o|, aliases, [|o1|])
  {
    var o1 := o + (NameOf(msg, r) + [0]);
    Snoc(recs, r);
    OneMore(msg, recs, r);
    Grows(msg, o, NameOf(msg, r) + [0], Cnames(recs), aliases, [], 0, []);
    Grows(msg, o1, msg[Data(r)..Data(r) + 4], Cnames(recs), aliases, [], 0, []);
    FirstAddressPushed(msg, r, o);
    assert Addresses(recs) == [] && Addresses(recs + [r]) == [r];
  }

  lemma NextAddressAdded(msg: seq<byte>, recs: seq<Rec>, r: Rec, o: seq<byte>, name: nat, aliases: seq<nat>,
                         addrs: seq<nat>)
    requires Filled(msg, recs, o, name, aliases, addrs) && IsRec(msg, r) && After(r) <= |msg| && Taken(recs, r)
    requires 0 < |addrs| < MOST
    ensures Filled(msg, recs + [r], o + msg[Data(r)..Data(r) + 4], name, aliases, addrs + [|o|])
  {
    Snoc(recs, r);
    OneMore(msg, recs, r);
    Grows(msg, o, msg[Data(r)..Data(r) + 4], Cnames(recs), aliases, [], 0, []);
    NextAddressPushed(msg, Addresses(recs), r, o, name, addrs);
  }

  lemma AddressAdded(msg: seq<byte>, recs: seq<Rec>, r: Rec, o: seq<byte>, name0: nat, h: Host, more: seq<byte>,
                     bp: nat)
    requires IsRec(msg, r) && After(r) <= |msg| && Taken(recs, r) && |h.addrs| < MOST && bp == |o + more|
    requires Filled(msg, recs, o, name0, h.aliases, h.addrs)
    requires if h.addrs == [] then h.name == |o| && more == NameOf(msg, r) + [0] else h.name == name0 && more == []
    ensures Filled(msg, recs + [r], o + more + msg[Data(r)..Data(r) + 4], h.name, h.aliases, h.addrs + [bp])
  {
    if h.addrs == [] {
      FirstAddressAdded(msg, recs, r, o, name0, h.aliases);
      assert [] + [bp] == [bp];
    } else {
      assert o + more == o;
      NextAddressAdded(msg, recs, r, o, name0, h.aliases, h.addrs);
    }
  }

  // ---- getanswer ----------------------------------------------------------------------------

  /** strlen of the text that was just expanded at bp. */
  method Strlen(out: array<byte>, bp: nat, ghost text: seq<byte>) returns (n: nat)
    requires bp + |text| < out.Length && out[bp..bp + |text|] == text && out[bp + |text|] == 0
    ensures n == NulAt(text, 0)
  {
    n := 0;
    while out[bp + n] != 0
      invariant n <= |text| && NulAt(text, n) == NulAt(text, 0)
      decreases |text| - n
    {
      assert out[bp + n] == out[bp..bp + |text|][n] == text[n];
      n := n + 1;
    }
    assert n < |text| ==> out[bp + n] == out[bp..bp + |text|][n] == text[n];
  }

  ghost predicate TextAt(msg: seq<byte>, r: Rec, o: seq<byte>, bp: nat)
    requires IsRec(msg, r)
  {
    var text := Render(NameAt(msg, r.at).value.labels);
    bp + |text| < HOSTBUF <= |o| && o[bp..bp + |text|] == text && o[bp + |text|] == 0
  }

  /** bp += strlen(bp) + 1: the record's name becomes part of the buffer. */
  method CommitName(msg: seq<byte>, ghost r: Rec, out: array<byte>, bp: nat) returns (next: nat)
    requires IsRec(msg, r) && TextAt(msg, r, out[..], bp)
    ensures next == bp + |NameOf(msg, r)| + 1 <= HOSTBUF
    ensures out[..next] == out[..bp] + (NameOf(msg, r) + [0])
  {
    ghost var text := Render(NameAt(msg, r.at).value.labels);
    assert out[..][bp..bp + |text|] == out[bp..bp + |text|];
    var n := Strlen(out, bp, text);
    next := bp + n + 1;
    assert n < |text| ==> out[bp + n] == out[bp..bp + |text|][n] == text[n];
    assert out[bp..bp + n] == out[bp..bp + |text|][..n] == text[..n];
    assert out[..next] == out[..bp] + (out[bp..bp + n] + [out[bp + n]]);
  }

  datatype Status = Stop | Overrun | Good

  /** The name and fixed fields of the record at cp. */
  method ReadRecord(msg: seq<byte>, cp: nat, out: array<byte>, bp: nat) returns (st: Status, r: Rec)
    requires bp < HOSTBUF <= out.Length
    modifies out
    ensures out[..bp] == old(out[..bp])
    ensures st == Stop ==> NoRecord(msg, cp, HOSTBUF - bp)
    ensures st != Stop ==> IsRec(msg, r) && r.at == cp && (st == Overrun <==> After(r) > |msg|)
    ensures st == Good ==> TextAt(msg, r, out[..], bp)
  {
    r := Rec(0, 0, 0, 0, 0, 0);
    var n := DnExpand(msg, cp, out, bp, HOSTBUF - bp);
    if n < 0 {
      return Stop, r;
    }
    var head := cp + n;
    if head + RRFIXEDSZ > |msg| {
      return Stop, r;
    }
    r := Rec(cp, head, Be16(msg, head), Be16(msg, head + 2), Be32(msg, head + 4), Be16(msg, head + 8));
    ghost var text := Render(NameAt(msg, cp).value.labels);
    assert out[..][bp..bp + |text|] == out[bp..bp + |text|];
    return if After(r) > |msg| then Overrun else Good, r;
  }

  /** No record can be taken at cp: no acceptable name is there, or the fixed fields are cut off. */
  ghost predicate NoRecord(msg: seq<byte>, cp: nat, room: int) {
    Accepted(NameAt(msg, cp), room, |msg|) ==>
      WireLength(msg, cp).Some? && cp + WireLength(msg, cp).value + RRFIXEDSZ > |msg|
  }

  datatype Host = Host(name: nat, aliases: seq<nat>, addrs: seq<nat>, cls: nat)

  ghost predicate Holds(msg: seq<byte>, recs: seq<Rec>, o: seq<byte>, h: Host) {
    && Filled(msg, recs, o, h.name, h.aliases, h.addrs)
    && ClassIs(Addresses(recs), h.cls)
  }

  ghost predicate ClassIs(m: seq<Rec>, cls: nat) {
    m != [] ==> cls == m[0].cls
  }

  lemma ClassNext(recs: seq<Rec>, r: Rec, cls0: nat, cls: nat)
    requires ClassIs(Addresses(recs), cls0) && Taken(recs, r)
    requires cls == if Addresses(recs) == [] then r.cls else cls0
    ensures ClassIs(Addresses(recs + [r]), cls)
  {
    Snoc(recs, r);
  }

  /** There is no room for another address once its name, if it is the first, is counted. */
  ghost predicate Full(msg: seq<byte>, recs: seq<Rec>, r: Rec, bp: nat)
    requires IsRec(msg, r)
  {
    Taken(recs, r) && HOSTBUF <= bp + 4 + if Addresses(recs) == [] then |NameOf(msg, r)| + 1 else 0
  }

  /** bcopy of an address to bp. */
  method CopyAddress(msg: seq<byte>, at: nat, out: array<byte>, bp: nat)
    requires at + 4 <= |msg| && bp + 4 <= out.Length
    modifies out
    ensures out[..bp + 4] == old(out[..bp]) + msg[at..at + 4]
  {
    var i := 0;
    while i < 4
      invariant 0 <= i <= 4 && out[..bp + i] == old(out[..bp]) + msg[at..at + i]
    {
      out[bp + i] := msg[at + i];
      assert out[..bp + (i + 1)] == out[..bp + i] + [msg[at + i]];
      i := i + 1;
    }
  }

  /** One record whose data is all there. */
  method TakeRecord(msg: seq<byte>, r: Rec, out: array<byte>, bp0: nat, h0: Host, ghost recs: seq<Rec>)
    returns (full: bool, bp: nat, h: Host)
    requires IsRec(msg, r) && After(r) <= |msg| && bp0 < HOSTBUF <= out.Length
    requires TextAt(msg, r, out[..], bp0) && Holds(msg, recs, out[..bp0], h0)
    modifies out
    ensures bp0 <= bp <= HOSTBUF
    ensures full ==> Full(msg, recs, r, bp0) && Holds(msg, recs, out[..bp], h) && bp == bp0
    ensures !full ==> Holds(msg, recs + [r], out[..bp], h) && bp == bp0 + Added(msg, recs, r)
  {
    bp, h, full := bp0, h0, false;
    ghost var o := out[..bp];
    Snoc(recs, r);
    if r.kind == T_CNAME {
      if |h.aliases| >= MOST {
        NothingAdded(msg, recs, r, o, h.name, h.aliases, h.addrs);
        return;
      }
      AliasAdded(msg, recs, r, o, h.name, h.aliases, h.addrs);
      h := h.(aliases := h.aliases + [bp]);
      bp := CommitName(msg, r, out, bp);
      return;
    }
    if r.kind != T_A || r.len != 4 || (|h.addrs| > 0 && r.cls != h.cls) {
      NothingAdded(msg, recs, r, o, h.name, h.aliases, h.addrs);
      return;
    }
    full, bp, h := TakeAddress(msg, r, out, bp0, h0, recs);
  }

  method TakeAddress(msg: seq<byte>, r: Rec, out: array<byte>, bp0: nat, h0: Host, ghost recs: seq<Rec>)
    returns (full: bool, bp: nat, h: Host)
    requires IsRec(msg, r) && After(r) <= |msg| && bp0 < HOSTBUF <= out.Length && Taken(recs, r)
    requires TextAt(msg, r, out[..], bp0) && Holds(msg, recs, out[..bp0], h0)
    modifies out
    ensures bp0 <= bp <= HOSTBUF
    ensures full ==> Full(msg, recs, r, bp0) && Holds(msg, recs, out[..bp], h) && bp == bp0
    ensures !full ==> Holds(msg, recs + [r], out[..bp], h) && bp == bp0 + Added(msg, recs, r)
  {
    bp, h, full := bp0, h0, false;
    ghost var o := out[..bp];
    ghost var more;
    bp, h, more := CommitFirst(msg, r, out, bp0, h0);
    if 4 >= HOSTBUF - bp {
      return true, bp0, h0;
    }
    ClassNext(recs, r, h0.cls, h.cls);
    AddressTakes(msg, recs, r, h0.aliases, h0.addrs, o, h0.name);
    bp, h := PlaceAddress(msg, r, out, bp, h, recs, o, h0.name, more);
  }

  lemma AddressTakes(msg: seq<byte>, recs: seq<Rec>, r: Rec, aliases: seq<nat>, addrs: seq<nat>, o: seq<byte>,
                     name: nat)
    requires IsRec(msg, r) && Taken(recs, r) && Filled(msg, recs, o, name, aliases, addrs)
    ensures Added(msg, recs, r)
      == (if addrs == [] then |NameOf(msg, r)| + 1 else 0) + if |addrs| < MOST then 4 else 0
  {
  }

  /** The address, unless there are 34 already. */
  method PlaceAddress(msg: seq<byte>, r: Rec, out: array<byte>, bp0: nat, h0: Host, ghost recs: seq<Rec>,
                      ghost o: seq<byte>, ghost name0: nat, ghost more: seq<byte>)
    returns (bp: nat, h: Host)
    requires IsRec(msg, r) && After(r) <= |msg| && bp0 + 4 <= out.Length && Taken(recs, r)
    requires Filled(msg, recs, o, name0, h0.aliases, h0.addrs) && out[..bp0] == o + more
    requires if h0.addrs == [] then h0.name == |o| && more == NameOf(msg, r) + [0] else h0.name == name0 && more == []
    modifies out
    ensures bp == bp0 + (if |h0.addrs| < MOST then 4 else 0) && h == h0.(addrs := h.addrs)
    ensures Filled(msg, recs + [r], out[..bp], h.name, h.aliases, h.addrs)
  {
    bp, h := bp0, h0;
    if |h.addrs| >= MOST {
      assert o + more == o;
      NothingAdded(msg, recs, r, o, h.name, h.aliases, h.addrs);
      return;
    }
    StoreAddress(msg, r, out, bp, h, recs, o, name0, more);
    h := h.(addrs := h.addrs + [bp]);
    bp := bp + 4;
  }

  /** The first address fixes the host's name and the class of all addresses. */
  method CommitFirst(msg: seq<byte>, r: Rec, out: array<byte>, bp0: nat, h0: Host)
    returns (bp: nat, h: Host, ghost more: seq<byte>)
    requires IsRec(msg, r) && TextAt(msg, r, out[..], bp0)
    ensures bp0 <= bp <= HOSTBUF && out[..bp] == out[..bp0] + more
    ensures if h0.addrs == [] then h == h0.(name := bp0, cls := r.cls) && more == NameOf(msg, r) + [0]
            else h == h0 && more == []
  {
    bp, h, more := bp0, h0, [];
    if |h.addrs| == 0 {
      more := NameOf(msg, r) + [0];
      h := h.(name := bp, cls := r.cls);
      bp := CommitName(msg, r, out, bp);
    }
  }

  method StoreAddress(msg: seq<byte>, r: Rec, out: array<byte>, bp: nat, h: Host,
                      ghost recs: seq<Rec>, ghost o: seq<byte>, ghost name0: nat, ghost more: seq<byte>)
    requires IsRec(msg, r) && After(r) <= |msg| && bp + 4 <= out.Length && Taken(recs, r) && |h.addrs| < MOST
    requires Filled(msg, recs, o, name0, h.aliases, h.addrs) && out[..bp] == o + more
    requires if h.addrs == [] then h.name == |o| && more == NameOf(msg, r) + [0] else h.name == name0 && more == []
    modifies out
    ensures Filled(msg, recs + [r], out[..bp + 4], h.name, h.aliases, h.addrs + [bp])
  {
    ghost var data, o1 := msg[Data(r)..Data(r) + 4], o + more;
    AddressAdded(msg, recs, r, o, name0, h, more, bp);
    CopyAddress(msg, Data(r), out, bp);
    assert out[..bp + 4] == o1 + data;
  }

  /** Where the answers start: past n questions, of which a malformed one counts as 3 octets. */
  ghost function PastQuestions(msg: seq<byte>, cp: nat, n: nat): nat
    decreases n
  {
    if n == 0 then cp
    else PastQuestions(msg, cp + QFIXEDSZ + (match WireLength(msg, cp) case None => -1 case Some(k) => k as int), n - 1)
  }

  method SkipQuestions(msg: seq<byte>, n: nat) returns (cp: nat)
    ensures cp == PastQuestions(msg, HFIXEDSZ, n)
  {
    cp := HFIXEDSZ;
    var q := n;
    while q > 0
      invariant PastQuestions(msg, cp, q) == PastQuestions(msg, HFIXEDSZ, n)
    {
      var k := DnSkipname(msg, cp);
      cp := cp + k + QFIXEDSZ;
      q := q - 1;
    }
  }

  /** Why the walk went no further: every record was taken or the message is at its end; or no record
      can be taken next; or last, the next one, overruns the message or has no room. */
  ghost predicate Halted(msg: seq<byte>, start: nat, ancount: nat, recs: seq<Rec>, last: seq<Rec>, end: nat) {
    var cp := EndOf(start, recs);
    if last == [] then |recs| == ancount || |msg| <= cp || NoRecord(msg, cp, HOSTBUF - end)
    else
      && |recs| < ancount && |last| == 1 && IsRec(msg, last[0]) && last[0].at == cp
      && (After(last[0]) > |msg| || Full(msg, recs, last[0], end))
  }

  lemma WalkMore(msg: seq<byte>, start: nat, recs: seq<Rec>, r: Rec)
    requires Walk(msg, start, recs) && IsRec(msg, r) && r.at == EndOf(start, recs) && After(r) <= |msg|
    ensures Walk(msg, start, recs + [r]) && EndOf(start, recs + [r]) == After(r)
  {
    OneMore(msg, recs, r);
    var now := recs + [r];
    forall k | 0 <= k < |now|
      ensures Follows(start, now, k)
    {
      if k < |recs| {
        assert Follows(start, recs, k);
      }
    }
  }

  /** getanswer for a forward query. The walk reads only inside the message and writes only inside
      the buffer. On success the addresses are those of the four-octet address records walked that
      have the class of the first, in order and at most 34; the name is that of the first of them, the
      aliases those of the canonical-name records, and the time to live is the least of all the
      records walked, including one the walk broke off at. */
  method GetAnswer(msg: seq<byte>, out: array<byte>)
    returns (found: bool, h: Host, ttl: nat, end: nat, ghost recs: seq<Rec>, ghost last: seq<Rec>)
    requires HFIXEDSZ <= |msg| && HOSTBUF <= out.Length
    modifies out
    ensures var start := PastQuestions(msg, HFIXEDSZ, Be16(msg, 4));
            && Walk(msg, start, recs) && |recs| <= Be16(msg, 6)
            && Halted(msg, start, Be16(msg, 6), recs, last, end)
    ensures end == Used(msg, recs) <= HOSTBUF && Holds(msg, recs, out[..end], h)
    ensures found <==> Addresses(recs) != []
    ensures ttl == MinTtl(recs + last)
  {
    var ancount := Be16(msg, 6);
    var cp := SkipQuestions(msg, Be16(msg, 4));
    ghost var start := cp;
    h, ttl, end, recs, last := Host(0, [], [], 0), 0xFFFF_FFFF, 0, [], [];
    var left, going := ancount, true;
    while going && left > 0 && cp < |msg| && end < HOSTBUF
      invariant Walk(msg, start, recs) && cp == EndOf(start, recs) && |recs| + left == ancount
      invariant end == Used(msg, recs) <= HOSTBUF && Holds(msg, recs, out[..end], h)
      invariant if going then last == [] else Halted(msg, start, ancount, recs, last, end)
      invariant recs + [] == recs && ttl == MinTtl(recs + last)
      decreases left, going
    {
      going, cp, ttl, end, h, recs, last := Turn(msg, out, start, ancount, cp, ttl, end, h, recs);
      left := if going then left - 1 else left;
    }
    found := |h.addrs| > 0;
  }

  /** One turn of the loop. */
  method Turn(msg: seq<byte>, out: array<byte>, ghost start: nat, ghost ancount: nat, cp0: nat, ttl0: nat, end0: nat,
              h0: Host,
              ghost recs0: seq<Rec>)
    returns (going: bool, cp: nat, ttl: nat, end: nat, h: Host, ghost recs: seq<Rec>, ghost last: seq<Rec>)
    requires Walk(msg, start, recs0) && cp0 == EndOf(start, recs0) && end0 < HOSTBUF <= out.Length
    requires Holds(msg, recs0, out[..end0], h0) && ttl0 == MinTtl(recs0) && end0 == Used(msg, recs0)
    requires |recs0| < ancount
    modifies out
    ensures Walk(msg, start, recs) && cp == EndOf(start, recs) && |recs| == |recs0| + if going then 1 else 0
    ensures end == Used(msg, recs) <= HOSTBUF && Holds(msg, recs, out[..end], h) && ttl == MinTtl(recs + last)
    ensures if going then last == [] else Halted(msg, start, ancount, recs, last, end)
  {
    cp, ttl, end, h, recs, last := cp0, ttl0, end0, h0, recs0, [];
    assert recs0 + [] == recs0;
    var st, r := ReadRecord(msg, cp, out, end);
    if st == Stop {
      return false, cp, ttl, end, h, recs, last;
    }
    ttl := if r.ttl < ttl then r.ttl else ttl;
    Snoc(recs0, r);
    last := [r];
    if st == Overrun {
      return false, cp, ttl, end, h, recs, last;
    }
    going, cp, end, h, recs, last := TakeTurn(msg, r, out, start, ancount, end, h, recs0);
  }

  method TakeTurn(msg: seq<byte>, r: Rec, out: array<byte>, ghost start: nat, ghost ancount: nat, end0: nat,
                  h0: Host, ghost recs0: seq<Rec>)
    returns (going: bool, cp: nat, end: nat, h: Host, ghost recs: seq<Rec>, ghost last: seq<Rec>)
    requires Walk(msg, start, recs0) && r.at == EndOf(start, recs0) && end0 < HOSTBUF <= out.Length
    requires IsRec(msg, r) && After(r) <= |msg| && TextAt(msg, r, out[..], end0) && Holds(msg, recs0, out[..end0], h0)
    requires end0 == Used(msg, recs0) && |recs0| < ancount
    modifies out
    ensures Walk(msg, start, recs) && cp == EndOf(start, recs) && |recs| == |recs0| + if going then 1 else 0
    ensures end == Used(msg, recs) <= HOSTBUF && Holds(msg, recs, out[..end], h) && recs + last == recs0 + [r]
    ensures if going then last == [] else Halted(msg, start, ancount, recs, last, end)
  {
    var full;
    full, end, h := TakeRecord(msg, r, out, end0, h0, recs0);
    if full {
      return false, r.at, end, h, recs0, [r];
    }
    WalkMore(msg, start, recs0, r);
    UsedMore(msg, recs0, r);
    recs := recs0 + [r];
    assert recs + [] == recs;
    return true, After(r), end, h, recs, [];
  }

  // ---- makehostent --------------------------------------------------------------------------

  /** ALIGN: the next multiple of 4. */
  function Align(p: nat): (q: nat)
    ensures p <= q <= p + SLACK && q % 4 == 0
  {
    (p + 3) / 4 * 4
  }

  /** The relocated entry: absolute addresses. */
  datatype UserHost = UserHost(name: int, aliases: seq<int>, addrs: seq<int>)

  /** The entry with addresses taken relative to base, where they are offsets into its buffer. */
  ghost predicate IsRelocated(u: UserHost, base: int, h: Host) {
    && u.name == base + h.name
    && |u.aliases| == |h.aliases| && |u.addrs| == |h.addrs|
    && (forall k | 0 <= k < |h.aliases| :: u.aliases[k] == base + h.aliases[k])
    && (forall k | 0 <= k < |h.addrs| :: u.addrs[k] == base + h.addrs[k])
  }

  /** Every pointer moved by the same distance. */
  method Relocate(ptrs: seq<nat>, from: int, n: int) returns (moved: seq<int>)
    ensures |moved| == |ptrs| && forall k | 0 <= k < |ptrs| :: moved[k] == from + ptrs[k] + n
  {
    moved := [];
    var i := 0;
    while i < |ptrs|
      invariant 0 <= i <= |ptrs| && |moved| == i && forall k | 0 <= k < i :: moved[k] == from + ptrs[k] + n
    {
      moved := moved + [from + ptrs[i] + n];
      i := i + 1;
    }
  }

  method CopyBuffer(out: array<byte>, i: nat) returns (copy: array<byte>)
    requires i <= out.Length
    ensures fresh(copy) && copy.Length == i && copy[..] == out[..i]
  {
    copy := new byte[i](_ => 0);
    forall k | 0 <= k < i { copy[k] := out[k]; }
  }

  /** What a buffer holds, a longer copy of it holds. */
  lemma HoldsLonger(msg: seq<byte>, recs: seq<Rec>, o: seq<byte>, whole: seq<byte>, h: Host)
    requires Holds(msg, recs, o, h) && |o| <= |whole| && whole[..|o|] == o
    ensures Holds(msg, recs, whole, h)
  {
    assert whole == o + whole[|o|..];
    Grows(msg, o, whole[|o|..], Cnames(recs), h.aliases, Addresses(recs), h.name, h.addrs);
  }

  /** makehostent. hostbuf is the address of the buffer and base that of the user's copy, which holds,
      at the relocated addresses, the very strings and addresses the buffer held. */
  method MakeHostent(out: array<byte>, end: nat, h: Host, hostbuf: nat, base: int, ghost msg: seq<byte>,
                     ghost recs: seq<Rec>)
    returns (copy: array<byte>, u: UserHost)
    requires end <= HOSTBUF && HOSTBUF + SLACK <= out.Length && Holds(msg, recs, out[..end], h)
    ensures fresh(copy) && end <= copy.Length <= end + SLACK
    ensures IsRelocated(u, base, h) && Holds(msg, recs, copy[..], h)
  {
    var i := Align(hostbuf + end) - hostbuf;
    copy := CopyBuffer(out, i);
    var n := base - hostbuf;
    var aliases := Relocate(h.aliases, hostbuf, n);
    var addrs := Relocate(h.addrs, hostbuf, n);
    u := UserHost(hostbuf + h.name + n, aliases, addrs);
    HoldsLonger(msg, recs, out[..end], copy[..], h);
  }
}
