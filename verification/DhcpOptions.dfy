/** DHCP options: tag, length and value written by dhcp_put and searched by dhcp_find
    (src/api/amiga_roadshow_compat.c). A packet is 548 bytes; its options follow a header of 236
    bytes and a magic cookie of 4. */
module DhcpOptions {

  import opened Common

  const HEADER: nat := 236
  const OPTIONS: nat := 312
  const PACKET: nat := 548
  const PAD: byte := 0
  const DHO_END: byte := 255

  /** A tagged value, and an option found in a packet: its value lies at at .. at + len. */
  datatype Tlv = Tlv(code: byte, value: seq<byte>)
  datatype Found = Found(code: byte, at: nat, len: nat)

  /** The options of o from p up to end. One whose length runs past the end is cut off there. */
  function Opts(o: seq<byte>, p: nat, end: nat): seq<Found>
    requires end <= |o|
    decreases end - p
  {
    if p >= end || o[p] == DHO_END then []
    else if o[p] == PAD then Opts(o, p + 1, end)
    else if p + 1 >= end then []
    else [Found(o[p], p + 2, Min(o[p + 1], end - (p + 2)))] + Opts(o, p + 2 + o[p + 1], end)
  }

  function First(fs: seq<Found>, code: byte): Option<Found> {
    if fs == [] then None else if fs[0].code == code then Some(fs[0]) else First(fs[1..], code)
  }

  /** Where the options of a datagram of rlen bytes end, or 0 if it has none. */
  function OptEnd(rlen: int): (e: nat)
    ensures e <= PACKET && (e > 0 ==> HEADER + 4 <= e <= rlen)
  {
    if rlen - HEADER < 4 then 0 else Min(rlen, PACKET)
  }

  /** The first option with the code within what was received. */
  function Lookup(pkt: seq<byte>, rlen: int, code: byte): Option<Found>
    requires PACKET <= |pkt|
  {
    First(Opts(pkt, HEADER + 4, OptEnd(rlen)), code)
  }

  lemma {:induction false} OptsWithin(o: seq<byte>, p: nat, end: nat, k: nat)
    requires end <= |o| && k < |Opts(o, p, end)|
    ensures var f := Opts(o, p, end)[k];
            p + 2 <= f.at && f.at + f.len <= end && f.code == o[f.at - 2] && f.len <= o[f.at - 1]
            && f.code != PAD && f.code != DHO_END
    decreases end - p
  {
    if p < end && o[p] != DHO_END {
      if o[p] == PAD {
        OptsWithin(o, p + 1, end, k);
      } else if k > 0 {
        assert Opts(o, p, end)[k] == Opts(o, p + 2 + o[p + 1], end)[k - 1];
        OptsWithin(o, p + 2 + o[p + 1], end, k - 1);
      }
    }
  }

  lemma {:induction false} FirstIsIn(fs: seq<Found>, code: byte) returns (k: nat)
    requires First(fs, code).Some?
    ensures k < |fs| && fs[k] == First(fs, code).value && fs[k].code == code
    ensures forall j | 0 <= j < k :: fs[j].code != code
  {
    if fs[0].code == code {
      k := 0;
    } else {
      k := FirstIsIn(fs[1..], code);
      k := k + 1;
    }
  }

  /** What a search finds lies within the datagram received. */
  lemma LookupWithin(pkt: seq<byte>, rlen: int, code: byte)
    requires PACKET <= |pkt|
    ensures var f := Lookup(pkt, rlen, code);
            f.Some? ==> f.value.code == code && HEADER + 6 <= f.value.at && f.value.at + f.value.len <= OptEnd(rlen)
  {
    var fs := Opts(pkt, HEADER + 4, OptEnd(rlen));
    if First(fs, code).Some? {
      var k := FirstIsIn(fs, code);
      OptsWithin(pkt, HEADER + 4, OptEnd(rlen), k);
    }
  }

  /** And depends on nothing beyond it: stale bytes of an earlier datagram are never seen. */
  lemma {:induction false} OptsDependOnReceived(a: seq<byte>, b: seq<byte>, p: nat, end: nat)
    requires end <= |a| && end <= |b| && forall i | 0 <= i < end :: a[i] == b[i]
    ensures Opts(a, p, end) == Opts(b, p, end)
    decreases end - p
  {
    if p < end && a[p] != DHO_END {
      if a[p] == PAD {
        OptsDependOnReceived(a, b, p + 1, end);
      } else if p + 1 < end {
        OptsDependOnReceived(a, b, p + 2 + a[p + 1], end);
      }
    }
  }

  /** dhcp_find: the value's place and its clamped length, or nothing. */
  method DhcpFind(pkt: seq<byte>, rlen: int, code: byte) returns (r: Option<Found>)
    requires PACKET <= |pkt|
    ensures r == Lookup(pkt, rlen, code)
  {
    var avail := rlen - HEADER;
    if avail < 4 {
      return None;
    }
    if avail > OPTIONS {
      avail := OPTIONS;
    }
    var p, end: nat := HEADER + 4, HEADER + avail;
    while p < end && pkt[p] != DHO_END
      invariant First(Opts(pkt, p, end), code) == Lookup(pkt, rlen, code)
      decreases end - p
    {
      var c := pkt[p];
      p := p + 1;
      if c == PAD {
        continue;
      }
      if p >= end {
        break;
      }
      var l := pkt[p];
      p := p + 1;
      if c == code {
        return Some(Found(c, p, if p + l > end then end - p else l));
      }
      p := p + l;
    }
    return None;
  }

  // ---- Writing options and reading them back ------------------------------------------------

  /** The values os stand in o from p up to q, one after the other. */
  ghost predicate Laid(o: seq<byte>, p: nat, os: seq<Tlv>, q: nat)
    decreases |os|
  {
    if os == [] then p == q
    else Stands(o, p, os[0]) && Laid(o, p + 2 + |os[0].value|, os[1..], q)
  }

  ghost predicate Stands(o: seq<byte>, p: nat, t: Tlv) {
    && |t.value| < 0x100 && p + 2 + |t.value| <= |o|
    && o[p] == t.code && o[p + 1] == |t.value| && o[p + 2..p + 2 + |t.value|] == t.value
  }

  function Read(o: seq<byte>, fs: seq<Found>): seq<Tlv>
    requires forall f <- fs :: f.at + f.len <= |o|
  {
    seq(|fs|, k requires 0 <= k < |fs| => Tlv(fs[k].code, o[fs[k].at..fs[k].at + fs[k].len]))
  }

  lemma AllWithin(o: seq<byte>, p: nat, end: nat)
    requires end <= |o|
    ensures forall f <- Opts(o, p, end) :: f.at + f.len <= |o|
  {
    forall k | 0 <= k < |Opts(o, p, end)|
      ensures Opts(o, p, end)[k].at + Opts(o, p, end)[k].len <= |o|
    {
      OptsWithin(o, p, end, k);
    }
  }

  ghost predicate Codes(os: seq<Tlv>) {
    forall t <- os :: t.code != PAD && t.code != DHO_END
  }

  /** Options laid out, up to an end mark or the end of what was received, are read back as they were. */
  lemma {:induction false} LaidIsRead(o: seq<byte>, p: nat, os: seq<Tlv>, q: nat, end: nat)
    requires Laid(o, p, os, q) && q <= end <= |o| && (q < end ==> o[q] == DHO_END) && Codes(os)
    ensures p <= q
    ensures (forall f <- Opts(o, p, end) :: f.at + f.len <= |o|) && Read(o, Opts(o, p, end)) == os
    decreases |os|
  {
    AllWithin(o, p, end);
    if os != [] {
      var next := p + 2 + |os[0].value|;
      assert os[0] in os;
      LaidIsRead(o, next, os[1..], q, end);
      var fs, rest := Opts(o, p, end), Opts(o, next, end);
      assert fs == [Found(os[0].code, p + 2, |os[0].value|)] + rest;
      assert Read(o, fs) == [os[0]] + Read(o, rest);
    }
  }

  /** Equal prefixes have equal parts. */
  lemma PrefixPart(o: seq<byte>, o': seq<byte>, q: nat, i: nat, j: nat)
    requires q <= |o| && q <= |o'| && o[..q] == o'[..q] && i <= j <= q
    ensures o[i..j] == o'[i..j] && forall k | 0 <= k < q :: o[k] == o'[k]
  {
    forall k | 0 <= k < q
      ensures o[k] == o'[k]
    {
      assert o[..q][k] == o'[..q][k];
    }
  }

  /** dhcp_put: append one option at p. */
  method DhcpPut(a: array<byte>, p: nat, code: byte, value: seq<byte>) returns (q: nat)
    requires |value| < 0x100 && p + 2 + |value| <= a.Length
    modifies a
    ensures q == p + 2 + |value| && Stands(a[..], p, Tlv(code, value))
    ensures a[..p] == old(a[..p]) && a[q..] == old(a[q..])
  {
    a[p], a[p + 1] := code, |value|;
    var i := 0;
    while i < |value|
      invariant 0 <= i <= |value| && a[p] == code && a[p + 1] == |value|
      invariant forall k | 0 <= k < i :: a[p + 2 + k] == value[k]
      invariant forall k | 0 <= k < a.Length && !(p <= k < p + 2 + i) :: a[k] == old(a[k])
    {
      a[p + 2 + i] := value[i];
      i := i + 1;
    }
    q := p + 2 + |value|;
    assert a[..][p + 2..q] == value;
  }

  /** The octets that a run of dhcp_put leaves. */
  function Encode(os: seq<Tlv>): seq<byte>
    requires forall t <- os :: |t.value| < 0x100
  {
    if os == [] then [] else [os[0].code, |os[0].value|] + os[0].value + Encode(os[1..])
  }

  lemma HeadStands(o: seq<byte>, p: nat, t: Tlv, rest: seq<byte>)
    requires |t.value| < 0x100 && p + 2 + |t.value| + |rest| <= |o|
    requires o[p..p + 2 + |t.value| + |rest|] == [t.code, |t.value|] + t.value + rest
    ensures Stands(o, p, t) && o[p + 2 + |t.value|..p + 2 + |t.value| + |rest|] == rest
  {
    var all := o[p..p + 2 + |t.value| + |rest|];
    assert all[0] == t.code && all[1] == |t.value|;
    assert all[2..2 + |t.value|] == t.value && all[2 + |t.value|..|all|] == rest;
    SubSlice(o, p, p + |all|, 2, 2 + |t.value|);
    SubSlice(o, p, p + |all|, 2 + |t.value|, |all|);
  }

  lemma {:induction false} EncodeIsLaid(o: seq<byte>, p: nat, os: seq<Tlv>)
    requires forall t <- os :: |t.value| < 0x100
    requires p + |Encode(os)| <= |o| && o[p..p + |Encode(os)|] == Encode(os)
    ensures Laid(o, p, os, p + |Encode(os)|)
    decreases |os|
  {
    if os != [] {
      var t, rest := os[0], Encode(os[1..]);
      HeadStands(o, p, t, rest);
      EncodeIsLaid(o, p + 2 + |t.value|, os[1..]);
    }
  }

  /** The first option with a code, by what has been read. */
  lemma {:induction false} FirstIsRead(o: seq<byte>, fs: seq<Found>, code: byte, j: nat)
    requires forall f <- fs :: f.at + f.len <= |o|
    requires j <= |fs| && (forall i | 0 <= i < j :: Read(o, fs)[i].code != code)
    requires j < |fs| ==> Read(o, fs)[j].code == code
    ensures First(fs, code) == if j < |fs| then Some(fs[j]) else None
    decreases j
  {
    if fs != [] {
      assert Read(o, fs)[0].code == fs[0].code;
    }
    if j > 0 {
      forall i | 0 <= i < |fs| - 1
        ensures Read(o, fs[1..])[i] == Read(o, fs)[i + 1]
      {
      }
      FirstIsRead(o, fs[1..], code, j - 1);
    }
  }
}
