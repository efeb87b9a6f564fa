/** What DHCP datagrams mean, octet by octet as RFC 2131 and RFC 2132 lay them out, and which exchanges end in
    a lease, told from the replies alone (src/api/amiga_roadshow_compat.c). */
module DhcpMeaning {

  import opened Common
  import opened DhcpOptions
  import opened DhcpExchange

  // ---- Options ------------------------------------------------------------------------------

  datatype Item = Pad | Value(code: byte, value: seq<byte>)

  /** These items stand from p on in the first n octets: up to an end mark, or to the end of what was received,
      where a value may be cut off and a code without a length is no option. */
  ghost predicate ItemsAt(o: seq<byte>, p: nat, n: nat, items: seq<Item>)
    requires n <= |o|
    decreases |items|
  {
    if items == [] then p >= n || o[p] == 255 || (p + 1 == n && o[p] != 0)
    else
      && p < n
      && match items[0]
         case Pad => o[p] == 0 && ItemsAt(o, p + 1, n, items[1..])
         case Value(code, value) =>
           && code != 0 && code != 255 && p + 2 <= n && o[p] == code
           && if |items| == 1 && n < p + 2 + o[p + 1] then value == o[p + 2..n]
              else
                && p + 2 + |value| <= n && o[p + 1] == |value| && value == o[p + 2..p + 2 + |value|]
                && ItemsAt(o, p + 2 + |value|, n, items[1..])
  }

  /** The first value with a code. */
  function ValueOf(items: seq<Item>, code: byte): Option<seq<byte>> {
    if items == [] then None
    else if items[0].Value? && items[0].code == code then Some(items[0].value)
    else ValueOf(items[1..], code)
  }

  /** An option was found where that value stands. */
  ghost predicate FoundIs(o: seq<byte>, f: Option<Found>, value: Option<seq<byte>>) {
    match value
    case None => f == None
    case Some(v) => f.Some? && f.value.len == |v| && f.value.at + |v| <= |o| && o[f.value.at..f.value.at + |v|] == v
  }

  lemma {:induction false} ItemsRead(o: seq<byte>, p: nat, n: nat, items: seq<Item>, code: byte)
    requires n <= |o| && ItemsAt(o, p, n, items)
    ensures FoundIs(o, First(Opts(o, p, n), code), ValueOf(items, code))
    decreases |items|
  {
    if items != [] {
      match items[0]
      case Pad => ItemsRead(o, p + 1, n, items[1..], code);
      case Value(c, value) =>
        if |items| == 1 && n < p + 2 + o[p + 1] {
          CutRead(o, p, n, items, code);
        } else {
          ItemsRead(o, p + 2 + |value|, n, items[1..], code);
          ValueRead(o, p, n, c, |value|, code);
        }
    }
  }

  lemma CutRead(o: seq<byte>, p: nat, n: nat, items: seq<Item>, code: byte)
    requires p + 2 <= n <= |o| && |items| == 1 && items[0].Value? && n < p + 2 + o[p + 1]
    requires o[p] == items[0].code && o[p] != 0 && o[p] != 255 && items[0].value == o[p + 2..n]
    ensures FoundIs(o, First(Opts(o, p, n), code), ValueOf(items, code))
  {
    var f := Found(o[p], p + 2, n - (p + 2));
    assert Opts(o, p, n) == [f] + [] && ([f] + [])[1..] == [] && items[1..] == [];
    assert First(Opts(o, p, n), code) == if f.code == code then Some(f) else None;
  }

  lemma ValueRead(o: seq<byte>, p: nat, n: nat, c: byte, len: nat, code: byte)
    requires p + 2 + len <= n <= |o| && o[p] == c && c != 0 && c != 255 && o[p + 1] == len
    ensures First(Opts(o, p, n), code)
      == if c == code then Some(Found(c, p + 2, len)) else First(Opts(o, p + 2 + len, n), code)
  {
    var rest := Opts(o, p + 2 + len, n);
    assert Opts(o, p, n) == [Found(c, p + 2, len)] + rest && ([Found(c, p + 2, len)] + rest)[1..] == rest;
  }

  // ---- Replies ------------------------------------------------------------------------------

  /** Four octets, high one first. */
  function Quad(o: seq<byte>, at: nat): int
    requires at + 4 <= |o|
  {
    o[at] as int * 0x100_0000 + o[at + 1] as int * 0x1_0000 + o[at + 2] as int * 0x100 + o[at + 3] as int
  }

  lemma QuadIsBe(o: seq<byte>, at: nat, d: seq<byte>, k: nat)
    requires at + 4 <= |o| && k + 4 <= |d| && o[at..at + 4] == d[k..k + 4]
    ensures Be(o, at) == Quad(d, k)
  {
    var x, y := o[at..at + 4], d[k..k + 4];
    assert o[at] == x[0] && o[at + 1] == x[1] && o[at + 2] == x[2] && o[at + 3] == x[3];
    assert d[k] == y[0] && d[k + 1] == y[1] && d[k + 2] == y[2] && d[k + 3] == y[3];
  }

  /** The value of an address or a time: its first four octets, 0 if it has fewer. */
  function FourOf(v: Option<seq<byte>>): int {
    if v.Some? && |v.value| >= 4 then Quad(v.value, 0) else 0
  }

  /** Up to three addresses, as many as there are four octets for. */
  function ThreeOf(v: Option<seq<byte>>): seq<int> {
    if v.None? then []
    else seq(Min(|v.value| / 4, 3), k requires 0 <= k < |v.value| / 4 => Quad(v.value, 4 * k))
  }

  /** Up to 127 characters. */
  function TextOf(v: Option<seq<byte>>): seq<byte> {
    if v.None? then [] else v.value[..Min(|v.value|, 127)]
  }

  /** What arrived in a tick: at most 548 octets of it, of which 240 are the fixed part and the cookie. */
  ghost predicate Arrived(t: Tick, n: nat, items: seq<Item>) {
    |t.after| == 4 && 240 <= n == Min(|t.datagram|, 548) && ItemsAt(t.datagram, 240, n, items)
  }

  lemma {:induction false} ItemsSame(a: seq<byte>, b: seq<byte>, p: nat, n: nat, items: seq<Item>)
    requires n <= |a| && n <= |b| && a[..n] == b[..n] && ItemsAt(a, p, n, items)
    ensures ItemsAt(b, p, n, items)
    decreases |items|
  {
    assert forall k | 0 <= k < n :: a[..n][k] == b[..n][k];
    if items != [] && items[0].Value? {
      var v := items[0].value;
      PrefixPart(a, b, n, p + 2, n);
      if !(|items| == 1 && n < p + 2 + a[p + 1]) {
        PrefixPart(a, b, n, p + 2, p + 2 + |v|);
        ItemsSame(a, b, p + 2 + |v|, n, items[1..]);
      }
    } else if items != [] {
      ItemsSame(a, b, p + 1, n, items[1..]);
    }
  }

  /** A search finds the first value with the code. */
  lemma ItemIsFound(t: Tick, n: nat, items: seq<Item>, code: byte)
    requires Arrived(t, n, items)
    ensures FoundIs(Buffer(t), Find(t, code), ValueOf(items, code))
  {
    assert Buffer(t)[..n] == t.datagram[..n];
    ItemsSame(t.datagram, Buffer(t), 240, n, items);
    ItemsRead(Buffer(t), 240, n, items, code);
  }

  lemma FixedRead(t: Tick, n: nat, items: seq<Item>, xid: u32)
    requires Arrived(t, n, items)
    ensures IsReply(t, xid) <==> t.datagram[0] == 2 && Quad(t.datagram, 4) == xid
    ensures YourAddr(t) == Quad(t.datagram, 16)
  {
    var o, d := Buffer(t), t.datagram;
    assert o[..n] == d[..n];
    PrefixPart(o, d, n, 4, 8);
    PrefixPart(o, d, n, 16, 20);
    QuadIsBe(o, 4, d, 4);
    QuadIsBe(o, 16, d, 16);
  }

  lemma WordRead(t: Tick, n: nat, items: seq<Item>, code: byte)
    requires Arrived(t, n, items)
    ensures Word(t, code) == FourOf(ValueOf(items, code))
  {
    ItemIsFound(t, n, items, code);
    var v := ValueOf(items, code);
    if v.Some? && |v.value| >= 4 {
      var at := Find(t, code).value.at;
      SubSlice(Buffer(t), at, at + |v.value|, 0, 4);
      QuadIsBe(Buffer(t), at, v.value, 0);
    }
  }

  lemma WordsRead(t: Tick, n: nat, items: seq<Item>)
    requires Arrived(t, n, items)
    ensures Words(t, DNS, MAXDNS) == ThreeOf(ValueOf(items, 6))
  {
    ItemIsFound(t, n, items, 6);
    var v := ValueOf(items, 6);
    if v.Some? {
      var at, w := Find(t, 6).value.at, v.value;
      forall k | 0 <= k < Min(|w| / 4, 3)
        ensures Be(Buffer(t), at + 4 * k) == Quad(w, 4 * k)
      {
        SubSlice(Buffer(t), at, at + |w|, 4 * k, 4 * k + 4);
        QuadIsBe(Buffer(t), at + 4 * k, w, 4 * k);
      }
    }
  }

  lemma TextRead(t: Tick, n: nat, items: seq<Item>, code: byte)
    requires Arrived(t, n, items)
    ensures Text(t, code) == TextOf(ValueOf(items, code))
  {
    ItemIsFound(t, n, items, code);
    var v := ValueOf(items, code);
    if v.Some? {
      var at := Find(t, code).value.at;
      SubSlice(Buffer(t), at, at + |v.value|, 0, Min(|v.value|, 127));
    }
  }

  /** Every datagram with a fixed part is read so: what kind of reply it is, and whose. */
  lemma ReplyMeans(t: Tick, n: nat, items: seq<Item>, xid: u32)
    requires Arrived(t, n, items)
    ensures IsReply(t, xid) <==> t.datagram[0] == 2 && Quad(t.datagram, 4) == xid
    ensures var v := ValueOf(items, 53);
            (v == None ==> TypeOf(t) == 0) && (v.Some? && v.value != [] ==> TypeOf(t) == v.value[0])
    ensures var v := ValueOf(items, 54);
            && (ServerOf(t).None? <==> v == None)
            && (v.Some? && |v.value| >= 4 ==> ServerOf(t) == Some(Quad(v.value, 0)))
  {
    FixedRead(t, n, items, xid);
    KindRead(t, n, items);
    ServerRead(t, n, items);
  }

  /** And the lease that it gives. */
  lemma LeaseMeans(t: Tick, n: nat, items: seq<Item>, server: u32)
    requires Arrived(t, n, items)
    ensures var l := LeaseOf(t, server);
            && l.addr == Quad(t.datagram, 16) && l.serverid == server
            && l.mask == FourOf(ValueOf(items, 1)) && l.router == FourOf(ValueOf(items, 3))
            && l.dns == ThreeOf(ValueOf(items, 6)) && l.time == FourOf(ValueOf(items, 51))
            && l.domain == TextOf(ValueOf(items, 15)) && l.hostname == TextOf(ValueOf(items, 12))
  {
    FixedRead(t, n, items, 0);
    WordRead(t, n, items, 1);
    WordRead(t, n, items, 3);
    WordsRead(t, n, items);
    WordRead(t, n, items, 51);
    TextRead(t, n, items, 15);
    TextRead(t, n, items, 12);
  }

  lemma KindRead(t: Tick, n: nat, items: seq<Item>)
    requires Arrived(t, n, items)
    ensures var v := ValueOf(items, 53);
            (v == None ==> TypeOf(t) == 0) && (v.Some? && v.value != [] ==> TypeOf(t) == v.value[0])
  {
    ItemIsFound(t, n, items, 53);
    var v := ValueOf(items, 53);
    if v.Some? && v.value != [] {
      var at := Find(t, 53).value.at;
      assert Buffer(t)[at] == Buffer(t)[at..at + |v.value|][0];
    }
  }

  lemma ServerRead(t: Tick, n: nat, items: seq<Item>)
    requires Arrived(t, n, items)
    ensures var v := ValueOf(items, 54);
            && (ServerOf(t).None? <==> v == None)
            && (v.Some? && |v.value| >= 4 ==> ServerOf(t) == Some(Quad(v.value, 0)))
  {
    ItemIsFound(t, n, items, 54);
    var v := ValueOf(items, 54);
    if v.Some? && |v.value| >= 4 {
      var at := Find(t, 54).value.at;
      SubSlice(Buffer(t), at, at + |v.value|, 0, 4);
      QuadIsBe(Buffer(t), at, v.value, 0);
    }
  }

  // ---- Packets ------------------------------------------------------------------------------

  /** The options that a server is to find in a packet. */
  function Meant(kind: byte, mac: seq<byte>, addr: seq<byte>, server: seq<byte>, code: byte): Option<seq<byte>> {
    match code
    case 53 => Some([kind])
    case 61 => Some([1] + mac)
    case 50 => if kind == 3 then Some(addr) else None
    case 54 => if kind == 3 then Some(server) else None
    case 55 => Some([1, 3, 6, 15, 12])
    case _ => None
  }

  /** A server that receives the packet reads back under each code exactly what is meant: an address and a
      server in a request and in no other packet. */
  lemma PacketMeans(kind: byte, xid: u32, mac: seq<byte>, addr: u32, serverid: u32, code: byte)
    requires |mac| == 6
    ensures var pkt := Packet(kind, xid, mac, addr, serverid);
            |pkt| == 548
            && FoundIs(pkt, Lookup(pkt, 548, code), Meant(kind, mac, Bytes4(addr), Bytes4(serverid), code))
  {
    WantedStand(kind, xid, mac, addr, serverid);
    ItemsRead(Packet(kind, xid, mac, addr, serverid), 240, 548, AsItems(Wanted(kind, mac, addr, serverid)), code);
    WantedMeans(kind, mac, addr, serverid, code);
  }

  /** And from its fixed part that it is a request on Ethernet, the transaction, the broadcast flag, the hardware
      address and the cookie. */
  lemma PacketHeads(kind: byte, xid: u32, mac: seq<byte>, addr: u32, serverid: u32)
    requires |mac| == 6
    ensures var pkt := Packet(kind, xid, mac, addr, serverid);
            && |pkt| >= 548 && pkt[0] == 1 && pkt[1] == 1 && pkt[2] == 6 && Quad(pkt, 4) == xid && pkt[10] == 0x80
            && pkt[28..34] == mac && pkt[236..240] == [0x63, 0x82, 0x53, 0x63]
  {
    HeaderMeans(xid, mac, Encode(Wanted(kind, mac, addr, serverid)) + [DHO_END]);
  }

  /** An address goes into an option high octet first. */
  lemma BytesAreQuad(x: u32)
    ensures Quad(Bytes4(x), 0) == x
  {
    BytesRoundTrip(x);
    QuadIsBe(Bytes4(x), 0, Bytes4(x), 0);
  }

  lemma HeaderMeans(xid: u32, mac: seq<byte>, options: seq<byte>)
    requires |mac| == 6
    ensures var pkt := Filled(xid, mac, options);
            && |pkt| >= 548 && (|options| <= 308 ==> |pkt| == 548) && pkt[240..240 + |options|] == options
            && pkt[0] == 1 && pkt[1] == 1 && pkt[2] == 6 && Quad(pkt, 4) == xid && pkt[10] == 0x80
            && pkt[28..34] == mac && pkt[236..240] == [0x63, 0x82, 0x53, 0x63]
  {
    var pkt := Filled(xid, mac, options);
    assert pkt[4..8] == Bytes4(xid) && pkt[8..12] == [0, 0, 0x80, 0] && pkt[10] == pkt[8..12][2];
    assert pkt[28..34] == mac && pkt[236..240] == [0x63, 0x82, 0x53, 0x63];
    QuadIsBe(pkt, 4, Bytes4(xid), 0);
    BytesRoundTrip(xid);
    QuadIsBe(Bytes4(xid), 0, Bytes4(xid), 0);
  }

  function AsItems(os: seq<Tlv>): seq<Item> {
    if os == [] then [] else [Value(os[0].code, os[0].value)] + AsItems(os[1..])
  }

  lemma {:induction false} EncodedStand(o: seq<byte>, p: nat, os: seq<Tlv>)
    requires (forall t <- os :: |t.value| < 0x100) && Codes(os) && p + |Encode(os)| < |o|
    requires o[p..p + |Encode(os)|] == Encode(os) && o[p + |Encode(os)|] == 255
    ensures ItemsAt(o, p, |o|, AsItems(os))
    decreases |os|
  {
    if os != [] {
      var t, rest := os[0], Encode(os[1..]);
      assert t in os;
      HeadStands(o, p, t, rest);
      EncodedStand(o, p + 2 + |t.value|, os[1..]);
      assert AsItems(os)[1..] == AsItems(os[1..]);
    }
  }

  lemma OneMore(t: Tlv, os: seq<Tlv>, code: byte)
    requires forall o <- [t] + os :: |o.value| < 0x100
    ensures ValueOf(AsItems([t] + os), code) == if t.code == code then Some(t.value) else ValueOf(AsItems(os), code)
    ensures (forall o <- os :: |o.value| < 0x100) && |Encode([t] + os)| == 2 + |t.value| + |Encode(os)|
  {
    assert ([t] + os)[1..] == os;
    assert ([Value(t.code, t.value)] + AsItems(os))[1..] == AsItems(os);
    forall o | o in os
      ensures |o.value| < 0x100
    {
      assert o in [t] + os;
    }
  }

  /** The options wanted, and what they take. */
  lemma WantedMeans(kind: byte, mac: seq<byte>, addr: u32, serverid: u32, code: byte)
    requires |mac| == 6
    ensures ValueOf(AsItems(Wanted(kind, mac, addr, serverid)), code)
      == Meant(kind, mac, Bytes4(addr), Bytes4(serverid), code)
    ensures |Encode(Wanted(kind, mac, addr, serverid))| <= 31
  {
    var a, b := Tlv(53, [kind]), Tlv(61, [1] + mac);
    var last: seq<Tlv> := [Tlv(55, [1, 3, 6, 15, 12])];
    var x, y := Tlv(50, Bytes4(addr)), Tlv(54, Bytes4(serverid));
    var asked := if kind == 3 then [x] + ([y] + last) else last;
    assert Wanted(kind, mac, addr, serverid) == [a] + ([b] + asked);
    OneMore(a, [b] + asked, code);
    OneMore(b, asked, code);
    assert [last[0]] + [] == last;
    OneMore(last[0], [], code);
    if kind == 3 {
      OneMore(x, [y] + last, code);
      OneMore(y, last, code);
    }
  }

  lemma WantedStand(kind: byte, xid: u32, mac: seq<byte>, addr: u32, serverid: u32)
    requires |mac| == 6
    ensures var pkt := Packet(kind, xid, mac, addr, serverid);
            |pkt| == 548 && ItemsAt(pkt, 240, 548, AsItems(Wanted(kind, mac, addr, serverid)))
  {
    var os, pkt := Wanted(kind, mac, addr, serverid), Packet(kind, xid, mac, addr, serverid);
    WantedMeans(kind, mac, addr, serverid, 53);
    HeaderMeans(xid, mac, Encode(os) + [DHO_END]);
    var all := pkt[240..240 + |Encode(os)| + 1];
    assert all == Encode(os) + [255];
    assert pkt[240..240 + |Encode(os)|] == all[..|Encode(os)|] && pkt[240 + |Encode(os)|] == all[|Encode(os)|];
    EncodedStand(pkt, 240, os);
  }

  // ---- Which exchanges end in a lease -------------------------------------------------------

  /** What kind of reply to this client the datagram of a tick is: 2 an offer, 5 an acknowledgement, 6 a refusal;
      0 if it is none. */
  ghost function KindOf(t: Tick, xid: u32): int
    requires |t.after| == 4
  {
    if IsReply(t, xid) then TypeOf(t) else 0
  }

  ghost function Kinds(ticks: seq<Tick>, xid: u32): (ks: seq<int>)
    requires Ticks(ticks)
    ensures |ks| == |ticks| && forall n | 0 <= n < |ks| :: ks[n] == KindOf(ticks[n], xid)
  {
    seq(|ticks|, n requires 0 <= n < |ticks| && Ticks(ticks) => KindOf(ticks[n], xid))
  }

  ghost predicate Is(ks: seq<int>, n: nat, kind: int) {
    n < |ks| && ks[n] == kind
  }

  /** Before tick n an offer has come, and no refusal since. */
  ghost predicate Asks(ks: seq<int>, n: nat) {
    exists o: nat | o < n :: Is(ks, o, 2) && Unrefused(ks, o, n)
  }

  ghost predicate Unrefused(ks: seq<int>, o: nat, n: nat) {
    forall j: nat | o < j < n :: !Is(ks, j, 6)
  }

  /** That has not changed for exactly i ticks. */
  ghost predicate Steady(ks: seq<int>, n: nat, i: int) {
    && 0 <= i <= n && (i < n ==> Changes(ks, n - i)) && forall m: nat | n - i < m <= n :: !Changes(ks, m)
  }

  ghost predicate Changes(ks: seq<int>, m: nat)
    requires m > 0
  {
    Asks(ks, m) != Asks(ks, m - 1)
  }

  /** The tick brings an acknowledgement of what is asked for. */
  ghost predicate Ends(ks: seq<int>, n: nat) {
    Asks(ks, n) && Is(ks, n, 5)
  }

  /** An offer that is taken: nothing is being asked for when it comes. */
  ghost predicate TakenAt(ks: seq<int>, n: nat) {
    !Asks(ks, n) && Is(ks, n, 2)
  }

  /** The last server identifier that an offer which was taken has carried. */
  ghost function ServerAt(ticks: seq<Tick>, ks: seq<int>, n: nat): u32
    requires Ticks(ticks) && |ks| == |ticks|
  {
    if n == 0 then 0
    else if TakenAt(ks, n - 1) && ServerOf(ticks[n - 1]).Some? then ServerOf(ticks[n - 1]).value
    else ServerAt(ticks, ks, n - 1)
  }

  /** The address that is asked for, 0 if none is. */
  ghost function AddrAt(ticks: seq<Tick>, ks: seq<int>, n: nat): u32
    requires Ticks(ticks) && |ks| == |ticks|
  {
    if n == 0 || !Asks(ks, n) then 0
    else if TakenAt(ks, n - 1) then YourAddr(ticks[n - 1])
    else AddrAt(ticks, ks, n - 1)
  }

  lemma AsksNext(ks: seq<int>, n: nat)
    ensures Asks(ks, n + 1) <==> Is(ks, n, 2) || (Asks(ks, n) && !Is(ks, n, 6))
  {
    if Is(ks, n, 2) {
      assert Unrefused(ks, n, n + 1);
    }
    if Asks(ks, n) && !Is(ks, n, 6) {
      var o: nat :| o < n && Is(ks, o, 2) && Unrefused(ks, o, n);
      assert Unrefused(ks, o, n + 1);
    }
    if Asks(ks, n + 1) && !Is(ks, n, 2) {
      var o: nat :| o < n + 1 && Is(ks, o, 2) && Unrefused(ks, o, n + 1);
      assert o < n && Unrefused(ks, o, n);
    }
  }

  lemma SteadyNext(ks: seq<int>, n: nat, i: int)
    requires Steady(ks, n, i)
    ensures Steady(ks, n + 1, if Changes(ks, n + 1) then 0 else i + 1)
  {
  }

  lemma SteadyOnce(ks: seq<int>, n: nat, i: int, j: int)
    requires Steady(ks, n, i) && Steady(ks, n, j)
    ensures i == j
  {
    assert i < n ==> Changes(ks, n - i);
    assert j < n ==> Changes(ks, n - j);
  }

  /** Where the exchange stands, told from the replies so far. */
  ghost predicate StandIs(ticks: seq<Tick>, ks: seq<int>, n: nat, s: Stand)
    requires Ticks(ticks) && |ks| == |ticks|
  {
    && s.Going? && s.kind == (if Asks(ks, n) then 3 else 1) && Steady(ks, n, s.i)
    && s.l == NO_LEASE.(addr := AddrAt(ticks, ks, n), serverid := ServerAt(ticks, ks, n))
  }

  /** One turn, by the kind of its reply. */
  lemma TurnedBy(kind: byte, i: int, l: Lease, t: Tick, xid: u32)
    requires |t.after| == 4
    ensures var k := KindOf(t, xid);
            Turned(kind, i, l, t, xid)
              == if kind == 1 && k == 2 then Going(3, 0, Accepting(t, l))
                 else if kind == 3 && k == 5 then Done(LeaseOf(t, l.serverid))
                 else if kind == 3 && k == 6 then Going(1, 0, l.(addr := 0))
                 else Going(kind, i + 1, l)
  {
  }

  /** The stand after a turn, by where the turn began. */
  ghost predicate StandMoves(ticks: seq<Tick>, ks: seq<int>, n: nat, s': Stand)
    requires Ticks(ticks) && |ks| == |ticks| && n < |ticks|
  {
    if Ends(ks, n) then s' == Done(LeaseOf(ticks[n], ServerAt(ticks, ks, n))) else StandIs(ticks, ks, n + 1, s')
  }

  lemma StandStep(ticks: seq<Tick>, xid: u32, ks: seq<int>, n: nat, s: Stand)
    requires Ticks(ticks) && ks == Kinds(ticks, xid) && n < |ticks| && StandIs(ticks, ks, n, s)
    ensures StandMoves(ticks, ks, n, Turned(s.kind, s.i, s.l, ticks[n], xid))
  {
    AsksNext(ks, n);
    SteadyNext(ks, n, s.i);
    TurnedBy(s.kind, s.i, s.l, ticks[n], xid);
  }

  /** The next stand of the exchange. */
  lemma StandNext(ticks: seq<Tick>, xid: u32, ks: seq<int>, n: nat)
    requires Ticks(ticks) && ks == Kinds(ticks, xid) && n < |ticks| && StandIs(ticks, ks, n, StandAt(ticks, xid, n))
    ensures StandMoves(ticks, ks, n, StandAt(ticks, xid, n + 1))
  {
    StandStep(ticks, xid, ks, n, StandAt(ticks, xid, n));
  }

  lemma StandGoesOn(ticks: seq<Tick>, xid: u32, ks: seq<int>, n: nat, s: Stand)
    requires Ticks(ticks) && ks == Kinds(ticks, xid) && 0 < n <= |ticks| && s == StandAt(ticks, xid, n)
    requires StandIs(ticks, ks, n - 1, StandAt(ticks, xid, n - 1))
    ensures s.Going? <==> !Ends(ks, n - 1)
    ensures !Ends(ks, n - 1) ==> StandIs(ticks, ks, n, s)
  {
    StandNext(ticks, xid, ks, n - 1);
    Moved(ticks, ks, n - 1, s);
  }

  lemma StandStarts(ticks: seq<Tick>, xid: u32, ks: seq<int>)
    requires Ticks(ticks) && |ks| == |ticks|
    ensures StandIs(ticks, ks, 0, StandAt(ticks, xid, 0))
  {
  }

  lemma {:induction false} StandsSo(ticks: seq<Tick>, xid: u32, ks: seq<int>, n: nat)
    requires Ticks(ticks) && ks == Kinds(ticks, xid) && n <= |ticks| && forall m: nat | m < n :: !Ends(ks, m)
    ensures StandIs(ticks, ks, n, StandAt(ticks, xid, n))
  {
    if n == 0 {
      StandStarts(ticks, xid, ks);
    } else {
      StandsSo(ticks, xid, ks, n - 1);
      StandGoesOn(ticks, xid, ks, n, StandAt(ticks, xid, n));
    }
  }

  /** What the client sends, told from the replies alone: as long as nothing has ended it, at every twentieth tick
      since what it asks for has changed a packet, a request for the address on offer or a discovery. */
  lemma SendsExactly(ticks: seq<Tick>, xid: u32, mac: seq<byte>, ks: seq<int>, n: nat, i: int)
    requires Ticks(ticks) && ks == Kinds(ticks, xid) && n < |ticks| && |mac| == 6
    requires (forall m: nat | m < n :: !Ends(ks, m)) && Steady(ks, n, i)
    ensures var now, later := LogOf(ticks, xid, mac, n), LogOf(ticks, xid, mac, n + 1);
            && |now| <= |later| && later[..|now|] == now
            && forall e: Ev | e.Sent? ::
                 e in later[|now|..] <==>
                   i % 20 == 0 && e == Sent(n, Packet(if Asks(ks, n) then 3 else 1, xid, mac,
                                                      AddrAt(ticks, ks, n), ServerAt(ticks, ks, n)))
  {
    StandsSo(ticks, xid, ks, n);
    SteadyOnce(ks, n, i, StandAt(ticks, xid, n).i);
    var s := StandAt(ticks, xid, n);
    var now, sends, notes := LogOf(ticks, xid, mac, n), Sends(s.kind, s.i, s.l, n, xid, mac),
                             Notes(s.kind, ticks[n], n, xid);
    assert LogOf(ticks, xid, mac, n + 1) == now + (sends + notes);
  }

  /** Nothing has stopped the exchange before tick n. */
  ghost predicate Unstopped(ticks: seq<Tick>, xid: u32, deadline: int, n: nat)
    requires Ticks(ticks) && n <= |ticks|
  {
    forall m: nat | m < n :: Continues(ticks, xid, deadline, m)
  }

  ghost predicate Continues(ticks: seq<Tick>, xid: u32, deadline: int, m: nat)
    requires Ticks(ticks) && m < |ticks|
  {
    var s := StandAt(ticks, xid, m);
    !ticks[m].abort && s.Going? && s.i < deadline
  }

  /** How it stops when it does. */
  ghost predicate Stops(ticks: seq<Tick>, xid: u32, deadline: int, p: Play)
    requires Ticks(ticks)
  {
    && p.n <= |ticks|
    && match p.outcome
       case GOT => Unstopped(ticks, xid, deadline, p.n) && StandAt(ticks, xid, p.n) == Done(p.l)
       case TIMEOUT =>
         && Unstopped(ticks, xid, deadline, p.n)
         && var s := StandAt(ticks, xid, p.n);
            s.Going? && s.i >= deadline && s.l == p.l
       case RUNNING =>
         && p.n == |ticks| && Unstopped(ticks, xid, deadline, p.n)
         && var s := StandAt(ticks, xid, p.n);
            s.Going? && s.i < deadline && s.l == p.l
       case ABORT =>
         && p.n > 0 && ticks[p.n - 1].abort && Unstopped(ticks, xid, deadline, p.n - 1)
         && var s := StandAt(ticks, xid, p.n - 1);
            s.Going? && s.i < deadline && s.l == p.l
  }

  /** What is played from tick n on stops so, and with the lease of the first tick after which it is done. */
  lemma {:induction false} PlayStops(ticks: seq<Tick>, xid: u32, deadline: int, n: nat, k: nat)
    requires Ticks(ticks) && n <= |ticks| && Unstopped(ticks, xid, deadline, n)
    ensures Stops(ticks, xid, deadline, Played(StandAt(ticks, xid, n), deadline, xid, ticks, n))
    ensures n <= k <= |ticks| && Unstopped(ticks, xid, deadline, k) && StandAt(ticks, xid, k).Done? ==>
              Played(StandAt(ticks, xid, n), deadline, xid, ticks, n) == Play(GOT, StandAt(ticks, xid, k).l, k)
    decreases |ticks| - n
  {
    if n < |ticks| && Continues(ticks, xid, deadline, n) {
      PlayedTurn(StandAt(ticks, xid, n), StandAt(ticks, xid, n + 1), deadline, xid, ticks, n);
      PlayStops(ticks, xid, deadline, n + 1, k);
    }
  }

  /** Tick n - 1 is the first to acknowledge what is asked for, and no abort and no deadline comes first. */
  ghost predicate Grants(ticks: seq<Tick>, ks: seq<int>, deadline: int, n: nat)
    requires |ks| == |ticks|
  {
    && 0 < n <= |ticks| && Ends(ks, n - 1) && (forall m: nat | m < n - 1 :: !Ends(ks, m))
    && forall m: nat | m < n :: InTime(ticks, ks, deadline, m)
  }

  /** At tick m there is no abort, and less than deadline ticks have passed since what is asked for changed. */
  ghost predicate InTime(ticks: seq<Tick>, ks: seq<int>, deadline: int, m: nat)
    requires m < |ticks|
  {
    !ticks[m].abort && forall i | Steady(ks, m, i) :: i < deadline
  }

  lemma InTimeIs(ticks: seq<Tick>, xid: u32, ks: seq<int>, deadline: int, m: nat)
    requires Ticks(ticks) && ks == Kinds(ticks, xid) && m < |ticks| && StandIs(ticks, ks, m, StandAt(ticks, xid, m))
    ensures InTime(ticks, ks, deadline, m) <==> Continues(ticks, xid, deadline, m)
  {
    var s := StandAt(ticks, xid, m);
    forall i | Steady(ks, m, i)
      ensures i == s.i
    {
      SteadyOnce(ks, m, i, s.i);
    }
  }

  lemma GrantedIsDone(ticks: seq<Tick>, xid: u32, ks: seq<int>, deadline: int, n: nat)
    requires Ticks(ticks) && ks == Kinds(ticks, xid) && Grants(ticks, ks, deadline, n)
    ensures Unstopped(ticks, xid, deadline, n)
    ensures StandAt(ticks, xid, n) == Done(LeaseOf(ticks[n - 1], ServerAt(ticks, ks, n - 1)))
  {
    forall m: nat | m < n
      ensures Continues(ticks, xid, deadline, m)
    {
      StandsSo(ticks, xid, ks, m);
      InTimeIs(ticks, xid, ks, deadline, m);
    }
    StandsSo(ticks, xid, ks, n - 1);
    StandNext(ticks, xid, ks, n - 1);
  }

  lemma DoneIsGranted(ticks: seq<Tick>, xid: u32, ks: seq<int>, deadline: int, n: nat)
    requires Ticks(ticks) && ks == Kinds(ticks, xid) && n <= |ticks|
    requires 0 < n && Unstopped(ticks, xid, deadline, n) && StandAt(ticks, xid, n).Done?
    ensures Grants(ticks, ks, deadline, n)
  {
    NotBefore(ticks, xid, ks, deadline, n, n - 1);
    NoneEnded(ticks, xid, ks, deadline, n);
    AllInTime(ticks, xid, ks, deadline, n);
    StandGoesOn(ticks, xid, ks, n, StandAt(ticks, xid, n));
  }

  lemma NoneEnded(ticks: seq<Tick>, xid: u32, ks: seq<int>, deadline: int, n: nat)
    requires Ticks(ticks) && ks == Kinds(ticks, xid) && 0 < n <= |ticks| && Unstopped(ticks, xid, deadline, n)
    ensures forall m: nat | m < n - 1 :: !Ends(ks, m)
  {
    forall m: nat | m < n - 1
      ensures !Ends(ks, m)
    {
      NotBefore(ticks, xid, ks, deadline, n, m + 1);
    }
  }

  lemma AllInTime(ticks: seq<Tick>, xid: u32, ks: seq<int>, deadline: int, n: nat)
    requires Ticks(ticks) && ks == Kinds(ticks, xid) && n <= |ticks| && Unstopped(ticks, xid, deadline, n)
    ensures forall m: nat | m < n :: InTime(ticks, ks, deadline, m)
  {
    forall m: nat | m < n
      ensures InTime(ticks, ks, deadline, m)
    {
      GoesOn(ticks, xid, deadline, n, m);
      NotBefore(ticks, xid, ks, deadline, n, m);
      InTimeIs(ticks, xid, ks, deadline, m);
    }
  }

  /** As long as the exchange goes on, nothing has ended it. */
  lemma {:induction false} NotBefore(ticks: seq<Tick>, xid: u32, ks: seq<int>, deadline: int, n: nat, k: nat)
    requires Ticks(ticks) && ks == Kinds(ticks, xid) && k < n <= |ticks| && Unstopped(ticks, xid, deadline, n)
    ensures (k > 0 ==> !Ends(ks, k - 1)) && StandIs(ticks, ks, k, StandAt(ticks, xid, k))
  {
    if k == 0 {
      StandStarts(ticks, xid, ks);
    } else {
      NotBefore(ticks, xid, ks, deadline, n, k - 1);
      StandGoesOn(ticks, xid, ks, k, StandAt(ticks, xid, k));
      GoesOn(ticks, xid, deadline, n, k);
    }
  }

  lemma GoesOn(ticks: seq<Tick>, xid: u32, deadline: int, n: nat, k: nat)
    requires Ticks(ticks) && k < n <= |ticks| && Unstopped(ticks, xid, deadline, n)
    ensures StandAt(ticks, xid, k).Going? && Continues(ticks, xid, deadline, k)
  {
    assert Continues(ticks, xid, deadline, k);
  }

  lemma Moved(ticks: seq<Tick>, ks: seq<int>, n: nat, s: Stand)
    requires Ticks(ticks) && |ks| == |ticks| && n < |ticks| && StandMoves(ticks, ks, n, s)
    ensures s.Going? <==> !Ends(ks, n)
    ensures s.Going? ==> StandIs(ticks, ks, n + 1, s)
  {
  }

  /** For every sequence of ticks: the exchange reports a lease exactly when one of them grants it, and then that
      lease, at that tick. */
  lemma LeaseExactly(ticks: seq<Tick>, xid: u32, deadline: int, l: Lease, n: nat)
    requires Ticks(ticks)
    ensures var ks := Kinds(ticks, xid);
            Played(START, deadline, xid, ticks, 0) == Play(GOT, l, n) <==>
            Grants(ticks, ks, deadline, n) && l == LeaseOf(ticks[n - 1], ServerAt(ticks, ks, n - 1))
  {
    var ks := Kinds(ticks, xid);
    PlayStops(ticks, xid, deadline, 0, n);
    if Played(START, deadline, xid, ticks, 0) == Play(GOT, l, n) {
      DoneIsGranted(ticks, xid, ks, deadline, n);
    }
    if Grants(ticks, ks, deadline, n) {
      GrantedIsDone(ticks, xid, ks, deadline, n);
    }
  }
}
