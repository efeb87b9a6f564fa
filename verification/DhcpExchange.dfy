/** One DISCOVER, OFFER, REQUEST, ACK exchange (ng_dhcp_exchange in src/api/amiga_roadshow_compat.c).
    What arrives is a sequence of ticks; the exchange may stop before they run out, or still be
    running when they do. */
module DhcpExchange {

  import opened Common
  import opened DhcpOptions

  const BOOTREQUEST: byte := 1
  const BOOTREPLY: byte := 2
  const DHCPDISCOVER: byte := 1
  const DHCPOFFER: byte := 2
  const DHCPREQUEST: byte := 3
  const DHCPACK: byte := 5
  const DHCPNAK: byte := 6

  const SUBNET_MASK: byte := 1
  const ROUTERS: byte := 3
  const DNS: byte := 6
  const HOSTNAME: byte := 12
  const DOMAIN: byte := 15
  const REQUESTED_ADDR: byte := 50
  const LEASE_TIME: byte := 51
  const MSG_TYPE: byte := 53
  const SERVER_ID: byte := 54
  const PARAM_REQ: byte := 55
  const CLIENT_ID: byte := 61

  const MAXDNS: nat := 3
  const TEXT_MAX: nat := 127

  /** One turn of the poll loop: is an abort asked for, would a send in it succeed, which datagram has
      come ([] for none), and the bytes that happen to follow the receive buffer in memory. */
  datatype Tick = Tick(abort: bool, sends: bool, datagram: seq<byte>, after: seq<byte>)

  datatype Outcome = TIMEOUT | GOT | ABORT | RUNNING

  datatype Lease = Lease(
    addr: u32, serverid: u32, mask: u32, router: u32, dns: seq<u32>, time: u32, domain: seq<byte>, hostname: seq<byte>)

  /** What has happened at tick n: a packet was handed to sendto, whose result is not looked at, or the
      reply was accepted as an offer or a refusal. */
  datatype Ev = Sent(n: nat, pkt: seq<byte>) | Offered(n: nat) | Refused(n: nat)

  // ---- Reading packets ----------------------------------------------------------------------

  function Be(o: seq<byte>, at: nat): u32
    requires at + 4 <= |o|
  {
    ((o[at] as int * 0x100 + o[at + 1]) * 0x100 + o[at + 2]) * 0x100 + o[at + 3]
  }

  function Bytes4(x: u32): (r: seq<byte>)
    ensures |r| == 4
  {
    [x / 0x100_0000, x / 0x1_0000 % 0x100, x / 0x100 % 0x100, x % 0x100]
  }

  lemma BytesRoundTrip(x: u32)
    ensures Be(Bytes4(x), 0) == x
  {
    assert x / 0x1_0000 == x / 0x100_0000 * 0x100 + x / 0x1_0000 % 0x100;
    assert x / 0x100 == x / 0x1_0000 * 0x100 + x / 0x100 % 0x100;
  }

  function Length(t: Tick): nat {
    Min(|t.datagram|, PACKET)
  }

  /** The receive buffer: cleared, then overwritten by the datagram; and what lies behind it. */
  function Buffer(t: Tick): (rx: seq<byte>)
    requires |t.after| == 4
    ensures |rx| == PACKET + 4
  {
    t.datagram[..Length(t)] + seq(PACKET - Length(t), _ => 0) + t.after
  }

  predicate IsReply(t: Tick, xid: u32)
    requires |t.after| == 4
  {
    240 <= Length(t) && Be(Buffer(t), 4) == xid && Buffer(t)[0] == BOOTREPLY
  }

  /** Where the value of an option lies; its first four bytes are inside the buffer and what follows. */
  function Find(t: Tick, code: byte): (f: Option<Found>)
    requires |t.after| == 4
    ensures f.Some? ==> f.value.at + 4 <= |Buffer(t)| && f.value.at + f.value.len <= Length(t)
  {
    LookupWithin(Buffer(t), Length(t), code);
    Lookup(Buffer(t), Length(t), code)
  }

  function TypeOf(t: Tick): byte
    requires |t.after| == 4
  {
    var f := Find(t, MSG_TYPE);
    if f.Some? then Buffer(t)[f.value.at] else 0
  }

  function YourAddr(t: Tick): u32
    requires |t.after| == 4
  {
    Be(Buffer(t), 16)
  }

  /** The server identifier of an offer, read without a look at its length. */
  function ServerOf(t: Tick): Option<u32>
    requires |t.after| == 4
  {
    var f := Find(t, SERVER_ID);
    if f.Some? then Some(Be(Buffer(t), f.value.at)) else None
  }

  /** A four-byte option, 0 if absent or too short. */
  function Word(t: Tick, code: byte): u32
    requires |t.after| == 4
  {
    var f := Find(t, code);
    if f.Some? && f.value.len >= 4 then Be(Buffer(t), f.value.at) else 0
  }

  /** The first few addresses of an option that lists them. */
  function Words(t: Tick, code: byte, most: nat): (r: seq<u32>)
    requires |t.after| == 4
    ensures |r| <= most
  {
    var f := Find(t, code);
    if f.None? then [] else WordsAt(Buffer(t), f.value.at, Min(f.value.len / 4, most))
  }

  function WordsAt(o: seq<byte>, at: nat, n: nat): (r: seq<u32>)
    requires at + 4 * n <= |o|
    ensures |r| == n
  {
    seq(n, k requires 0 <= k < n => Be(o, at + 4 * k))
  }

  function Text(t: Tick, code: byte): seq<byte>
    requires |t.after| == 4
  {
    var f := Find(t, code);
    if f.None? then [] else Buffer(t)[f.value.at..f.value.at + Min(f.value.len, TEXT_MAX)]
  }

  /** The lease an acknowledgement gives. */
  function LeaseOf(t: Tick, serverid: u32): Lease
    requires |t.after| == 4
  {
    Lease(YourAddr(t), serverid, Word(t, SUBNET_MASK), Word(t, ROUTERS), Words(t, DNS, MAXDNS),
          Word(t, LEASE_TIME), Text(t, DOMAIN), Text(t, HOSTNAME))
  }

  // ---- Sent packets -------------------------------------------------------------------------

  /** What only a request carries. */
  function Asked(kind: byte, addr: u32, serverid: u32): seq<Tlv> {
    if kind == DHCPREQUEST then [Tlv(REQUESTED_ADDR, Bytes4(addr)), Tlv(SERVER_ID, Bytes4(serverid))] else []
  }

  /** The options of a packet of the given type, in order. */
  function Wanted(kind: byte, mac: seq<byte>, addr: u32, serverid: u32): seq<Tlv> {
    [Tlv(MSG_TYPE, [kind]), Tlv(CLIENT_ID, [1] + mac)]
    + Asked(kind, addr, serverid)
    + [Tlv(PARAM_REQ, [SUBNET_MASK, ROUTERS, DNS, DOMAIN, HOSTNAME])]
  }

  function Zeros(n: nat): (z: seq<byte>)
    ensures |z| == n
  {
    seq(n, _ => 0)
  }

  /** The fixed part of a packet: a request on Ethernet, with the broadcast flag, and the magic cookie. */
  function Header(xid: u32, mac: seq<byte>): seq<byte> {
    [BOOTREQUEST, 1, 6, 0] + Bytes4(xid) + [0, 0, 0x80, 0] + Zeros(16) + mac + Zeros(202) + [0x63, 0x82, 0x53, 0x63]
  }

  /** A packet that ends, or will end, with nothing but zeros after these options. */
  function Filled(xid: u32, mac: seq<byte>, options: seq<byte>): seq<byte> {
    Header(xid, mac) + options + Zeros(if |options| < PACKET - HEADER - 4 then PACKET - HEADER - 4 - |options| else 0)
  }

  /** The packet of a transmission. */
  function Packet(kind: byte, xid: u32, mac: seq<byte>, addr: u32, serverid: u32): seq<byte>
    requires |mac| == 6
  {
    Filled(xid, mac, Encode(Wanted(kind, mac, addr, serverid)) + [DHO_END])
  }

  method PutHeader(a: array<byte>, xid: u32, mac: seq<byte>)
    requires a.Length == PACKET && |mac| == 6
    modifies a
    ensures a[..] == Filled(xid, mac, [])
  {
    var r := 0;
    while r < a.Length
      invariant 0 <= r <= a.Length && forall k | 0 <= k < r :: a[k] == 0
    {
      a[r] := 0;
      r := r + 1;
    }
    a[0], a[1], a[2] := BOOTREQUEST, 1, 6;
    a[10] := 0x80;   // BOOTP_BCAST_FLAG
    var x := Bytes4(xid);
    a[4], a[5], a[6], a[7] := x[0], x[1], x[2], x[3];
    r := 0;
    while r < 6
      invariant 0 <= r <= 6 && a[28..28 + r] == mac[..r]
      invariant a[..28] == [BOOTREQUEST, 1, 6, 0] + x + [0, 0, 0x80, 0] + Zeros(16)
      invariant forall k | 28 + r <= k < a.Length :: a[k] == 0
    {
      a[28 + r] := mac[r];
      r := r + 1;
    }
    PutCookie(a, xid, mac);
  }

  /** The first four octets of the options. */
  method PutCookie(a: array<byte>, ghost xid: u32, ghost mac: seq<byte>)
    requires a.Length == PACKET && |mac| == 6 && a[28..34] == mac
    requires a[..28] == [BOOTREQUEST, 1, 6, 0] + Bytes4(xid) + [0, 0, 0x80, 0] + Zeros(16)
    requires forall k | 34 <= k < a.Length :: a[k] == 0
    modifies a
    ensures a[..] == Filled(xid, mac, [])
  {
    a[236], a[237], a[238], a[239] := 0x63, 0x82, 0x53, 0x63;
    assert a[34..236] == Zeros(202) && a[236..240] == [0x63, 0x82, 0x53, 0x63] && a[240..] == Zeros(308);
    assert a[..240] == a[..28] + a[28..34] + a[34..236] + a[236..240];
    assert a[..] == a[..240] + [] + a[240..];
  }

  lemma {:induction false} EncodeSnoc(os: seq<Tlv>, t: Tlv)
    requires (forall o <- os :: |o.value| < 0x100) && |t.value| < 0x100
    ensures Encode(os + [t]) == Encode(os) + ([t.code, |t.value|] + t.value)
  {
    if os == [] {
      assert [] + [t] == [t] && [t][1..] == [];
      assert Encode([t]) == [t.code, |t.value|] + t.value + Encode([]);
    } else {
      assert (os + [t])[1..] == os[1..] + [t] && (os + [t])[0] == os[0];
      EncodeSnoc(os[1..], t);
    }
  }

  /** One option more. */
  method PutNext(a: array<byte>, p: nat, ghost xid: u32, ghost mac: seq<byte>, ghost os: seq<Tlv>, code: byte,
                 value: seq<byte>) returns (q: nat)
    requires a.Length == PACKET && |mac| == 6 && |value| < 0x100 && (forall o <- os :: |o.value| < 0x100)
    requires p == HEADER + 4 + |Encode(os)| && p + 2 + |value| <= PACKET && a[..] == Filled(xid, mac, Encode(os))
    modifies a
    ensures q == p + 2 + |value| == HEADER + 4 + |Encode(os + [Tlv(code, value)])|
    ensures a[..] == Filled(xid, mac, Encode(os + [Tlv(code, value)]))
  {
    ghost var was := a[..];
    EncodeSnoc(os, Tlv(code, value));
    q := DhcpPut(a, p, code, value);
    OptionFilled(was, a[..], p, xid, mac, Encode(os), Tlv(code, value));
  }

  lemma OptionFilled(was: seq<byte>, now: seq<byte>, p: nat, xid: u32, mac: seq<byte>, options: seq<byte>, t: Tlv)
    requires |mac| == 6 && |t.value| < 0x100 && |was| == |now| == PACKET && was == Filled(xid, mac, options)
    requires p == HEADER + 4 + |options| && p + 2 + |t.value| <= PACKET && Stands(now, p, t)
    requires now[..p] == was[..p] && now[p + 2 + |t.value|..] == was[p + 2 + |t.value|..]
    ensures now == Filled(xid, mac, options + ([t.code, |t.value|] + t.value))
  {
    var q := p + 2 + |t.value|;
    assert was[..p] == Header(xid, mac) + options;
    assert was[q..] == Zeros(PACKET - q);
    assert now[p..q] == [t.code, |t.value|] + t.value;
    assert now == now[..p] + now[p..q] + now[q..];
    assert now[..q] == Header(xid, mac) + (options + ([t.code, |t.value|] + t.value));
  }

  method PutAsked(a: array<byte>, p: nat, ghost xid: u32, ghost mac: seq<byte>, ghost os: seq<Tlv>, kind: byte,
                  addr: u32, serverid: u32) returns (q: nat)
    requires a.Length == PACKET && |mac| == 6 && (forall o <- os :: |o.value| < 0x100)
    requires p == HEADER + 4 + |Encode(os)| && p + 12 <= PACKET && a[..] == Filled(xid, mac, Encode(os))
    modifies a
    ensures p <= q <= p + 12 && forall o <- os + Asked(kind, addr, serverid) :: |o.value| < 0x100
    ensures q == HEADER + 4 + |Encode(os + Asked(kind, addr, serverid))|
    ensures a[..] == Filled(xid, mac, Encode(os + Asked(kind, addr, serverid)))
  {
    q := p;
    if kind == DHCPREQUEST {
      q := PutNext(a, q, xid, mac, os, REQUESTED_ADDR, Bytes4(addr));
      ghost var more := os + [Tlv(REQUESTED_ADDR, Bytes4(addr))];
      q := PutNext(a, q, xid, mac, more, SERVER_ID, Bytes4(serverid));
      assert more + [Tlv(SERVER_ID, Bytes4(serverid))] == os + Asked(kind, addr, serverid);
    } else {
      assert os + Asked(kind, addr, serverid) == os;
    }
  }

  /** The packet of a transmission. */
  method BuildPacket(a: array<byte>, kind: byte, xid: u32, mac: seq<byte>, addr: u32, serverid: u32)
    requires a.Length == PACKET && |mac| == 6
    modifies a
    ensures a[..] == Packet(kind, xid, mac, addr, serverid)
  {
    PutHeader(a, xid, mac);
    ghost var os: seq<Tlv> := [];
    var o := PutNext(a, HEADER + 4, xid, mac, os, MSG_TYPE, [kind]);
    os := os + [Tlv(MSG_TYPE, [kind])];
    o := PutNext(a, o, xid, mac, os, CLIENT_ID, [1] + mac);
    os := os + [Tlv(CLIENT_ID, [1] + mac)];
    o := PutAsked(a, o, xid, mac, os, kind, addr, serverid);
    os := os + Asked(kind, addr, serverid);
    o := PutNext(a, o, xid, mac, os, PARAM_REQ, [SUBNET_MASK, ROUTERS, DNS, DOMAIN, HOSTNAME]);
    os := os + [Tlv(PARAM_REQ, [SUBNET_MASK, ROUTERS, DNS, DOMAIN, HOSTNAME])];
    assert os == Wanted(kind, mac, addr, serverid);
    EndPacket(a, o, xid, mac, Encode(os));
  }

  method EndPacket(a: array<byte>, o: nat, ghost xid: u32, ghost mac: seq<byte>, ghost options: seq<byte>)
    requires a.Length == PACKET && |mac| == 6 && o == HEADER + 4 + |options| < PACKET
    requires a[..] == Filled(xid, mac, options)
    modifies a
    ensures a[..] == Filled(xid, mac, options + [DHO_END])
  {
    ghost var was := a[..];
    a[o] := DHO_END;
    assert was[..o] == Header(xid, mac) + options && a[..o] == was[..o];
    assert a[o + 1..] == was[o + 1..] == Zeros(PACKET - o - 1);
    assert a[..] == a[..o] + [DHO_END] + a[o + 1..];
    assert a[..o] + [DHO_END] == Header(xid, mac) + (options + [DHO_END]);
  }

  // ---- Taking a reply apart -----------------------------------------------------------------

  method ReadType(t: Tick) returns (kind: byte)
    requires |t.after| == 4
    ensures kind == TypeOf(t)
  {
    var f := DhcpFind(Buffer(t), Length(t), MSG_TYPE);
    assert f == Find(t, MSG_TYPE);
    kind := if f.Some? then Buffer(t)[f.value.at] else 0;
  }

  method ReadWord(t: Tick, code: byte) returns (x: u32)
    requires |t.after| == 4
    ensures x == Word(t, code)
  {
    var f := DhcpFind(Buffer(t), Length(t), code);
    assert f == Find(t, code);
    x := if f.Some? && f.value.len >= 4 then Be(Buffer(t), f.value.at) else 0;
  }

  method ReadText(t: Tick, code: byte) returns (s: seq<byte>)
    requires |t.after| == 4
    ensures s == Text(t, code)
  {
    var f := DhcpFind(Buffer(t), Length(t), code);
    assert f == Find(t, code);
    s := [];
    if f.Some? && f.value.len > 0 {
      s := Buffer(t)[f.value.at..f.value.at + if f.value.len < TEXT_MAX then f.value.len else TEXT_MAX];
    }
  }

  method ReadWords(t: Tick, code: byte, most: nat) returns (xs: seq<u32>)
    requires |t.after| == 4
    ensures xs == Words(t, code, most)
  {
    var f := DhcpFind(Buffer(t), Length(t), code);
    assert f == Find(t, code);
    xs := [];
    if f.Some? && f.value.len >= 4 {
      var rx, at, n := Buffer(t), f.value.at, f.value.len;
      var di: nat := 0;
      while (di + 1) * 4 <= n && di < most
        invariant 4 * di <= n && di <= most && xs == WordsAt(rx, at, di)
      {
        xs := xs + [Be(rx, at + di * 4)];
        di := di + 1;
      }
    }
  }

  method ReadLease(t: Tick, serverid: u32) returns (l: Lease)
    requires |t.after| == 4
    ensures l == LeaseOf(t, serverid)
  {
    var mask := ReadWord(t, SUBNET_MASK);
    var router := ReadWord(t, ROUTERS);
    var dns := ReadWords(t, DNS, MAXDNS);
    var time := ReadWord(t, LEASE_TIME);
    var domain := ReadText(t, DOMAIN);
    var hostname := ReadText(t, HOSTNAME);
    l := Lease(YourAddr(t), serverid, mask, router, dns, time, domain, hostname);
  }

  // ---- The exchange -------------------------------------------------------------------------

  ghost predicate Ticks(ticks: seq<Tick>) {
    forall n | 0 <= n < |ticks| :: |ticks[n].after| == 4
  }

  ghost predicate IsOffer(ticks: seq<Tick>, n: nat, xid: u32) {
    n < |ticks| && |ticks[n].after| == 4 && IsReply(ticks[n], xid) && TypeOf(ticks[n]) == DHCPOFFER
  }

  /** The last server identifier any offer has carried; 0 before the first. A refusal does not
      forget it. */
  ghost function LastServer(log: seq<Ev>, ticks: seq<Tick>): u32 {
    if log == [] then 0
    else
      var e, before := log[|log| - 1], log[..|log| - 1];
      if e.Offered? && e.n < |ticks| && |ticks[e.n].after| == 4 && ServerOf(ticks[e.n]).Some?
      then ServerOf(ticks[e.n]).value else LastServer(before, ticks)
  }

  /** The tick of the m-th retransmission after an offer: the next one, and every twentieth from there. */
  function SendAt(offer: nat, m: nat): nat {
    offer + 1 + 20 * m
  }

  /** Event k accepted an offer; since then no refusal came, and requests for the offered address, and
      nothing else, were handed to sendto at their times. */
  ghost predicate Asking(log: seq<Ev>, k: nat, ticks: seq<Tick>, xid: u32, mac: seq<byte>, addr: u32, serverid: u32) {
    && k < |log| && log[k].Offered? && IsOffer(ticks, log[k].n, xid) && addr == YourAddr(ticks[log[k].n])
    && forall j | k < j < |log| :: IsRequest(log[j], SendAt(log[k].n, j - k - 1), xid, mac, addr, serverid)
  }

  ghost predicate IsRequest(e: Ev, n: nat, xid: u32, mac: seq<byte>, addr: u32, serverid: u32) {
    e.Sent? && e.n == n && |mac| == 6 && e.pkt == Packet(DHCPREQUEST, xid, mac, addr, serverid)
  }

  ghost predicate Phase(kind: byte, i: int, l: Lease, log: seq<Ev>, k: nat, ticks: seq<Tick>, n: nat, xid: u32,
                        mac: seq<byte>) {
    && 0 <= i && l.serverid == LastServer(log, ticks)
    && if kind == DHCPDISCOVER then l.addr == 0
       else
         && kind == DHCPREQUEST && Asking(log, k, ticks, xid, mac, l.addr, l.serverid)
         && n == log[k].n + 1 + i && |log| - k - 1 == (i + 19) / 20
  }

  /** What a turn hands to sendto: a packet at every twentieth turn of a phase. */
  function Sends(kind: byte, i: int, l: Lease, n: nat, xid: u32, mac: seq<byte>): seq<Ev>
    requires |mac| == 6
  {
    if i % 20 == 0 then [Sent(n, Packet(kind, xid, mac, l.addr, l.serverid))] else []
  }

  /** What the log notes of its reply. */
  function Notes(kind: byte, t: Tick, n: nat, xid: u32): seq<Ev>
    requires |t.after| == 4
  {
    var ty := if IsReply(t, xid) then TypeOf(t) else 0;
    if kind == DHCPDISCOVER && ty == DHCPOFFER then [Offered(n)]
    else if kind == DHCPREQUEST && ty == DHCPNAK then [Refused(n)]
    else []
  }

  /** (Re)transmission, at every twentieth turn. */
  method Transmit(tx: array<byte>, kind: byte, i: int, xid: u32, mac: seq<byte>, l: Lease, log: seq<Ev>, n: nat,
                  ghost k: nat, ghost ticks: seq<Tick>) returns (log': seq<Ev>)
    requires tx.Length == PACKET && |mac| == 6 && Phase(kind, i, l, log, k, ticks, n, xid, mac)
    modifies tx
    ensures Phase(kind, i + 1, l, log', k, ticks, n + 1, xid, mac) && log' == log + Sends(kind, i, l, n, xid, mac)
  {
    log' := log;
    Turns(i);
    if i % 20 == 0 {
      BuildPacket(tx, kind, xid, mac, l.addr, l.serverid);
      log' := log + [Sent(n, tx[..])];
      OneMoreSent(log, tx[..], kind, i, l, k, ticks, n, xid, mac);
    }
  }

  lemma Turns(i: int)
    requires 0 <= i
    ensures (i + 20) / 20 == (i + 19) / 20 + (if i % 20 == 0 then 1 else 0)
    ensures i % 20 == 0 ==> 20 * ((i + 19) / 20) == i
  {
  }

  lemma OneMoreSent(log: seq<Ev>, pkt: seq<byte>, kind: byte, i: int, l: Lease, k: nat, ticks: seq<Tick>, n: nat,
                    xid: u32,
                    mac: seq<byte>)
    requires Phase(kind, i, l, log, k, ticks, n, xid, mac) && i % 20 == 0
    requires |mac| == 6 && pkt == Packet(kind, xid, mac, l.addr, l.serverid)
    ensures Phase(kind, i + 1, l, log + [Sent(n, pkt)], k, ticks, n + 1, xid, mac)
  {
    var log' := log + [Sent(n, pkt)];
    assert log'[..|log|] == log;
    Turns(i);
    if kind == DHCPREQUEST {
      forall j | k < j < |log'|
        ensures IsRequest(log'[j], SendAt(log'[k].n, j - k - 1), xid, mac, l.addr, l.serverid)
      {
        if j < |log| {
          assert log'[j] == log[j];
        }
      }
    }
  }

  method TakeOffer(t: Tick, l: Lease, log: seq<Ev>, n: nat, ghost ticks: seq<Tick>, ghost xid: u32,
                   ghost mac: seq<byte>)
    returns (l': Lease, log': seq<Ev>)
    requires |t.after| == 4 && n < |ticks| && ticks[n] == t && IsOffer(ticks, n, xid)
    requires l.serverid == LastServer(log, ticks)
    ensures Phase(DHCPREQUEST, 0, l', log', |log|, ticks, n + 1, xid, mac) && l' == Accepting(t, l)
    ensures log' == log + [Offered(n)]
  {
    var f := DhcpFind(Buffer(t), Length(t), SERVER_ID);
    assert f == Find(t, SERVER_ID);
    l' := l.(addr := YourAddr(t));
    if f.Some? {
      l' := l'.(serverid := Be(Buffer(t), f.value.at));
    }
    log' := log + [Offered(n)];
    assert log'[..|log|] == log;
  }

  method TakeRefusal(l: Lease, log: seq<Ev>, n: nat, ghost k: nat, ghost ticks: seq<Tick>, ghost xid: u32,
                     ghost mac: seq<byte>)
    returns (l': Lease, log': seq<Ev>)
    requires l.serverid == LastServer(log, ticks)
    ensures Phase(DHCPDISCOVER, 0, l', log', k, ticks, n + 1, xid, mac) && l' == l.(addr := 0)
    ensures log' == log + [Refused(n)]
  {
    l', log' := l.(addr := 0), log + [Refused(n)];
    assert log'[..|log|] == log;
  }

  /** The lease is what the last reply, an acknowledgement, decodes to; before it an offer was accepted
      and requests for its address handed to sendto, the first at the very next tick, and since then
      nothing else happened. */
  ghost predicate Granted(l: Lease, n: nat, log: seq<Ev>, k: nat, ticks: seq<Tick>, xid: u32, mac: seq<byte>) {
    && 0 < n <= |ticks| && |ticks[n - 1].after| == 4
    && IsReply(ticks[n - 1], xid) && TypeOf(ticks[n - 1]) == DHCPACK
    && l == LeaseOf(ticks[n - 1], LastServer(log, ticks))
    && k + 1 < |log| && log[k].Offered? && log[k].n + 1 < n && |ticks[log[k].n].after| == 4
    && Asking(log, k, ticks, xid, mac, YourAddr(ticks[log[k].n]), LastServer(log, ticks))
    && |log| - k - 2 == (n - log[k].n - 2) / 20
  }

  const NO_LEASE := Lease(0, 0, 0, 0, [], 0, [], [])

  /** The lease under way once an offer is accepted. */
  ghost function Accepting(t: Tick, l: Lease): Lease
    requires |t.after| == 4
  {
    l.(addr := YourAddr(t), serverid := match ServerOf(t) case Some(s) => s case None => l.serverid)
  }

  /** Where the exchange stands: done with a lease, or going on. */
  datatype Stand = Done(l: Lease) | Going(kind: byte, i: int, l: Lease)

  const START := Going(DHCPDISCOVER, 0, NO_LEASE)

  /** One turn without an abort. */
  ghost function Turned(kind: byte, i: int, l: Lease, t: Tick, xid: u32): Stand
    requires |t.after| == 4
  {
    var ty := if IsReply(t, xid) then TypeOf(t) else 0;
    if kind == DHCPDISCOVER && ty == DHCPOFFER then Going(DHCPREQUEST, 0, Accepting(t, l))
    else if kind == DHCPREQUEST && ty == DHCPACK then Done(LeaseOf(t, l.serverid))
    else if kind == DHCPREQUEST && ty == DHCPNAK then Going(DHCPDISCOVER, 0, l.(addr := 0))
    else Going(kind, i + 1, l)
  }

  /** How the exchange goes: what it returns, and how many ticks it has taken. */
  datatype Play = Play(outcome: Outcome, l: Lease, n: nat)

  ghost function Played(s: Stand, deadline: int, xid: u32, ticks: seq<Tick>, n: nat): Play
    requires n <= |ticks| && Ticks(ticks)
    decreases |ticks| - n
  {
    if s.Done? then Play(GOT, s.l, n)
    else if s.i >= deadline then Play(TIMEOUT, s.l, n)
    else if n == |ticks| then Play(RUNNING, s.l, n)
    else if ticks[n].abort then Play(ABORT, s.l, n + 1)
    else Played(Turned(s.kind, s.i, s.l, ticks[n], xid), deadline, xid, ticks, n + 1)
  }

  /** What the datagram of tick n, if any, changes. */
  method Settle(t: Tick, kind: byte, i: int, l: Lease, log: seq<Ev>, n: nat, ghost k: nat, ghost ticks: seq<Tick>,
                xid: u32, ghost mac: seq<byte>)
    returns (s: Stand, log': seq<Ev>, ghost k': nat)
    requires Ticks(ticks) && n < |ticks| && ticks[n] == t && 0 <= i
    requires Phase(kind, i + 1, l, log, k, ticks, n + 1, xid, mac)
    ensures s == Turned(kind, i, l, t, xid) && StandOk(s, log', k', ticks, n + 1, xid, mac)
    ensures log' == log + Notes(kind, t, n, xid)
  {
    s, log', k' := Going(kind, i + 1, l), log, k;
    if IsReply(t, xid) {
      var ty := ReadType(t);
      if kind == DHCPDISCOVER && ty == DHCPOFFER {
        k' := |log|;
        var l';
        l', log' := TakeOffer(t, l, log, n, ticks, xid, mac);
        s := Going(DHCPREQUEST, 0, l');
      } else if kind == DHCPREQUEST && ty == DHCPACK {
        var l' := ReadLease(t, l.serverid);
        s := Done(l');
      } else if kind == DHCPREQUEST && ty == DHCPNAK {
        var l';
        l', log' := TakeRefusal(l, log, n, k, ticks, xid, mac);
        s := Going(DHCPDISCOVER, 0, l');
      }
    }
  }

  /** One turn without an abort: the transmission, if it is time for one, and the reply. */
  method Turn(tx: array<byte>, s: Stand, t: Tick, log: seq<Ev>, n: nat, ghost k: nat, ghost ticks: seq<Tick>,
              xid: u32, mac: seq<byte>)
    returns (s': Stand, log': seq<Ev>, ghost k': nat)
    requires tx.Length == PACKET && |mac| == 6 && Ticks(ticks) && n < |ticks| && ticks[n] == t
    requires s.Going? && StandOk(s, log, k, ticks, n, xid, mac)
    modifies tx
    ensures s' == Turned(s.kind, s.i, s.l, t, xid) && StandOk(s', log', k', ticks, n + 1, xid, mac)
    ensures log' == log + (Sends(s.kind, s.i, s.l, n, xid, mac) + Notes(s.kind, t, n, xid))
  {
    log' := Transmit(tx, s.kind, s.i, xid, mac, s.l, log, n, k, ticks);
    s', log', k' := Settle(t, s.kind, s.i, s.l, log', n, k, ticks, xid, mac);
  }

  lemma PlayedTurn(s: Stand, s': Stand, deadline: int, xid: u32, ticks: seq<Tick>, n: nat)
    requires Ticks(ticks) && n < |ticks| && !ticks[n].abort && s.Going? && s.i < deadline
    requires s' == Turned(s.kind, s.i, s.l, ticks[n], xid)
    ensures Played(s, deadline, xid, ticks, n) == Played(s', deadline, xid, ticks, n + 1)
  {
  }

  /** Where the exchange stands after n ticks. */
  ghost function StandAt(ticks: seq<Tick>, xid: u32, n: nat): Stand
    requires n <= |ticks| && Ticks(ticks)
  {
    if n == 0 then START
    else
      var s := StandAt(ticks, xid, n - 1);
      if s.Done? then s else Turned(s.kind, s.i, s.l, ticks[n - 1], xid)
  }

  /** And its log: what was handed to sendto at each tick, and what became of the reply. */
  ghost function LogOf(ticks: seq<Tick>, xid: u32, mac: seq<byte>, n: nat): seq<Ev>
    requires n <= |ticks| && Ticks(ticks) && |mac| == 6
  {
    if n == 0 then []
    else
      var s := StandAt(ticks, xid, n - 1);
      LogOf(ticks, xid, mac, n - 1)
      + if s.Done? then []
        else Sends(s.kind, s.i, s.l, n - 1, xid, mac) + Notes(s.kind, ticks[n - 1], n - 1, xid)
  }

  ghost predicate Tracked(s: Stand, log: seq<Ev>, ticks: seq<Tick>, xid: u32, mac: seq<byte>, n: nat) {
    && n <= |ticks| && Ticks(ticks) && |mac| == 6
    && s == StandAt(ticks, xid, n) && log == LogOf(ticks, xid, mac, n)
  }

  /** The same turn, and that it is the next one of the play. */
  method PlayTurn(tx: array<byte>, s: Stand, log: seq<Ev>, n: nat, ghost k: nat, ghost deadline: int, ticks: seq<Tick>,
                  xid: u32, mac: seq<byte>)
    returns (s': Stand, log': seq<Ev>, ghost k': nat)
    requires tx.Length == PACKET && |mac| == 6 && Ticks(ticks) && n < |ticks| && !ticks[n].abort
    requires s.Going? && s.i < deadline && StandOk(s, log, k, ticks, n, xid, mac)
    requires Tracked(s, log, ticks, xid, mac, n)
    modifies tx
    ensures Played(s', deadline, xid, ticks, n + 1) == Played(s, deadline, xid, ticks, n)
    ensures StandOk(s', log', k', ticks, n + 1, xid, mac)
    ensures Tracked(s', log', ticks, xid, mac, n + 1)
  {
    s', log', k' := Turn(tx, s, ticks[n], log, n, k, ticks, xid, mac);
    PlayedTurn(s, s', deadline, xid, ticks, n);
  }

  ghost predicate StandOk(s: Stand, log: seq<Ev>, k: nat, ticks: seq<Tick>, n: nat, xid: u32, mac: seq<byte>) {
    match s
    case Done(l) => Granted(l, n, log, k, ticks, xid, mac)
    case Going(kind, i, l) => Phase(kind, i, l, log, k, ticks, n, xid, mac)
  }

  /** The poll loop: it ends with a lease, at the deadline, when there are no more ticks, or at an abort. */
  method Poll(tx: array<byte>, mac: seq<byte>, xid: u32, deadline: int, ticks: seq<Tick>)
    returns (s: Stand, log: seq<Ev>, n: nat, ghost k: nat)
    requires tx.Length == PACKET && |mac| == 6 && Ticks(ticks)
    modifies tx
    ensures n <= |ticks| && (s.Going? && s.i < deadline && n < |ticks| ==> ticks[n].abort)
    ensures StandOk(s, log, k, ticks, n, xid, mac) && Tracked(s, log, ticks, xid, mac, n)
    ensures Played(s, deadline, xid, ticks, n) == Played(START, deadline, xid, ticks, 0)
  {
    s, log, n, k := START, [], 0, 0;
    while s.Going? && s.i < deadline && n < |ticks| && !ticks[n].abort
      invariant n <= |ticks| && StandOk(s, log, k, ticks, n, xid, mac)
      invariant Played(s, deadline, xid, ticks, n) == Played(START, deadline, xid, ticks, 0)
      invariant Tracked(s, log, ticks, xid, mac, n)
      decreases |ticks| - n
    {
      s, log, k := PlayTurn(tx, s, log, n, k, deadline, ticks, xid, mac);
      n := n + 1;
    }
  }

  /** ng_dhcp_exchange. It goes as Played says. A lease is only reported after an offer was accepted and
      a request for its address handed to sendto, with no refusal in between; and all of it comes
      from the acknowledgement, but for the server identifier, the last that any offer carried. */
  method Exchange(tx: array<byte>, mac: seq<byte>, xid: u32, deadline: int, ticks: seq<Tick>)
    returns (r: Outcome, l: Lease, log: seq<Ev>, n: nat, ghost k: nat)
    requires tx.Length == PACKET && |mac| == 6 && Ticks(ticks)
    modifies tx
    ensures Play(r, l, n) == Played(START, deadline, xid, ticks, 0)
    ensures r == GOT ==> Granted(l, n, log, k, ticks, xid, mac)
    ensures n <= |ticks| && (r == ABORT ==> n > 0)
    ensures log == LogOf(ticks, xid, mac, if r == ABORT then n - 1 else n)
  {
    var s;
    s, log, n, k := Poll(tx, mac, xid, deadline, ticks);
    l := s.l;
    if s.Done? {
      r := GOT;
    } else if s.i >= deadline {
      r := TIMEOUT;
    } else if n == |ticks| {
      r := RUNNING;
    } else {
      r, n := ABORT, n + 1;
    }
  }
}
