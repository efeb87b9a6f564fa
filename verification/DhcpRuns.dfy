/** What runs of the DHCP exchange can and cannot do: whose server identifier a lease carries, which
    octets it is read from, and whether the request was ever transmitted
    (src/api/amiga_roadshow_compat.c). */
module DhcpRuns {

  import opened Common
  import opened DhcpOptions
  import opened DhcpExchange

  // ---- Whose server identifier --------------------------------------------------------------

  /** After an offer and any number of sends, the identifier is the offer's if it carries one, and
      otherwise what it was before. */
  lemma {:induction false} ServerAfterOffer(log: seq<Ev>, k: nat, ticks: seq<Tick>)
    requires k < |log| && log[k].Offered? && log[k].n < |ticks| && |ticks[log[k].n].after| == 4
    requires forall j | k < j < |log| :: log[j].Sent?
    ensures LastServer(log, ticks)
      == match ServerOf(ticks[log[k].n]) case Some(s) => s case None => LastServer(log[..k], ticks)
    decreases |log|
  {
    var before := log[..|log| - 1];
    if k == |log| - 1 {
      assert before == log[..k];
    } else {
      ServerAfterOffer(before, k, ticks);
      assert before[..k] == log[..k];
    }
  }

  /** A lease carries the accepted offer's own server identifier if the offer has one; if it has
      none, the lease carries the one left from before, so it is the offer's if and only if the
      offer has one. */
  lemma LeaseServer(l: Lease, n: nat, log: seq<Ev>, k: nat, ticks: seq<Tick>, xid: u32, mac: seq<byte>)
    requires Granted(l, n, log, k, ticks, xid, mac)
    ensures var offered := ServerOf(ticks[log[k].n]);
            && (offered == Some(l.serverid) <==> offered.Some?)
            && (offered.None? ==> l.serverid == LastServer(log[..k], ticks))
  {
    forall j | k < j < |log|
      ensures log[j].Sent?
    {
      var addr := YourAddr(ticks[log[k].n]);
      assert IsRequest(log[j], SendAt(log[k].n, j - k - 1), xid, mac, addr, LastServer(log, ticks));
    }
    ServerAfterOffer(log, k, ticks);
  }

  // ---- Which octets it is read from ---------------------------------------------------------

  /** What the octet at a place of the receive buffer, or just behind it, is: received, cleared before
      the receive, or foreign memory. */
  function OctetAt(t: Tick, at: nat): byte
    requires |t.after| == 4 && at < PACKET + 4
  {
    if at < Length(t) then t.datagram[at] else if at < PACKET then 0 else t.after[at - PACKET]
  }

  lemma BufferOctets(t: Tick)
    requires |t.after| == 4
    ensures forall at | 0 <= at < PACKET + 4 :: Buffer(t)[at] == OctetAt(t, at)
  {
  }

  /** Where the identifier's four octets come from; all of them are received exactly when the value lies
      four octets before the end of the datagram, and then they are what the datagram says there. */
  lemma ServerFromDatagram(t: Tick)
    requires |t.after| == 4 && Find(t, SERVER_ID).Some?
    ensures var at := Find(t, SERVER_ID).value.at;
            && ServerOf(t) == Some(Be([OctetAt(t, at), OctetAt(t, at + 1), OctetAt(t, at + 2), OctetAt(t, at + 3)], 0))
            && (at + 4 <= Length(t) <==> forall i: nat | at <= i < at + 4 :: IsReceived(t, i))
            && (at + 4 <= Length(t) ==> ServerOf(t) == Some(Be(t.datagram, at)))
  {
    BufferOctets(t);
    var at := Find(t, SERVER_ID).value.at;
    assert IsReceived(t, at + 3) <==> at + 4 <= Length(t);
  }

  ghost predicate IsReceived(t: Tick, at: nat) {
    at < Length(t)
  }

  /** The message type is likewise read without a look at its length: of an option without a value it is
      the octet that follows. */
  lemma TypeFromDatagram(t: Tick)
    requires |t.after| == 4 && Find(t, MSG_TYPE).Some?
    ensures var f := Find(t, MSG_TYPE).value;
            f.at <= PACKET && TypeOf(t) == OctetAt(t, f.at) && (0 < f.len ==> f.at < Length(t))
  {
    BufferOctets(t);
  }

  /** Two ticks with the same datagram. */
  ghost predicate SameDatagram(t: Tick, u: Tick) {
    |u.after| == 4 && u.datagram == t.datagram
  }

  /** The identifier depends on the memory behind the receive buffer exactly when the value lies fewer
      than four octets before the buffer's end. */
  lemma ServerDependsOnMemory(t: Tick)
    requires |t.after| == 4 && Find(t, SERVER_ID).Some?
    ensures (forall u: Tick | SameDatagram(t, u) :: ServerOf(u) == ServerOf(t))
      <==> Find(t, SERVER_ID).value.at + 4 <= PACKET
  {
    var at := Find(t, SERVER_ID).value.at;
    forall u: Tick | SameDatagram(t, u)
      ensures Find(u, SERVER_ID) == Find(t, SERVER_ID)
      ensures at + 4 <= PACKET ==> ServerOf(u) == ServerOf(t)
    {
      SameFound(t, u, SERVER_ID);
    }
    if PACKET < at + 4 {
      var u := LastOctetMatters(t);
    }
  }

  /** The message type depends on that memory exactly when its option lies, without a value, at the very
      end of the buffer. */
  lemma TypeDependsOnMemory(t: Tick)
    requires |t.after| == 4 && Find(t, MSG_TYPE).Some?
    ensures (forall u: Tick | SameDatagram(t, u) :: TypeOf(u) == TypeOf(t)) <==> Find(t, MSG_TYPE).value.at < PACKET
  {
    var at := Find(t, MSG_TYPE).value.at;
    TypeFromDatagram(t);
    forall u: Tick | SameDatagram(t, u)
      ensures Find(u, MSG_TYPE) == Find(t, MSG_TYPE)
      ensures at < PACKET ==> TypeOf(u) == TypeOf(t)
    {
      SameFound(t, u, MSG_TYPE);
    }
    if at == PACKET {
      var u := t.(after := t.after[0 := if t.after[0] == 0 then 1 else 0]);
      assert SameDatagram(t, u);
      TypeFromDatagram(u);
    }
  }

  lemma SameFound(t: Tick, u: Tick, code: byte)
    requires |t.after| == 4 && SameDatagram(t, u)
    ensures Find(u, code) == Find(t, code) && forall i | 0 <= i < PACKET :: Buffer(u)[i] == Buffer(t)[i]
  {
    OptsDependOnReceived(Buffer(t), Buffer(u), HEADER + 4, OptEnd(Length(t)));
  }

  /** Another last octet is another identifier. */
  lemma LastOctetMatters(t: Tick) returns (u: Tick)
    requires |t.after| == 4 && Find(t, SERVER_ID).Some? && PACKET < Find(t, SERVER_ID).value.at + 4
    ensures SameDatagram(t, u) && ServerOf(u) != ServerOf(t)
  {
    var at := Find(t, SERVER_ID).value.at;
    var k := at + 3 - PACKET;
    var octet: byte := if t.after[k] == 0 then 1 else 0;
    u := t.(after := t.after[k := octet]);
    SameFound(t, u, SERVER_ID);
    var a, b := Buffer(t), Buffer(u);
    assert a[at + 3] == t.after[k] && b[at + 3] == octet;
    assert forall i | 0 <= i < |a| && i != at + 3 :: a[i] == b[i];
  }

  // ---- Replies of one's own making ----------------------------------------------------------

  /** The fixed part of a reply. */
  function Head(xid: u32, addr: u32): (h: seq<byte>)
    ensures |h| == HEADER + 4
  {
    [BOOTREPLY, 1, 6, 0] + Bytes4(xid) + Zeros(8) + Bytes4(addr) + Zeros(216) + [0x63, 0x82, 0x53, 0x63]
  }

  ghost predicate Short(os: seq<Tlv>) {
    forall t <- os :: |t.value| < 0x100
  }

  /** A tick with a reply that carries these options and then an end mark, or fills the packet. */
  function Reply(xid: u32, addr: u32, os: seq<Tlv>, after: seq<byte>): Tick
    requires forall t <- os :: |t.value| < 0x100
  {
    var body := Head(xid, addr) + Encode(os);
    Tick(false, false, if |body| < PACKET then body + [DHO_END] else body, after)
  }

  /** It is taken for what it is. */
  lemma ReplyReads(xid: u32, addr: u32, os: seq<Tlv>, after: seq<byte>)
    requires Short(os) && Codes(os) && |after| == 4 && |Encode(os)| <= PACKET - HEADER - 4
    ensures var t := Reply(xid, addr, os, after);
            && IsReply(t, xid) && YourAddr(t) == addr
            && (forall f <- Options(t) :: f.at + f.len <= |Buffer(t)|) && Read(Buffer(t), Options(t)) == os
  {
    var t := Reply(xid, addr, os, after);
    var o, body := Buffer(t), Head(xid, addr) + Encode(os);
    var n := Length(t);
    assert o[..n] == t.datagram && o[..|body|] == body;
    assert o[HEADER + 4..|body|] == Encode(os);
    EncodeIsLaid(o, HEADER + 4, os);
    LaidIsRead(o, HEADER + 4, os, |body|, n);
    HeadReads(o, xid, addr);
  }

  /** The options of what was received. */
  function Options(t: Tick): seq<Found>
    requires |t.after| == 4
  {
    Opts(Buffer(t), HEADER + 4, OptEnd(Length(t)))
  }

  lemma HeadReads(o: seq<byte>, xid: u32, addr: u32)
    requires HEADER + 4 <= |o| && o[..HEADER + 4] == Head(xid, addr)
    ensures o[0] == BOOTREPLY && Be(o, 4) == xid && Be(o, 16) == addr
  {
    var h := Head(xid, addr);
    BytesRoundTrip(xid);
    BytesRoundTrip(addr);
    PrefixPart(o, h, HEADER + 4, 0, HEADER + 4);
    assert h[4] == Bytes4(xid)[0] && h[5] == Bytes4(xid)[1] && h[6] == Bytes4(xid)[2] && h[7] == Bytes4(xid)[3];
    assert h[16] == Bytes4(addr)[0] && h[17] == Bytes4(addr)[1] && h[18] == Bytes4(addr)[2] && h[19] == Bytes4(addr)[3];
  }

  lemma FoundIsRead(t: Tick, os: seq<Tlv>, code: byte, j: nat)
    requires |t.after| == 4 && (forall f <- Options(t) :: f.at + f.len <= |Buffer(t)|)
    requires Read(Buffer(t), Options(t)) == os && j <= |os|
    requires (forall i | 0 <= i < j :: os[i].code != code) && (j < |os| ==> os[j].code == code)
    ensures Find(t, code).Some? <==> j < |os|
    ensures j < |os| ==> var f := Find(t, code).value; Buffer(t)[f.at..f.at + f.len] == os[j].value
  {
    FirstIsRead(Buffer(t), Options(t), code, j);
    if j < |os| {
      assert Read(Buffer(t), Options(t))[j] == os[j];
    }
  }

  /** A reply of a kind, with a server identifier or without. */
  function Told(kind: byte, server: Option<u32>): (os: seq<Tlv>)
    ensures forall t <- os :: |t.value| < 0x100
  {
    [Tlv(MSG_TYPE, [kind])] + if server.Some? then [Tlv(SERVER_ID, Bytes4(server.value))] else []
  }

  lemma ToldReads(xid: u32, addr: u32, kind: byte, server: Option<u32>, after: seq<byte>)
    requires |after| == 4
    ensures var t := Reply(xid, addr, Told(kind, server), after);
            IsReply(t, xid) && YourAddr(t) == addr && TypeOf(t) == kind && ServerOf(t) == server
  {
    var os, t := Told(kind, server), Reply(xid, addr, Told(kind, server), after);
    assert |Encode(os)| <= 9 by {
      assert |Encode(os[1..])| <= 6 by {
        if server.Some? {
          assert os[1..] == [Tlv(SERVER_ID, Bytes4(server.value))] && os[1..][1..] == [];
        } else {
          assert os[1..] == [];
        }
      }
    }
    ReplyReads(xid, addr, os, after);
    TypeReads(t, os, kind);
    ServerReads(t, os, server);
  }

  lemma TypeReads(t: Tick, os: seq<Tlv>, kind: byte)
    requires |t.after| == 4 && (forall f <- Options(t) :: f.at + f.len <= |Buffer(t)|)
    requires Read(Buffer(t), Options(t)) == os && os != [] && os[0] == Tlv(MSG_TYPE, [kind])
    ensures TypeOf(t) == kind
  {
    FoundIsRead(t, os, MSG_TYPE, 0);
    var o, at := Buffer(t), Find(t, MSG_TYPE).value.at;
    assert o[at] == o[at..at + 1][0] == kind;
  }

  lemma ServerReads(t: Tick, os: seq<Tlv>, server: Option<u32>)
    requires |t.after| == 4 && (forall f <- Options(t) :: f.at + f.len <= |Buffer(t)|)
    requires Read(Buffer(t), Options(t)) == os && os != [] && os[0].code != SERVER_ID
    requires os[1..] == if server.Some? then [Tlv(SERVER_ID, Bytes4(server.value))] else []
    ensures ServerOf(t) == server
  {
    assert |os| == 1 + |os[1..]| && (|os| > 1 ==> os[1] == os[1..][0]);
    FoundIsRead(t, os, SERVER_ID, 1);
    if server.Some? {
      BytesRoundTrip(server.value);
      BeOf(Buffer(t), Find(t, SERVER_ID).value.at, Bytes4(server.value));
    }
  }

  lemma BeOf(o: seq<byte>, at: nat, b: seq<byte>)
    requires |b| == 4 && at + 4 <= |o| && o[at..at + 4] == b
    ensures Be(o, at) == Be(b, 0)
  {
    var x := o[at..at + 4];
    assert x[0] == o[at] && x[1] == o[at + 1] && x[2] == o[at + 2] && x[3] == o[at + 3];
  }

  // ---- Two runs -----------------------------------------------------------------------------

  /** A reply of a kind with or without a server identifier, arriving where no send succeeds. */
  lemma Arrives(xid: u32, addr: u32, kind: byte, server: Option<u32>, after: seq<byte>) returns (t: Tick)
    requires |after| == 4
    ensures !t.abort && !t.sends && t.after == after
    ensures IsReply(t, xid) && YourAddr(t) == addr && TypeOf(t) == kind && ServerOf(t) == server
  {
    ToldReads(xid, addr, kind, server, after);
    t := Reply(xid, addr, Told(kind, server), after);
  }

  /** There are such ticks: an offer with an identifier, a refusal, an offer without one, and an
      acknowledgement. The exchange reports a lease for the second offer with the first server's
      identifier; and it does so although every send fails. */
  lemma StaleServer(xid: u32, addr1: u32, server: u32, addr2: u32, after: seq<byte>, deadline: int)
    returns (ticks: seq<Tick>)
    requires |after| == 4 && 0 < deadline
    ensures |ticks| == 4 && Ticks(ticks) && (forall t <- ticks :: !t.sends)
    ensures IsOffer(ticks, 2, xid) && YourAddr(ticks[2]) == addr2 && ServerOf(ticks[2]).None?
    ensures Played(START, deadline, xid, ticks, 0) == Play(GOT, LeaseOf(ticks[3], server), 4)
  {
    var t0 := Arrives(xid, addr1, DHCPOFFER, Some(server), after);
    var t1 := Arrives(xid, 0, DHCPNAK, None, after);
    var t2 := Arrives(xid, addr2, DHCPOFFER, None, after);
    var t3 := Arrives(xid, addr2, DHCPACK, None, after);
    ticks := [t0, t1, t2, t3];
    FourTurns(ticks, xid, server, deadline);
  }

  /** Any four such ticks go that way. */
  lemma FourTurns(ticks: seq<Tick>, xid: u32, server: u32, deadline: int)
    requires |ticks| == 4 && Ticks(ticks) && 0 < deadline
    requires forall n | 0 <= n < 4 :: !ticks[n].abort && IsReply(ticks[n], xid)
    requires TypeOf(ticks[0]) == DHCPOFFER && TypeOf(ticks[1]) == DHCPNAK
    requires TypeOf(ticks[2]) == DHCPOFFER && TypeOf(ticks[3]) == DHCPACK
    requires ServerOf(ticks[0]) == Some(server) && ServerOf(ticks[2]) == None
    ensures Played(START, deadline, xid, ticks, 0) == Play(GOT, LeaseOf(ticks[3], server), 4)
  {
    var l1 := Accepting(ticks[0], NO_LEASE);
    var l2 := l1.(addr := 0);
    var l3 := Accepting(ticks[2], l2);
    var s1, s2, s3 := Going(DHCPREQUEST, 0, l1), Going(DHCPDISCOVER, 0, l2), Going(DHCPREQUEST, 0, l3);
    PlayedTurn(START, s1, deadline, xid, ticks, 0);
    PlayedTurn(s1, s2, deadline, xid, ticks, 1);
    PlayedTurn(s2, s3, deadline, xid, ticks, 2);
    PlayedTurn(s3, Done(LeaseOf(ticks[3], server)), deadline, xid, ticks, 3);
  }

  /** An offer whose last option is a server identifier of length 0 at the very end of the packet. */
  function EmptyServer(xid: u32, addr: u32, after: seq<byte>): Tick {
    var name1, name2 := [HOSTNAME, 255] + Zeros(255), [HOSTNAME, 44] + Zeros(44);
    Tick(false, true, Head(xid, addr) + [MSG_TYPE, 1, DHCPOFFER] + name1 + name2 + [SERVER_ID, 0], after)
  }

  /** Its identifier is whatever follows the receive buffer in memory. */
  lemma ServerFromMemory(xid: u32, addr: u32, after: seq<byte>)
    requires |after| == 4
    ensures var t := EmptyServer(xid, addr, after);
            IsReply(t, xid) && TypeOf(t) == DHCPOFFER && ServerOf(t) == Some(Be(after, 0))
  {
    var t := EmptyServer(xid, addr, after);
    var o := Buffer(t);
    assert o[..PACKET] == t.datagram;
    HeadReads(o, xid, addr);
    assert o[240] == MSG_TYPE && o[241] == 1 && o[242] == DHCPOFFER && o[243] == HOSTNAME && o[244] == 255;
    assert o[500] == HOSTNAME && o[501] == 44 && o[546] == SERVER_ID && o[547] == 0;
    assert o[548..552] == after;
    BeOf(o, 548, after);
    EmptyServerOpts(o);
  }

  /** A reply whose last option is a message type of length 0 at the very end of the packet. */
  function EmptyType(xid: u32, addr: u32, after: seq<byte>): Tick {
    var name1, name2 := [HOSTNAME, 255] + Zeros(255), [HOSTNAME, 47] + Zeros(47);
    Tick(false, true, Head(xid, addr) + name1 + name2 + [MSG_TYPE, 0], after)
  }

  /** Its type is the octet that follows the receive buffer in memory: an acknowledgement if that is a 5. */
  lemma TypeFromMemory(xid: u32, addr: u32, after: seq<byte>)
    requires |after| == 4
    ensures var t := EmptyType(xid, addr, after); IsReply(t, xid) && TypeOf(t) == after[0]
  {
    var t := EmptyType(xid, addr, after);
    var o := Buffer(t);
    assert o[..PACKET] == t.datagram;
    HeadReads(o, xid, addr);
    assert o[240] == HOSTNAME && o[241] == 255;
    assert o[497] == HOSTNAME && o[498] == 47 && o[546] == MSG_TYPE && o[547] == 0;
    assert o[548] == o[548..552][0] == after[0];
    EmptyTypeOpts(o);
  }

  lemma EmptyTypeOpts(o: seq<byte>)
    requires |o| == PACKET + 4 && o[240] == HOSTNAME && o[241] == 255
    requires o[497] == HOSTNAME && o[498] == 47 && o[546] == MSG_TYPE && o[547] == 0
    ensures Lookup(o, PACKET, MSG_TYPE) == Some(Found(MSG_TYPE, 548, 0))
  {
    var f1, f2, f3 := Found(HOSTNAME, 242, 255), Found(HOSTNAME, 499, 47), Found(MSG_TYPE, 548, 0);
    assert Opts(o, 548, 548) == [];
    assert Opts(o, 546, 548) == [f3] + [];
    FirstSkips(f3, [], MSG_TYPE);
    assert Opts(o, 497, 548) == [f2] + Opts(o, 546, 548);
    FirstSkips(f2, Opts(o, 546, 548), MSG_TYPE);
    assert Opts(o, 240, 548) == [f1] + Opts(o, 497, 548);
    FirstSkips(f1, Opts(o, 497, 548), MSG_TYPE);
  }

  lemma EmptyServerOpts(o: seq<byte>)
    requires |o| == PACKET + 4
    requires o[240] == MSG_TYPE && o[241] == 1 && o[243] == HOSTNAME && o[244] == 255
    requires o[500] == HOSTNAME && o[501] == 44 && o[546] == SERVER_ID && o[547] == 0
    ensures Lookup(o, PACKET, MSG_TYPE) == Some(Found(MSG_TYPE, 242, 1))
    ensures Lookup(o, PACKET, SERVER_ID) == Some(Found(SERVER_ID, 548, 0))
  {
    var f1, f2 := Found(MSG_TYPE, 242, 1), Found(HOSTNAME, 245, 255);
    var f3, f4 := Found(HOSTNAME, 502, 44), Found(SERVER_ID, 548, 0);
    assert Opts(o, 548, 548) == [];
    assert Opts(o, 546, 548) == [f4] + [];
    FirstSkips(f4, [], SERVER_ID);
    assert Opts(o, 500, 548) == [f3] + Opts(o, 546, 548);
    FirstSkips(f3, Opts(o, 546, 548), SERVER_ID);
    assert Opts(o, 243, 548) == [f2] + Opts(o, 500, 548);
    FirstSkips(f2, Opts(o, 500, 548), SERVER_ID);
    assert Opts(o, 240, 548) == [f1] + Opts(o, 243, 548);
    FirstSkips(f1, Opts(o, 243, 548), SERVER_ID);
    FirstSkips(f1, Opts(o, 243, 548), MSG_TYPE);
  }

  lemma FirstSkips(f: Found, fs: seq<Found>, code: byte)
    ensures First([f] + fs, code) == if f.code == code then Some(f) else First(fs, code)
  {
    assert ([f] + fs)[1..] == fs;
  }

  // ---- Whether the request was transmitted --------------------------------------------------

  /** Some request was sent: one of those handed to sendto since the offer went out. */
  ghost predicate Transmitted(log: seq<Ev>, k: nat, ticks: seq<Tick>) {
    exists j | k < j < |log| :: log[j].n < |ticks| && ticks[log[j].n].sends
  }

  /** Sends succeed at one of the times for a request between the offer and tick n. */
  ghost predicate SendsBetween(offer: nat, n: nat, ticks: seq<Tick>) {
    exists m: nat | SendAt(offer, m) < n :: SendAt(offer, m) < |ticks| && ticks[SendAt(offer, m)].sends
  }

  /** A reported lease's request was transmitted if and only if a send would succeed at the tick after the
      offer's, or at a twentieth one from there, up to the acknowledgement's. */
  lemma TransmittedExactly(l: Lease, n: nat, log: seq<Ev>, k: nat, ticks: seq<Tick>, xid: u32, mac: seq<byte>)
    requires Granted(l, n, log, k, ticks, xid, mac)
    ensures Transmitted(log, k, ticks) <==> SendsBetween(log[k].n, n, ticks)
  {
    var addr, server, offer := YourAddr(ticks[log[k].n]), LastServer(log, ticks), log[k].n;
    if Transmitted(log, k, ticks) {
      var j :| k < j < |log| && log[j].n < |ticks| && ticks[log[j].n].sends;
      assert IsRequest(log[j], SendAt(offer, j - k - 1), xid, mac, addr, server);
      assert SendAt(offer, j - k - 1) < n;
    }
    if SendsBetween(offer, n, ticks) {
      var m: nat :| SendAt(offer, m) < n && SendAt(offer, m) < |ticks| && ticks[SendAt(offer, m)].sends;
      var j := k + 1 + m;
      assert j < |log|;
      assert IsRequest(log[j], SendAt(offer, j - k - 1), xid, mac, addr, server);
    }
  }
}
