/** The frames that the network stack builds around its checksums (kernel/net.c:130-162, 207-256, 299-334). */
module NetFrames {
  import opened Bytes
  import opened Checksum

  const FRAME_MAX := 1500
  const ETH := 14
  const IP := 20
  const ICMP_REQUEST := 8
  const UDP_MAX_PAYLOAD := 512

  type Mac = s: seq<u8> | |s| == 6 witness seq(6, _ => 0)
  type Addr = s: seq<u8> | |s| == 4 witness seq(4, _ => 0)

  /** memcpy into a buffer. */
  method Copy(buf: array<u8>, at: nat, bytes: seq<u8>)
    requires at + |bytes| <= buf.Length
    modifies buf
    ensures forall i :: 0 <= i < buf.Length ==>
              buf[i] == if at <= i < at + |bytes| then bytes[i - at] else old(buf[i])
    ensures buf[at..at + |bytes|] == bytes && buf[..at] == old(buf[..at])
  {
    var i := 0;
    while i < |bytes|
      invariant i <= |bytes|
      invariant forall k :: 0 <= k < buf.Length ==>
                  buf[k] == if at <= k < at + i then bytes[k - at] else old(buf[k])
    {
      buf[at + i] := bytes[i];
      i := i + 1;
    }
  }

  /** What an echo reply says to the request p: addresses turned around, payload kept, both checksums verifying. */
  predicate EchoReply(p: seq<u8>, r: seq<u8>, mac: Mac, ip: Addr)
    requires |p| >= 38
  {
    && |r| == Min(|p|, 1500)
    && r[0..6] == p[6..12] && r[6..12] == mac && r[12..24] == p[12..24]
    && Sum16(r[14..34]) == 0 && r[26..30] == ip && r[30..34] == p[26..30]
    && r[34] == 0 && r[35] == p[35] && r[38..] == p[38..|r|]
    && Sum16(r[34..]) == 0
  }

  /** handle_icmp. */
  method HandleIcmp(pkt: seq<u8>, mac: Mac, ip: Addr) returns (sent: Option<seq<u8>>)
    requires 38 <= |pkt| < 0x1_0000
    ensures pkt[34] != 8 ==> sent == None
    ensures pkt[34] == 8 ==> sent.Some? && EchoReply(pkt, sent.value, mac, ip)
  {
    if pkt[34] != ICMP_REQUEST {
      return None;
    }
    var len := Min(|pkt|, FRAME_MAX);
    var reply := new u8[FRAME_MAX](_ => 0);
    Copy(reply, 0, pkt[..len]);
    assert forall i :: 12 <= i < len ==> reply[i] == pkt[i];
    TurnAround(reply, pkt, mac, ip);
    ghost var turned := reply[..len];
    assert Turned(pkt, turned, mac, ip);
    Finish(reply, len);
    sent := Some(reply[..len]);
    ReplyFrom(pkt, turned, sent.value, mac, ip);
  }

  /** The two checksums and the type of the reply. */
  method Finish(reply: array<u8>, len: nat)
    requires reply.Length == FRAME_MAX && 38 <= len <= FRAME_MAX
    modifies reply
    ensures Agree(old(reply[..len]), reply[..len]) && reply[34] == 0
    ensures Sum16(reply[..len][14..34]) == 0 && Sum16(reply[..len][34..]) == 0
  {
    FillChecksum(reply, ETH, IP, 10);
    reply[34] := 0;
    ghost var header := reply[14..34];
    FillChecksum(reply, 34, len - 34, 2);
    assert reply[14..34] == header;
    assert reply[..len][14..34] == reply[14..34] && reply[..len][34..] == reply[34..34 + (len - 34)];
  }

  /** The same bytes but for the two checksum fields and the type. */
  predicate Agree(t: seq<u8>, r: seq<u8>)
  {
    |r| == |t| && forall i :: 0 <= i < |t| && !(24 <= i < 26) && i != 34 && !(36 <= i < 38) ==> r[i] == t[i]
  }

  predicate Turned(p: seq<u8>, t: seq<u8>, mac: Mac, ip: Addr)
    requires |p| >= 38
  {
    && |t| == Min(|p|, FRAME_MAX)
    && t[0..6] == p[6..12] && t[6..12] == mac && t[26..30] == ip && t[30..34] == p[26..30]
    && (forall i :: 12 <= i < |t| && !(26 <= i < 34) ==> t[i] == p[i])
  }

  lemma ReplyFrom(p: seq<u8>, t: seq<u8>, r: seq<u8>, mac: Mac, ip: Addr)
    requires |p| >= 38 && Turned(p, t, mac, ip) && Agree(t, r)
    requires r[34] == 0 && Sum16(r[14..34]) == 0 && Sum16(r[34..]) == 0
    ensures EchoReply(p, r, mac, ip)
  {
    hide Sum16;
    assert r[0..6] == t[0..6] && r[6..12] == t[6..12] && r[26..30] == t[26..30] && r[30..34] == t[30..34];
    assert r[12..24] == p[12..24] && r[38..] == p[38..|r|];
  }

  /** The address fields of the reply. */
  method TurnAround(reply: array<u8>, pkt: seq<u8>, mac: Mac, ip: Addr)
    requires reply.Length == FRAME_MAX && |pkt| >= 38
    modifies reply
    ensures reply[0..6] == pkt[6..12] && reply[6..12] == mac && reply[26..30] == ip && reply[30..34] == pkt[26..30]
    ensures forall i :: 0 <= i < FRAME_MAX && !(0 <= i < 12 || 26 <= i < 34) ==> reply[i] == old(reply[i])
  {
    Copy(reply, 0, pkt[6..12]);
    Copy(reply, 6, mac);
    Copy(reply, 30, pkt[26..30]);
    Copy(reply, 26, ip);
  }

  // ---------------------------------------------------------------- sending

  const UDP: u8 := 17
  const ICMP: u8 := 1

  /** A number in network byte order. */
  function BE(v: u16): (b: seq<u8>)
    ensures |b| == 2 && BE16(b, 0) == v
  {
    [v / 256, v % 256]
  }

  /** A field in network byte order: htons and a store. */
  method PutWord(buf: array<u8>, at: nat, v: u16)
    requires at + 2 <= buf.Length
    modifies buf
    ensures forall i :: 0 <= i < buf.Length ==>
              buf[i] == if i == at then v / 256 else if i == at + 1 then v % 256 else old(buf[i])
  {
    buf[at], buf[at + 1] := v / 256, v % 256;
  }

  /** The Ethernet and IP headers of a frame, whose header checksum verifies. */
  predicate Headers(r: seq<u8>, dstMac: Mac, mac: Mac, proto: u8, ip: Addr, dst: Addr)
  {
    && |r| >= ETH + IP
    && r[0..6] == dstMac && r[6..12] == mac && BE16(r, 12) == 0x0800
    && r[14] == 0x45 && BE16(r, 16) == |r| - ETH && r[22] == 64 && r[23] == proto
    && r[15] == 0 && r[18] == 0 && r[19] == 0 && r[20] == 0 && r[21] == 0
    && Sum16(r[14..34]) == 0 && r[26..30] == ip && r[30..34] == dst
  }

  /** The header fields that net_udp_send and net_ping fill in a frame of zeros. */
  method PutHeaders(pkt: array<u8>, total: nat, dstMac: Mac, mac: Mac, proto: u8, ip: Addr, dst: Addr)
    requires ETH + IP <= total <= pkt.Length && total < 0x1_0000
    requires forall i :: ETH <= i < ETH + IP ==> pkt[i] == 0
    modifies pkt
    ensures Headers(pkt[..total], dstMac, mac, proto, ip, dst)
    ensures forall i :: ETH + IP <= i < pkt.Length ==> pkt[i] == old(pkt[i])
  {
    PutEthernet(pkt, dstMac, mac);
    ghost var ethernet := pkt[0..14];
    PutIp(pkt, total, proto, ip, dst);
    assert pkt[0..14] == ethernet;
    ghost var was := pkt[..total];
    FilledFrom(was, pkt[0..14], pkt[14..34], dstMac, mac, proto, ip, dst);
    FillChecksum(pkt, ETH, IP, 10);
    assert pkt[..total][14..34] == pkt[ETH..ETH + IP];
    HeadersFrom(was, pkt[..total], dstMac, mac, proto, ip, dst);
  }

  method PutEthernet(pkt: array<u8>, dstMac: Mac, mac: Mac)
    requires pkt.Length >= ETH
    modifies pkt
    ensures pkt[0..14] == dstMac + mac + [0x08, 0x00]
    ensures forall i :: ETH <= i < pkt.Length ==> pkt[i] == old(pkt[i])
  {
    Copy(pkt, 0, dstMac);
    Copy(pkt, 6, mac);
    PutWord(pkt, 12, 0x0800);
  }

  /** The bytes of an IP header before its checksum, by their place in it: one datagram, no fragment of another. */
  predicate IpFields(h: seq<u8>, length: nat, proto: u8, ip: Addr, dst: Addr)
  {
    && |h| == IP
    && h[0] == 0x45 && BE16(h, 2) == length && h[8] == 64 && h[9] == proto && h[12..16] == ip && h[16..20] == dst
    && h[1] == 0 && h[4] == 0 && h[5] == 0 && h[6] == 0 && h[7] == 0
  }

  method PutIp(pkt: array<u8>, total: nat, proto: u8, ip: Addr, dst: Addr)
    requires pkt.Length >= ETH + IP && ETH <= total < 0x1_0000
    requires forall i :: ETH <= i < ETH + IP ==> pkt[i] == 0
    modifies pkt
    ensures IpFields(pkt[14..34], total - ETH, proto, ip, dst)
    ensures forall i :: 0 <= i < pkt.Length && !(ETH <= i < ETH + IP) ==> pkt[i] == old(pkt[i])
  {
    pkt[14], pkt[22], pkt[23] := 0x45, 64, proto;
    PutWord(pkt, 16, total - ETH);
    Copy(pkt, 26, ip);
    assert pkt[..30][26..30] == pkt[26..30];
    Copy(pkt, 30, dst);
    assert pkt[26..30] == pkt[..30][26..30];
    SliceOfSlice(pkt[14..34], pkt[26..30], pkt[..], 12);
    SliceOfSlice(pkt[14..34], pkt[30..34], pkt[..], 16);
  }

  /** Four bytes of a header, seen in it and in the frame. */
  lemma SliceOfSlice(h: seq<u8>, part: seq<u8>, frame: seq<u8>, at: nat)
    requires |frame| >= 34 && at + 4 <= 20 && h == frame[14..34] && part == frame[14 + at..18 + at]
    ensures |h| == 20 && h[at..at + 4] == part
  {
    forall k | 0 <= k < 4 ensures h[at..at + 4][k] == part[k] {
      assert h[at + k] == frame[14 + (at + k)] && part[k] == frame[(14 + at) + k];
    }
  }

  lemma FilledFrom(r: seq<u8>, e: seq<u8>, h: seq<u8>, dstMac: Mac, mac: Mac, proto: u8, ip: Addr, dst: Addr)
    requires |r| >= ETH + IP && r[0..14] == e && r[14..34] == h
    requires e == dstMac + mac + [0x08, 0x00] && IpFields(h, |r| - ETH, proto, ip, dst)
    ensures Filled(r, dstMac, mac, proto, ip, dst)
  {
    forall k | 0 <= k < IP ensures r[14 + k] == h[k] {
      assert r[14..34][k] == h[k];
    }
    assert r[0..6] == e[0..6] && r[6..12] == e[6..12] && r[12] == e[12] && r[13] == e[13];
    assert e[0..6] == dstMac && e[6..12] == mac;
    assert r[26..30] == r[14..34][12..16] && r[30..34] == r[14..34][16..20];
  }

  predicate Filled(r: seq<u8>, dstMac: Mac, mac: Mac, proto: u8, ip: Addr, dst: Addr)
  {
    && |r| >= ETH + IP
    && r[0..6] == dstMac && r[6..12] == mac && BE16(r, 12) == 0x0800
    && r[14] == 0x45 && BE16(r, 16) == |r| - ETH && r[22] == 64 && r[23] == proto
    && r[15] == 0 && r[18] == 0 && r[19] == 0 && r[20] == 0 && r[21] == 0
    && r[26..30] == ip && r[30..34] == dst
  }

  lemma HeadersFrom(t: seq<u8>, r: seq<u8>, dstMac: Mac, mac: Mac, proto: u8, ip: Addr, dst: Addr)
    requires Filled(t, dstMac, mac, proto, ip, dst) && |r| == |t| && Sum16(r[14..34]) == 0
    requires forall i :: 0 <= i < |t| && !(24 <= i < 26) ==> r[i] == t[i]
    ensures Headers(r, dstMac, mac, proto, ip, dst)
  {
    hide Sum16;
    assert r[0..6] == t[0..6] && r[6..12] == t[6..12] && r[26..30] == t[26..30] && r[30..34] == t[30..34];
  }

  lemma HeadersKept(t: seq<u8>, r: seq<u8>, dstMac: Mac, mac: Mac, proto: u8, ip: Addr, dst: Addr)
    requires Headers(t, dstMac, mac, proto, ip, dst) && |r| == |t| && r[..ETH + IP] == t[..ETH + IP]
    ensures Headers(r, dstMac, mac, proto, ip, dst)
  {
    hide Sum16;
    forall i | 0 <= i < ETH + IP ensures r[i] == t[i] {
      assert r[..ETH + IP][i] == t[..ETH + IP][i];
    }
    assert r[0..6] == t[0..6] && r[6..12] == t[6..12] && r[14..34] == t[14..34];
    assert r[26..30] == t[26..30] && r[30..34] == t[30..34];
  }

  /** net_udp_send: refused when the payload is too long or the address does not resolve, else one frame. */
  method UdpSend(dst: Addr, dstPort: u16, srcPort: u16, data: seq<u8>, dstMac: Option<Mac>, mac: Mac, ip: Addr)
    returns (r: int, sent: Option<seq<u8>>)
    ensures |data| > 512 || dstMac.None? ==> r == -1 && sent == None
    ensures |data| <= 512 && dstMac.Some? ==>
              && r == |data| && sent.Some? && |sent.value| == 42 + |data|
              && Headers(sent.value, dstMac.value, mac, 17, ip, dst)
              && sent.value[34..] == BE(srcPort) + BE(dstPort) + BE(8 + |data|) + [0, 0] + data
  {
    if |data| > UDP_MAX_PAYLOAD || dstMac.None? {
      return -1, None;
    }
    var total := ETH + IP + 8 + |data|;
    var pkt := new u8[ETH + IP + 8 + UDP_MAX_PAYLOAD](_ => 0);
    PutHeaders(pkt, total, dstMac.value, mac, UDP, ip, dst);
    ghost var was := pkt[..total];
    PutUdp(pkt, dstPort, srcPort, data);
    sent := Some(pkt[..total]);
    assert sent.value[..34] == was[..34];
    HeadersKept(was, sent.value, dstMac.value, mac, UDP, ip, dst);
    assert sent.value[34..] == pkt[34..42 + |data|];
    r := |data|;
  }

  /** The UDP header, with a checksum of zero, and the payload. */
  method PutUdp(pkt: array<u8>, dstPort: u16, srcPort: u16, data: seq<u8>)
    requires 42 + |data| <= pkt.Length && |data| <= UDP_MAX_PAYLOAD
    modifies pkt
    ensures pkt[34..42 + |data|] == BE(srcPort) + BE(dstPort) + BE(8 + |data|) + [0, 0] + data
    ensures forall i :: 0 <= i < 34 ==> pkt[i] == old(pkt[i])
  {
    PutWord(pkt, 34, srcPort);
    PutWord(pkt, 36, dstPort);
    PutWord(pkt, 38, 8 + |data|);
    pkt[40], pkt[41] := 0, 0;
    ghost var header := BE(srcPort) + BE(dstPort) + BE(8 + |data|) + [0, 0];
    assert pkt[34..42] == header;
    Copy(pkt, 42, data);
    assert pkt[34..42] == header && pkt[42..42 + |data|] == data;
    assert pkt[34..42 + |data|] == pkt[34..42] + pkt[42..42 + |data|];
  }

  const PING_TOTAL := 74

  lemma SameSum(a: seq<u8>, b: seq<u8>)
    requires a == b && Sum16(a) == 0
    ensures Sum16(b) == 0
  {
    hide Sum16;
  }

  lemma SameStart(a: seq<u8>, b: seq<u8>, n: nat)
    requires n <= |a| && n <= |b| && forall i :: 0 <= i < n ==> a[i] == b[i]
    ensures a[..n] == b[..n]
  {
  }

  /** The frame of net_ping: an echo request whose two checksums verify. */
  method PingFrame(dst: Addr, dstMac: Mac, mac: Mac, ip: Addr) returns (sent: seq<u8>)
    ensures |sent| == 74 && Headers(sent, dstMac, mac, 1, ip, dst)
    ensures Sum16(sent[34..]) == 0 && sent[34] == 8 && sent[35] == 0
    ensures BE16(sent, 38) == 0x1337 && BE16(sent, 40) == 1
    ensures forall i :: 42 <= i < 74 ==> sent[i] == 0
  {
    var pkt := new u8[PING_TOTAL](_ => 0);
    PutHeaders(pkt, PING_TOTAL, dstMac, mac, ICMP, ip, dst);
    ghost var was := pkt[..PING_TOTAL];
    pkt[34] := ICMP_REQUEST;
    PutWord(pkt, 38, 0x1337);
    PutWord(pkt, 40, 1);
    assert pkt[38] == 0x13 && pkt[39] == 0x37 && pkt[40] == 0 && pkt[41] == 1;
    FillChecksum(pkt, 34, 40, 2);
    hide Sum16;
    ghost var message: seq<u8> := pkt[34..34 + 40];
    sent := pkt[..PING_TOTAL];
    forall i | 0 <= i < 34 ensures sent[i] == was[i] {
      assert pkt[i] == was[i];
    }
    SameStart(sent, was, 34);
    HeadersKept(was, sent, dstMac, mac, ICMP, ip, dst);
    hide Headers;
    assert sent[34..] == message;
    SameSum(message, sent[34..]);
    assert sent[38] == 0x13 && sent[39] == 0x37 && sent[40] == 0 && sent[41] == 1;
    assert sent[34] == ICMP_REQUEST && sent[35] == 0;
    assert forall i :: 42 <= i < PING_TOTAL ==> sent[i] == 0;
  }

  /** What the other end of a ping gets back: a frame built by PingFrame is answered, and the answer echoes it. */
  method PingPong(dst: Addr, dstMac: Mac, mac: Mac, ip: Addr) returns (reply: seq<u8>)
    ensures |reply| == 74 && Sum16(reply[14..34]) == 0 && Sum16(reply[34..]) == 0
    ensures reply[26..30] == dst && reply[30..34] == ip && reply[0..6] == mac
    ensures reply[34] == 0 && BE16(reply, 38) == 0x1337 && BE16(reply, 40) == 1
  {
    var request := PingFrame(dst, dstMac, mac, ip);
    var answer := HandleIcmp(request, dstMac, dst);
    reply := answer.value;
    assert reply[38] == reply[38..][0] && reply[39] == reply[38..][1] && reply[40] == reply[38..][2];
    assert reply[41] == reply[38..][3];
  }
}
