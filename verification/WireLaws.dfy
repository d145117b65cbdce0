/**
 * The frames of section "Header Format" of RFC 768 and RFC 791 and of RFC 826 as any
 * sender may write them, byte by byte, and what the stack makes of them: it accepts
 * exactly these, and what it writes itself is among them.
 */
module WireLaws {
  import opened Bytes
  import opened Checksum
  import opened Frames
  import opened UdpStack

  // ---- numbers ------------------------------------------------------------------------

  /** Words are written and read most significant byte first. */
  lemma BigEndian(b: Bytes, at: nat, v: u16, w: u32)
    ensures at + 2 <= |b| ==> U16At(b, at) == 0x100 * (b[at] as int) + b[at + 1]
    ensures at + 4 <= |b| ==>
              U32At(b, at) == 0x100_0000 * (b[at] as int) + 0x1_0000 * (b[at + 1] as int) + 0x100 * (b[at + 2] as int) + b[at + 3]
    ensures Be16(v) == [v / 0x100, v % 0x100]
    ensures Be32(w) == [w / 0x100_0000, w / 0x1_0000 % 0x100, w / 0x100 % 0x100, w % 0x100]
  {
    Be32Bytes(w);
    assert Be(v, 2) == Be(v / 0x100, 1) + [v % 0x100];
    assert Be(v / 0x100, 1) == Be(v / 0x100 / 0x100, 0) + [v / 0x100 % 0x100];
    if at + 2 <= |b| {
      assert At(b, at, 1) == b[at] && At(b, at, 2) == 0x100 * At(b, at, 1) + b[at + 1];
    }
    if at + 4 <= |b| {
      assert At(b, at, 3) == 0x100 * At(b, at, 2) + b[at + 2] && At(b, at, 4) == 0x100 * At(b, at, 3) + b[at + 3];
    }
  }

  /** Reading bytes as a word and writing it gives the bytes back. */
  lemma WordBytes(b: Bytes, at: nat)
    ensures at + 2 <= |b| ==> Stored(b, at, Be16(U16At(b, at)))
    ensures at + 4 <= |b| ==> Stored(b, at, Be32(U32At(b, at)))
  {
    if at + 2 <= |b| {
      BeAt(b, at, 2);
      StoredSlice(b, at, Be16(U16At(b, at)));
    }
    if at + 4 <= |b| {
      BeAt(b, at, 4);
      StoredSlice(b, at, Be32(U32At(b, at)));
    }
  }

  lemma {:induction false} BeAt(b: Bytes, at: nat, n: nat)
    requires at + n <= |b|
    ensures Be(At(b, at, n), n) == b[at..at + n]
    decreases n
  {
    if n > 0 {
      BeAt(b, at, n - 1);
      var hi, lo := At(b, at, n - 1), b[at + n - 1];
      assert (0x100 * hi + lo) / 0x100 == hi && (0x100 * hi + lo) % 0x100 == lo;
      assert b[at..at + n] == b[at..at + n - 1] + [lo];
    }
  }

  // ---- UDP over IPv4 over Ethernet ---------------------------------------------------------

  /** The header fields a sender is free to choose. */
  datatype Free = Free(tos: byte, total: u16, id: u16, frag: u16, ttl: byte, ipSum: u16, udpSum: u16)

  function IpPart(x: Free, src: u32, dst: u32): (b: Bytes)
    ensures |b| == 20
  {
    [0x45, x.tos] + Be16(x.total) + Be16(x.id) + Be16(x.frag) + [x.ttl, 17] + Be16(x.ipSum) + Be32(src) + Be32(dst)
  }

  function UdpPart(x: Free, r: Route, n: nat): (b: Bytes)
    requires n + 8 < 0x1_0000
    ensures |b| == 8
  {
    Be16(r.srcPort) + Be16(r.dstPort) + Be16(n + 8) + Be16(x.udpSum)
  }

  function AnyUdpFrame(x: Free, r: Route, data: Bytes): (b: Bytes)
    requires |data| + 8 < 0x1_0000
    ensures |b| == 42 + |data|
  {
    r.dstMac + r.srcMac + [8, 0] + IpPart(x, r.srcIp, r.dstIp) + UdpPart(x, r, |data|) + data
  }

  /** A received slot holds such a frame, and the IP packet lies within the bytes received. */
  ghost predicate HoldsUdp(slot: Bytes, len: nat, x: Free, r: Route, data: Bytes) {
    && |data| <= MAX_PAYLOAD && |slot| == 2048 && AnyUdpFrame(x, r, data) <= slot
    && |data| + 28 <= x.total && 14 + x.total <= len <= 2048
  }

  function Said(r: Route, data: Bytes): Datagram {
    Datagram(r.srcMac, r.srcIp, r.srcPort, r.dstPort, data)
  }

  /** Any sender's frame is parsed to what it says, exactly on the nodes it is addressed to. */
  lemma UdpFrameIsParsed(slot: Bytes, len: nat, x: Free, r: Route, data: Bytes, ip: u32)
    requires HoldsUdp(slot, len, x, r, data)
    ensures Parse(ip, slot, len) == if Reaches(ip, r.dstIp) then Some((r.dstIp, Said(r, data))) else None
  {
    hide AnyUdpFrame, U16At, U32At, Addressed, Stored;
    AddressedReaches(ip, r.dstIp);
    UdpFields(slot, len, x, r, data);
  }

  /** Its sender's MAC is recorded on those nodes, and nothing else changes and nothing is sent. */
  lemma UdpFrameIsRecorded(n: Net, rx: Received, x: Free, r: Route, data: Bytes)
    requires HoldsUdp(rx.slot, rx.len, x, r, data)
    ensures AfterFrame(n, rx) == if Reaches(n.ip, r.dstIp) then n.(lastMac := r.srcMac) else n
    ensures Replies(n, rx) == []
  {
    hide HoldsUdp, Parse, U16At;
    UdpFields(rx.slot, rx.len, x, r, data);
    UdpFrameIsParsed(rx.slot, rx.len, x, r, data, n.ip);
  }

  /** The callback it reaches: for the node's own address the unicast one, if there is one; else the broadcast one. */
  lemma UdpFrameIsDispatched(n: Net, rx: Received, x: Free, r: Route, data: Bytes)
    requires HoldsUdp(rx.slot, rx.len, x, r, data)
    ensures Dispatch(n, rx) ==
              if !Reaches(n.ip, r.dstIp) then None
              else if r.dstIp == n.ip && n.rx != Nobody then Some(Call(n.rx, Said(r, data)))
              else if n.bx != Nobody then Some(Call(n.bx, Said(r, data)))
              else None
  {
    hide HoldsUdp, Parse;
    UdpFrameIsParsed(rx.slot, rx.len, x, r, data, n.ip);
  }

  lemma UdpFields(slot: Bytes, len: nat, x: Free, r: Route, data: Bytes)
    requires HoldsUdp(slot, len, x, r, data)
    ensures U16At(slot, 12) == TYPE_IP && slot[14] == 0x45 && slot[23] == 0x11 && U16At(slot, 16) == x.total
    ensures U32At(slot, 26) == r.srcIp && U32At(slot, 30) == r.dstIp
    ensures U16At(slot, 34) == r.srcPort && U16At(slot, 36) == r.dstPort && U16At(slot, 38) == |data| + 8
    ensures slot[6..12] == r.srcMac && slot[42..42 + |data|] == data
  {
    hide Stored, IpPart, UdpPart, U16At, U32At;
    var t: Bytes := [8, 0];
    var ip, udp := IpPart(x, r.srcIp, r.dstIp), UdpPart(x, r, |data|);
    StoredSlice(slot, 0, AnyUdpFrame(x, r, data));
    StoredSplit(slot, 0, r.dstMac + r.srcMac + t + ip + udp, data);
    StoredSplit(slot, 0, r.dstMac + r.srcMac + t + ip, udp);
    StoredSplit(slot, 0, r.dstMac + r.srcMac + t, ip);
    StoredSplit(slot, 0, r.dstMac + r.srcMac, t);
    StoredSplit(slot, 0, r.dstMac, r.srcMac);
    BigEndian(t, 0, TYPE_IP, 0);
    Be16RoundTrip(slot, 12, TYPE_IP);
    IpFields(slot, x, r.srcIp, r.dstIp);
    UdpPartFields(slot, x, r, |data|);
    SliceStored(slot, 6, r.srcMac);
    SliceStored(slot, 42, data);
  }

  lemma IpFields(slot: Bytes, x: Free, src: u32, dst: u32)
    requires |slot| == 2048 && Stored(slot, 14, IpPart(x, src, dst))
    ensures slot[14] == 0x45 && slot[23] == 0x11 && U16At(slot, 16) == x.total
    ensures U32At(slot, 26) == src && U32At(slot, 30) == dst
  {
    hide Stored, Be16, Be32, U16At, U32At;
    var v: Bytes, t: Bytes := [0x45, x.tos], [x.ttl, 17];
    var head := v + Be16(x.total) + Be16(x.id) + Be16(x.frag);
    StoredSplit(slot, 14, head + t + Be16(x.ipSum) + Be32(src), Be32(dst));
    StoredSplit(slot, 14, head + t + Be16(x.ipSum), Be32(src));
    StoredSplit(slot, 14, head + t, Be16(x.ipSum));
    StoredSplit(slot, 14, head, t);
    StoredSplit(slot, 14, v + Be16(x.total) + Be16(x.id), Be16(x.frag));
    StoredSplit(slot, 14, v + Be16(x.total), Be16(x.id));
    StoredSplit(slot, 14, v, Be16(x.total));
    StoredAt(slot, 14, v, 0);
    StoredAt(slot, 22, t, 1);
    Be16RoundTrip(slot, 16, x.total);
    Be32RoundTrip(slot, 26, src);
    Be32RoundTrip(slot, 30, dst);
  }

  lemma UdpPartFields(slot: Bytes, x: Free, r: Route, n: nat)
    requires |slot| == 2048 && n + 8 < 0x1_0000 && Stored(slot, 34, UdpPart(x, r, n))
    ensures U16At(slot, 34) == r.srcPort && U16At(slot, 36) == r.dstPort && U16At(slot, 38) == n + 8
  {
    hide Stored, Be16, U16At;
    StoredSplit(slot, 34, Be16(r.srcPort) + Be16(r.dstPort) + Be16(n + 8), Be16(x.udpSum));
    StoredSplit(slot, 34, Be16(r.srcPort) + Be16(r.dstPort), Be16(n + 8));
    StoredSplit(slot, 34, Be16(r.srcPort), Be16(r.dstPort));
    Be16RoundTrip(slot, 34, r.srcPort);
    Be16RoundTrip(slot, 36, r.dstPort);
    Be16RoundTrip(slot, 38, n + 8);
  }

  /** Nothing else is parsed: a datagram handed on came in such a frame. */
  lemma OnlyUdpFramesAreParsed(slot: Bytes, len: nat, ip: u32) returns (x: Free, r: Route, data: Bytes)
    requires |slot| == 2048 && Parse(ip, slot, len).Some?
    ensures HoldsUdp(slot, len, x, r, data) && Reaches(ip, r.dstIp)
    ensures Parse(ip, slot, len) == Some((r.dstIp, Said(r, data)))
  {
    hide Addressed, Stored, Be16, Be32, U16At, U32At;
    var n := U16At(slot, 38) - 8;
    x := Free(slot[15], U16At(slot, 16), U16At(slot, 18), U16At(slot, 20), slot[22], U16At(slot, 24), U16At(slot, 40));
    r := Route(slot[..6], slot[6..12], U32At(slot, 26), U32At(slot, 30), U16At(slot, 34), U16At(slot, 36));
    data := slot[42..42 + n];
    AddressedReaches(ip, r.dstIp);
    IpBytes(slot, x, r);
    UdpBytes(slot, x, r, n);
    TypeBytes(slot);
    assert slot[..42 + n] == slot[..6] + slot[6..12] + slot[12..14] + slot[14..34] + slot[34..42] + slot[42..42 + n];
    assert AnyUdpFrame(x, r, data) == slot[..42 + n];
  }

  lemma TypeBytes(slot: Bytes)
    requires |slot| == 2048 && U16At(slot, 12) == TYPE_IP
    ensures slot[12..14] == [8, 0]
  {
    BigEndian(slot, 12, 0, 0);
  }

  lemma IpBytes(slot: Bytes, x: Free, r: Route)
    requires |slot| == 2048 && slot[14] == 0x45 && slot[23] == 0x11
    requires x.tos == slot[15] && x.total == U16At(slot, 16) && x.id == U16At(slot, 18) && x.frag == U16At(slot, 20)
    requires x.ttl == slot[22] && x.ipSum == U16At(slot, 24) && r.srcIp == U32At(slot, 26) && r.dstIp == U32At(slot, 30)
    ensures slot[14..34] == IpPart(x, r.srcIp, r.dstIp)
  {
    hide Stored, Be16, Be32, U16At, U32At;
    WordBack16(slot, 16);
    WordBack16(slot, 18);
    WordBack16(slot, 20);
    WordBack16(slot, 24);
    WordBack32(slot, 26);
    WordBack32(slot, 30);
    assert slot[14..34] == slot[14..16] + slot[16..18] + slot[18..20] + slot[20..22] + slot[22..24] + slot[24..26]
                           + slot[26..30] + slot[30..34];
    assert slot[14..16] == [0x45, x.tos] && slot[22..24] == [x.ttl, 17];
  }

  lemma UdpBytes(slot: Bytes, x: Free, r: Route, n: nat)
    requires |slot| == 2048 && n + 8 == U16At(slot, 38)
    requires r.srcPort == U16At(slot, 34) && r.dstPort == U16At(slot, 36) && x.udpSum == U16At(slot, 40)
    ensures slot[34..42] == UdpPart(x, r, n)
  {
    hide Stored, Be16, U16At;
    WordBack16(slot, 34);
    WordBack16(slot, 36);
    WordBack16(slot, 38);
    WordBack16(slot, 40);
    assert slot[34..42] == slot[34..36] + slot[36..38] + slot[38..40] + slot[40..42];
  }

  lemma WordBack16(b: Bytes, at: nat)
    requires at + 2 <= |b|
    ensures Be16(U16At(b, at)) == b[at..at + 2]
  {
    BeAt(b, at, 2);
  }

  lemma WordBack32(b: Bytes, at: nat)
    requires at + 4 <= |b|
    ensures Be32(U32At(b, at)) == b[at..at + 4]
  {
    BeAt(b, at, 4);
  }

  /** What the stack writes is such a frame, unfragmented, with TTL 64 and both sums filled in. */
  lemma OwnFrameBytes(r: Route, payload: Bytes)
    requires |payload| <= MAX_PAYLOAD
    ensures var total := |payload| + 28;
            UdpFrame(r, payload) ==
              AnyUdpFrame(Free(0, total, 0, 0x4000, 64, IpSum(total, r.srcIp, r.dstIp), UdpSum(r, payload)), r, payload)
  {
    hide Be16, Be32, IpSum, UdpSum;
    var total := |payload| + 28;
    var x := Free(0, total, 0, 0x4000, 64, IpSum(total, r.srcIp, r.dstIp), UdpSum(r, payload));
    var t: Bytes := [8, 0];
    assert Be16(TYPE_IP) == t by {
      BigEndian([], 0, TYPE_IP, 0);
    }
    assert EthHeader(r.dstMac, r.srcMac, TYPE_IP) == r.dstMac + r.srcMac + t;
    assert IpHeader(total, r.srcIp, r.dstIp, x.ipSum) == IpPart(x, r.srcIp, r.dstIp);
    assert UdpHead(r.srcPort, r.dstPort, |payload| + 8) + Be16(x.udpSum) == UdpPart(x, r, |payload|);
  }

  /** A header with a published checksum: 0xb861 for this one of 115 bytes from 192.168.0.1 to 192.168.0.199. */
  lemma KnownHeader()
    ensures IpHeader(115, 0xc0a8_0001, 0xc0a8_00c7, IpSum(115, 0xc0a8_0001, 0xc0a8_00c7)) ==
              [0x45, 0, 0, 0x73, 0, 0, 0x40, 0, 0x40, 0x11, 0xb8, 0x61, 0xc0, 0xa8, 0, 1, 0xc0, 0xa8, 0, 0xc7]
  {
    hide IpHeader, Sum;
    var src: u32, dst: u32 := 0xc0a8_0001, 0xc0a8_00c7;
    HeaderBytes(115, src, dst, 0);
    var h: Bytes := [0x45, 0, 0, 0x73, 0, 0, 0x40, 0, 0x40, 0x11, 0, 0, 0xc0, 0xa8, 0, 1, 0xc0, 0xa8, 0, 0xc7];
    assert IpHeader(115, src, dst, 0) == h;
    TenWords(h);
    assert Sum(h) == 0x2479c;
    HeaderBytes(115, src, dst, 0xb861);
  }

  lemma HeaderBytes(total: u16, src: u32, dst: u32, c: u16)
    ensures IpHeader(total, src, dst, c) ==
              [0x45, 0, total / 0x100, total % 0x100, 0, 0, 0x40, 0, 64, 17, c / 0x100, c % 0x100,
               src / 0x100_0000, src / 0x1_0000 % 0x100, src / 0x100 % 0x100, src % 0x100,
               dst / 0x100_0000, dst / 0x1_0000 % 0x100, dst / 0x100 % 0x100, dst % 0x100]
  {
    hide Be16, Be32, U16At, U32At;
    BigEndian([], 0, total, src);
    BigEndian([], 0, c, dst);
    BigEndian([], 0, 0, 0);
    BigEndian([], 0, 0x4000, 0);
    var s, d := Be32(src), Be32(dst);
    assert IpAddrs(src, dst) == [s[0], s[1], s[2], s[3], d[0], d[1], d[2], d[3]];
    assert IpHead(total) == [0x45, 0, total / 0x100, total % 0x100, 0, 0, 0x40, 0, 64, 17];
  }

  lemma TenWords(h: Bytes)
    requires |h| == 20
    ensures Sum(h) == 0x100 * (h[0] as int + h[2] + h[4] + h[6] + h[8] + h[10] + h[12] + h[14] + h[16] + h[18])
                      + (h[1] as int + h[3] + h[5] + h[7] + h[9] + h[11] + h[13] + h[15] + h[17] + h[19])
  {
    hide SumTo;
    SumUnfold(h, 1);
    SumUnfold(h, 2);
    SumUnfold(h, 3);
    SumUnfold(h, 4);
    SumUnfold(h, 5);
    SumUnfold(h, 6);
    SumUnfold(h, 7);
    SumUnfold(h, 8);
    SumUnfold(h, 9);
    SumUnfold(h, 10);
  }

  lemma SumUnfold(b: Bytes, n: nat)
    requires 0 < n && 2 * n <= |b|
    ensures SumTo(b, n) == SumTo(b, n - 1) + 0x100 * (b[2 * n - 2] as int) + b[2 * n - 1] && SumTo(b, 0) == 0
  {
    BigEndian(b, 2 * (n - 1), 0, 0);
  }

  // ---- ARP ---------------------------------------------------------------------------------

  /** An Ethernet ARP packet for IPv4, from anyone. */
  function AnyArp(dst: Mac, src: Mac, op: u16, mac: Mac, ip: u32, targetMac: Mac, targetIp: u32): (b: Bytes)
    ensures |b| == 42
  {
    dst + src + [8, 6] + [0, 1, 8, 0, 6, 4] + Be16(op) + mac + Be32(ip) + targetMac + Be32(targetIp)
  }

  /** What the stack writes is such a packet from its own MAC, with 18 zero bytes behind it. */
  lemma OwnArpBytes(dst: Mac, op: u16, mac: Mac, ip: u32, targetMac: Mac, targetIp: u32)
    ensures ArpFrame(dst, op, mac, ip, targetMac, targetIp) == AnyArp(dst, mac, op, mac, ip, targetMac, targetIp) + Zeros(18)
  {
    hide Be32;
    var t: Bytes, h: Bytes := [8, 6], [0, 1, 8, 0, 6, 4];
    assert Be16(TYPE_ARP) == t && Be16(1) + Be16(0x0800) + [6, 4] == h by {
      BigEndian([], 0, TYPE_ARP, 0);
      BigEndian([], 0, 1, 0);
      BigEndian([], 0, 0x0800, 0);
    }
    hide Be16;
    assert EthHeader(dst, mac, TYPE_ARP) == dst + mac + t;
    assert ArpBody(op, mac, ip, targetMac, targetIp) == h + Be16(op) + mac + Be32(ip) + targetMac + Be32(targetIp) + Zeros(18);
  }

  /** The fields read back in any slot that holds the packet. */
  lemma ArpFields(slot: Bytes, dst: Mac, src: Mac, op: u16, mac: Mac, ip: u32, targetMac: Mac, targetIp: u32)
    requires |slot| == 2048 && AnyArp(dst, src, op, mac, ip, targetMac, targetIp) <= slot
    ensures slot[..6] == dst && slot[6..12] == src && U16At(slot, 12) == 0x0806
    ensures U16At(slot, 14) == 1 && U16At(slot, 16) == 0x0800 && slot[18] == 6 && slot[19] == 4 && U16At(slot, 20) == op
    ensures slot[22..28] == mac && U32At(slot, 28) == ip && slot[32..38] == targetMac && U32At(slot, 38) == targetIp
  {
    hide Stored, Be16, Be32, U16At, U32At;
    var t: Bytes, h: Bytes := [8, 6], [0, 1, 8, 0, 6, 4];
    var a := dst + src + t + h + Be16(op);
    StoredSlice(slot, 0, AnyArp(dst, src, op, mac, ip, targetMac, targetIp));
    StoredSplit(slot, 0, a + mac + Be32(ip) + targetMac, Be32(targetIp));
    StoredSplit(slot, 0, a + mac + Be32(ip), targetMac);
    StoredSplit(slot, 0, a + mac, Be32(ip));
    StoredSplit(slot, 0, a, mac);
    StoredSplit(slot, 0, dst + src + t + h, Be16(op));
    StoredSplit(slot, 0, dst + src + t, h);
    StoredSplit(slot, 0, dst + src, t);
    StoredSplit(slot, 0, dst, src);
    SliceStored(slot, 0, dst);
    SliceStored(slot, 6, src);
    SliceStored(slot, 22, mac);
    SliceStored(slot, 32, targetMac);
    Be16RoundTrip(slot, 20, op);
    Be32RoundTrip(slot, 28, ip);
    Be32RoundTrip(slot, 38, targetIp);
    ArpHead(slot, t, h);
  }

  lemma ArpHead(slot: Bytes, t: Bytes, h: Bytes)
    requires |slot| == 2048 && t == [8, 6] && h == [0, 1, 8, 0, 6, 4] && Stored(slot, 12, t) && Stored(slot, 14, h)
    ensures U16At(slot, 12) == 0x0806 && U16At(slot, 14) == 1 && U16At(slot, 16) == 0x0800
    ensures slot[18] == 6 && slot[19] == 4
  {
    hide Stored, U16At;
    SliceStored(slot, 12, t);
    SliceStored(slot, 14, h);
    assert slot[12] == slot[12..14][0] && slot[13] == slot[12..14][1];
    assert slot[14] == slot[14..20][0] && slot[15] == slot[14..20][1] && slot[16] == slot[14..20][2];
    assert slot[17] == slot[14..20][3] && slot[18] == slot[14..20][4] && slot[19] == slot[14..20][5];
    BigEndian(slot, 12, 0, 0);
    BigEndian(slot, 14, 0, 0);
    BigEndian(slot, 16, 0, 0);
  }

  /**
   * What a node does with an ARP packet: it answers a request for its own address, with
   * itself as sender and the asker as target, and takes the MAC from a reply of the
   * address it has cached.
   */
  lemma ArpIsHandled(n: Net, rx: Received, dst: Mac, src: Mac, op: u16, mac: Mac, ip: u32, targetMac: Mac, targetIp: u32)
    requires AnyArp(dst, src, op, mac, ip, targetMac, targetIp) <= rx.slot && 60 <= rx.len <= 2048
    ensures Replies(n, rx) ==
              if op == 1 && targetIp == n.ip then [AnyArp(mac, n.mac, 2, n.mac, n.ip, mac, ip) + Zeros(58)] else []
    ensures AfterFrame(n, rx) == if op == 2 && ip == n.peerIp then n.(peerMac := mac) else n
  {
    hide AnyArp, U16At, U32At, ArpFrame;
    ArpFields(rx.slot, dst, src, op, mac, ip, targetMac, targetIp);
    OwnArpBytes(mac, 2, n.mac, n.ip, mac, ip);
    TwoPads(AnyArp(mac, n.mac, 2, n.mac, n.ip, mac, ip));
  }

  lemma TwoPads(b: Bytes)
    requires |b| == 42
    ensures PadTo(b + Zeros(18), MIN_TX) == b + Zeros(58)
  {
    assert Zeros(18) + Zeros(40) == Zeros(58);
    assert b + Zeros(18) + Zeros(40) == b + (Zeros(18) + Zeros(40));
  }

  /** Nothing else is answered, and nothing else changes the cached MAC. */
  lemma OnlyArpIsHandled(n: Net, rx: Received) returns (dst: Mac, src: Mac, op: u16, mac: Mac, ip: u32, targetMac: Mac, targetIp: u32)
    requires Replies(n, rx) != [] || AfterFrame(n, rx).peerMac != n.peerMac
    ensures AnyArp(dst, src, op, mac, ip, targetMac, targetIp) <= rx.slot && 60 <= rx.len <= 2048
  {
    hide Be16, Be32, U16At, U32At, Parse, ArpFrame;
    var slot := rx.slot;
    dst, src, op, mac := slot[..6], slot[6..12], U16At(slot, 20), slot[22..28];
    ip, targetMac, targetIp := U32At(slot, 28), slot[32..38], U32At(slot, 38);
    ArpTypeBytes(slot);
    WordBack16(slot, 20);
    WordBack32(slot, 28);
    WordBack32(slot, 38);
    assert slot[..42] == slot[..6] + slot[6..12] + slot[12..14] + slot[14..20] + slot[20..22] + slot[22..28]
                         + slot[28..32] + slot[32..38] + slot[38..42];
    assert AnyArp(dst, src, op, mac, ip, targetMac, targetIp) == slot[..42];
  }

  lemma ArpTypeBytes(slot: Bytes)
    requires |slot| == 2048 && U16At(slot, 12) == TYPE_ARP
    requires U16At(slot, 14) == 1 && U16At(slot, 16) == 0x0800 && slot[18] == 6 && slot[19] == 4
    ensures slot[12..14] == [8, 6] && slot[14..20] == [0, 1, 8, 0, 6, 4]
  {
    BigEndian(slot, 12, 0, 0);
    BigEndian(slot, 14, 0, 0);
    BigEndian(slot, 16, 0, 0);
  }

  /** A frame as it lies in a receive slot. */
  ghost predicate Arrives(frame: Bytes, rx: Received) {
    frame <= rx.slot && |frame| <= rx.len <= 2048
  }

  /**
   * Two nodes: the owner of an address answers a request for it with one frame, sent to
   * the asker, and with that frame the asker learns the owner's MAC.
   */
  lemma AskerLearns(a: Net, b: Net, ip: u32, atB: Received, atA: Received)
    requires b.ip == ip && a.peerIp == ip && Arrives(ArpRequest(a, ip), atB)
    ensures |Replies(b, atB)| == 1 && Replies(b, atB)[0][..6] == a.mac
    ensures Arrives(Replies(b, atB)[0], atA) ==> AfterFrame(a, atA) == a.(peerMac := b.mac)
  {
    hide AnyArp, ArpFrame, Replies, AfterFrame;
    OwnArpBytes(BROADCAST, 1, a.mac, a.ip, NO_MAC, ip);
    TwoPads(AnyArp(BROADCAST, a.mac, 1, a.mac, a.ip, NO_MAC, ip));
    var ask := AnyArp(BROADCAST, a.mac, 1, a.mac, a.ip, NO_MAC, ip);
    assert ask <= ArpRequest(a, ip) <= atB.slot;
    ArpIsHandled(b, atB, BROADCAST, a.mac, 1, a.mac, a.ip, NO_MAC, ip);
    var answer := AnyArp(a.mac, b.mac, 2, b.mac, b.ip, a.mac, a.ip);
    AnswerGoesTo(answer, a.mac, b.mac, b.ip, a.ip);
    if Arrives(answer + Zeros(58), atA) {
      assert answer <= answer + Zeros(58) <= atA.slot;
      ArpIsHandled(a, atA, a.mac, b.mac, 2, b.mac, b.ip, a.mac, a.ip);
    }
  }

  lemma AnswerGoesTo(answer: Bytes, to: Mac, mac: Mac, ip: u32, asker: u32)
    requires answer == AnyArp(to, mac, 2, mac, ip, to, asker)
    ensures (answer + Zeros(58))[..6] == to
  {
  }
}
