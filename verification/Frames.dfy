/**
 * Ethernet, IPv4, UDP and ARP frames as byte strings, as the firmware writes and
 * reads them with the preamble and CRC left to the MAC hardware.
 */
module Frames {
  import opened Bytes
  import opened Checksum

  const SLOT: nat := 2048
  const HEADERS: nat := 42                 // Ethernet 14, IP 20, UDP 8
  const MAX_PAYLOAD: nat := SLOT - HEADERS
  const ARP_LEN: nat := 60
  const MIN_TX: nat := 100
  const TYPE_IP: u16 := 0x0800
  const TYPE_ARP: u16 := 0x0806
  const LIMITED: u32 := 0xffff_ffff

  type Mac = m: Bytes | |m| == 6 witness [0, 0, 0, 0, 0, 0]

  const NO_MAC: Mac := [0, 0, 0, 0, 0, 0]
  const BROADCAST: Mac := [0xff, 0xff, 0xff, 0xff, 0xff, 0xff]

  /** Who a datagram goes from and to. */
  datatype Route = Route(dstMac: Mac, srcMac: Mac, srcIp: u32, dstIp: u32, srcPort: u16, dstPort: u16)

  // ---- writing --------------------------------------------------------------------

  function EthHeader(dst: Mac, src: Mac, ethertype: u16): (h: Bytes)
    ensures |h| == 14
  {
    dst + src + Be16(ethertype)
  }

  /** The IP header up to its checksum: version, length, don't-fragment, TTL, UDP. */
  function IpHead(total: u16): (h: Bytes)
    ensures |h| == 10
  {
    [0x45, 0] + Be16(total) + Be16(0) + Be16(0x4000) + [64, 0x11]
  }

  function IpAddrs(src: u32, dst: u32): (h: Bytes)
    ensures |h| == 8
  {
    Be32(src) + Be32(dst)
  }

  function UdpHead(srcPort: u16, dstPort: u16, length: u16): (h: Bytes)
    ensures |h| == 6
  {
    Be16(srcPort) + Be16(dstPort) + Be16(length)
  }

  /** What the UDP checksum covers in front of the UDP header. */
  function Pseudo(src: u32, dst: u32, length: u16): (h: Bytes)
    ensures |h| == 12
  {
    Be32(src) + Be32(dst) + [0, 0x11] + Be16(length)
  }

  function EvenPad(b: Bytes): (p: Bytes)
    ensures |p| % 2 == 0 && |b| <= |p| <= |b| + 1
  {
    if |b| % 2 == 0 then b else b + [0]
  }

  function IpHeader(total: u16, src: u32, dst: u32, sum: u16): (h: Bytes)
    ensures |h| == 20
  {
    IpHead(total) + Be16(sum) + IpAddrs(src, dst)
  }

  function IpSum(total: u16, src: u32, dst: u32): u16 {
    Complement(Sum(IpHeader(total, src, dst, 0)))
  }

  function UdpSum(r: Route, payload: Bytes): u16
    requires |payload| <= MAX_PAYLOAD
  {
    var length := |payload| + 8;
    Complement(Sum(Pseudo(r.srcIp, r.dstIp, length) + UdpHead(r.srcPort, r.dstPort, length) + Be16(0) + EvenPad(payload)))
  }

  /** Everything in front of the payload. */
  function Headers(r: Route, payload: Bytes): (h: Bytes)
    requires |payload| <= MAX_PAYLOAD
    ensures |h| == HEADERS
  {
    var total := |payload| + 28;
    EthHeader(r.dstMac, r.srcMac, TYPE_IP)
    + IpHeader(total, r.srcIp, r.dstIp, IpSum(total, r.srcIp, r.dstIp))
    + (UdpHead(r.srcPort, r.dstPort, |payload| + 8) + Be16(UdpSum(r, payload)))
  }

  function UdpFrame(r: Route, payload: Bytes): (f: Bytes)
    requires |payload| <= MAX_PAYLOAD
    ensures |f| == HEADERS + |payload|
  {
    Headers(r, payload) + payload
  }

  // ---- what a receiver that checks the sums would find -------------------------------

  lemma IpHeaderVerifies(total: u16, src: u32, dst: u32)
    ensures Ones(Sum(IpHeader(total, src, dst, IpSum(total, src, dst)))) == 0xffff
    ensures IpSum(total, src, dst) != 0
  {
    hide IpHead, IpAddrs, Be16, Sum;
    SumFillIn(IpHead(total), IpSum(total, src, dst), IpAddrs(src, dst));
    ComplementVerifies(Sum(IpHeader(total, src, dst, 0)));
  }

  lemma UdpVerifies(r: Route, payload: Bytes)
    requires |payload| <= MAX_PAYLOAD
    ensures var length := |payload| + 8;
            Ones(Sum(Pseudo(r.srcIp, r.dstIp, length) + UdpHead(r.srcPort, r.dstPort, length)
                     + Be16(UdpSum(r, payload)) + EvenPad(payload))) == 0xffff
    ensures UdpSum(r, payload) != 0
  {
    hide Pseudo, UdpHead, Be16, Sum, EvenPad;
    var length := |payload| + 8;
    var a := Pseudo(r.srcIp, r.dstIp, length) + UdpHead(r.srcPort, r.dstPort, length);
    SumFillIn(a, UdpSum(r, payload), EvenPad(payload));
    ComplementVerifies(Sum(a + Be16(0) + EvenPad(payload)));
  }

  /**
   * Every frame re-sums to all ones: its IP header alone, and pseudo header plus
   * UDP header plus payload (zero-padded to even length), and no checksum is sent as 0.
   */
  lemma FrameVerifies(r: Route, payload: Bytes)
    requires |payload| <= MAX_PAYLOAD
    ensures var f := UdpFrame(r, payload);
            && Ones(Sum(f[14..34])) == 0xffff && f[24..26] != [0, 0]
            && Ones(Sum(f[26..34] + [0, f[23]] + f[38..40] + EvenPad(f[34..]))) == 0xffff
            && f[40..42] != [0, 0]
  {
    hide UdpFrame, Pseudo, UdpHead, Be16, IpHeader, IpSum, UdpSum, Sum, Ones, EvenPad;
    var f, total, length := UdpFrame(r, payload), |payload| + 28, |payload| + 8;
    var c, u := IpSum(total, r.srcIp, r.dstIp), UdpSum(r, payload);
    IpHeaderVerifies(total, r.srcIp, r.dstIp);
    UdpVerifies(r, payload);
    FrameSlices(r, payload);
    NonZeroWord(c);
    NonZeroWord(u);
    var head := UdpHead(r.srcPort, r.dstPort, length) + Be16(u);
    PadTail(head, payload);
    var p := Pseudo(r.srcIp, r.dstIp, length);
    assert p + (head + EvenPad(payload))
        == p + UdpHead(r.srcPort, r.dstPort, length) + Be16(u) + EvenPad(payload);
    PseudoBytes(r, payload);
  }

  /** The pseudo header of section "Fields" of RFC 768, out of the frame's own bytes. */
  lemma PseudoBytes(r: Route, payload: Bytes)
    requires |payload| <= MAX_PAYLOAD
    ensures var f := UdpFrame(r, payload);
            f[26..34] + [0, f[23]] + f[38..40] == Pseudo(r.srcIp, r.dstIp, |payload| + 8)
  {
    hide Be16, Be32, EthHeader, IpSum, UdpSum;
    var f, total := UdpFrame(r, payload), |payload| + 28;
    var i := IpHeader(total, r.srcIp, r.dstIp, IpSum(total, r.srcIp, r.dstIp));
    var u := UdpHead(r.srcPort, r.dstPort, |payload| + 8);
    FrameSlices(r, payload);
    assert f[26..34] == f[14..34][12..20] && i[12..20] == Be32(r.srcIp) + Be32(r.dstIp);
    assert f[23] == f[14..34][9] && i[9] == 0x11;
    assert f[38..40] == f[34..][4..6] && u[4..6] == Be16(|payload| + 8);
  }

  lemma NonZeroWord(v: u16)
    requires v != 0
    ensures Be16(v) != [0, 0]
  {
    assert Be(v, 2) == Be(v / 0x100, 1) + [v % 0x100];
    assert Be(v / 0x100, 1) == Be(v / 0x100 / 0x100, 0) + [v / 0x100 % 0x100] == [v / 0x100 % 0x100];
    assert Be16(v)[0] == v / 0x100 % 0x100 && Be16(v)[1] == v % 0x100;
  }

  lemma PadTail(head: Bytes, payload: Bytes)
    requires |head| % 2 == 0
    ensures EvenPad(head + payload) == head + EvenPad(payload)
  {
    assert head + payload + [0] == head + (payload + [0]);
  }

  lemma FrameSlices(r: Route, payload: Bytes)
    requires |payload| <= MAX_PAYLOAD
    ensures var f, total := UdpFrame(r, payload), |payload| + 28;
            && f[14..34] == IpHeader(total, r.srcIp, r.dstIp, IpSum(total, r.srcIp, r.dstIp))
            && f[34..] == UdpHead(r.srcPort, r.dstPort, |payload| + 8) + Be16(UdpSum(r, payload)) + payload
            && f[24..26] == Be16(IpSum(total, r.srcIp, r.dstIp))
            && f[40..42] == Be16(UdpSum(r, payload))
  {
    hide IpHead, IpAddrs, UdpHead, Be16, EthHeader, IpSum, UdpSum;
    var f, total := UdpFrame(r, payload), |payload| + 28;
    var e, i := EthHeader(r.dstMac, r.srcMac, TYPE_IP), IpHeader(total, r.srcIp, r.dstIp, IpSum(total, r.srcIp, r.dstIp));
    var u := UdpHead(r.srcPort, r.dstPort, |payload| + 8);
    var c := Be16(UdpSum(r, payload));
    assert f == e + i + (u + c) + payload;
    assert f[14..34] == i;
    assert f[34..] == u + c + payload;
    assert i[10..12] == Be16(IpSum(total, r.srcIp, r.dstIp));
    assert f[24..26] == f[14..34][10..12];
    assert f[40..42] == f[34..][6..8] == c;
  }

  // ---- reading ---------------------------------------------------------------------------

  /** What a UDP callback is handed, with the sender's MAC recorded beside it. */
  datatype Datagram = Datagram(mac: Mac, srcIp: u32, srcPort: u16, dstPort: u16, data: Bytes)

  /** `ip` with its last octet set to 255: the /24 broadcast address. */
  function SubnetBroadcast(ip: u32): u32 {
    ip - ip % 0x100 + 0xff
  }

  predicate Addressed(ip: u32, dst: u32) {
    dst == ip || dst == LIMITED || dst == SubnetBroadcast(ip)
  }

  /** The addresses a node listens to: its own, 255.255.255.255, and its /24 with last octet 255. */
  predicate Reaches(ip: u32, dst: u32) {
    dst == ip || dst == 0xffff_ffff || (dst / 0x100 == ip / 0x100 && dst % 0x100 == 0xff)
  }

  lemma AddressedReaches(ip: u32, dst: u32)
    ensures Addressed(ip, dst) <==> Reaches(ip, dst)
  {
  }

  /**
   * The datagram in a receive slot, by the tests of process_frame and process_udp.
   * The slot keeps older bytes after the `len` bytes received.
   */
  function Parse(ip: u32, slot: Bytes, len: nat): Option<(u32, Datagram)>
    requires |slot| == SLOT
  {
    if len < 14 || len > SLOT || U16At(slot, 12) != TYPE_IP || slot[14] != 0x45
       || !Addressed(ip, U32At(slot, 30)) || slot[23] != 0x11 || len < HEADERS then None
    else
      var total, length := U16At(slot, 16), U16At(slot, 38);
      if total < 28 || 14 + total > len || length < 8 || length > total - 20 then None
      else
        Some((U32At(slot, 30),
              Datagram(slot[6..12], U32At(slot, 26), U16At(slot, 34), U16At(slot, 36), slot[HEADERS..34 + length])))
  }

  /** The field values a written frame reads back as. */
  lemma FrameFields(r: Route, payload: Bytes, slot: Bytes)
    requires |payload| <= MAX_PAYLOAD && |slot| == SLOT && UdpFrame(r, payload) <= slot
    ensures U16At(slot, 12) == TYPE_IP && slot[14] == 0x45 && slot[23] == 0x11
    ensures U16At(slot, 16) == |payload| + 28 && U16At(slot, 38) == |payload| + 8
    ensures U32At(slot, 26) == r.srcIp && U32At(slot, 30) == r.dstIp
    ensures U16At(slot, 34) == r.srcPort && U16At(slot, 36) == r.dstPort
    ensures slot[..6] == r.dstMac && slot[6..12] == r.srcMac && slot[HEADERS..HEADERS + |payload|] == payload
  {
    hide Stored, Be16, Be32, U16At, U32At, UdpFrame, IpSum, UdpSum;
    var total, length := |payload| + 28, |payload| + 8;
    FrameStored(r, payload, slot, IpSum(total, r.srcIp, r.dstIp), UdpSum(r, payload));
    Be16RoundTrip(slot, 12, TYPE_IP);
    Be16RoundTrip(slot, 16, total);
    Be32RoundTrip(slot, 26, r.srcIp);
    Be32RoundTrip(slot, 30, r.dstIp);
    Be16RoundTrip(slot, 34, r.srcPort);
    Be16RoundTrip(slot, 36, r.dstPort);
    Be16RoundTrip(slot, 38, length);
    BytesBack(slot, r, payload);
  }

  lemma BytesBack(slot: Bytes, r: Route, payload: Bytes)
    requires |slot| == SLOT && |payload| <= MAX_PAYLOAD
    requires Stored(slot, 0, r.dstMac) && Stored(slot, 6, r.srcMac)
    requires Stored(slot, 14, [0x45, 0]) && Stored(slot, 22, [64, 0x11]) && Stored(slot, HEADERS, payload)
    ensures slot[14] == 0x45 && slot[23] == 0x11
    ensures slot[..6] == r.dstMac && slot[6..12] == r.srcMac && slot[HEADERS..HEADERS + |payload|] == payload
  {
    hide Stored;
    StoredAt(slot, 14, [0x45, 0], 0);
    StoredAt(slot, 22, [64, 0x11], 1);
    SliceStored(slot, 0, r.dstMac);
    SliceStored(slot, 6, r.srcMac);
    SliceStored(slot, HEADERS, payload);
  }

  lemma FrameStored(r: Route, payload: Bytes, slot: Bytes, c: u16, u: u16)
    requires |payload| <= MAX_PAYLOAD && |slot| == SLOT && UdpFrame(r, payload) <= slot
    requires c == IpSum(|payload| + 28, r.srcIp, r.dstIp) && u == UdpSum(r, payload)
    ensures Stored(slot, 0, r.dstMac) && Stored(slot, 6, r.srcMac) && Stored(slot, 12, Be16(TYPE_IP))
    ensures Stored(slot, 14, [0x45, 0]) && Stored(slot, 16, Be16(|payload| + 28)) && Stored(slot, 22, [64, 0x11])
    ensures Stored(slot, 26, Be32(r.srcIp)) && Stored(slot, 30, Be32(r.dstIp))
    ensures Stored(slot, 34, Be16(r.srcPort)) && Stored(slot, 36, Be16(r.dstPort))
    ensures Stored(slot, 38, Be16(|payload| + 8)) && Stored(slot, HEADERS, payload)
  {
    hide Stored, Be16, Be32, IpSum, UdpSum;
    var e := EthHeader(r.dstMac, r.srcMac, TYPE_IP);
    var ip := IpHeader(|payload| + 28, r.srcIp, r.dstIp, c);
    var udp := UdpHead(r.srcPort, r.dstPort, |payload| + 8) + Be16(u);
    StoredSlice(slot, 0, UdpFrame(r, payload));
    StoredSplit(slot, 0, e + ip + udp, payload);
    StoredSplit(slot, 0, e + ip, udp);
    StoredSplit(slot, 0, e, ip);
    EthStored(slot, r);
    IpStored(slot, |payload| + 28, r.srcIp, r.dstIp, c);
    UdpStored(slot, r.srcPort, r.dstPort, |payload| + 8, u);
  }

  lemma EthStored(slot: Bytes, r: Route)
    requires Stored(slot, 0, EthHeader(r.dstMac, r.srcMac, TYPE_IP))
    ensures Stored(slot, 0, r.dstMac) && Stored(slot, 6, r.srcMac) && Stored(slot, 12, Be16(TYPE_IP))
  {
    hide Stored, Be16;
    StoredSplit(slot, 0, r.dstMac + r.srcMac, Be16(TYPE_IP));
    StoredSplit(slot, 0, r.dstMac, r.srcMac);
  }

  lemma IpStored(slot: Bytes, total: u16, src: u32, dst: u32, c: u16)
    requires Stored(slot, 14, IpHeader(total, src, dst, c))
    ensures Stored(slot, 14, [0x45, 0]) && Stored(slot, 16, Be16(total)) && Stored(slot, 22, [64, 0x11])
    ensures Stored(slot, 26, Be32(src)) && Stored(slot, 30, Be32(dst))
  {
    hide Stored, Be16, Be32;
    StoredSplit(slot, 14, IpHead(total) + Be16(c), IpAddrs(src, dst));
    StoredSplit(slot, 26, Be32(src), Be32(dst));
    StoredSplit(slot, 14, IpHead(total), Be16(c));
    var v: Bytes, t: Bytes := [0x45, 0], [64, 0x11];
    StoredSplit(slot, 14, v + Be16(total) + Be16(0) + Be16(0x4000), t);
    StoredSplit(slot, 14, v + Be16(total) + Be16(0), Be16(0x4000));
    StoredSplit(slot, 14, v + Be16(total), Be16(0));
    StoredSplit(slot, 14, v, Be16(total));
  }

  lemma UdpStored(slot: Bytes, srcPort: u16, dstPort: u16, length: u16, u: u16)
    requires Stored(slot, 34, UdpHead(srcPort, dstPort, length) + Be16(u))
    ensures Stored(slot, 34, Be16(srcPort)) && Stored(slot, 36, Be16(dstPort)) && Stored(slot, 38, Be16(length))
  {
    hide Stored, Be16;
    StoredSplit(slot, 34, UdpHead(srcPort, dstPort, length), Be16(u));
    StoredSplit(slot, 34, Be16(srcPort) + Be16(dstPort), Be16(length));
    StoredSplit(slot, 34, Be16(srcPort), Be16(dstPort));
  }

  /**
   * A written frame, padded in any way and received over any old slot contents,
   * parses to exactly the payload, addresses and ports it was written with,
   * and does so exactly on the nodes it is addressed to.
   */
  lemma FrameRoundTrip(r: Route, payload: Bytes, ip: u32, slot: Bytes, len: nat)
    requires |payload| <= MAX_PAYLOAD && |slot| == SLOT && UdpFrame(r, payload) <= slot
    requires HEADERS + |payload| <= len <= SLOT
    ensures Parse(ip, slot, len) ==
              if r.dstIp == ip || r.dstIp == 0xffff_ffff || (r.dstIp / 0x100 == ip / 0x100 && r.dstIp % 0x100 == 0xff)
              then Some((r.dstIp, Datagram(r.srcMac, r.srcIp, r.srcPort, r.dstPort, payload)))
              else None
  {
    hide UdpFrame, U16At, U32At, Addressed;
    FrameFields(r, payload, slot);
    AddressedReaches(ip, r.dstIp);
  }

  /** Bytes left in the slot by older frames never reach a callback. */
  lemma ParseIgnoresOldBytes(ip: u32, slot: Bytes, slot': Bytes, len: nat)
    requires |slot| == |slot'| == SLOT && len <= SLOT && slot[..len] == slot'[..len]
    ensures Parse(ip, slot, len) == Parse(ip, slot', len)
  {
    hide U16At, U32At;
    if len >= HEADERS {
      SameBelow(slot, slot', len);
      FieldsAgree(slot, slot', len);
      SlicesAgree(slot, slot', len, 6, 12);
      var hi := 34 + U16At(slot, 38);
      if HEADERS <= hi <= len {
        SlicesAgree(slot, slot', len, HEADERS, hi);
      }
    }
  }

  lemma SlicesAgree(slot: Bytes, slot': Bytes, len: nat, lo: nat, hi: nat)
    requires |slot| == |slot'| && lo <= hi <= len <= |slot| && slot[..len] == slot'[..len]
    ensures slot[lo..hi] == slot'[lo..hi]
  {
    assert slot[lo..hi] == slot[..len][lo..hi] && slot'[lo..hi] == slot'[..len][lo..hi];
  }

  lemma SameBelow(slot: Bytes, slot': Bytes, len: nat)
    requires |slot| == |slot'| && HEADERS <= len <= |slot| && slot[..len] == slot'[..len]
    ensures slot[14] == slot'[14] && slot[23] == slot'[23]
  {
    assert slot[14] == slot[..len][14] && slot'[14] == slot'[..len][14];
    assert slot[23] == slot[..len][23] && slot'[23] == slot'[..len][23];
  }

  lemma FieldsAgree(slot: Bytes, slot': Bytes, len: nat)
    requires |slot| == |slot'| == SLOT && HEADERS <= len <= SLOT && slot[..len] == slot'[..len]
    ensures U16At(slot, 12) == U16At(slot', 12) && U16At(slot, 16) == U16At(slot', 16)
    ensures U16At(slot, 34) == U16At(slot', 34) && U16At(slot, 36) == U16At(slot', 36)
    ensures U16At(slot, 38) == U16At(slot', 38)
    ensures U32At(slot, 26) == U32At(slot', 26) && U32At(slot, 30) == U32At(slot', 30)
  {
    FieldAgrees(slot, slot', len, 12, 2);
    FieldAgrees(slot, slot', len, 16, 2);
    FieldAgrees(slot, slot', len, 34, 2);
    FieldAgrees(slot, slot', len, 36, 2);
    FieldAgrees(slot, slot', len, 38, 2);
    FieldAgrees(slot, slot', len, 26, 4);
    FieldAgrees(slot, slot', len, 30, 4);
  }

  lemma FieldAgrees(slot: Bytes, slot': Bytes, len: nat, at: nat, n: nat)
    requires |slot| == |slot'| && at + n <= len <= |slot| && slot[..len] == slot'[..len]
    ensures At(slot, at, n) == At(slot', at, n)
  {
    AtPrefix(slot, len, at, n);
    AtPrefix(slot', len, at, n);
  }
}
