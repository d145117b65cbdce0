/**
 * The UDP/IP stack: static configuration, a one-entry ARP cache, two transmit
 * slots filled in place, and the receive dispatch.
 */
module UdpStack {
  import opened Bytes
  import opened Checksum
  import opened Frames

  datatype Handler = Nobody | DhcpClient | EtherboneServer

  /** The static variables of the stack other than its transmit slots. */
  datatype Net = Net(mac: Mac, ip: u32, peerMac: Mac, peerIp: u32, rx: Handler, bx: Handler, lastMac: Mac) {

    function RouteFrom(srcPort: u16, dstPort: u16): Route {
      Route(peerMac, mac, ip, peerIp, srcPort, dstPort)
    }
  }

  /** What the MAC hands over: a whole slot and how many of its bytes are new. */
  type Slot = s: Bytes | |s| == SLOT witness Zeros(SLOT)

  datatype Received = Received(slot: Slot, len: nat)

  /** What each poll of the MAC will find: any behaviour of the network. */
  type Arrivals = nat -> Option<Received>

  /** A callback made while a frame is processed. */
  datatype Call = Call(who: Handler, datagram: Datagram)

  // ---- frames on the wire -----------------------------------------------------------

  function PadTo(f: Bytes, n: nat): Bytes {
    if |f| < n then f + Zeros(n - |f|) else f
  }

  /** The zero byte written after a payload of odd length. */
  function PadByte(len: nat): (b: Bytes)
    ensures |b| == len % 2
  {
    if len % 2 == 1 then [0] else []
  }

  /** `f` over the start of `slot`. */
  function Overlay(f: Bytes, slot: Slot): Slot
    requires |f| <= SLOT
  {
    f + slot[|f|..]
  }

  /** The slot after the headers are written around the payload already in it. */
  function FilledSlot(slot: Slot, r: Route, len: nat): (s: Slot)
    requires len <= MAX_PAYLOAD
  {
    hide UdpFrame;
    Overlay(UdpFrame(r, slot[HEADERS..HEADERS + len]) + PadByte(len), slot)
  }

  /** The frame the MAC is told to send: at least 60 bytes of the slot, zero-padded to 100. */
  function OnWire(slot: Slot, r: Route, len: nat): Bytes
    requires len <= MAX_PAYLOAD
  {
    PadTo(FilledSlot(slot, r, len)[..if HEADERS + len < ARP_LEN then ARP_LEN else HEADERS + len], MIN_TX)
  }

  lemma OnWireCarriesFrame(slot: Slot, r: Route, len: nat)
    requires len <= MAX_PAYLOAD
    ensures UdpFrame(r, slot[HEADERS..HEADERS + len]) <= OnWire(slot, r, len)
    ensures 100 <= |OnWire(slot, r, len)| <= 2048
  {
    hide UdpFrame;
    var f, s := UdpFrame(r, slot[HEADERS..HEADERS + len]), FilledSlot(slot, r, len);
    var n := if HEADERS + len < ARP_LEN then ARP_LEN else HEADERS + len;
    assert f <= s;
    assert f <= s[..n];
    assert s[..n] <= OnWire(slot, r, len);
  }

  /** Every byte after the payload is zero, whatever the slot held before. */
  ghost predicate TrailerAlwaysZero(r: Route, len: nat)
    requires len <= MAX_PAYLOAD
  {
    forall slot: Slot, k | HEADERS + len <= k < |OnWire(slot, r, len)| :: OnWire(slot, r, len)[k] == 0
  }

  /**
   * A UDP frame leaves with a zeroed trailer exactly from 17 payload bytes on; below
   * that the bytes up to offset 60 are whatever the slot held.
   */
  lemma TrailerZeroIff(r: Route, len: nat)
    requires len <= MAX_PAYLOAD
    ensures TrailerAlwaysZero(r, len) <==> len >= 17
  {
    hide OnWire;
    if len >= 17 {
      forall slot: Slot, k | HEADERS + len <= k < |OnWire(slot, r, len)| ensures OnWire(slot, r, len)[k] == 0 {
        OnWireTrailer(slot, r, len, k);
      }
    } else {
      var slot: Slot := seq(SLOT, _ => 1);
      OnWireTrailer(slot, r, len, 59);
      assert OnWire(slot, r, len)[59] == 1;
    }
  }

  lemma OnWireTrailer(slot: Slot, r: Route, len: nat, k: nat)
    requires len <= MAX_PAYLOAD && HEADERS + len <= k
    ensures |OnWire(slot, r, len)| == if HEADERS + len < MIN_TX then MIN_TX else HEADERS + len
    ensures k < |OnWire(slot, r, len)| ==>
              OnWire(slot, r, len)[k] == if k < ARP_LEN && k >= HEADERS + len + len % 2 then slot[k] else 0
  {
    hide UdpFrame;
    var f, s := UdpFrame(r, slot[HEADERS..HEADERS + len]), FilledSlot(slot, r, len);
    var n := if HEADERS + len < ARP_LEN then ARP_LEN else HEADERS + len;
    if k < n {
      assert s[..n][k] == s[k];
      if k >= HEADERS + len + len % 2 {
        assert s[k] == slot[k];
      } else {
        assert s[k] == (f + PadByte(len))[k] == PadByte(len)[k - |f|];
      }
    }
  }

  /** An Ethernet ARP packet with its 18 bytes of padding. */
  function ArpBody(opcode: u16, mac: Mac, ip: u32, targetMac: Mac, targetIp: u32): (b: Bytes)
    ensures |b| == 46
  {
    Be16(1) + Be16(0x0800) + [6, 4] + Be16(opcode) + mac + Be32(ip) + targetMac + Be32(targetIp) + Zeros(18)
  }

  function ArpFrame(dst: Mac, opcode: u16, mac: Mac, ip: u32, targetMac: Mac, targetIp: u32): (b: Bytes)
    ensures |b| == ARP_LEN
  {
    EthHeader(dst, mac, TYPE_ARP) + ArpBody(opcode, mac, ip, targetMac, targetIp)
  }

  /** A request for `ip`, padded as it is sent. */
  function ArpRequest(n: Net, ip: u32): Bytes {
    PadTo(ArpFrame(BROADCAST, 1, n.mac, n.ip, NO_MAC, ip), MIN_TX)
  }

  // ---- receive, as a function ---------------------------------------------------------

  predicate IsArp(r: Received) {
    && ARP_LEN <= r.len <= SLOT && U16At(r.slot, 12) == TYPE_ARP
    && U16At(r.slot, 14) == 1 && U16At(r.slot, 16) == 0x0800 && r.slot[18] == 6 && r.slot[19] == 4
  }

  predicate ArpAnswers(n: Net, r: Received) {
    IsArp(r) && U16At(r.slot, 20) == 2 && U32At(r.slot, 28) == n.peerIp
  }

  predicate ArpAsks(n: Net, r: Received) {
    IsArp(r) && U16At(r.slot, 20) == 1 && U32At(r.slot, 38) == n.ip
  }

  function AfterFrame(n: Net, r: Received): Net {
    if ArpAnswers(n, r) then n.(peerMac := r.slot[22..28])
    else
      match Parse(n.ip, r.slot, r.len)
      case Some((_, d)) => n.(lastMac := d.mac)
      case None => n
  }

  function Replies(n: Net, r: Received): seq<Bytes> {
    if ArpAsks(n, r) then
      [PadTo(ArpFrame(r.slot[22..28], 2, n.mac, n.ip, r.slot[22..28], U32At(r.slot, 28)), MIN_TX)]
    else []
  }

  /** Which callback runs: own address prefers rx, a broadcast goes to bx only. */
  function Dispatch(n: Net, r: Received): Option<Call> {
    match Parse(n.ip, r.slot, r.len)
    case None => None
    case Some((dst, d)) =>
      var who := if dst == n.ip && n.rx != Nobody then n.rx else n.bx;
      if who == Nobody then None else Some(Call(who, d))
  }

  /** Sender and receiver joined: what one node sends another is handed to its callback. */
  lemma SendReceive(slot: Slot, r: Route, len: nat, n: Net, got: Received)
    requires len <= MAX_PAYLOAD
    requires got.len == |OnWire(slot, r, len)| && got.len <= SLOT && OnWire(slot, r, len) <= got.slot
    ensures Dispatch(n, got) ==
              var who := if r.dstIp == n.ip && n.rx != Nobody then n.rx else n.bx;
              if Reaches(n.ip, r.dstIp) && who != Nobody
              then Some(Call(who, Datagram(r.srcMac, r.srcIp, r.srcPort, r.dstPort, slot[HEADERS..HEADERS + len])))
              else None
  {
    hide UdpFrame, OnWire, Parse;
    var payload := slot[HEADERS..HEADERS + len];
    OnWireCarriesFrame(slot, r, len);
    assert UdpFrame(r, payload) <= got.slot;
    FrameRoundTrip(r, payload, n.ip, got.slot, got.len);
  }

  // ---- writing a slot in place --------------------------------------------------------------

  ghost predicate SameFrom(a: Bytes, b: Bytes, at: nat) {
    |a| == |b| && forall k | at <= k < |a| :: a[k] == b[k]
  }

  /** memcpy into a slot; nothing behind it moves. */
  method Put(a: array<byte>, at: nat, s: Bytes)
    requires at + |s| <= a.Length
    modifies a
    ensures a[..at + |s|] == old(a[..at]) + s
    ensures SameFrom(a[..], old(a[..]), at + |s|)
  {
    for i := 0 to |s|
      invariant a[..at + i] == old(a[..at]) + s[..i]
      invariant SameFrom(a[..], old(a[..]), at + i)
    {
      a[at + i] := s[i];
      assert a[..at + i + 1] == a[..at + i] + [s[i]];
      assert s[..i + 1] == s[..i] + [s[i]];
    }
    assert s[..|s|] == s;
  }

  /** Overwrite one field between bytes that stay. */
  method Fill(a: array<byte>, at: nat, v: u16, ghost head: Bytes, ghost tail: Bytes)
    requires |head| == at && at + 2 + |tail| <= a.Length
    requires a[..at + 2 + |tail|] == head + Be16(0) + tail
    modifies a
    ensures a[..at + 2 + |tail|] == head + Be16(v) + tail
    ensures SameFrom(a[..], old(a[..]), at + 2)
  {
    hide Be16;
    ghost var was, n := a[..], at + 2 + |tail|;
    assert was[..n] == head + Be16(0) + tail;
    assert was[..at] == was[..n][..at] == head;
    assert was[at + 2..n] == was[..n][at + 2..] == tail;
    Put(a, at, Be16(v));
    TailStays(a[..], was, at + 2, n);
    assert a[..n] == a[..at + 2] + a[at + 2..n];
  }

  lemma TailStays(a: Bytes, b: Bytes, at: nat, n: nat)
    requires SameFrom(a, b, at) && at <= n <= |a|
    ensures a[at..n] == b[at..n] && a[at..] == b[at..]
  {
  }

  method PutEthHeader(a: array<byte>, dst: Mac, src: Mac, ethertype: u16)
    requires a.Length == SLOT
    modifies a
    ensures a[..14] == EthHeader(dst, src, ethertype) && SameFrom(a[..], old(a[..]), 14)
  {
    hide Be16;
    Put(a, 0, dst);
    Put(a, 6, src);
    Put(a, 12, Be16(ethertype));
    assert old(a[..0]) == [];
  }

  method PutIpHead(a: array<byte>, total: u16)
    requires a.Length == SLOT
    modifies a
    ensures a[..24] == old(a[..14]) + IpHead(total) && SameFrom(a[..], old(a[..]), 24)
  {
    hide Be16;
    Put(a, 14, [0x45, 0]);
    Put(a, 16, Be16(total));
    Put(a, 18, Be16(0));
    Put(a, 20, Be16(0x4000));
    Put(a, 22, [64, 0x11]);
  }

  /** Fields in order with a zero checksum, then the checksum over what was written. */
  method PutIpHeader(a: array<byte>, total: u16, src: u32, dst: u32)
    requires a.Length == SLOT
    modifies a
    ensures a[..34] == old(a[..14]) + IpHeader(total, src, dst, IpSum(total, src, dst))
    ensures SameFrom(a[..], old(a[..]), 34)
  {
    hide Be16, Be32, Sum, SumTo, Complement, Ones, IpHead;
    PutIpHead(a, total);
    Put(a, 24, Be16(0));
    Put(a, 26, Be32(src));
    Put(a, 30, Be32(dst));
    ghost var head := old(a[..14]) + IpHead(total);
    assert a[..34] == head + Be16(0) + IpAddrs(src, dst);
    assert a[14..34] == a[..34][14..] == IpHeader(total, src, dst, 0);
    SlotSumFits(a[14..34]);
    var c := IpChecksum(0, a[14..34], true);
    Fill(a, 24, c, head, IpAddrs(src, dst));
    assert a[..34] == old(a[..14]) + IpHeader(total, src, dst, c);
  }

  lemma SlotSumFits(b: Bytes)
    requires |b| <= SLOT
    ensures 0 <= Sum(b) <= 0xffff * 1024
  {
    SumFits(b, |b| / 2);
  }

  /** Ports and length, then the checksum over pseudo header, header and padded payload. */
  method PutUdpHeader(a: array<byte>, r: Route, len: nat)
    requires a.Length == SLOT && len <= MAX_PAYLOAD
    modifies a
    ensures a[..HEADERS] == old(a[..34]) + (UdpHead(r.srcPort, r.dstPort, len + 8)
                                            + Be16(UdpSum(r, old(a[HEADERS..HEADERS + len]))))
    ensures a[HEADERS..HEADERS + len] == old(a[HEADERS..HEADERS + len])
    ensures len % 2 == 1 ==> a[HEADERS + len] == 0
    ensures SameFrom(a[..], old(a[..]), HEADERS + len + len % 2)
  {
    hide Be16, UdpHead, UdpSum, EvenPad;
    ghost var was := a[..];
    ghost var payload := a[HEADERS..HEADERS + len];
    ghost var head := UdpHead(r.srcPort, r.dstPort, len + 8);
    PutUdpHead(a, r, len);
    TailStays(a[..], was, HEADERS, HEADERS + len);
    assert a[34..HEADERS] == a[..HEADERS][34..] == head + Be16(0);
    var even := PutPad(a, len);
    var sum := UdpChecksum(a, r, len, even, payload);
    assert a[..HEADERS] == (was[..34] + head) + Be16(0) + [];
    Fill(a, 40, sum, was[..34] + head, []);
    assert a[..HEADERS] == was[..34] + (head + Be16(sum));
  }

  /** The zero byte after a payload of odd length. */
  method PutPad(a: array<byte>, len: nat) returns (even: nat)
    requires a.Length == SLOT && len <= MAX_PAYLOAD
    modifies a
    ensures even == len + len % 2 && a[..HEADERS + len] == old(a[..HEADERS + len])
    ensures a[..HEADERS] == old(a[..HEADERS]) && a[34..HEADERS] == old(a[34..HEADERS])
    ensures a[HEADERS..HEADERS + len] == old(a[HEADERS..HEADERS + len])
    ensures len % 2 == 1 ==> a[HEADERS + len] == 0
    ensures a[HEADERS..HEADERS + even] == EvenPad(old(a[HEADERS..HEADERS + len]))
    ensures SameFrom(a[..], old(a[..]), HEADERS + even)
  {
    even := len;
    if len % 2 == 1 {
      a[HEADERS + len] := 0;
      even := len + 1;
    }
  }

  /** The checksum over pseudo header, header and padded payload, chained from two sums. */
  method UdpChecksum(a: array<byte>, r: Route, len: nat, even: nat, ghost payload: Bytes) returns (sum: u16)
    requires a.Length == SLOT && len <= MAX_PAYLOAD && even == len + len % 2 && |payload| == len
    requires a[34..HEADERS] == UdpHead(r.srcPort, r.dstPort, len + 8) + Be16(0)
    requires a[HEADERS..HEADERS + even] == EvenPad(payload)
    ensures sum == UdpSum(r, payload)
  {
    hide Be16, Be32, Sum, SumTo, Complement, Ones, UdpHead, UdpSum, EvenPad;
    var h := Be32(r.srcIp) + Be32(r.dstIp) + [0, 0x11] + Be16(len + 8);
    var part := IpChecksum(0, h, false);
    JoinSlices(a[..], 34, HEADERS, HEADERS + even);
    sum := IpChecksum(part, a[34..HEADERS + even], true);
    ChainedSum(r, payload, part, sum, a[34..HEADERS + even]);
  }

  lemma JoinSlices(b: Bytes, lo: nat, mid: nat, hi: nat)
    requires lo <= mid <= hi <= |b|
    ensures b[lo..hi] == b[lo..mid] + b[mid..hi]
  {
  }

  method PutUdpHead(a: array<byte>, r: Route, len: nat)
    requires a.Length == SLOT && len <= MAX_PAYLOAD
    modifies a
    ensures a[..HEADERS] == old(a[..34]) + UdpHead(r.srcPort, r.dstPort, len + 8) + Be16(0)
    ensures SameFrom(a[..], old(a[..]), HEADERS)
  {
    hide Be16;
    Put(a, 34, Be16(r.srcPort));
    Put(a, 36, Be16(r.dstPort));
    Put(a, 38, Be16(len + 8));
    Put(a, 40, Be16(0));
  }

  /** The pseudo-header sum chained into the UDP sum is one sum over the concatenation. */
  lemma ChainedSum(r: Route, payload: Bytes, part: u16, sum: u16, udp: Bytes)
    requires |payload| <= MAX_PAYLOAD
    requires udp == UdpHead(r.srcPort, r.dstPort, |payload| + 8) + Be16(0) + EvenPad(payload)
    requires part == Ones(Sum(Pseudo(r.srcIp, r.dstIp, |payload| + 8)) % 0x1_0000_0000)
    requires sum == Complement((part + Sum(udp)) % 0x1_0000_0000)
    ensures sum == UdpSum(r, payload)
  {
    hide Be16, Sum, Ones, UdpHead, Pseudo, EvenPad;
    var p := Pseudo(r.srcIp, r.dstIp, |payload| + 8);
    SlotSumFits(p);
    SlotSumFits(udp);
    SumAppend(p, udp);
    OnesChain(Sum(p), Sum(udp));
    assert p + udp == p + UdpHead(r.srcPort, r.dstPort, |payload| + 8) + Be16(0) + EvenPad(payload);
  }

  /** All the headers around a payload already in place. */
  method PutHeaders(a: array<byte>, r: Route, len: nat)
    requires a.Length == SLOT && len <= MAX_PAYLOAD
    modifies a
    ensures a[..] == FilledSlot(old(a[..]), r, len)
  {
    hide EthHeader, IpHeader, IpSum, UdpSum, UdpHead, Be16;
    ghost var was := a[..];
    ghost var payload := a[HEADERS..HEADERS + len];
    PutEthHeader(a, r.dstMac, r.srcMac, TYPE_IP);
    PutIpHeader(a, len + 28, r.srcIp, r.dstIp);
    TailStays(a[..], was, HEADERS, HEADERS + len);
    PutUdpHeader(a, r, len);
    assert a[..HEADERS] == Headers(r, payload);
    var n := HEADERS + len + len % 2;
    TailStays(a[..], was, n, n);
    assert a[HEADERS + len..n] == PadByte(len);
    assert a[..] == a[..HEADERS] + a[HEADERS..HEADERS + len] + a[HEADERS + len..n] + a[n..];
    assert a[..] == UdpFrame(r, payload) + PadByte(len) + was[n..];
  }

  method PutArp(a: array<byte>, dst: Mac, opcode: u16, mac: Mac, ip: u32, targetMac: Mac, targetIp: u32)
    requires a.Length == SLOT
    modifies a
    ensures a[..ARP_LEN] == ArpFrame(dst, opcode, mac, ip, targetMac, targetIp)
  {
    hide Be16, Be32, EthHeader;
    PutEthHeader(a, dst, mac, TYPE_ARP);
    Put(a, 14, Be16(1));
    Put(a, 16, Be16(0x0800));
    Put(a, 18, [6, 4]);
    Put(a, 20, Be16(opcode));
    Put(a, 22, mac);
    Put(a, 28, Be32(ip));
    Put(a, 32, targetMac);
    Put(a, 38, Be32(targetIp));
    Put(a, 42, Zeros(18));
  }

  class Stack {
    var mac: Mac
    var ip: u32
    var peerMac: Mac                 // the one ARP cache entry
    var peerIp: u32
    var rx: Handler
    var bx: Handler
    var lastMac: Mac
    var txslot: nat
    const tx0: array<byte>
    const tx1: array<byte>
    var wire: seq<Bytes>             // every frame handed to the MAC, oldest first

    constructor (mac: Mac, ip: u32)
      ensures Valid() && fresh(tx0) && fresh(tx1) && wire == []
      ensures State() == Net(mac, ip, NO_MAC, 0, Nobody, Nobody, NO_MAC)
    {
      this.mac, this.ip, peerMac, peerIp, rx, bx, lastMac := mac, ip, NO_MAC, 0, Nobody, Nobody, NO_MAC;
      txslot, wire := 0, [];
      tx0 := new byte[SLOT];
      tx1 := new byte[SLOT];
    }

    ghost predicate Valid()
      reads this
    {
      tx0.Length == SLOT == tx1.Length && tx0 != tx1 && txslot < 2
    }

    ghost function State(): Net
      reads this
    {
      Net(mac, ip, peerMac, peerIp, rx, bx, lastMac)
    }

    function Buffer(): array<byte>
      reads this
    {
      if txslot == 0 then tx0 else tx1
    }

    method SetPeer(ip: u32, mac: Mac)
      modifies this`peerIp, this`peerMac
      ensures State() == old(State()).(peerIp := ip, peerMac := mac)
    {
      peerIp, peerMac := ip, mac;
    }

    /** Zero-pad small frames, hand the slot to the MAC and switch slots. */
    method SendPacket(txlen: nat)
      requires Valid() && txlen <= SLOT
      modifies this`wire, this`txslot, Buffer()
      ensures Valid() && txslot == (old(txslot) + 1) % 2
      ensures wire == old(wire) + [PadTo(old(Buffer()[..txlen]), MIN_TX)]
    {
      var b, n := Buffer(), txlen;
      if n < MIN_TX {
        Put(b, n, Zeros(MIN_TX - n));
        n := MIN_TX;
      }
      wire := wire + [b[..n]];
      txslot := (txslot + 1) % 2;
    }

    /** memcpy to the payload of the current transmit slot. */
    method PutPayload(data: Bytes)
      requires Valid() && |data| <= MAX_PAYLOAD
      modifies Buffer()
      ensures Buffer()[HEADERS..HEADERS + |data|] == data
    {
      var b := Buffer();
      Put(b, HEADERS, data);
      assert b[HEADERS..HEADERS + |data|] == b[..HEADERS + |data|][HEADERS..];
    }

    /** udp_send: refuse without a peer MAC or above the maximum payload, else transmit. */
    method Send(srcPort: u16, dstPort: u16, len: nat) returns (ok: bool)
      requires Valid()
      modifies this`wire, this`txslot, tx0, tx1
      ensures Valid()
      ensures ok <==> peerMac != NO_MAC && len <= MAX_PAYLOAD
      ensures !ok ==> wire == old(wire) && txslot == old(txslot)
      ensures ok ==> wire == old(wire) + [OnWire(old(Buffer()[..]), State().RouteFrom(srcPort, dstPort), len)]
    {
      hide FilledSlot, PadTo;
      if peerMac[0] == 0 && peerMac[1] == 0 && peerMac[2] == 0 && peerMac[3] == 0 && peerMac[4] == 0 && peerMac[5] == 0 {
        assert peerMac == NO_MAC;
        return false;
      }
      if len > MAX_PAYLOAD {
        return false;
      }
      var txlen := HEADERS + len;
      if txlen < ARP_LEN {
        txlen := ARP_LEN;
      }
      PutHeaders(Buffer(), Route(peerMac, mac, ip, peerIp, srcPort, dstPort), len);
      SendPacket(txlen);
      return true;
    }

    method SendArp(dst: Mac, opcode: u16, targetMac: Mac, targetIp: u32)
      requires Valid()
      modifies this`wire, this`txslot, tx0, tx1
      ensures Valid()
      ensures wire == old(wire) + [PadTo(ArpFrame(dst, opcode, mac, ip, targetMac, targetIp), MIN_TX)]
    {
      PutArp(Buffer(), dst, opcode, mac, ip, targetMac, targetIp);
      SendPacket(ARP_LEN);
    }

    method ProcessArp(r: Received)
      requires Valid() && r.len <= SLOT && U16At(r.slot, 12) == TYPE_ARP
      modifies this`wire, this`txslot, this`peerMac, tx0, tx1
      ensures Valid() && State() == AfterFrame(old(State()), r)
      ensures wire == old(wire) + Replies(old(State()), r)
    {
      hide U16At, U32At, Parse, ArpFrame;
      ArpIsNotIp(State(), r);
      if r.len < ARP_LEN || U16At(r.slot, 14) != 1 || U16At(r.slot, 16) != 0x0800 || r.slot[18] != 6 || r.slot[19] != 4 {
        return;
      }
      if U16At(r.slot, 20) == 2 {
        if U32At(r.slot, 28) == peerIp {
          peerMac := r.slot[22..28];
        }
        return;
      }
      if U16At(r.slot, 20) == 1 {
        if U32At(r.slot, 38) == ip {
          SendArp(r.slot[22..28], 2, r.slot[22..28], U32At(r.slot, 28));
        }
      }
    }

    /** process_udp, after process_frame let the frame through. */
    method ProcessUdp(r: Received) returns (call: Option<Call>)
      requires Valid() && 14 <= r.len <= SLOT && U16At(r.slot, 12) == TYPE_IP && r.slot[14] == 0x45
      requires Addressed(ip, U32At(r.slot, 30)) && r.slot[23] == 0x11
      modifies this`lastMac
      ensures State() == AfterFrame(old(State()), r) && call == Dispatch(old(State()), r)
    {
      hide U16At, U32At, Addressed;
      if r.len < HEADERS {
        return None;
      }
      var total := U16At(r.slot, 16);
      if total < 28 || 14 + total > r.len {
        return None;
      }
      var length := U16At(r.slot, 38);
      if length < 8 || length > total - 20 {
        return None;
      }
      lastMac := r.slot[6..12];
      var d := Datagram(lastMac, U32At(r.slot, 26), U16At(r.slot, 34), U16At(r.slot, 36), r.slot[HEADERS..34 + length]);
      if U32At(r.slot, 30) != ip {
        return if bx != Nobody then Some(Call(bx, d)) else None;
      }
      if rx != Nobody {
        return Some(Call(rx, d));
      } else if bx != Nobody {
        return Some(Call(bx, d));
      }
      return None;
    }

    /** process_frame; the callback it makes is returned to be run by the caller. */
    method ProcessFrame(r: Received) returns (call: Option<Call>)
      requires Valid()
      modifies this`wire, this`txslot, this`peerMac, this`lastMac, tx0, tx1
      ensures Valid() && State() == AfterFrame(old(State()), r)
      ensures wire == old(wire) + Replies(old(State()), r)
      ensures call == Dispatch(old(State()), r)
    {
      hide U16At, U32At, ArpFrame, Addressed;
      if r.len < 14 || r.len > SLOT {
        return None;
      }
      if U16At(r.slot, 12) == TYPE_ARP {
        ArpIsNotIp(State(), r);
        ProcessArp(r);
        return None;
      } else if U16At(r.slot, 12) == TYPE_IP {
        if r.slot[14] != 0x45 || !Addressed(ip, U32At(r.slot, 30)) {
          return None;
        }
        if r.slot[23] == 0x11 {
          call := ProcessUdp(r);
          return;
        }
      }
      return None;
    }
  }

  lemma ArpIsNotIp(n: Net, r: Received)
    requires U16At(r.slot, 12) == TYPE_ARP
    ensures Parse(n.ip, r.slot, r.len) == None
  {
  }
}
