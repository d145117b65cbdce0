/**
 * DHCP on the wire as RFC 2131 and RFC 2132 lay it out: the messages the client sends,
 * byte by byte, and what it reads in any reply a server may write.
 */
module DhcpLaws {
  import opened Bytes
  import opened Frames
  import opened UdpStack
  import opened DhcpMessage
  import opened DhcpExchange
  import WireLaws

  // ---- what the client sends ---------------------------------------------------------------

  /** The fixed part of a client message: BOOTREQUEST over Ethernet, broadcast flag, nothing but the MAC filled in. */
  function ClientHead(chaddr: Mac, xid: u32): (b: Bytes)
    ensures |b| == 240
  {
    [1, 1, 6, 0] + Be32(xid) + [0, 0, 0x80, 0] + Zeros(16) + chaddr + Zeros(202) + [0x63, 0x82, 0x53, 0x63]
  }

  /** Type, parameter list 1 3 6, host name "b8008", client id; in that order. */
  function ClientOptions(chaddr: Mac, kind: byte): (b: Bytes)
    ensures |b| == 24
  {
    [53, 1, kind, 55, 3, 1, 3, 6, 12, 5, 0x62, 0x38, 0x30, 0x30, 0x38, 61, 7, 1] + chaddr
  }

  lemma HeadBytes(chaddr: Mac, xid: u32)
    ensures FixedPart(chaddr, xid) == ClientHead(chaddr, xid)
  {
    hide Be32, Be16;
    var f: Bytes, c: Bytes := [0, 0, 0x80, 0], [0x63, 0x82, 0x53, 0x63];
    assert Be16(0) + Be16(0x8000) == f && Be32(COOKIE) == c by {
      WireLaws.BigEndian([], 0, 0, COOKIE);
      WireLaws.BigEndian([], 0, 0x8000, 0);
    }
    var h: Bytes := [1, 1, 6, 0];
    assert h + Be32(xid) + Be16(0) + Be16(0x8000) == h + Be32(xid) + (Be16(0) + Be16(0x8000));
  }

  lemma OptionBytes(chaddr: Mac, kind: byte)
    ensures EncodeOpts(CommonOpts(chaddr, kind)) == ClientOptions(chaddr, kind)
  {
    var a, b := Opt(53, [kind]), Opt(55, [1, 3, 6]);
    var c, d := Opt(12, [0x62, 0x38, 0x30, 0x30, 0x38]), Opt(61, [1] + chaddr);
    hide EncodeOpts, EncodeOpt, ClientOptions;
    EncodeNone();
    EncodeAppend([], a);
    EncodeAppend([a], b);
    EncodeAppend([a, b], c);
    EncodeAppend([a, b, c], d);
    assert [] + [a] == [a] && [a] + [b] == [a, b] && [a, b] + [c] == [a, b, c];
    assert [a, b, c] + [d] == CommonOpts(chaddr, kind);
    FourOptions(chaddr, kind);
    Joined(chaddr, kind);
  }

  lemma Joined(chaddr: Mac, kind: byte)
    ensures [] + [53, 1, kind] + [55, 3, 1, 3, 6] + [12, 5, 0x62, 0x38, 0x30, 0x30, 0x38] + ([61, 7, 1] + chaddr)
         == ClientOptions(chaddr, kind)
  {
  }

  lemma FourOptions(chaddr: Mac, kind: byte)
    ensures EncodeOpt(Opt(53, [kind])) == [53, 1, kind] && EncodeOpt(Opt(55, [1, 3, 6])) == [55, 3, 1, 3, 6]
    ensures EncodeOpt(Opt(12, [0x62, 0x38, 0x30, 0x30, 0x38])) == [12, 5, 0x62, 0x38, 0x30, 0x30, 0x38]
    ensures EncodeOpt(Opt(61, [1] + chaddr)) == [61, 7, 1] + chaddr
  {
  }

  /** The DISCOVER, all 300 bytes of it. */
  lemma DiscoverBytes(chaddr: Mac, xid: u32)
    ensures Discover(chaddr, xid) == ClientHead(chaddr, xid) + ClientOptions(chaddr, 1) + [255] + Zeros(35)
  {
    hide FixedPart, EncodeOpts, ClientHead, ClientOptions;
    HeadBytes(chaddr, xid);
    OptionBytes(chaddr, 1);
  }

  /** The REQUEST: the same with type 3, the offered address as option 50 and the server as option 54. */
  lemma RequestBytes(chaddr: Mac, xid: u32, ip: u32, server: u32)
    ensures DhcpMessage.Request(chaddr, xid, ip, server) ==
              ClientHead(chaddr, xid) + ClientOptions(chaddr, 3) + [50, 4] + Be32(ip) + [54, 4] + Be32(server) + [255] + Zeros(23)
  {
    hide FixedPart, EncodeOpts, ClientHead, ClientOptions, Be32;
    HeadBytes(chaddr, xid);
    OptionBytes(chaddr, 3);
    var cs, p, q := CommonOpts(chaddr, 3), Opt(50, Be32(ip)), Opt(54, Be32(server));
    EncodeAppend(cs, p);
    EncodeAppend(cs + [p], q);
    assert cs + [p] + [q] == RequestOpts(chaddr, ip, server);
    var a: Bytes, b: Bytes := [50, 4], [54, 4];
    assert EncodeOpt(p) == a + Be32(ip) && EncodeOpt(q) == b + Be32(server);
    var e := EncodeOpts(RequestOpts(chaddr, ip, server));
    assert e == ClientOptions(chaddr, 3) + a + Be32(ip) + b + Be32(server);
  }

  // ---- what a server may answer ---------------------------------------------------------------

  /** Options on the wire, with padding anywhere between them. */
  datatype Item = Pad | Field(opt: Opt)

  predicate Fits(i: Item) {
    i.Pad? || (i.opt.code != 0 && i.opt.code != 255 && |i.opt.data| < 0x100)
  }

  predicate AllFit(items: seq<Item>) {
    items == [] || (Fits(items[0]) && AllFit(items[1..]))
  }

  function ItemBytes(i: Item): Bytes
    requires Fits(i)
  {
    if i.Pad? then [0] else [i.opt.code, |i.opt.data|] + i.opt.data
  }

  function ItemsBytes(items: seq<Item>): Bytes
    requires AllFit(items)
  {
    if items == [] then [] else ItemBytes(items[0]) + ItemsBytes(items[1..])
  }

  function Options(items: seq<Item>): seq<Opt> {
    if items == [] then []
    else (if items[0].Pad? then [] else [items[0].opt]) + Options(items[1..])
  }

  /** The scan skips padding, returns every option, and goes on behind them. */
  lemma {:induction false} ScanItems(b: Bytes, off: nat, items: seq<Item>)
    requires AllFit(items) && Stored(b, off, ItemsBytes(items))
    ensures Scan(b, off) == Options(items) + Scan(b, off + |ItemsBytes(items)|)
    decreases |items|
  {
    hide Scan, Stored, Options, ItemsBytes, ItemBytes;
    ItemsUnfold(items);
    if items == [] {
      assert [] + Scan(b, off) == Scan(b, off);
    } else {
      var i := items[0];
      StoredSplit(b, off, ItemBytes(i), ItemsBytes(items[1..]));
      ScanItems(b, off + |ItemBytes(i)|, items[1..]);
      ScanItem(b, off, i);
      OptionsUnfold(items, Scan(b, off + |ItemsBytes(items)|));
    }
  }

  lemma ItemsUnfold(items: seq<Item>)
    requires AllFit(items)
    ensures ItemsBytes(items) == if items == [] then [] else ItemBytes(items[0]) + ItemsBytes(items[1..])
    ensures items == [] ==> Options(items) == []
  {
  }

  lemma ScanItem(b: Bytes, off: nat, i: Item)
    requires Fits(i) && Stored(b, off, ItemBytes(i))
    ensures Scan(b, off) == (if i.Pad? then [] else [i.opt]) + Scan(b, off + |ItemBytes(i)|)
  {
    hide Scan;
    if i.Pad? {
      ScanUnfold(b, off);
      assert [] + Scan(b, off + 1) == Scan(b, off + 1);
    } else {
      ScanOne(b, off, i.opt);
    }
  }

  lemma OptionsUnfold(items: seq<Item>, rest: seq<Opt>)
    requires items != []
    ensures Options(items) + rest == (if items[0].Pad? then [] else [items[0].opt]) + (Options(items[1..]) + rest)
  {
  }

  /** The scan ends at an END byte, at the end of the message, and before an option that is cut short. */
  lemma ScanEnds(b: Bytes, off: nat)
    ensures off >= |b| || b[off] == 255 ==> Scan(b, off) == []
    ensures off < |b| && b[off] != 0 && (off + 1 == |b| || off + 2 + b[off + 1] as int > |b|) ==> Scan(b, off) == []
  {
  }

  /** The fixed part of any BOOTP message. */
  datatype Boot = Boot(op: byte, hw: Bytes, xid: u32, secs: u16, flags: u16,
                       ciaddr: u32, yiaddr: u32, siaddr: u32, giaddr: u32, names: Bytes, cookie: u32)
  {
    predicate Valid() {
      |hw| == 3 && |names| == 208
    }
  }

  function BootBytes(m: Boot): (b: Bytes)
    requires m.Valid()
    ensures |b| == 240
  {
    [m.op] + m.hw + Be32(m.xid) + Be16(m.secs) + Be16(m.flags)
    + Be32(m.ciaddr) + Be32(m.yiaddr) + Be32(m.siaddr) + Be32(m.giaddr) + m.names + Be32(m.cookie)
  }

  lemma BootFields(m: Boot, b: Bytes)
    requires m.Valid() && |b| >= 240 && b[..240] == BootBytes(m)
    ensures b[0] == m.op && U32At(b, 4) == m.xid && U32At(b, 16) == m.yiaddr && U32At(b, 236) == m.cookie
  {
    hide Stored, Be16, Be32, U32At;
    var a := [m.op] + m.hw;
    var f := Be16(m.secs) + Be16(m.flags) + Be32(m.ciaddr);
    var g := Be32(m.siaddr) + Be32(m.giaddr) + m.names;
    assert BootBytes(m) == a + Be32(m.xid) + f + Be32(m.yiaddr) + g + Be32(m.cookie);
    StoredSlice(b, 0, BootBytes(m));
    StoredSplit(b, 0, a + Be32(m.xid) + f + Be32(m.yiaddr) + g, Be32(m.cookie));
    StoredSplit(b, 0, a + Be32(m.xid) + f + Be32(m.yiaddr), g);
    StoredSplit(b, 0, a + Be32(m.xid) + f, Be32(m.yiaddr));
    StoredSplit(b, 0, a + Be32(m.xid), f);
    StoredSplit(b, 0, a, Be32(m.xid));
    StoredAt(b, 0, a, 0);
    Be32RoundTrip(b, 4, m.xid);
    Be32RoundTrip(b, 16, m.yiaddr);
    Be32RoundTrip(b, 236, m.cookie);
  }

  /** A message: fixed part, options, and END with anything behind it, or nothing. */
  function MessageBytes(m: Boot, items: seq<Item>, tail: Bytes): (b: Bytes)
    requires m.Valid() && AllFit(items)
  {
    BootBytes(m) + ItemsBytes(items) + tail
  }

  /** The first four bytes of an option as an address or a time, 0 without the option. */
  function Word(v: Option<Bytes>): u32
    requires v.Some? ==> |v.value| >= 4
  {
    if v.None? then 0 else U32At(v.value, 0)
  }

  /**
   * What the client reads in any reply: it must be a BOOTREPLY with the client's id, the
   * cookie and the awaited type, and then it grants yiaddr, from the server of the last
   * option 54, for the time of the last option 51.
   */
  lemma ReplyIsRead(m: Boot, items: seq<Item>, tail: Bytes, xid: u32, want: byte)
    requires m.Valid() && AllFit(items) && (tail == [] || tail[0] == 255)
    ensures var os := Options(items);
            var kind := LastOf(os, 53, 1);
            Reading(MessageBytes(m, items, tail), xid, want) ==
              if m.op == 2 && m.xid == xid && m.cookie == 0x6382_5363 && kind.Some? && kind.value[0] == want
              then Some(Lease(m.yiaddr, Word(LastOf(os, 54, 4)), Word(LastOf(os, 51, 4))))
              else None
  {
    hide BootBytes, ItemsBytes, Scan, LastOf, U32At, Stored, Options;
    var b := MessageBytes(m, items, tail);
    assert b[..240] == BootBytes(m);
    BootFields(m, b);
    StoredSlice(b, 240, ItemsBytes(items));
    ScanItems(b, 240, items);
    ScanEnds(b, 240 + |ItemsBytes(items)|);
    assert Options(items) + [] == Options(items);
  }

  /** A message shorter than its fixed part is refused. */
  lemma ShortIsRefused(b: Bytes, xid: u32, want: byte)
    requires |b| < 240
    ensures Reading(b, xid, want) == None
  {
  }

  // ---- over UDP -------------------------------------------------------------------------------

  /** While it waits the client hears exactly what is broadcast from port 67 to port 68, cut to 364 bytes. */
  lemma ReplyIsHeard(arrivals: Arrivals, p: nat, x: WireLaws.Free, r: Route, data: Bytes)
    requires arrivals(p).Some? && WireLaws.HoldsUdp(arrivals(p).value.slot, arrivals(p).value.len, x, r, data)
    ensures r.dstIp == 0xffff_ffff && r.srcPort == 67 && r.dstPort == 68 ==>
              HeardAt(arrivals, p, if |data| > 364 then data[..364] else data)
    ensures r.dstIp != 0xffff_ffff || r.srcPort != 67 || r.dstPort != 68 ==> NothingHeard(arrivals, p)
  {
    hide WireLaws.HoldsUdp, Parse;
    WireLaws.UdpFrameIsParsed(arrivals(p).value.slot, arrivals(p).value.len, x, r, data, LIMITED);
  }

  /** A server at the address it is sent to, or anywhere if that is the broadcast, finds it from 0.0.0.0 port 68 to port 67. */
  lemma ServerHears(frame: Bytes, mac: Mac, to: u32, msg: Bytes, server: u32, slot: Slot, len: nat)
    requires SentAs(frame, mac, to, msg) && frame <= slot && |frame| <= len <= SLOT && Reaches(server, to)
    ensures Parse(server, slot, len) == Some((to, Datagram(mac, 0, 68, 67, msg)))
  {
    hide UdpFrame, Parse;
    var dst: Mac :| UdpFrame(Route(dst, mac, 0, to, CLIENT_PORT, SERVER_PORT), msg) <= frame;
    var r := Route(dst, mac, 0, to, 68, 67);
    assert UdpFrame(r, msg) <= slot;
    FrameRoundTrip(r, msg, server, slot, len);
  }

  /** A server's two replies under one id: an OFFER of `ip` and an ACK. */
  predicate Answers(offer: Bytes, ack: Bytes, xid: u32, ip: u32, server: u32, acked: u32, secs: u32) {
    && Reading(offer, xid, 2).Some? && Reading(offer, xid, 2).value.ip == ip && Reading(offer, xid, 2).value.server == server
    && Reading(ack, xid, 5).Some? && Reading(ack, xid, 5).value.ip == acked && Reading(ack, xid, 5).value.secs == secs
  }

  /**
   * An attempt in which the server offers `ip` and acknowledges it grants `ip`, for the
   * acknowledged time or an hour if none was given; if it acknowledges another address
   * the attempt stops.
   */
  lemma OfferedAndAcked(arrivals: Arrivals, from: nat, polls: nat, log: seq<Entry>, chaddr: Mac, xid: u32,
                        ip: u32, server: u32, acked: u32, secs: u32, macBefore: Mac, mac: Mac)
    requires |log| >= 4
    requires var steps := log[|log| - 4..];
             Course(arrivals, from, steps, chaddr, xid) && Answers(steps[1].msg, steps[3].msg, xid, ip, server, acked, secs)
    ensures var steps := log[|log| - 4..];
            && (Stopped(arrivals, from, polls, steps, xid, macBefore, mac) <==> acked != ip)
            && steps[0].msg == ClientHead(chaddr, xid) + ClientOptions(chaddr, 1) + [255] + Zeros(35)
            && steps[2].msg ==
                 ClientHead(chaddr, xid) + ClientOptions(chaddr, 3) + [50, 4] + Be32(ip) + [54, 4] + Be32(server) + [255] + Zeros(23)
            && (acked == ip ==> Granted(log, chaddr, xid, ip, if secs == 0 then 3600 else secs))
  {
    hide Reading, Discover, DhcpMessage.Request, HeardAt, NothingHeard, ClientHead, ClientOptions, Be32;
    DiscoverBytes(chaddr, xid);
    RequestBytes(chaddr, xid, ip, server);
    var n, steps := |log| - 4, log[|log| - 4..];
    assert steps[0] == log[n] && steps[1] == log[n + 1] && steps[2] == log[n + 2] && steps[3] == log[n + 3];
  }
}
