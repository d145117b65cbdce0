/**
 * A register access across the whole board: the host's datagram in a frame, through the
 * stack, the stash and the server, and back onto the wire as the frame the host accepts.
 */
module EndToEnd {
  import opened Bytes
  import opened Frames
  import opened UdpStack
  import opened EbServe
  import Etherbone
  import HostLink
  import WireLaws

  ghost predicate Carried(r: Route, data: Bytes, rx: Received) {
    |data| <= MAX_PAYLOAD && UdpFrame(r, data) <= rx.slot && HEADERS + |data| <= rx.len <= SLOT
  }

  /** The frame brings this datagram to the Etherbone callback. */
  ghost predicate Brings(n: Net, r: Route, data: Bytes, rx: Received) {
    && Carried(r, data, rx)
    && Reaches(n.ip, r.dstIp)
    && (if r.dstIp == n.ip && n.rx != Nobody then n.rx else n.bx) == EtherboneServer
  }

  /** The sender as the server sees it. */
  function Sender(r: Route, data: Bytes): Datagram {
    Datagram(r.srcMac, r.srcIp, r.srcPort, r.dstPort, data)
  }

  lemma RequestArrives(n: Net, r: Route, data: Bytes, rx: Received)
    requires Brings(n, r, data, rx) && Gate(data)
    ensures Request(n, Some(rx)) == Some(Sender(r, data))
  {
    hide UdpFrame, Parse, Gate;
    FrameRoundTrip(r, data, n.ip, rx.slot, rx.len);
  }

  /**
   * Any sender's datagram: a poll stashes it exactly when the stash is free, the node
   * listens to its address with the Etherbone callback, it has at most 1500 bytes, and
   * its first two bytes, if it has two, are the magic.
   */
  lemma FrameIsStashed(bus: Etherbone.Bus, s: Sys, rx: Received, x: WireLaws.Free, r: Route, data: Bytes)
    requires WireLaws.HoldsUdp(rx.slot, rx.len, x, r, data)
    ensures Step(bus, s, Poll(Some(rx))).stash ==
              if s.stash.None? && Reaches(s.net.ip, r.dstIp)
                 && (if r.dstIp == s.net.ip && s.net.rx != Nobody then s.net.rx else s.net.bx) == EtherboneServer
                 && |data| <= 1500 && (|data| >= 2 ==> data[0] == 0x4e && data[1] == 0x6f)
              then Some(Pending(s.now, Sender(r, data))) else s.stash
  {
    hide WireLaws.HoldsUdp, Parse, AfterFrame;
    WireLaws.UdpFrameIsParsed(rx.slot, rx.len, x, r, data, s.net.ip);
  }

  /** What the host sends passes the callback's gate and fits a frame. */
  lemma RequestsPass(rec: Etherbone.Record)
    requires |rec.wdata| + |rec.raddrs| < 0x100
    ensures Gate(HostLink.Packet(rec)) && |HostLink.Packet(rec)| <= MAX_PAYLOAD
  {
    hide Etherbone.EncodeRecord;
    var b := HostLink.Packet(rec);
    assert b[0] == Etherbone.Header(false)[0] && b[1] == Etherbone.Header(false)[1];
  }

  /** Back to the requester, with addresses and ports mirrored. */
  function Back(n: Net, r: Route): Route {
    Route(r.srcMac, n.mac, n.ip, r.srcIp, r.dstPort, r.srcPort)
  }

  /**
   * A read request that arrives while the stash is free is executed once and answered
   * once; the host at the sender's address takes the answer under the request's id and no
   * other, with the values its bus reads returned.
   */
  lemma ReadIsAnswered(bus: Etherbone.Bus, s: Sys, r: Route, rx: Received, id: u32, addrs: seq<u32>)
    requires s.stash.None? && 0 < |addrs| < 0x100 && r.srcMac != NO_MAC
    requires Brings(s.net, r, HostLink.ReadRequest(id, addrs), rx)
    ensures var s', answer := Run(bus, s, [Poll(Some(rx)), Serve]), Etherbone.Handle(bus, s.trace, HostLink.ReadRequest(id, addrs));
            && s'.trace == Etherbone.DoReads(bus, s.trace, addrs)
            && s'.sent == s.sent + [Reply(s.now, s.now + 1, Back(s.net, r), answer.reply)]
            && TakenOnlyUnder(answer.reply, id, Etherbone.ReadVals(bus, s.trace, addrs))
  {
    hide Run, Etherbone.Handle, HostLink.Packet, HostLink.Accept, Request, UdpFrame;
    var data := HostLink.ReadRequest(id, addrs);
    RequestsPass(Etherbone.Record(0, [], id, addrs));
    RequestArrives(s.net, r, data, rx);
    PollThenServe(bus, s, Some(rx));
    forall live: u32
      ensures HostLink.Accept(Etherbone.Handle(bus, s.trace, data).reply, live) ==
                if live == id then Some(Etherbone.ReadVals(bus, s.trace, addrs)) else None
    {
      HostLink.ReplyAccepted(bus, s.trace, id, addrs, live);
    }
    HostLink.ReplyAccepted(bus, s.trace, id, addrs, id);
  }

  ghost predicate TakenOnlyUnder(b: Bytes, id: u32, vals: seq<u32>) {
    forall live: u32 :: HostLink.Accept(b, live) == if live == id then Some(vals) else None
  }

  /** A write request that arrives while the stash is free makes its one access and earns no answer. */
  lemma WriteIsExecuted(bus: Etherbone.Bus, s: Sys, r: Route, rx: Received, addr: u32, val: u32)
    requires s.stash.None? && Brings(s.net, r, HostLink.WriteRequest(addr, val), rx)
    ensures var s' := Run(bus, s, [Poll(Some(rx)), Serve]);
            s'.trace == s.trace + [Etherbone.Wr(addr, val)] && s'.sent == s.sent
  {
    hide Run, Etherbone.Handle, HostLink.Packet, Request, UdpFrame;
    RequestsPass(Etherbone.Record(addr, [val], 0, []));
    RequestArrives(s.net, r, HostLink.WriteRequest(addr, val), rx);
    PollThenServe(bus, s, Some(rx));
    HostLink.WriteExecutes(bus, s.trace, addr, val);
    assert s.sent + [] == s.sent;
  }

  /** In particular a request to the /24 broadcast, as the host sends them, heard by the broadcast callback. */
  lemma BroadcastReadIsAnswered(bus: Etherbone.Bus, s: Sys, r: Route, rx: Received, id: u32, addrs: seq<u32>)
    requires s.stash.None? && 0 < |addrs| < 0x100 && r.srcMac != NO_MAC && s.net.bx == EtherboneServer
    requires r.dstIp / 0x100 == s.net.ip / 0x100 && r.dstIp % 0x100 == 0xff && r.dstIp != s.net.ip
    requires Carried(r, HostLink.ReadRequest(id, addrs), rx)
    ensures var s', answer := Run(bus, s, [Poll(Some(rx)), Serve]), Etherbone.Handle(bus, s.trace, HostLink.ReadRequest(id, addrs));
            && s'.sent == s.sent + [Reply(s.now, s.now + 1, Back(s.net, r), answer.reply)]
            && TakenOnlyUnder(answer.reply, id, Etherbone.ReadVals(bus, s.trace, addrs))
  {
    hide Run, Etherbone.Handle, HostLink.Packet, HostLink.Accept, UdpFrame;
    ReadIsAnswered(bus, s, r, rx, id, addrs);
  }

  /**
   * The same on the board itself: after a poll and a serve the last frame on the wire,
   * received by the host in any slot, parses to the datagram the host takes.
   */
  method ServeRead(b: Board, r: Route, rx: Received, id: u32, addrs: seq<u32>) returns (frame: Bytes)
    requires b.Valid() && !b.pending && 0 < |addrs| < 0x100 && r.srcMac != NO_MAC
    requires Brings(b.stack.State(), r, HostLink.ReadRequest(id, addrs), rx)
    modifies b, b.resp, b.stack, b.stack.tx0, b.stack.tx1
    ensures b.Valid() && !b.pending && b.trace == Etherbone.DoReads(b.bus, old(b.trace), addrs)
    ensures |b.stack.wire| > |old(b.stack.wire)| && frame == b.stack.wire[|b.stack.wire| - 1]
    ensures HostTakes(frame, old(b.stack.State()), r, id, Etherbone.ReadVals(b.bus, old(b.trace), addrs))
  {
    hide Step, WireIs, PollSends, Brings, TakenOnlyUnder, HostTakes, Carries, Gate;
    ghost var s := b.Abs();
    ReadSteps(b.bus, s, r, rx, id, addrs);
    b.Service(Some(rx));
    ghost var out, sent := b.out, b.sent;
    b.ServePending();
    LastFrame(out, b.out, sent, b.sent);
    frame := b.stack.wire[|b.stack.wire| - 1];
    HostReceives(frame, s.net, r, id, b.sent[|b.sent| - 1], Etherbone.ReadVals(b.bus, s.trace, addrs));
  }

  /** The two steps one after the other. */
  lemma ReadSteps(bus: Etherbone.Bus, s: Sys, r: Route, rx: Received, id: u32, addrs: seq<u32>)
    requires s.stash.None? && 0 < |addrs| < 0x100 && r.srcMac != NO_MAC
    requires Brings(s.net, r, HostLink.ReadRequest(id, addrs), rx)
    ensures var t := Step(bus, s, Poll(Some(rx)));
            var u := Step(bus, t, Serve);
            && t.sent == s.sent && |u.sent| == |s.sent| + 1 && u.stash.None?
            && u.trace == Etherbone.DoReads(bus, s.trace, addrs)
            && u.sent[|s.sent|].route == Back(s.net, r)
            && TakenOnlyUnder(u.sent[|s.sent|].payload, id, Etherbone.ReadVals(bus, s.trace, addrs))
  {
    hide Run, Step, Etherbone.Handle, HostLink.Packet, Brings, TakenOnlyUnder;
    ReadIsAnswered(bus, s, r, rx, id, addrs);
    TwoEvents(bus, s, Poll(Some(rx)), Serve);
    OthersSendNothing(bus, s, Poll(Some(rx)));
    PollThenServe(bus, s, Some(rx));
  }

  /** Wherever the frame is received at the requester's address, it is the answer to `id` and to no other request. */
  ghost predicate HostTakes(frame: Bytes, n: Net, r: Route, id: u32, vals: seq<u32>) {
    exists data: Bytes :: TakenOnlyUnder(data, id, vals) && Delivers(frame, n, r, data)
  }

  /** In any slot that holds the frame the host finds this datagram from the board. */
  ghost predicate Delivers(frame: Bytes, n: Net, r: Route, data: Bytes) {
    forall slot: Slot, len: nat | frame <= slot && |frame| <= len <= SLOT ::
      Parse(r.srcIp, slot, len) == Some((r.srcIp, Datagram(n.mac, n.ip, r.dstPort, r.srcPort, data)))
  }

  lemma HostReceives(frame: Bytes, n: Net, r: Route, id: u32, reply: Reply, vals: seq<u32>)
    requires Carries(frame, reply) && reply.route == Back(n, r) && TakenOnlyUnder(reply.payload, id, vals)
    ensures HostTakes(frame, n, r, id, vals)
  {
    hide UdpFrame, Parse, TakenOnlyUnder;
    forall slot: Slot, len: nat | frame <= slot && |frame| <= len <= SLOT
      ensures Parse(r.srcIp, slot, len) == Some((r.srcIp, Datagram(n.mac, n.ip, r.dstPort, r.srcPort, reply.payload)))
    {
      FrameRoundTrip(reply.route, reply.payload, r.srcIp, slot, len);
    }
    assert Delivers(frame, n, r, reply.payload);
  }

  /** When one more reply was sent, the one more frame carries it. */
  lemma LastFrame(fs: seq<Bytes>, fs': seq<Bytes>, sent: seq<Reply>, sent': seq<Reply>)
    requires WireIs(fs, sent) && WireIs(fs', sent') && fs <= fs' && |fs'| == |fs| + 1 && |sent'| == |sent| + 1
    ensures Carries(fs'[|fs|], sent'[|sent|])
  {
    hide IsArpType, Carries, ArpOut;
    assert fs' == fs + [fs'[|fs|]];
    DataFramesAppend(fs, fs'[|fs|]);
  }
}
