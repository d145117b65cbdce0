/**
 * The serve glue: a one-slot stash filled from the receive callback and answered
 * from the main loop, between the UDP stack and the Etherbone server.
 */
module EbServe {
  import opened Bytes
  import opened Frames
  import opened UdpStack
  import opened Etherbone
  import EtherboneServer

  const EB_BUF_LEN: nat := 1500

  /** A stashed request and the event that brought it. */
  datatype Pending = Pending(at: nat, request: Datagram)

  /** A reply handed to the stack: for which request, when, where to, and what. */
  datatype Reply = Reply(at: nat, servedAt: nat, route: Route, payload: Bytes)

  datatype Sys = Sys(net: Net, stash: Option<Pending>, trace: seq<Access>, sent: seq<Reply>, served: nat, now: nat)

  /** Everything that can happen to the serving board, in any order. */
  datatype Event =
    | Poll(rx: Option<Received>)                      // udp_service, with or without a frame
    | Serve                                           // eb_serve_pending
    | Peer(ip: u32, mac: Mac)                         // the ARP cache is rewritten
    | Configure(myIp: u32, onRx: Handler, onBx: Handler)  // a new lease or other callbacks

  /** The callback's own gate: Etherbone magic if two bytes are there, and the buffer size. */
  predicate Gate(data: Bytes) {
    (|data| >= 2 ==> data[0] == MAGIC0 && data[1] == MAGIC1) && |data| <= EB_BUF_LEN
  }

  /** The request a frame carries to the server, if any. */
  function Request(n: Net, rx: Option<Received>): Option<Datagram> {
    match rx
    case None => None
    case Some(r) =>
      match Dispatch(n, r)
      case Some(Call(EtherboneServer, d)) => if Gate(d.data) then Some(d) else None
      case _ => None
  }

  /** Straight back to the requester's MAC and address, with the ports mirrored. */
  function ReplyRoute(n: Net, d: Datagram): Route {
    Route(d.mac, n.mac, n.ip, d.srcIp, d.dstPort, d.srcPort)
  }

  function Step(bus: Bus, s: Sys, e: Event): Sys {
    var t := s.(now := s.now + 1);
    match e
    case Poll(None) => t
    case Poll(Some(r)) =>
      var q := Request(s.net, Some(r));
      t.(net := AfterFrame(s.net, r),
         stash := if s.stash.None? && q.Some? then Some(Pending(s.now, q.value)) else s.stash)
    case Serve => if s.stash.None? then t else ServeStep(bus, t, s.now, s.stash.value)
    case Peer(ip, mac) => t.(net := s.net.(peerIp := ip, peerMac := mac))
    case Configure(ip, rx, bx) => t.(net := s.net.(ip := ip, rx := rx, bx := bx))
  }

  function ServeStep(bus: Bus, s: Sys, when: nat, p: Pending): Sys {
    var d, served := p.request, Handle(bus, s.trace, p.request.data);
    var done := s.(stash := None, trace := served.trace);
    if served.reply == [] then done
    else
      var out := if d.mac == NO_MAC then [] else [Reply(p.at, when, ReplyRoute(s.net, d), served.reply)];
      done.(net := s.net.(peerIp := d.srcIp, peerMac := d.mac), sent := s.sent + out, served := s.served + 1)
  }

  function Run(bus: Bus, s: Sys, es: seq<Event>): Sys {
    if es == [] then s else Step(bus, Run(bus, s, es[..|es| - 1]), es[|es| - 1])
  }

  lemma {:induction false} RunAppend(bus: Bus, s: Sys, a: seq<Event>, b: seq<Event>)
    ensures Run(bus, s, a + b) == Run(bus, Run(bus, s, a), b)
  {
    if b == [] {
      assert a + b == a;
    } else {
      var n := |b| - 1;
      assert (a + b)[..|a| + n] == a + b[..n];
      RunAppend(bus, s, a, b[..n]);
    }
  }

  function Boot(net: Net): Sys {
    Sys(net, None, [], [], 0, 0)
  }

  // ---- where replies come from ---------------------------------------------------------

  /** Event `at` of the run brought request `d` to the server. */
  ghost predicate Brought(bus: Bus, net: Net, es: seq<Event>, at: nat, d: Datagram) {
    && at < |es| && es[at].Poll?
    && Request(Run(bus, Boot(net), es[..at]).net, es[at].rx) == Some(d)
  }

  /** Reply `r` answers the request brought by event `r.at`, served by event `r.servedAt`. */
  ghost predicate Explained(bus: Bus, net: Net, es: seq<Event>, r: Reply) {
    && r.at < r.servedAt < |es| && es[r.servedAt] == Serve
    && exists d: Datagram ::
        && Brought(bus, net, es, r.at, d)
        && r.route == ReplyRoute(Run(bus, Boot(net), es[..r.servedAt]).net, d)
        && r.payload == Handle(bus, Run(bus, Boot(net), es[..r.servedAt]).trace, d.data).reply
  }

  /** Reply `r` was received and answered before the request of `r'` arrived. */
  ghost predicate Before(r: Reply, r': Reply) {
    r.at < r.servedAt < r'.at
  }

  /** Stash and replies follow one another in time. */
  ghost predicate Ordered(s: Sys) {
    && (s.stash.Some? ==> s.stash.value.at < s.now)
    && (forall k | 0 <= k < |s.sent| :: s.sent[k].at < s.sent[k].servedAt < s.now)
    && (forall k | 0 < k < |s.sent| :: s.sent[k - 1].servedAt < s.sent[k].at)
    && (s.stash.Some? && s.sent != [] ==> s.sent[|s.sent| - 1].servedAt < s.stash.value.at)
  }

  ghost predicate AllExplained(bus: Bus, net: Net, es: seq<Event>, s: Sys) {
    && (s.stash.Some? ==> Brought(bus, net, es, s.stash.value.at, s.stash.value.request))
    && (forall k | 0 <= k < |s.sent| :: Explained(bus, net, es, s.sent[k]))
  }

  ghost predicate RunInv(bus: Bus, net: Net, es: seq<Event>) {
    var s := Run(bus, Boot(net), es);
    s.now == |es| && Ordered(s) && AllExplained(bus, net, es, s)
  }

  /** One event changes stash and replies in one of four ways. */
  lemma StepShape(bus: Bus, s: Sys, e: Event)
    ensures var t := Step(bus, s, e);
            && t.now == s.now + 1
            && (|| (t.stash == s.stash && t.sent == s.sent)
                || (s.stash.None? && t.stash.Some? && t.stash.value.at == s.now && t.sent == s.sent
                    && e.Poll? && Request(s.net, e.rx) == Some(t.stash.value.request))
                || (s.stash.Some? && e == Serve && t.stash.None? && t.sent == s.sent)
                || (s.stash.Some? && e == Serve && t.stash.None?
                    && t.sent == s.sent + [ReplyFor(bus, s, s.stash.value)]))
  {
    hide Handle, Request, AfterFrame, ReplyRoute;
    if e == Serve && s.stash.Some? {
      assert s.sent + [] == s.sent;
    }
  }

  /** The reply a serve of `p` in state `s` makes. */
  function ReplyFor(bus: Bus, s: Sys, p: Pending): Reply {
    Reply(p.at, s.now, ReplyRoute(s.net, p.request), Handle(bus, s.trace, p.request.data).reply)
  }

  lemma OrderedStep(bus: Bus, s: Sys, e: Event)
    requires Ordered(s)
    ensures Ordered(Step(bus, s, e))
  {
    hide Step, Handle, ReplyRoute, Request;
    StepShape(bus, s, e);
  }

  lemma BroughtStays(bus: Bus, net: Net, es: seq<Event>, e: Event, at: nat, d: Datagram)
    requires Brought(bus, net, es, at, d)
    ensures Brought(bus, net, es + [e], at, d)
  {
    assert (es + [e])[..at] == es[..at];
  }

  lemma ExplainedStays(bus: Bus, net: Net, es: seq<Event>, e: Event, r: Reply)
    requires Explained(bus, net, es, r)
    ensures Explained(bus, net, es + [e], r)
  {
    hide Brought;
    var d: Datagram :| Brought(bus, net, es, r.at, d)
        && r.route == ReplyRoute(Run(bus, Boot(net), es[..r.servedAt]).net, d)
        && r.payload == Handle(bus, Run(bus, Boot(net), es[..r.servedAt]).trace, d.data).reply;
    assert (es + [e])[..r.servedAt] == es[..r.servedAt];
    BroughtStays(bus, net, es, e, r.at, d);
  }

  lemma RunInvStep(bus: Bus, net: Net, es: seq<Event>, e: Event)
    requires RunInv(bus, net, es)
    ensures RunInv(bus, net, es + [e])
  {
    hide Ordered, AllExplained, Step;
    var s := Run(bus, Boot(net), es);
    assert (es + [e])[..|es|] == es;
    StepShape(bus, s, e);
    OrderedStep(bus, s, e);
    ExplainedStep(bus, net, es, e, s);
  }

  lemma ExplainedStep(bus: Bus, net: Net, es: seq<Event>, e: Event, s: Sys)
    requires s == Run(bus, Boot(net), es) && s.now == |es| && AllExplained(bus, net, es, s)
    ensures AllExplained(bus, net, es + [e], Step(bus, s, e))
  {
    hide Brought, Explained, Handle, Request, Step, Run;
    var all := es + [e];
    StepShape(bus, s, e);
    forall k | 0 <= k < |s.sent| ensures Explained(bus, net, all, s.sent[k]) {
      ExplainedStays(bus, net, es, e, s.sent[k]);
    }
    var s' := Step(bus, s, e);
    if s.stash.Some? {
      BroughtStays(bus, net, es, e, s.stash.value.at, s.stash.value.request);
      if s'.sent != s.sent {
        ServedIsExplained(bus, net, es, s.stash.value);
      }
    } else if s'.stash.Some? {
      JustBrought(bus, net, es, e, s'.stash.value.request);
    }
  }

  lemma JustBrought(bus: Bus, net: Net, es: seq<Event>, e: Event, d: Datagram)
    requires e.Poll? && Request(Run(bus, Boot(net), es).net, e.rx) == Some(d)
    ensures Brought(bus, net, es + [e], |es|, d)
  {
    assert (es + [e])[..|es|] == es;
  }

  lemma ServedIsExplained(bus: Bus, net: Net, es: seq<Event>, p: Pending)
    requires var s := Run(bus, Boot(net), es);
             s.stash == Some(p) && s.now == |es| && Brought(bus, net, es, p.at, p.request)
    ensures Explained(bus, net, es + [Serve], ReplyFor(bus, Run(bus, Boot(net), es), p))
  {
    hide Handle, Request, Run;
    assert (es + [Serve])[..|es|] == es;
    BroughtStays(bus, net, es, Serve, p.at, p.request);
  }

  lemma {:induction false} RunKeepsInv(bus: Bus, net: Net, es: seq<Event>)
    ensures RunInv(bus, net, es)
  {
    hide RunInv;
    if es == [] {
      BootInv(bus, net);
    } else {
      var n := |es| - 1;
      RunKeepsInv(bus, net, es[..n]);
      RunInvStep(bus, net, es[..n], es[n]);
      assert es == es[..n] + [es[n]];
    }
  }

  lemma BootInv(bus: Bus, net: Net)
    ensures RunInv(bus, net, [])
  {
  }

  lemma {:induction false} InOrder(sent: seq<Reply>, i: nat, j: nat)
    requires i < j < |sent|
    requires forall k | 0 <= k < |sent| :: sent[k].at < sent[k].servedAt
    requires forall k | 0 < k < |sent| :: sent[k - 1].servedAt < sent[k].at
    ensures sent[i].servedAt < sent[j].at
    decreases j
  {
    if i + 1 < j {
      InOrder(sent, i, j - 1);
    }
  }

  /**
   * Over every interleaving of polls, serves, ARP activity and reconfiguration:
   * each reply is the server's answer to one received request, goes back to that
   * request's MAC, address and mirrored ports, no request is answered twice, and
   * replies leave in the order their requests arrived.
   */
  lemma ReplyProvenance(bus: Bus, net: Net, es: seq<Event>)
    ensures var sent := Run(bus, Boot(net), es).sent;
            && (forall k | 0 <= k < |sent| :: Explained(bus, net, es, sent[k]))
            && (forall i, j | 0 <= i < j < |sent| :: Before(sent[i], sent[j]))
  {
    RunKeepsInv(bus, net, es);
    var sent := Run(bus, Boot(net), es).sent;
    forall k | 0 <= k < |sent| ensures sent[k].at < sent[k].servedAt {
      assert Explained(bus, net, es, sent[k]);
    }
    forall i, j | 0 <= i < j < |sent| ensures Before(sent[i], sent[j]) {
      InOrder(sent, i, j);
    }
  }

  // ---- replies counted and replies sent --------------------------------------------------

  /** The datagram's answer is not empty, so eb_served counts it. */
  predicate Counted(bus: Bus, s: Sys) {
    s.stash.Some? && Handle(bus, s.trace, s.stash.value.request.data).reply != []
  }

  /** A serve counts every answer, and sends it exactly when the requester's MAC is not all zero. */
  lemma CountedVersusSent(bus: Bus, s: Sys)
    ensures var t := Step(bus, s, Serve);
            && t.served == s.served + (if Counted(bus, s) then 1 else 0)
            && t.sent == s.sent + (if Counted(bus, s) && s.stash.value.request.mac != NO_MAC
                                   then [ReplyFor(bus, s, s.stash.value)] else [])
  {
    hide Handle, ReplyRoute;
    assert s.sent + [] == s.sent;
  }

  /** A probe from the all-zero MAC is counted as served and never answered. */
  lemma ZeroMacIsCountedNotSent(bus: Bus, s: Sys)
    requires s.stash.Some? && s.stash.value.request.mac == NO_MAC && IsProbe(s.stash.value.request.data)
    ensures var t := Step(bus, s, Serve);
            t.served == s.served + 1 && t.sent == s.sent
  {
    CountedVersusSent(bus, s);
    ProbeAnswered(bus, s.trace, s.stash.value.request.data);
  }

  /** A shortest Etherbone probe, as it arrives in a frame whose source MAC is all zero. */
  function ZeroMacProbe(n: Net): Received {
    var probe: Bytes := [MAGIC0, MAGIC1, 0x11, 0x44, 0, 0, 0, 0];
    var f := UdpFrame(Route(n.mac, NO_MAC, 0, n.ip, 1234, 1234), probe);
    Received(f + Zeros(SLOT - |f|), MIN_TX)
  }

  /** From start-up: that probe is polled and served, eb_served counts it, and nothing is sent. */
  lemma ZeroMacRun(bus: Bus, net: Net)
    requires net.rx == EtherboneServer
    ensures var s := Run(bus, Boot(net), [Poll(Some(ZeroMacProbe(net))), Serve]);
            s.served == 1 && s.sent == [] && s.trace == []
  {
    hide Run, Handle, AfterFrame, UdpFrame, Parse;
    var probe: Bytes := [MAGIC0, MAGIC1, 0x11, 0x44, 0, 0, 0, 0];
    var r, rx := Route(net.mac, NO_MAC, 0, net.ip, 1234, 1234), ZeroMacProbe(net);
    FrameRoundTrip(r, probe, net.ip, rx.slot, rx.len);
    TwoEvents(bus, Boot(net), Poll(Some(rx)), Serve);
    var s := Step(bus, Boot(net), Poll(Some(rx)));
    assert s.stash == Some(Pending(0, Datagram(NO_MAC, 0, 1234, 1234, probe)));
    ZeroMacIsCountedNotSent(bus, s);
    ProbeAnswered(bus, [], probe);
  }

  /** Over every run the counter is ahead of the replies by exactly the serves that hit the all-zero MAC. */
  function Refused(bus: Bus, s: Sys, es: seq<Event>): nat {
    if es == [] then 0
    else
      var t := Run(bus, s, es[..|es| - 1]);
      Refused(bus, s, es[..|es| - 1]) +
      if es[|es| - 1] == Serve && Counted(bus, t) && t.stash.value.request.mac == NO_MAC then 1 else 0
  }

  lemma {:induction false} CounterIsAheadByRefused(bus: Bus, net: Net, es: seq<Event>)
    ensures var s := Run(bus, Boot(net), es);
            s.served == |s.sent| + Refused(bus, Boot(net), es)
  {
    if es != [] {
      var n := |es| - 1;
      CounterIsAheadByRefused(bus, net, es[..n]);
      hide Step, Counted, ReplyFor;
      var t := Run(bus, Boot(net), es[..n]);
      CountedVersusSent(bus, t);
      if es[n] != Serve {
        OthersSendNothing(bus, t, es[n]);
      }
    }
  }

  lemma OthersSendNothing(bus: Bus, s: Sys, e: Event)
    requires e != Serve
    ensures Step(bus, s, e).served == s.served && Step(bus, s, e).sent == s.sent
  {
    hide Request, AfterFrame;
  }

  // ---- the serve loop -----------------------------------------------------------------

  /** The inner loop of main: every poll is followed by a serve. */
  function ServeLoop(rxs: seq<Option<Received>>): seq<Event> {
    if rxs == [] then [] else ServeLoop(rxs[..|rxs| - 1]) + [Poll(rxs[|rxs| - 1]), Serve]
  }

  /** The requests the frames carry, given that the loop leaves the receive filter alone. */
  function Requests(bus: Bus, s: Sys, rxs: seq<Option<Received>>): seq<Datagram> {
    if rxs == [] then []
    else
      var n := |rxs| - 1;
      var q := Request(Run(bus, s, ServeLoop(rxs[..n])).net, rxs[n]);
      Requests(bus, s, rxs[..n]) + if q.Some? then [q.value] else []
  }

  /** All of them handled one after the other. */
  function HandleAll(bus: Bus, tr: seq<Access>, ds: seq<Datagram>): seq<Access> {
    if ds == [] then tr else Handle(bus, HandleAll(bus, tr, ds[..|ds| - 1]), ds[|ds| - 1].data).trace
  }

  /** The reply a request earns after the accesses `tr`; none for an empty answer or the all-zero MAC. */
  function AnswerTo(bus: Bus, tr: seq<Access>, n: Net, at: nat, d: Datagram): seq<Reply> {
    var reply := Handle(bus, tr, d.data).reply;
    if reply == [] || d.mac == NO_MAC then [] else [Reply(at, at + 1, ReplyRoute(n, d), reply)]
  }

  /** The replies to all of them, each after the requests before it. */
  function AnswersTo(bus: Bus, s: Sys, rxs: seq<Option<Received>>): seq<Reply> {
    if rxs == [] then []
    else
      var n := |rxs| - 1;
      var net := Run(bus, s, ServeLoop(rxs[..n])).net;
      var q := Request(net, rxs[n]);
      AnswersTo(bus, s, rxs[..n]) +
      if q.Some? then AnswerTo(bus, HandleAll(bus, s.trace, Requests(bus, s, rxs[..n])), net, s.now + 2 * n, q.value) else []
  }

  /**
   * In the serve loop no request is dropped as busy: every one is executed and answered,
   * in order, exactly once, by the serve right after the poll that brought it.
   */
  lemma {:induction false} ServeLoopDropsNothing(bus: Bus, s: Sys, rxs: seq<Option<Received>>)
    requires s.stash.None?
    ensures var s' := Run(bus, s, ServeLoop(rxs));
            && s'.stash.None? && s'.now == s.now + 2 * |rxs|
            && s'.trace == HandleAll(bus, s.trace, Requests(bus, s, rxs))
            && s'.sent == s.sent + AnswersTo(bus, s, rxs)
  {
    hide Run, Request, Requests, AnswersTo, HandleAll, Handle, AnswerTo, ServeLoop;
    if rxs == [] {
      NoLoop(bus, s);
    } else {
      var n := |rxs| - 1;
      ServeLoopDropsNothing(bus, s, rxs[..n]);
      LoopUnfolds(bus, s, rxs);
      var mid := Run(bus, s, ServeLoop(rxs[..n]));
      RunAppend(bus, s, ServeLoop(rxs[..n]), [Poll(rxs[n]), Serve]);
      PollThenServe(bus, mid, rxs[n]);
      var ds, q := Requests(bus, s, rxs[..n]), Request(mid.net, rxs[n]);
      if q.Some? {
        HandleAllAppend(bus, s.trace, ds, q.value);
        Appended(s.sent, AnswersTo(bus, s, rxs[..n]), AnswerTo(bus, mid.trace, mid.net, mid.now, q.value));
      } else {
        assert ds + [] == ds;
        Appended(s.sent, AnswersTo(bus, s, rxs[..n]), []);
      }
    }
  }

  lemma NoLoop(bus: Bus, s: Sys)
    ensures Run(bus, s, ServeLoop([])) == s
    ensures HandleAll(bus, s.trace, Requests(bus, s, [])) == s.trace
    ensures s.sent + AnswersTo(bus, s, []) == s.sent
  {
  }

  lemma LoopUnfolds(bus: Bus, s: Sys, rxs: seq<Option<Received>>)
    requires rxs != []
    ensures var n := |rxs| - 1;
            var pre := rxs[..n];
            var net := Run(bus, s, ServeLoop(pre)).net;
            var q := Request(net, rxs[n]);
            && ServeLoop(rxs) == ServeLoop(pre) + [Poll(rxs[n]), Serve]
            && Requests(bus, s, rxs) == Requests(bus, s, pre) + (if q.Some? then [q.value] else [])
            && AnswersTo(bus, s, rxs) == AnswersTo(bus, s, pre) +
               (if q.Some? then AnswerTo(bus, HandleAll(bus, s.trace, Requests(bus, s, pre)), net, s.now + 2 * n, q.value) else [])
  {
    hide Run, Request, HandleAll, AnswerTo;
  }

  lemma HandleAllAppend(bus: Bus, tr: seq<Access>, ds: seq<Datagram>, d: Datagram)
    ensures HandleAll(bus, tr, ds + [d]) == Handle(bus, HandleAll(bus, tr, ds), d.data).trace
  {
    assert (ds + [d])[..|ds|] == ds;
  }

  lemma Appended(a: seq<Reply>, b: seq<Reply>, c: seq<Reply>)
    ensures a + b + c == a + (b + c)
  {
  }

  lemma TwoEvents(bus: Bus, s: Sys, a: Event, b: Event)
    ensures Run(bus, s, [a, b]) == Step(bus, Step(bus, s, a), b)
  {
    hide Step;
    assert [a, b][..1] == [a] && [a][..0] == [];
    assert Run(bus, s, [a]) == Step(bus, Run(bus, s, []), a);
  }

  lemma PollThenServe(bus: Bus, s: Sys, rx: Option<Received>)
    requires s.stash.None?
    ensures var s' := Run(bus, s, [Poll(rx), Serve]);
            var q := Request(s.net, rx);
            && s'.stash.None? && s'.now == s.now + 2
            && s'.trace == (if q.Some? then Handle(bus, s.trace, q.value.data).trace else s.trace)
            && s'.sent == s.sent + (if q.Some? then AnswerTo(bus, s.trace, s.net, s.now, q.value) else [])
  {
    hide Run, Handle, Request, AfterFrame;
    TwoEvents(bus, s, Poll(rx), Serve);
    assert s.sent + [] == s.sent;
    if rx.None? {
      NoRequest(s.net);
    } else {
      FrameKeepsAddress(s.net, rx.value);
    }
  }

  lemma FrameKeepsAddress(n: Net, r: Received)
    ensures AfterFrame(n, r).mac == n.mac && AfterFrame(n, r).ip == n.ip
  {
    hide Parse, ArpAnswers;
  }

  lemma NoRequest(n: Net)
    ensures Request(n, None) == None
  {
  }

  // ---- what leaves the board ---------------------------------------------------------------

  predicate IsArpType(f: Bytes) {
    |f| >= 14 && U16At(f, 12) == TYPE_ARP
  }

  /** One of our own ARP packets. */
  ghost predicate ArpOut(f: Bytes) {
    exists dst: Mac, op: u16, mac: Mac, ip: u32, tmac: Mac, tip: u32 :: f == PadTo(ArpFrame(dst, op, mac, ip, tmac, tip), MIN_TX)
  }

  /** The frames that are not ARP, in order. */
  function DataFrames(fs: seq<Bytes>): seq<Bytes> {
    if fs == [] then []
    else DataFrames(fs[..|fs| - 1]) + if IsArpType(fs[|fs| - 1]) then [] else [fs[|fs| - 1]]
  }

  ghost predicate Carries(f: Bytes, r: Reply) {
    |r.payload| <= MAX_PAYLOAD && UdpFrame(r.route, r.payload) <= f
  }

  /** The frames are our ARP packets and, in order, exactly one frame for each reply. */
  ghost predicate WireIs(fs: seq<Bytes>, sent: seq<Reply>) {
    && (forall k | 0 <= k < |fs| && IsArpType(fs[k]) :: ArpOut(fs[k]))
    && |DataFrames(fs)| == |sent|
    && forall k | 0 <= k < |sent| :: Carries(DataFrames(fs)[k], sent[k])
  }

  lemma DataFramesAppend(fs: seq<Bytes>, f: Bytes)
    ensures DataFrames(fs + [f]) == DataFrames(fs) + if IsArpType(f) then [] else [f]
  {
    assert (fs + [f])[..|fs|] == fs;
  }

  lemma WireTakesArp(fs: seq<Bytes>, sent: seq<Reply>, dst: Mac, op: u16, mac: Mac, ip: u32, tmac: Mac, tip: u32)
    requires WireIs(fs, sent)
    ensures WireIs(fs + [PadTo(ArpFrame(dst, op, mac, ip, tmac, tip), MIN_TX)], sent)
  {
    hide Carries;
    var f := PadTo(ArpFrame(dst, op, mac, ip, tmac, tip), MIN_TX);
    ArpFrameType(dst, op, mac, ip, tmac, tip);
    hide ArpFrame, PadTo, IsArpType;
    assert ArpOut(f);
    DataFramesAppend(fs, f);
  }

  lemma ArpFrameType(dst: Mac, op: u16, mac: Mac, ip: u32, tmac: Mac, tip: u32)
    ensures IsArpType(PadTo(ArpFrame(dst, op, mac, ip, tmac, tip), MIN_TX))
  {
    hide ArpBody, Stored, Be16;
    var f, body := PadTo(ArpFrame(dst, op, mac, ip, tmac, tip), MIN_TX), ArpBody(op, mac, ip, tmac, tip);
    assert f[12..14] == Be16(TYPE_ARP);
    StoredSlice(f, 12, Be16(TYPE_ARP));
    Be16RoundTrip(f, 12, TYPE_ARP);
  }

  lemma WireTakesReply(fs: seq<Bytes>, sent: seq<Reply>, f: Bytes, r: Reply)
    requires WireIs(fs, sent) && Carries(f, r)
    ensures WireIs(fs + [f], sent + [r])
  {
    DataFrameType(f, r);
    hide IsArpType, Carries, ArpOut;
    DataFramesAppend(fs, f);
  }

  lemma DataFrameType(f: Bytes, r: Reply)
    requires Carries(f, r)
    ensures !IsArpType(f)
  {
    hide IpHeader, UdpHead, Stored, Be16, IpSum, UdpSum;
    var u := UdpFrame(r.route, r.payload);
    assert u[12..14] == Be16(TYPE_IP);
    assert f[12..14] == u[12..14];
    StoredSlice(f, 12, Be16(TYPE_IP));
    Be16RoundTrip(f, 12, TYPE_IP);
  }

  lemma WireTakesReplies(fs: seq<Bytes>, sent: seq<Reply>, n: Net, r: Received)
    requires WireIs(fs, sent)
    ensures WireIs(fs + Replies(n, r), sent)
  {
    hide WireIs;
    if ArpAsks(n, r) {
      WireTakesArp(fs, sent, r.slot[22..28], 2, n.mac, n.ip, r.slot[22..28], U32At(r.slot, 28));
    } else {
      assert fs + [] == fs;
    }
  }

  // ---- the board ---------------------------------------------------------------------------

  class Board {
    const stack: Stack
    const bus: Bus
    var pending: bool
    var srcIp: u32
    var srcPort: u16
    var dstPort: u16
    var srcMac: Mac
    var req: Bytes
    const resp: array<byte>
    var trace: seq<Access>                // every bus access so far
    var served: nat
    ghost var stashedAt: nat
    ghost var now: nat
    ghost var sent: seq<Reply>
    ghost const before: seq<Bytes>        // frames sent before the server started
    ghost var out: seq<Bytes>             // frames sent since

    constructor (stack: Stack, bus: Bus)
      requires stack.Valid()
      ensures this.stack == stack && this.bus == bus && fresh(resp) && before == stack.wire && out == []
      ensures Valid() && Abs() == Boot(stack.State())
    {
      this.stack, this.bus := stack, bus;
      pending, srcIp, srcPort, dstPort, srcMac, req := false, 0, 0, 0, NO_MAC, [];
      trace, served, stashedAt, now, sent := [], 0, 0, 0, [];
      resp := new byte[EB_BUF_LEN + 16];
      before, out := stack.wire, [];
    }

    /** Everything that left since the start is an own ARP packet or the frame of one reply, in order. */
    ghost predicate Valid()
      reads this, stack
    {
      && stack.Valid() && resp.Length == EB_BUF_LEN + 16
      && resp != stack.tx0 && resp != stack.tx1
      && (pending ==> Gate(req))
      && stack.wire == before + out && WireIs(out, sent)
    }

    ghost function Abs(): Sys
      reads this, stack
    {
      Sys(stack.State(), if pending then Some(Pending(stashedAt, Datagram(srcMac, srcIp, srcPort, dstPort, req))) else None,
          trace, sent, served, now)
    }

    /** eb_rx_callback */
    method OnDatagram(d: Datagram)
      modifies this`pending, this`srcIp, this`srcPort, this`dstPort, this`srcMac, this`req, this`stashedAt
      ensures (old(pending) ==> Gate(old(req))) ==> (pending ==> Gate(req))
      ensures Abs() == old(Abs()).(stash := if !old(pending) && Gate(d.data) then Some(Pending(now, d)) else old(Abs()).stash)
    {
      hide Step, Stack.State;
      if pending {
        return;
      }
      if |d.data| >= 2 && (d.data[0] != MAGIC0 || d.data[1] != MAGIC1) {
        return;
      }
      if |d.data| > EB_BUF_LEN {
        return;
      }
      dstPort, srcMac, req, srcIp, srcPort := d.dstPort, d.mac, d.data, d.srcIp, d.srcPort;
      pending := true;
      stashedAt := now;
    }

    /** udp_service with the Etherbone callback behind it: a poll sends ARP replies and nothing else. */
    method Service(rx: Option<Received>)
      requires Valid()
      modifies this, stack, stack.tx0, stack.tx1
      ensures Valid() && Abs() == Step(bus, old(Abs()), Poll(rx))
      ensures out == old(out) + PollSends(old(stack.State()), rx)
    {
      hide AfterFrame, Dispatch, Gate, Replies, WireIs;
      if rx.Some? {
        ghost var frames := Replies(stack.State(), rx.value);
        WireTakesReplies(out, sent, stack.State(), rx.value);
        var call := stack.ProcessFrame(rx.value);
        out := out + frames;
        if call.Some? && call.value.who == EtherboneServer {
          OnDatagram(call.value.datagram);
        }
      }
      now := now + 1;
    }

    /** Unicast the reply to the captured sender, mirroring the request's ports. */
    method Answer(data: Bytes)
      requires stack.Valid() && stack.wire == before + out && WireIs(out, sent) && |data| <= MAX_PAYLOAD
      modifies this`sent, this`out, stack`peerIp, stack`peerMac, stack`wire, stack`txslot, stack.tx0, stack.tx1
      ensures stack.Valid() && stack.wire == before + out && WireIs(out, sent)
      ensures stack.State() == old(stack.State()).(peerIp := srcIp, peerMac := srcMac)
      ensures var d := Datagram(srcMac, srcIp, srcPort, dstPort, req);
              sent == old(sent) +
                if srcMac == NO_MAC then [] else [Reply(stashedAt, now, ReplyRoute(old(stack.State()), d), data)]
      ensures old(out) <= out && |out| == |old(out)| + if srcMac == NO_MAC then 0 else 1
    {
      hide UdpFrame, WireIs, ReplyRoute;
      ghost var route := ReplyRoute(stack.State(), Datagram(srcMac, srcIp, srcPort, dstPort, req));
      RouteIs(stack.State(), Datagram(srcMac, srcIp, srcPort, dstPort, req));
      var ok := SendTo(stack, srcIp, srcMac, dstPort, srcPort, data);
      if ok {
        ghost var r, f := Reply(stashedAt, now, route, data), stack.wire[|stack.wire| - 1];
        WireTakesReply(out, sent, f, r);
        sent := sent + [r];
        out := out + [f];
      }
    }

    /** eb_serve_pending: the reply always fits its buffer and the maximum payload. */
    method ServePending()
      requires Valid()
      modifies this, resp, stack, stack.tx0, stack.tx1
      ensures Valid() && Abs() == Step(bus, old(Abs()), Serve)
      ensures served == old(served) + if old(pending) && Handle(bus, old(trace), old(req)).reply != [] then 1 else 0
      ensures |sent| == |old(sent)| +
                if old(pending) && Handle(bus, old(trace), old(req)).reply != [] && old(srcMac) != NO_MAC then 1 else 0
      ensures |out| == |old(out)| + (|sent| - |old(sent)|) && old(out) <= out
    {
      hide Handle, Gate, WireIs, ReplyRoute, Stack.Valid;
      if !pending {
        now := now + 1;
        return;
      }
      ReplyFits(bus, trace, req);
      var len: nat;
      trace, len := EtherboneServer.Serve(bus, trace, req, resp);
      if len > 0 {
        Answer(resp[..len]);
        served := served + 1;
      }
      pending := false;
      now := now + 1;
    }

    /** Broadcast one ARP request. */
    method SendRequest(ip: u32)
      requires Valid()
      modifies this`out, stack`wire, stack`txslot, stack.tx0, stack.tx1
      ensures Valid() && Abs() == old(Abs())
      ensures out == old(out) + [ArpRequest(stack.State(), ip)]
    {
      hide ArpFrame, PadTo, WireIs, Gate;
      WireTakesArp(out, sent, BROADCAST, 1, stack.mac, stack.ip, NO_MAC, ip);
      out := out + [ArpRequest(stack.State(), ip)];
      stack.SendArp(BROADCAST, 1, NO_MAC, ip);
    }

    /** The inner loop of udp_arp_resolve: up to 100000 polls that serve callbacks, until the MAC is known. */
    method AwaitMac(ip: u32, arrivals: Arrivals, from: nat, ghost s0: Sys, ghost es0: seq<Event>, ghost out0: seq<Bytes>)
      returns (found: bool, polls: nat, ghost es: seq<Event>)
      requires from % 100000 == 0 && out == out0 + Sends(stack.State(), ip, arrivals, from) + [ArpRequest(stack.State(), ip)]
      requires Valid() && stack.peerIp == ip && stack.peerMac == NO_MAC && Abs() == Run(bus, s0, es0)
      requires es0 == [Peer(ip, NO_MAC)] + Polls(arrivals, from) && NoneLearned(ip, arrivals, from)
      modifies this, stack, stack.tx0, stack.tx1
      ensures Valid() && stack.peerIp == ip && Abs() == Run(bus, s0, es)
      ensures polls > from && out == out0 + Sends(old(stack.State()), ip, arrivals, polls)
      ensures stack.mac == old(stack.mac) && stack.ip == old(stack.ip)
      ensures es == [Peer(ip, NO_MAC)] + Polls(arrivals, polls) && (found <==> stack.peerMac != NO_MAC)
      ensures if found then FoundAt(ip, arrivals, polls, stack.peerMac)
              else polls == from + 100000 && NoneLearned(ip, arrivals, polls)
    {
      hide Run, Step, Gate, WireIs, PollSends, Learns, Sends, ArpRequest;
      ghost var n := stack.State();
      polls, es := from, es0;
      for timeout := 0 to 100000
        invariant polls == from + timeout && es == [Peer(ip, NO_MAC)] + Polls(arrivals, polls)
        invariant out == out0 + Sends(n, ip, arrivals, polls) + if timeout == 0 then [ArpRequest(n, ip)] else []
        invariant NoneLearned(ip, arrivals, polls) && stack.mac == old(stack.mac) && stack.ip == old(stack.ip)
        invariant Valid() && stack.peerIp == ip && stack.peerMac == NO_MAC && Abs() == Run(bus, s0, es)
      {
        RunOne(bus, s0, es, Poll(arrivals(polls)));
        PollLearns(bus, Abs(), arrivals, polls);
        PollsGrow(arrivals, polls);
        SendsGrow(n, stack.State(), ip, arrivals, polls, timeout, out0);
        Service(arrivals(polls));
        es := es + [Poll(arrivals(polls))];
        polls := polls + 1;
        if stack.peerMac != NO_MAC {
          return true, polls, es;
        }
      }
      return false, polls, es;
    }

    /**
     * udp_arp_resolve: up to 8 requests, each followed by up to 100000 polls.  It stops at
     * the first poll that brings an ARP reply from the address, and takes its MAC.
     */
    method ArpResolve(ip: u32, arrivals: Arrivals) returns (ok: bool, ghost es: seq<Event>)
      requires Valid()
      modifies this, stack, stack.tx0, stack.tx1
      ensures Valid() && stack.peerIp == ip && (ok <==> stack.peerMac != NO_MAC)
      ensures Abs() == Run(bus, old(Abs()), es)
      ensures es == [] <==> old(stack.peerIp) == ip && old(stack.peerMac) != NO_MAC
      ensures es == [] ==> ok && out == old(out)
      ensures es != [] ==> Asked(stack.State(), old(out), out, ip) && es == [Peer(ip, NO_MAC)] + Polls(arrivals, |es| - 1)
      ensures es != [] ==> out == old(out) + Sends(old(stack.State()), ip, arrivals, |es| - 1)
      ensures es != [] && ok ==> FoundAt(ip, arrivals, |es| - 1, stack.peerMac)
      ensures !ok ==> |es| == 1 + 8 * 100000 && NoneLearned(ip, arrivals, 8 * 100000)
    {
      hide Run, Step, Gate, WireIs, Learns, NoneLearned, FoundAt, Sends, ArpRequest, Polls, PollSends;
      es := [];
      RunNothing(bus, Abs());
      if stack.peerIp == ip && stack.peerMac != NO_MAC {
        return true, [];
      }
      ghost var s0 := Abs();
      stack.SetPeer(ip, NO_MAC);
      now := now + 1;
      RunOne(bus, s0, [], Peer(ip, NO_MAC));
      PeerStep(bus, s0, ip, NO_MAC);
      es := [Peer(ip, NO_MAC)];
      NothingPolled(old(stack.State()), ip, arrivals);
      var polls: nat, found := 0, false;
      for tries := 0 to 8
        invariant polls == 100000 * tries && es == [Peer(ip, NO_MAC)] + Polls(arrivals, polls)
        invariant NoneLearned(ip, arrivals, polls) && stack.mac == old(stack.mac) && stack.ip == old(stack.ip)
        invariant out == old(out) + Sends(old(stack.State()), ip, arrivals, polls)
        invariant tries > 0 ==> Asked(stack.State(), old(out), out, ip)
        invariant Valid() && stack.peerIp == ip && stack.peerMac == NO_MAC && Abs() == Run(bus, s0, es)
      {
        SameSends(old(stack.State()), stack.State(), ip, arrivals, polls);
        SendRequest(ip);
        ghost var n := stack.State();
        found, polls, es := AwaitMac(ip, arrivals, polls, s0, es, old(out));
        SameSends(old(stack.State()), n, ip, arrivals, polls);
        FirstSend(old(stack.State()), stack.State(), ip, arrivals, polls);
        if found {
          return true, es;
        }
      }
      return false, es;
    }

    /** udp_arp_refresh: forget the cached address, then ask again. */
    method ArpRefresh(ip: u32, arrivals: Arrivals) returns (ok: bool, ghost es: seq<Event>)
      requires Valid()
      modifies this, stack, stack.tx0, stack.tx1
      ensures Valid() && stack.peerIp == ip && (ok <==> stack.peerMac != NO_MAC)
      ensures Abs() == Run(bus, old(Abs()), [Peer(0, old(stack.peerMac))] + es)
      ensures ip != 0 ==> Asked(stack.State(), old(out), out, ip) && es != []
      ensures es != [] ==> es == [Peer(ip, NO_MAC)] + Polls(arrivals, |es| - 1)
      ensures es != [] ==> out == old(out) + Sends(old(stack.State()), ip, arrivals, |es| - 1)
      ensures es != [] && ok ==> FoundAt(ip, arrivals, |es| - 1, stack.peerMac)
      ensures !ok ==> |es| == 1 + 8 * 100000 && NoneLearned(ip, arrivals, 8 * 100000)
    {
      hide Run, Step, WireIs, Learns, NoneLearned, FoundAt, Sends, ArpRequest;
      ghost var s0 := Abs();
      var mac := stack.peerMac;
      stack.SetPeer(0, mac);
      now := now + 1;
      PeerStep(bus, s0, 0, mac);
      RunNothing(bus, s0);
      RunOne(bus, s0, [], Peer(0, mac));
      ghost var n := stack.State();
      ok, es := ArpResolve(ip, arrivals);
      if es != [] {
        SameSends(s0.net, n, ip, arrivals, |es| - 1);
      }
      RunAppend(bus, s0, [Peer(0, mac)], es);
    }

    /** One event, carried out by the code above. */
    method Do(e: Event)
      requires Valid()
      modifies this, resp, stack, stack.tx0, stack.tx1
      ensures Valid() && Abs() == Step(bus, old(Abs()), e)
    {
      hide Step, WireIs, Gate, Handle, Replies;
      match e {
        case Poll(rx) => Service(rx);
        case Serve => ServePending();
        case Peer(ip, mac) =>
          PeerStep(bus, Abs(), ip, mac);
          stack.SetPeer(ip, mac);
          now := now + 1;
        case Configure(ip, rx, bx) =>
          ConfigureStep(bus, Abs(), ip, rx, bx);
          stack.ip, stack.rx, stack.bx := ip, rx, bx;
          now := now + 1;
      }
    }

    /** Any sequence of events. */
    method Drive(es: seq<Event>)
      requires Valid()
      modifies this, resp, stack, stack.tx0, stack.tx1
      ensures Valid() && Abs() == Run(bus, old(Abs()), es)
    {
      hide Run, Step, Valid, Abs;
      RunNothing(bus, Abs());
      for k := 0 to |es|
        invariant Valid() && Abs() == Run(bus, old(Abs()), es[..k])
      {
        RunOne(bus, old(Abs()), es[..k], es[k]);
        assert es[..k] + [es[k]] == es[..k + 1];
        Do(es[k]);
      }
      assert es[..|es|] == es;
    }

    /**
     * What left the board in a run: besides our own ARP packets exactly one frame per
     * reply, in order, each the server's answer to one received request, to its sender.
     */
    lemma WireProvenance(net: Net, es: seq<Event>)
      requires Valid() && Abs() == Run(bus, Boot(net), es)
      ensures (forall k | 0 <= k < |out| && IsArpType(out[k]) :: ArpOut(out[k]))
      ensures |DataFrames(out)| == |sent|
      ensures forall k | 0 <= k < |sent| :: Carries(DataFrames(out)[k], sent[k]) && Explained(bus, net, es, sent[k])
      ensures forall i, j | 0 <= i < j < |sent| :: Before(sent[i], sent[j])
    {
      hide Explained, Carries, ArpOut, IsArpType, Run, DataFrames;
      ReplyProvenance(bus, net, es);
    }
  }

  lemma RouteIs(n: Net, d: Datagram)
    ensures ReplyRoute(n, d) == Route(d.mac, n.mac, n.ip, d.srcIp, d.dstPort, d.srcPort)
  {
  }

  lemma ConfigureStep(bus: Bus, s: Sys, ip: u32, rx: Handler, bx: Handler)
    ensures Step(bus, s, Configure(ip, rx, bx)) == s.(net := s.net.(ip := ip, rx := rx, bx := bx), now := s.now + 1)
  {
  }

  /** What one poll sends. */
  function PollSends(n: Net, rx: Option<Received>): seq<Bytes> {
    if rx.Some? then Replies(n, rx.value) else []
  }

  /** What udp_arp_resolve sends up to its poll `polls`: a request before every 100000th, and what the polls answer. */
  function Sends(n: Net, ip: u32, arrivals: Arrivals, polls: nat): seq<Bytes> {
    if polls == 0 then []
    else
      Sends(n, ip, arrivals, polls - 1)
      + (if (polls - 1) % 100000 == 0 then [ArpRequest(n, ip)] else [])
      + PollSends(n, arrivals(polls - 1))
  }

  lemma {:induction false} SameSends(n: Net, n': Net, ip: u32, arrivals: Arrivals, polls: nat)
    requires n.mac == n'.mac && n.ip == n'.ip
    ensures Sends(n, ip, arrivals, polls) == Sends(n', ip, arrivals, polls)
    ensures ArpRequest(n, ip) == ArpRequest(n', ip)
  {
    hide ArpFrame, PadTo, PollSends;
    if polls > 0 {
      SameSends(n, n', ip, arrivals, polls - 1);
      SameReplies(n, n', arrivals(polls - 1));
    }
  }

  lemma SendsGrow(n: Net, n': Net, ip: u32, arrivals: Arrivals, p: nat, timeout: nat, out0: seq<Bytes>)
    requires n.mac == n'.mac && n.ip == n'.ip && timeout <= p && (p - timeout) % 100000 == 0 && timeout < 100000
    ensures out0 + Sends(n, ip, arrivals, p) + (if timeout == 0 then [ArpRequest(n, ip)] else [])
              + PollSends(n', arrivals(p))
            == out0 + Sends(n, ip, arrivals, p + 1) + []
  {
    hide ArpRequest, PollSends;
    assert p % 100000 == timeout;
    var a, b, c := Sends(n, ip, arrivals, p), if timeout == 0 then [ArpRequest(n, ip)] else [], PollSends(n, arrivals(p));
    assert Sends(n, ip, arrivals, p + 1) == a + b + c;
    SameReplies(n, n', arrivals(p));
    assert out0 + a + b + c == out0 + (a + b + c) + [];
  }

  lemma SameReplies(n: Net, n': Net, rx: Option<Received>)
    requires n.mac == n'.mac && n.ip == n'.ip
    ensures PollSends(n, rx) == PollSends(n', rx)
  {
    hide ArpFrame, PadTo;
  }

  lemma {:induction false} FirstSend(n: Net, n': Net, ip: u32, arrivals: Arrivals, polls: nat)
    requires n.mac == n'.mac && n.ip == n'.ip && polls > 0
    ensures Sends(n, ip, arrivals, polls) != [] && Sends(n, ip, arrivals, polls)[0] == ArpRequest(n', ip)
  {
    if polls > 1 {
      FirstSend(n, n', ip, arrivals, polls - 1);
    }
  }

  /** After the frames `was`, the next one sent is a broadcast ARP request for `ip`. */
  ghost predicate Asked(n: Net, was: seq<Bytes>, out: seq<Bytes>, ip: u32) {
    && |out| > |was| && was <= out
    && out[|was|] == ArpRequest(n, ip)
  }

  lemma RunNothing(bus: Bus, s: Sys)
    ensures Run(bus, s, []) == s
  {
  }

  lemma RunOne(bus: Bus, s: Sys, es: seq<Event>, e: Event)
    ensures Run(bus, s, es + [e]) == Step(bus, Run(bus, s, es), e)
    ensures es == [] ==> Run(bus, s, [e]) == Step(bus, s, e)
  {
    assert (es + [e])[..|es|] == es;
    assert es == [] ==> es + [e] == [e];
  }

  lemma PeerStep(bus: Bus, s: Sys, ip: u32, mac: Mac)
    ensures Step(bus, s, Peer(ip, mac)) == s.(net := s.net.(peerIp := ip, peerMac := mac), now := s.now + 1)
  {
  }

  /** The first `n` polls of the arrivals. */
  function Polls(arrivals: Arrivals, n: nat): (es: seq<Event>)
    ensures |es| == n
  {
    seq(n, k requires 0 <= k => Poll(arrivals(k)))
  }

  lemma PollsGrow(arrivals: Arrivals, n: nat)
    ensures Polls(arrivals, n + 1) == Polls(arrivals, n) + [Poll(arrivals(n))]
  {
  }

  /** Poll `k` brings an ARP reply from `ip` with a MAC in it. */
  predicate Learns(ip: u32, arrivals: Arrivals, k: nat) {
    var rx := arrivals(k);
    rx.Some? && IsArp(rx.value) && U16At(rx.value.slot, 20) == 2 && U32At(rx.value.slot, 28) == ip
    && rx.value.slot[22..28] != NO_MAC
  }

  ghost predicate NoneLearned(ip: u32, arrivals: Arrivals, n: nat) {
    forall k: nat | k < n :: !Learns(ip, arrivals, k)
  }

  /** The last of these polls is the first to bring such a reply, and the MAC is the one in it. */
  ghost predicate FoundAt(ip: u32, arrivals: Arrivals, polls: nat, mac: Mac) {
    && polls > 0 && NoneLearned(ip, arrivals, polls - 1)
    && Learns(ip, arrivals, polls - 1) && mac == arrivals(polls - 1).value.slot[22..28]
  }

  lemma NothingPolled(n: Net, ip: u32, arrivals: Arrivals)
    ensures NoneLearned(ip, arrivals, 0) && Polls(arrivals, 0) == [] && Sends(n, ip, arrivals, 0) == []
  {
  }

  /** While the peer's MAC is unknown, a poll finds it exactly in such a reply. */
  lemma PollLearns(bus: Bus, s: Sys, arrivals: Arrivals, k: nat)
    requires s.net.peerMac == NO_MAC
    ensures var n := Step(bus, s, Poll(arrivals(k))).net;
            && n.peerIp == s.net.peerIp && n.mac == s.net.mac && n.ip == s.net.ip
            && (n.peerMac != NO_MAC <==> Learns(s.net.peerIp, arrivals, k))
            && (n.peerMac != NO_MAC ==> n.peerMac == arrivals(k).value.slot[22..28])
  {
    hide Parse, Request;
  }

  /** udp_set_peer, memcpy into the transmit buffer, udp_send. */
  method SendTo(stack: Stack, ip: u32, mac: Mac, srcPort: u16, dstPort: u16, data: Bytes) returns (ok: bool)
    requires stack.Valid() && |data| <= MAX_PAYLOAD
    modifies stack`peerIp, stack`peerMac, stack`wire, stack`txslot, stack.tx0, stack.tx1
    ensures stack.Valid() && stack.State() == old(stack.State()).(peerIp := ip, peerMac := mac)
    ensures ok <==> mac != NO_MAC
    ensures !ok ==> stack.wire == old(stack.wire)
    ensures ok ==> |stack.wire| == |old(stack.wire)| + 1 && stack.wire[..|old(stack.wire)|] == old(stack.wire)
    ensures ok ==> UdpFrame(Route(mac, stack.mac, stack.ip, ip, srcPort, dstPort), data) <= stack.wire[|old(stack.wire)|]
  {
    hide UdpFrame, OnWire;
    stack.SetPeer(ip, mac);
    stack.PutPayload(data);
    OnWireCarriesFrame(stack.Buffer()[..], Route(mac, stack.mac, stack.ip, ip, srcPort, dstPort), |data|);
    ok := stack.Send(srcPort, dstPort, |data|);
  }

  lemma ReplyFits(bus: Bus, tr: seq<Access>, req: Bytes)
    requires Gate(req)
    ensures |req| <= EB_BUF_LEN && |Handle(bus, tr, req).reply| <= EB_BUF_LEN + 4 <= MAX_PAYLOAD
  {
    hide Handle;
    ReplyFitsRequest(bus, tr, req);
  }
}
