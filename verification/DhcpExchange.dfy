/** The DHCP client: the retried DISCOVER, OFFER, REQUEST, ACK exchange over the UDP stack. */
module DhcpExchange {
  import opened Bytes
  import opened Frames
  import opened UdpStack
  import opened DhcpMessage
  import Xid

  const CLIENT_PORT: u16 := 68
  const SERVER_PORT: u16 := 67
  const MAX_TRIES: nat := 5
  const REPLY_TIMEOUT_LOOPS: nat := 200000
  const MSGBUF: nat := MIN_LEN + 64

  /** Messages of the exchange in the order they happened. */
  datatype Entry =
    | Sent(frame: nat, msg: Bytes)       // handed to the MAC as that frame
    | Heard(poll: nat, msg: Bytes)       // kept by the receive callback at that poll

  function Kept(data: Bytes): Bytes {
    if |data| > MSGBUF then data[..MSGBUF] else data
  }

  /** The stack while a reply is awaited: everything to 255.255.255.255 reaches the client. */
  const LISTENING := Net(NO_MAC, LIMITED, NO_MAC, 0, DhcpClient, Nobody, NO_MAC)

  ghost predicate HeardAt(arrivals: Arrivals, poll: nat, msg: Bytes) {
    && arrivals(poll).Some?
    && match Dispatch(LISTENING, arrivals(poll).value)
       case Some(Call(DhcpClient, d)) => d.dstPort == CLIENT_PORT && d.srcPort == SERVER_PORT && msg == Kept(d.data)
       case _ => false
  }

  ghost predicate NothingHeard(arrivals: Arrivals, poll: nat) {
    forall m: Bytes :: !HeardAt(arrivals, poll, m)
  }

  /** The first message after poll `from` came within the time limit, as this entry says. */
  ghost predicate FirstHeard(arrivals: Arrivals, from: nat, e: Entry) {
    && e.Heard? && from <= e.poll < from + 200000 && HeardAt(arrivals, e.poll, e.msg)
    && forall p | from <= p < e.poll :: NothingHeard(arrivals, p)
  }

  /** The time limit passed and brought nothing. */
  ghost predicate Silence(arrivals: Arrivals, from: nat, polls: nat) {
    polls == from + 200000 && forall p | from <= p < polls :: NothingHeard(arrivals, p)
  }

  /** The frame carries `msg` from 0.0.0.0 port 68 to `to` port 67. */
  ghost predicate SentAs(frame: Bytes, mac: Mac, to: u32, msg: Bytes) {
    |msg| <= MAX_PAYLOAD && exists dst: Mac :: UdpFrame(Route(dst, mac, 0, to, CLIENT_PORT, SERVER_PORT), msg) <= frame
  }

  function SentCount(log: seq<Entry>): nat {
    if log == [] then 0 else SentCount(log[..|log| - 1]) + if log[|log| - 1].Sent? then 1 else 0
  }

  /**
   * The last four entries are one complete exchange under `xid`: the OFFER answers
   * the DISCOVER, the REQUEST names the offered address and server, and the ACK
   * grants that same address.
   */
  ghost predicate Granted(log: seq<Entry>, chaddr: Mac, xid: u32, ip: u32, secs: u32) {
    var n := |log|;
    && n >= 4
    && log[n - 4].Sent? && log[n - 3].Heard? && log[n - 2].Sent? && log[n - 1].Heard?
    && log[n - 3].poll < log[n - 1].poll
    && log[n - 4].msg == Discover(chaddr, xid)
    && var offer, ack := Reading(log[n - 3].msg, xid, OFFER), Reading(log[n - 1].msg, xid, ACK);
    && offer.Some? && ack.Some?
    && log[n - 2].msg == Request(chaddr, xid, offer.value.ip, offer.value.server)
    && ip == ack.value.ip == offer.value.ip
    && secs == (if ack.value.secs == 0 then 3600 else ack.value.secs)
  }

  /** How far one attempt that began at poll `from` can get: each message follows from what arrived. */
  ghost predicate Course(arrivals: Arrivals, from: nat, steps: seq<Entry>, chaddr: Mac, xid: u32) {
    && |steps| <= 4
    && (|steps| >= 1 ==> steps[0].Sent? && steps[0].msg == Discover(chaddr, xid))
    && (|steps| >= 2 ==> FirstHeard(arrivals, from, steps[1]))
    && (|steps| >= 3 ==>
          var offer := Reading(steps[1].msg, xid, OFFER);
          offer.Some? && steps[2].Sent? && steps[2].msg == Request(chaddr, xid, offer.value.ip, offer.value.server))
    && (|steps| == 4 ==> FirstHeard(arrivals, steps[1].poll + 1, steps[3]))
  }

  /**
   * Why an attempt went no further: no peer MAC at a send, nothing heard within the time
   * limit, a message that is not the awaited reply, or another address granted.
   */
  ghost predicate Stopped(arrivals: Arrivals, from: nat, polls: nat, steps: seq<Entry>, xid: u32, macBefore: Mac, mac: Mac) {
    match |steps|
    case 0 => macBefore == NO_MAC
    case 1 => Silence(arrivals, from, polls)
    case 2 => steps[1].Heard? && (Reading(steps[1].msg, xid, OFFER).None? || mac == NO_MAC)
    case 3 => steps[1].Heard? && Silence(arrivals, steps[1].poll + 1, polls)
    case _ =>
      var offer, ack := Reading(steps[1].msg, xid, OFFER), Reading(steps[3].msg, xid, ACK);
      offer.None? || ack.None? || ack.value.ip != offer.value.ip
  }

  lemma ListeningDispatch(n: Net, r: Received)
    requires n.ip == LIMITED && n.rx == DhcpClient
    ensures Dispatch(n, r) == Dispatch(LISTENING, r)
  {
    hide Parse;
    ParseAddressed(r);
  }

  lemma ParseAddressed(r: Received)
    ensures match Parse(LIMITED, r.slot, r.len) case Some((dst, _)) => dst == LIMITED case None => true
  {
    hide U16At, U32At;
  }

  lemma AfterFrameKeeps(n: Net, r: Received)
    ensures var n' := AfterFrame(n, r);
            n'.ip == n.ip && n'.mac == n.mac && n'.rx == n.rx && n'.bx == n.bx && n'.peerIp == n.peerIp
  {
    hide Parse, ArpAnswers;
  }

  class Client {
    const stack: Stack
    const gen: Xid.Generator
    const chaddr: Mac
    const arrivals: Arrivals
    var got: bool
    var msg: Bytes
    var polls: nat
    ghost var log: seq<Entry>

    constructor (stack: Stack, gen: Xid.Generator, chaddr: Mac, arrivals: Arrivals)
      requires stack.Valid()
      ensures this.stack == stack && this.gen == gen && this.chaddr == chaddr && this.arrivals == arrivals
      ensures Valid() && log == []
    {
      this.stack, this.gen, this.chaddr, this.arrivals := stack, gen, chaddr, arrivals;
      got, msg, polls, log := false, [], 0, [];
    }

    /** Every entry of the log really happened, on the wire or in an arrived frame. */
    ghost predicate Valid()
      reads this, stack
    {
      && stack.Valid()
      && (forall k | 0 <= k < |log| && log[k].Sent? ::
            log[k].frame < |stack.wire| && SentAs(stack.wire[log[k].frame], stack.mac, stack.peerIp, log[k].msg))
      && (forall k | 0 <= k < |log| && log[k].Heard? :: log[k].poll < polls && HeardAt(arrivals, log[k].poll, log[k].msg))
    }

    /** dhcp_rx_callback */
    method OnDatagram(d: Datagram)
      modifies this`got, this`msg
      ensures d.dstPort == CLIENT_PORT && d.srcPort == SERVER_PORT ==> got && msg == Kept(d.data)
      ensures !(d.dstPort == CLIENT_PORT && d.srcPort == SERVER_PORT) ==> got == old(got) && msg == old(msg)
    {
      if d.dstPort != CLIENT_PORT || d.srcPort != SERVER_PORT {
        return;
      }
      var length := |d.data|;
      if length > MSGBUF {
        length := MSGBUF;
      }
      msg := d.data[..length];
      got := true;
    }

    method Poll()
      requires Valid() && !got && stack.ip == LIMITED && stack.rx == DhcpClient
      modifies this, stack, stack.tx0, stack.tx1
      ensures Valid() && polls == old(polls) + 1 && old(stack.wire) <= stack.wire
      ensures stack.ip == LIMITED && stack.rx == DhcpClient && stack.mac == old(stack.mac) && stack.peerIp == old(stack.peerIp)
      ensures log == if got then old(log) + [Heard(old(polls), msg)] else old(log)
      ensures !got ==> NothingHeard(arrivals, old(polls))
    {
      hide AfterFrame, Dispatch, Replies, SentAs;
      var rx := arrivals(polls);
      if rx.Some? {
        AfterFrameKeeps(stack.State(), rx.value);
        ListeningDispatch(stack.State(), rx.value);
        var call := stack.ProcessFrame(rx.value);
        if call.Some? && call.value.who == DhcpClient {
          OnDatagram(call.value.datagram);
        }
      }
      if got {
        log := log + [Heard(polls, msg)];
      }
      polls := polls + 1;
    }

    method WaitForReply() returns (ok: bool)
      requires Valid() && stack.ip == LIMITED && stack.rx == DhcpClient
      modifies this, stack, stack.tx0, stack.tx1
      ensures Valid() && old(stack.wire) <= stack.wire && polls >= old(polls)
      ensures stack.ip == LIMITED && stack.rx == DhcpClient && stack.mac == old(stack.mac) && stack.peerIp == old(stack.peerIp)
      ensures !ok ==> log == old(log) && polls == old(polls) + REPLY_TIMEOUT_LOOPS
      ensures ok ==> |log| == |old(log)| + 1 && old(log) <= log
      ensures ok ==> log[|old(log)|].Heard? && log[|old(log)|].poll == polls - 1 && log[|old(log)|].msg == msg
      ensures ok ==> polls > old(polls)
      ensures if ok then FirstHeard(arrivals, old(polls), log[|old(log)|]) else Silence(arrivals, old(polls), polls)
    {
      hide SentAs, HeardAt, NothingHeard;
      got := false;
      for i := 0 to REPLY_TIMEOUT_LOOPS
        invariant Valid() && !got && old(stack.wire) <= stack.wire && polls == old(polls) + i && log == old(log)
        invariant forall p | old(polls) <= p < polls :: NothingHeard(arrivals, p)
        invariant stack.ip == LIMITED && stack.rx == DhcpClient && stack.mac == old(stack.mac) && stack.peerIp == old(stack.peerIp)
      {
        Poll();
        if got {
          return true;
        }
      }
      return false;
    }

    /** Send what is in the transmit buffer from the unleased address, then listen for broadcasts. */
    method SendMessage(ghost m: Bytes) returns (ok: bool)
      requires Valid() && stack.ip == 0
      requires |m| == MIN_LEN && stack.Buffer()[HEADERS..HEADERS + MIN_LEN] == m
      modifies this`log, stack, stack.tx0, stack.tx1
      ensures Valid() && old(stack.wire) <= stack.wire
      ensures stack.ip == (if ok then LIMITED else 0)
      ensures stack.rx == old(stack.rx) && stack.mac == old(stack.mac) && stack.peerIp == old(stack.peerIp)
      ensures stack.peerMac == old(stack.peerMac) && (ok <==> stack.peerMac != NO_MAC)
      ensures !ok ==> log == old(log)
      ensures ok ==> |log| == |old(log)| + 1 && old(log) <= log && log[|old(log)|].Sent? && log[|old(log)|].msg == m
    {
      hide UdpFrame, OnWire, HeardAt;
      ghost var r := stack.State().RouteFrom(CLIENT_PORT, SERVER_PORT);
      OnWireCarriesFrame(stack.Buffer()[..], r, MIN_LEN);
      ok := stack.Send(CLIENT_PORT, SERVER_PORT, MIN_LEN);
      if ok {
        ghost var frame := stack.wire[|stack.wire| - 1];
        assert UdpFrame(r, m) <= frame;
        assert SentAs(frame, stack.mac, stack.peerIp, m);
        log := log + [Sent(|stack.wire| - 1, m)];
        stack.ip := LIMITED;
      }
    }

    method SendDiscover(xid: u32) returns (ok: bool)
      requires Valid()
      modifies this`log, stack, stack.tx0, stack.tx1
      ensures Valid() && old(stack.wire) <= stack.wire && (ok ==> stack.ip == LIMITED)
      ensures stack.rx == old(stack.rx) && stack.mac == old(stack.mac) && stack.peerIp == old(stack.peerIp)
      ensures stack.peerMac == old(stack.peerMac) && (ok <==> stack.peerMac != NO_MAC)
      ensures !ok ==> log == old(log)
      ensures ok ==> |log| == |old(log)| + 1 && old(log) <= log
      ensures ok ==> log[|old(log)|].Sent? && log[|old(log)|].msg == Discover(chaddr, xid)
    {
      hide SentAs, HeardAt, Discover;
      stack.ip := 0;
      var len := BuildDiscover(stack.Buffer(), HEADERS, chaddr, xid);
      ok := SendMessage(Discover(chaddr, xid));
    }

    method SendRequest(xid: u32, ip: u32, server: u32) returns (ok: bool)
      requires Valid()
      modifies this`log, stack, stack.tx0, stack.tx1
      ensures Valid() && old(stack.wire) <= stack.wire && (ok ==> stack.ip == LIMITED)
      ensures stack.rx == old(stack.rx) && stack.mac == old(stack.mac) && stack.peerIp == old(stack.peerIp)
      ensures stack.peerMac == old(stack.peerMac) && (ok <==> stack.peerMac != NO_MAC)
      ensures !ok ==> log == old(log)
      ensures ok ==> |log| == |old(log)| + 1 && old(log) <= log
      ensures ok ==> log[|old(log)|].Sent? && log[|old(log)|].msg == Request(chaddr, xid, ip, server)
    {
      hide SentAs, HeardAt, Request;
      stack.ip := 0;
      var len := BuildRequest(stack.Buffer(), HEADERS, chaddr, xid, ip, server);
      ok := SendMessage(Request(chaddr, xid, ip, server));
    }

    /**
     * One attempt of dhcp_run.  Its messages are those the arrivals call for, and it fails
     * exactly when one of the reasons in `Stopped` holds.
     */
    method Attempt(xid: u32) returns (ok: bool, ip: u32, secs: u32)
      requires Valid() && stack.rx == DhcpClient
      modifies this, stack, stack.tx0, stack.tx1
      ensures Valid() && stack.rx == DhcpClient && stack.mac == old(stack.mac) && stack.peerIp == old(stack.peerIp)
      ensures old(log) <= log && SentCount(log) <= SentCount(old(log)) + 2
      ensures Course(arrivals, old(polls), log[|old(log)|..], chaddr, xid)
      ensures ok <==> !Stopped(arrivals, old(polls), polls, log[|old(log)|..], xid, old(stack.peerMac), stack.peerMac)
      ensures ok ==> |log| == |old(log)| + 4 && Granted(log, chaddr, xid, ip, secs)
    {
      hide SentAs, HeardAt, Discover, Request, Reading, SentCount, Granted, Valid, NothingHeard, FirstHeard, Silence;
      ok, ip, secs := false, 0, 0;
      ghost var l0 := log;
      CountSame(l0, l0);
      var sent := SendDiscover(xid);
      ghost var l1 := log;
      if !sent {
        return;
      }
      CountGrows(l0, l1);
      var heard := WaitForReply();
      ghost var l2 := log;
      if !heard {
        return;
      }
      CountGrows(l1, l2);
      var offer := ParseReply(msg, |msg|, xid, OFFER);
      assert msg[..|msg|] == msg;
      if offer.None? {
        return;
      }
      sent := SendRequest(xid, offer.value.ip, offer.value.server);
      ghost var l3 := log;
      if !sent {
        return;
      }
      CountGrows(l2, l3);
      heard := WaitForReply();
      if !heard {
        return;
      }
      CountGrows(l3, log);
      var ack := ParseReply(msg, |msg|, xid, ACK);
      assert msg[..|msg|] == msg;
      if ack.None? {
        return;
      }
      if ack.value.ip != offer.value.ip {
        return;
      }
      ip := ack.value.ip;
      secs := if ack.value.secs != 0 then ack.value.secs else 3600;
      Complete(log, l0, chaddr, xid, offer.value, ack.value);
      return true, ip, secs;
    }

    /**
     * dhcp_run: up to five attempts, each under a fresh transaction id.  A lease is
     * reported only after one complete exchange inside the attempt that reports it, and
     * every attempt before that one stopped for one of the reasons in `Stopped`.
     */
    method Acquire() returns (ok: bool, ip: u32, secs: u32, ghost xid: u32, ghost tries: seq<Try>)
      requires Valid()
      modifies this, stack, stack.tx0, stack.tx1, gen
      ensures Valid() && stack.rx == Nobody
      ensures 1 <= |tries| <= 5 && (!ok ==> |tries| == 5) && xid == gen.x == tries[|tries| - 1].xid
      ensures Tried(arrivals, chaddr, old(gen.x), old(polls), old(stack.peerMac), tries)
      ensures forall k | 0 <= k < |tries| :: Failed(arrivals, tries[k]) <==> !(ok && k == |tries| - 1)
      ensures log == old(log) + StepsOf(tries) && SentCount(log) <= SentCount(old(log)) + 10
      ensures ok ==> |old(log)| + 4 <= |log| && Granted(log, chaddr, xid, ip, secs) && secs != 0
    {
      hide SentCount, Granted, Course, Stopped, Tried, Failed, StepsOf, Until, MacNow, Valid, Xid.Draw, Xid.Next;
      ListenAs(DhcpClient);
      tries := [];
      NoTries(arrivals, chaddr, gen.x, polls, stack.peerMac);
      for attempt := 0 to MAX_TRIES
        invariant Valid() && stack.rx == DhcpClient && stack.mac == old(stack.mac) && stack.peerIp == old(stack.peerIp)
        invariant |tries| == attempt && gen.x == Xid.Draw(old(gen.x), attempt)
        invariant attempt > 0 ==> gen.x == tries[attempt - 1].xid
        invariant Tried(arrivals, chaddr, old(gen.x), old(polls), old(stack.peerMac), tries)
        invariant polls == Until(old(polls), tries) && stack.peerMac == MacNow(old(stack.peerMac), tries)
        invariant forall k | 0 <= k < |tries| :: Failed(arrivals, tries[k])
        invariant log == old(log) + StepsOf(tries) && SentCount(log) <= SentCount(old(log)) + 2 * attempt
      {
        ghost var l, p, m := log, polls, stack.peerMac;
        var id := gen.NextXid();
        ok, ip, secs := Attempt(id);
        ghost var t := Try(id, p, polls, log[|l|..], m, stack.peerMac);
        FailedIs(arrivals, t);
        OneMoreTry(arrivals, chaddr, old(gen.x), old(polls), old(stack.peerMac), tries, t);
        assert log == l + t.steps;
        Regroup(old(log), StepsOf(tries), t.steps);
        tries := tries + [t];
        if ok {
          LeaseIsPositive(log, chaddr, id, ip, secs);
          ListenAs(Nobody);
          xid := id;
          return;
        }
      }
      ListenAs(Nobody);
      ok, ip, secs, xid := false, 0, 0, gen.x;
    }

    /** udp_set_callback */
    method ListenAs(who: Handler)
      requires Valid()
      modifies stack`rx
      ensures Valid() && stack.rx == who
    {
      hide SentAs, HeardAt;
      stack.rx := who;
    }
  }

  /** One attempt: its id, the polls it spans, its messages, and the peer MAC before and after. */
  datatype Try = Try(xid: u32, from: nat, until: nat, steps: seq<Entry>, macBefore: Mac, mac: Mac)

  ghost predicate Failed(arrivals: Arrivals, t: Try) {
    Stopped(arrivals, t.from, t.until, t.steps, t.xid, t.macBefore, t.mac)
  }

  lemma FailedIs(arrivals: Arrivals, t: Try)
    ensures Failed(arrivals, t) <==> Stopped(arrivals, t.from, t.until, t.steps, t.xid, t.macBefore, t.mac)
  {
  }

  function Until(polls: nat, ts: seq<Try>): nat {
    if ts == [] then polls else ts[|ts| - 1].until
  }

  function MacNow(mac: Mac, ts: seq<Try>): Mac {
    if ts == [] then mac else ts[|ts| - 1].mac
  }

  function StepsOf(ts: seq<Try>): seq<Entry> {
    if ts == [] then [] else StepsOf(ts[..|ts| - 1]) + ts[|ts| - 1].steps
  }

  /** The attempts follow one another, each under the next draw, and each runs its course. */
  ghost predicate Tried(arrivals: Arrivals, chaddr: Mac, x: u32, polls: nat, mac: Mac, ts: seq<Try>) {
    forall k | 0 <= k < |ts| ::
      && ts[k].xid == Xid.Draw(x, k + 1)
      && ts[k].from == Until(polls, ts[..k]) && ts[k].macBefore == MacNow(mac, ts[..k])
      && Course(arrivals, ts[k].from, ts[k].steps, chaddr, ts[k].xid)
  }

  lemma NoTries(arrivals: Arrivals, chaddr: Mac, x: u32, polls: nat, mac: Mac)
    ensures Tried(arrivals, chaddr, x, polls, mac, []) && StepsOf([]) == [] && Xid.Draw(x, 0) == x
    ensures Until(polls, []) == polls && MacNow(mac, []) == mac
  {
  }

  lemma OneMoreTry(arrivals: Arrivals, chaddr: Mac, x: u32, polls: nat, mac: Mac, ts: seq<Try>, t: Try)
    requires Tried(arrivals, chaddr, x, polls, mac, ts)
    requires t.xid == Xid.Next(Xid.Draw(x, |ts|)) && t.from == Until(polls, ts) && t.macBefore == MacNow(mac, ts)
    requires Course(arrivals, t.from, t.steps, chaddr, t.xid)
    ensures Tried(arrivals, chaddr, x, polls, mac, ts + [t]) && StepsOf(ts + [t]) == StepsOf(ts) + t.steps
    ensures t.xid == Xid.Draw(x, |ts| + 1)
    ensures Until(polls, ts + [t]) == t.until && MacNow(mac, ts + [t]) == t.mac
  {
    hide Course, Xid.Next;
    var all := ts + [t];
    assert all[..|ts|] == ts;
    forall k | 0 <= k < |all|
      ensures all[k].xid == Xid.Draw(x, k + 1) && all[k].from == Until(polls, all[..k])
      ensures all[k].macBefore == MacNow(mac, all[..k])
      ensures Course(arrivals, all[k].from, all[k].steps, chaddr, all[k].xid)
    {
      if k < |ts| {
        assert all[..k] == ts[..k] && all[k] == ts[k];
      }
    }
  }

  lemma Regroup(a: seq<Entry>, b: seq<Entry>, c: seq<Entry>)
    ensures (a + b) + c == a + (b + c)
  {
  }

  lemma LeaseIsPositive(log: seq<Entry>, chaddr: Mac, xid: u32, ip: u32, secs: u32)
    requires Granted(log, chaddr, xid, ip, secs)
    ensures secs != 0
  {
  }

  lemma CountSame(l: seq<Entry>, l': seq<Entry>)
    requires l == l'
    ensures SentCount(l') == SentCount(l)
  {
  }

  lemma CountGrows(l: seq<Entry>, l': seq<Entry>)
    requires |l'| == |l| + 1 && l <= l'
    ensures SentCount(l') == SentCount(l) + if l'[|l|].Sent? then 1 else 0
  {
    assert l'[..|l|] == l;
  }

  lemma Complete(log: seq<Entry>, l0: seq<Entry>, chaddr: Mac, xid: u32, offer: Lease, ack: Lease)
    requires |log| == |l0| + 4
    requires var n := |l0|;
             && log[n].Sent? && log[n + 1].Heard? && log[n + 2].Sent? && log[n + 3].Heard?
             && log[n + 1].poll < log[n + 3].poll
             && log[n].msg == Discover(chaddr, xid)
             && Reading(log[n + 1].msg, xid, OFFER) == Some(offer)
             && log[n + 2].msg == Request(chaddr, xid, offer.ip, offer.server)
             && Reading(log[n + 3].msg, xid, ACK) == Some(ack)
    requires ack.ip == offer.ip
    ensures Granted(log, chaddr, xid, ack.ip, if ack.secs != 0 then ack.secs else 3600)
  {
    hide Discover, Request, Reading;
  }
}
