/**
 * The host's register access over the lossy network: retried reads matched by a
 * counter, and writes delivered once and in order.  The network may lose, repeat,
 * delay and reorder read requests and replies, echo the host's own datagrams and
 * inject noise; the board keeps running all the while.
 */
module HostLink {
  import opened Bytes
  import opened Etherbone
  import opened Bridge

  // ---- the datagrams ------------------------------------------------------------

  function Packet(r: Record): Bytes {
    Header(false) + EncodeRecord(r)
  }

  function ReadRequest(id: u32, addrs: seq<u32>): Bytes {
    Packet(Record(0, [], id, addrs))
  }

  function WriteRequest(addr: u32, val: u32): Bytes {
    Packet(Record(addr, [val], 0, []))
  }

  /** The host's test of a received datagram: a whole packet whose last record writes to `id`. */
  function Accept(b: Bytes, id: u32): Option<seq<u32>> {
    if !IsEtherbone(b) || b[2] % 4 != 0 || !Whole(b, 8) then None
    else
      var rs := Decode(b, 8);
      if rs == [] then None
      else
        var r := rs[|rs| - 1];
        if r.wdata == [] || r.wbase != id then None else Some(r.wdata)
  }

  lemma PacketDecodes(r: Record)
    requires Encodable(r)
    ensures var b := Packet(r);
            IsEtherbone(b) && !IsProbe(b) && b[2] % 4 == 0 && Whole(b, 8) && Decode(b, 8) == [r]
  {
    hide EncodeRecord;
    PacketHolds(false, EncodeRecord(r));
    EncodeSingle(r);
    assert Packet(r)[2] == Header(false)[2];
    assert [r][1..] == [];
    DecodeEncode(Packet(r), 8, [r]);
  }

  /** A read request coming back as an echo is never taken for a reply. */
  lemma ReadEchoRejected(id: u32, addrs: seq<u32>, live: u32)
    requires 0 < |addrs| < 0x100
    ensures Accept(ReadRequest(id, addrs), live) == None
  {
    hide Decode, Whole, Packet;
    PacketDecodes(Record(0, [], id, addrs));
  }

  lemma WriteEchoRejected(addr: u32, val: u32, live: u32)
    requires live != addr
    ensures Accept(WriteRequest(addr, val), live) == None
  {
    hide Decode, Whole, Packet;
    PacketDecodes(Record(addr, [val], 0, []));
  }

  /** A datagram too short for a header is never taken for a reply. */
  lemma EmptyRejected(live: u32)
    ensures Accept([], live) == None
  {
  }

  /** The board's reply is accepted under the request's id only, and carries the values its bus reads returned. */
  lemma ReplyAccepted(bus: Bus, tr: seq<Access>, id: u32, addrs: seq<u32>, live: u32)
    requires 0 < |addrs| < 0x100
    ensures var s := Handle(bus, tr, ReadRequest(id, addrs));
            && s.trace == DoReads(bus, tr, addrs) && s.reply != []
            && Accept(s.reply, live) == if live == id then Some(ReadVals(bus, tr, addrs)) else None
  {
    hide Decode, Whole, Packet, AnswersBytes, Header, IsEtherbone;
    var r := Record(0, [], id, addrs);
    PacketDecodes(r);
    var a := Answer(id, ReadVals(bus, tr, addrs));
    OneAnswer(bus, tr, r, a);
    var reply := Reply([a]);
    ReplyReparses([a]);
    assert [a][..0] == [];
    assert AsWrites([a]) == [Record(id, a.vals, 0, [])];
    ReplyFlags([a]);
  }

  lemma ReplyFlags(answers: seq<Answer>)
    requires answers != []
    ensures |Reply(answers)| >= 8 && Reply(answers)[2] % 4 == 0
  {
    hide AnswersBytes;
    assert Reply(answers)[2] == Header(false)[2];
  }

  lemma OneAnswer(bus: Bus, tr: seq<Access>, r: Record, a: Answer)
    requires r.wdata == [] && 0 < |r.raddrs| < 0x100 && a == Answer(r.ret, ReadVals(bus, tr, r.raddrs))
    ensures Interpret(bus, Outcome(tr, []), [r]) == Outcome(DoReads(bus, tr, r.raddrs), [a]) && Answerable([a])
  {
    hide DoReads, ReadVals;
    assert [r][1..] == [];
    assert [] + [a] == [a] && [a][..0] == [];
  }

  /** A write request makes exactly its one bus access and earns no reply. */
  lemma WriteExecutes(bus: Bus, tr: seq<Access>, addr: u32, val: u32)
    ensures Handle(bus, tr, WriteRequest(addr, val)) == Served(tr + [Wr(addr, val)], [])
  {
    hide Decode, Whole, Packet, Header, IsEtherbone;
    var r := Record(addr, [val], 0, []);
    PacketDecodes(r);
    assert [val][..0] == [];
    assert DoWrites(tr, addr, [val][..0]) == tr;
    assert DoWrites(tr, addr, [val]) == tr + [Wr(addr % 0x1_0000_0000, val)];
    assert Exec(bus, Outcome(tr, []), r) == Outcome(tr + [Wr(addr, val)], []);
    assert [r][1..] == [];
    assert Interpret(bus, Outcome(tr, []), [r]) == Outcome(tr + [Wr(addr, val)], []);
  }

  // ---- the board behind it ----------------------------------------------------------

  /** Where the console registers are mapped. */
  datatype Regs = Regs(rx: u32, pop: u32, tx: u32, txData: u32, err: u32, errClear: u32) {
    predicate Distinct() {
      && rx != tx && rx != err && tx != err
      && pop != txData && pop != errClear && txData != errClear
    }
  }

  /** The bridge after the first `t` cycles of a history. */
  function StateAt(c: Config, ins: seq<Input>, t: nat): State
    requires t <= |ins|
  {
    Run(c, Reset({}), ins[..t])
  }

  function RegValue(c: Config, g: Regs, s: State, addr: u32): u32
    requires c.Valid() && Inv(c, s)
  {
    if addr == g.rx then RxWord(c, s)
    else if addr == g.tx then TxWord(c, s)
    else if addr == g.err then ErrWord(s.sticky)
    else 0
  }

  function ReadAt(c: Config, g: Regs, ins: seq<Input>, t: nat, addr: u32): u32
    requires c.Valid() && t <= |ins|
  {
    RunKeepsInv(c, Reset({}), ins[..t]);
    RegValue(c, g, StateAt(c, ins, t), addr)
  }

  /** What a bus write does to the bridge in its cycle. */
  function AccessInput(g: Regs, addr: u32, val: u32, core: Option<byte>, phyReady: bool): Input {
    Input(core, phyReady, addr == g.pop, if addr == g.txData then Some(val % 0x100) else None,
          if addr == g.errClear then FaultsIn(val) else {}, false)
  }

  /** A cycle in which the host does nothing. */
  predicate Quiet(i: Input) {
    !i.pop && i.txData.None? && i.clear == {} && !i.reset
  }

  ghost predicate QuietFrom(ins: seq<Input>, a: nat, b: nat) {
    a <= b <= |ins| && forall t | a <= t < b :: Quiet(ins[t])
  }

  lemma QuietNone(ins: seq<Input>)
    ensures QuietFrom(ins, |ins|, |ins|)
  {
  }

  lemma QuietJoins(ins: seq<Input>, ins': seq<Input>, t: nat, mid: nat)
    requires ins <= ins' && t <= |ins| <= mid && QuietFrom(ins, t, |ins|) && QuietFrom(ins', |ins|, mid)
    ensures QuietFrom(ins', t, mid)
  {
    forall k | t <= k < mid ensures Quiet(ins'[k]) {
      if k < |ins| {
        assert ins'[k] == ins[k];
      }
    }
  }

  lemma StateAtStays(c: Config, ins: seq<Input>, ins': seq<Input>, t: nat)
    requires t <= |ins| && ins <= ins'
    ensures StateAt(c, ins', t) == StateAt(c, ins, t)
  {
    assert ins'[..t] == ins[..t];
  }

  /** A read request on the wire: what it asks and when it was sent. */
  datatype Ask = Ask(addrs: seq<u32>, at: nat)

  /** A reply in flight: to which request, its bytes, and when each value was read. */
  datatype Parcel = Parcel(ask: nat, bytes: Bytes, vals: seq<u32>, times: seq<nat>)

  /** The bus during one execution: access number n happens at times[n]. */
  function BusAt(c: Config, g: Regs, ins: seq<Input>, times: seq<nat>): Bus
    requires c.Valid() && forall k | 0 <= k < |times| :: times[k] <= |ins|
  {
    (tr: seq<Access>, addr: u32) => if |tr| < |times| then ReadAt(c, g, ins, times[|tr|], addr) else 0
  }

  /** The parcel's values were read from the bridge after its request was sent. */
  ghost predicate Genuine(c: Config, g: Regs, ins: seq<Input>, asks: seq<Ask>, p: Parcel)
    requires c.Valid()
  {
    && p.ask < |asks| && |p.vals| == |p.times| == |asks[p.ask].addrs|
    && (forall i | 0 <= i < |p.times| ::
          && asks[p.ask].at <= p.times[i] <= |ins|
          && p.vals[i] == ReadAt(c, g, ins, p.times[i], asks[p.ask].addrs[i]))
    && (forall id: u32 :: Accept(p.bytes, id) == if id == p.ask + 1 then Some(p.vals) else None)
  }

  lemma GenuineStays(c: Config, g: Regs, ins: seq<Input>, ins': seq<Input>, asks: seq<Ask>, asks': seq<Ask>, p: Parcel)
    requires c.Valid() && ins <= ins' && asks <= asks' && Genuine(c, g, ins, asks, p)
    ensures Genuine(c, g, ins', asks', p)
  {
    hide Accept, RegValue;
    forall i | 0 <= i < |p.times|
      ensures p.vals[i] == ReadAt(c, g, ins', p.times[i], asks'[p.ask].addrs[i])
    {
      StateAtStays(c, ins, ins', p.times[i]);
    }
  }

  ghost predicate AllGenuine(c: Config, g: Regs, ins: seq<Input>, asks: seq<Ask>, ps: seq<Parcel>)
    requires c.Valid()
  {
    forall j | 0 <= j < |ps| :: Genuine(c, g, ins, asks, ps[j])
  }

  lemma AllGenuineStays(c: Config, g: Regs, ins: seq<Input>, ins': seq<Input>, asks: seq<Ask>, asks': seq<Ask>, ps: seq<Parcel>)
    requires c.Valid() && ins <= ins' && asks <= asks' && AllGenuine(c, g, ins, asks, ps)
    ensures AllGenuine(c, g, ins', asks', ps)
  {
    hide Genuine;
    forall j | 0 <= j < |ps| ensures Genuine(c, g, ins', asks', ps[j]) {
      GenuineStays(c, g, ins, ins', asks, asks', ps[j]);
    }
  }

  /** Executing a request at the given times produces a genuine parcel. */
  lemma ExecutionIsGenuine(c: Config, g: Regs, ins: seq<Input>, asks: seq<Ask>, j: nat, times: seq<nat>)
    requires c.Valid() && j < |asks| && j + 1 < 0x1_0000_0000
    requires |times| == |asks[j].addrs| && 0 < |times| < 0x100
    requires forall i | 0 <= i < |times| :: asks[j].at <= times[i] <= |ins|
    ensures var bus := BusAt(c, g, ins, times);
            Genuine(c, g, ins, asks,
                    Parcel(j, Handle(bus, [], ReadRequest(j + 1, asks[j].addrs)).reply, ReadVals(bus, [], asks[j].addrs), times))
  {
    hide Accept, Handle, ReadRequest, ReadAt;
    var bus, addrs := BusAt(c, g, ins, times), asks[j].addrs;
    forall i | 0 <= i < |times| ensures ReadVals(bus, [], addrs)[i] == ReadAt(c, g, ins, times[i], addrs[i]) {
      ReadsAnswer(bus, [], addrs, i);
    }
    var reply := Handle(bus, [], ReadRequest(j + 1, addrs)).reply;
    forall id: u32 ensures Accept(reply, id) == if id == j + 1 then Some(ReadVals(bus, [], addrs)) else None {
      ReplyAccepted(bus, [], j + 1, addrs, id);
    }
  }

  /** A cycle with no new byte is always within the in-flight bound. */
  lemma IdleIsAllowed(c: Config, k: nat, s: State, ins: seq<Input>, i: Input)
    requires InFlightBounded(c, k, s, ins) && i.core.None?
    ensures InFlightBounded(c, k, s, ins + [i])
  {
    assert Init(ins + [i]) == ins;
    if ins != [] && Run(c, s, ins).stall {
      assert InFlight(c, s, ins + [i]) == InFlight(c, s, ins);
    }
  }

  /** On each of these requests the socket timed out, and it handed over no reply to it. */
  ghost predicate Missed(heard: seq<nat>, silent: seq<nat>, a: int, b: int) {
    forall j: nat | a <= j < b :: j in silent && j !in heard
  }

  lemma NoneMissed(heard: seq<nat>, silent: seq<nat>, a: nat)
    ensures Missed(heard, silent, a, a)
  {
  }

  lemma MissedOneMore(heard: seq<nat>, silent: seq<nat>, a: nat, b: nat)
    requires Missed(heard, silent, a, b) && a <= b && forall j | j in heard :: j < a
    ensures Missed(heard, silent + [b], a, b + 1)
  {
    assert b in silent + [b];
  }

  /** A reply to request `b` breaks the silence and changes nothing about those before it. */
  lemma MissedUntil(heard: seq<nat>, silent: seq<nat>, a: nat, b: nat)
    requires Missed(heard, silent, a, b)
    ensures Missed(heard + [b], silent, a, b) && !Missed(heard + [b], silent, b + 1 - 10, b + 1)
  {
    assert b in heard + [b];
  }

  class World {
    const cfg: Config
    const inFlight: nat                   // bytes that can arrive while the stall is up
    const regs: Regs
    var ins: seq<Input>                   // every cycle of the bridge so far
    var counter: nat                      // read_counter
    var asks: seq<Ask>
    var parcels: seq<Parcel>
    var writes: seq<(u32, u32)>
    var patience: nat                     // datagrams that still arrive before the socket times out
    ghost var heard: seq<nat>             // requests whose reply the socket handed over while it was awaited
    ghost var silent: seq<nat>            // requests on which the socket timed out

    constructor (cfg: Config, inFlight: nat, regs: Regs)
      requires cfg.Valid() && regs.Distinct()
      ensures this.cfg == cfg && this.inFlight == inFlight && this.regs == regs && Valid() && ins == [] && counter == 0
      ensures asks == [] && heard == [] && silent == [] && parcels == []
    {
      this.cfg, this.inFlight, this.regs := cfg, inFlight, regs;
      ins, counter, asks, parcels, writes, patience, heard, silent := [], 0, [], [], [], 0, [], [];
    }

    ghost predicate Valid()
      reads this
    {
      && cfg.Valid() && regs.Distinct()
      && NoReset(ins) && InFlightBounded(cfg, inFlight, Reset({}), ins)
      && counter == |asks| < 0x1_0000_0000
      && (forall j | 0 <= j < |asks| :: 0 < |asks[j].addrs| < 0x100 && asks[j].at <= |ins|)
      && AllGenuine(cfg, regs, ins, asks, parcels)
      && (forall j | j in heard :: j < |asks|) && (forall j | j in silent :: j < |asks|)
      && (forall j | 0 <= j < |writes| :: writes[j].0 == regs.pop || writes[j].0 == regs.txData || writes[j].0 == regs.errClear)
    }

    /** The next `n` read ids fit 32 bits and collide with no register the host writes. */
    predicate Budget(n: nat)
      reads this`counter
    {
      counter + n < regs.pop && counter + n < regs.txData && counter + n < regs.errClear
    }

    /** One clock edge; a byte the environment may not send now is held back. */
    method Cycle(i: Input)
      requires Valid() && !i.reset
      modifies this`ins
      ensures Valid() && |ins| == |old(ins)| + 1 && old(ins) <= ins
      ensures ins[|old(ins)|] == if InFlightBounded(cfg, inFlight, Reset({}), old(ins) + [i]) then i else i.(core := None)
    {
      hide InFlightBounded, Genuine;
      var j := if InFlightBounded(cfg, inFlight, Reset({}), ins + [i]) then i else i.(core := None);
      IdleIsAllowed(cfg, inFlight, Reset({}), ins, i.(core := None));
      AllGenuineStays(cfg, regs, ins, ins + [j], asks, asks, parcels);
      ins := ins + [j];
    }

    /** The board executes a request that was sent, at any time, and its reply sets off. */
    method Execute(j: nat, times: seq<nat>)
      requires Valid() && j < |asks|
      requires |times| == |asks[j].addrs| && forall i | 0 <= i < |times| :: asks[j].at <= times[i] <= |ins|
      modifies this`parcels
      ensures Valid() && |parcels| == |old(parcels)| + 1
      ensures parcels[|old(parcels)|].ask == j && parcels[|old(parcels)|].times == times
    {
      hide InFlightBounded, Genuine, Handle, ReadRequest;
      ExecutionIsGenuine(cfg, regs, ins, asks, j, times);
      var bus := BusAt(cfg, regs, ins, times);
      var addrs := asks[j].addrs;
      parcels := parcels + [Parcel(j, Handle(bus, [], ReadRequest(j + 1, addrs)).reply, ReadVals(bus, [], addrs), times)];
    }

    /** Time passes: any number of cycles and of executions of requests sent so far. */
    method Pass()
      requires Valid()
      modifies this`ins, this`parcels
      ensures Valid() && old(ins) <= ins && QuietFrom(ins, |old(ins)|, |ins|)
    {
      hide InFlightBounded, AllGenuine;
      var n: int := *;
      while n > 0
        invariant Valid() && old(ins) <= ins && QuietFrom(ins, |old(ins)|, |ins|)
      {
        var tick: bool := *;
        if tick {
          var core: Option<byte>, phyReady: bool := *, *;
          Cycle(Input(core, phyReady, false, None, {}, false));
        } else {
          var j: nat, times: seq<nat> := *, *;
          if j < |asks| && |times| == |asks[j].addrs| && forall i | 0 <= i < |times| :: asks[j].at <= times[i] <= |ins| {
            Execute(j, times);
          }
        }
        n := n - 1;
      }
    }

    /** The last ten requests, as many as one read makes, went unanswered. */
    ghost predicate Unanswered()
      reads this`asks, this`heard, this`silent
    {
      |asks| >= 10 && Missed(heard, silent, |asks| - 10, |asks|)
    }

    /**
     * Anything the socket can hand over, or a timeout; noise never forges the live id.
     * The network decides how many datagrams arrive before the timeout.
     */
    method Receive() returns (r: Option<Bytes>)
      requires Valid() && 0 < |asks| && Budget(0)
      modifies this`ins, this`parcels, this`patience, this`heard, this`silent
      ensures Valid() && old(ins) <= ins && QuietFrom(ins, |old(ins)|, |ins|)
      ensures r.Some? ==>
                || Accept(r.value, counter) == None
                || exists p :: p in parcels && p.bytes == r.value
      ensures if r.None? then old(patience) == patience == 0 else old(patience) == patience + 1
      ensures heard == if r.Some? && Accept(r.value, counter).Some? then old(heard) + [|asks| - 1] else old(heard)
      ensures silent == if r.None? then old(silent) + [|asks| - 1] else old(silent)
    {
      hide InFlightBounded, Genuine, Accept;
      Pass();
      if patience == 0 {
        Miss();
        return None;
      }
      patience := patience - 1;
      var b := Arrival();
      if Accept(b, counter).Some? {
        Hear();
      }
      return Some(b);
    }

    /** What the network may deliver now. */
    method Arrival() returns (b: Bytes)
      requires Valid() && 0 < |asks| && Budget(0)
      ensures Accept(b, counter) == None || exists p :: p in parcels && p.bytes == b
    {
      hide InFlightBounded, Genuine, Accept, ReadRequest, WriteRequest;
      var what: int, j: nat, noise: Bytes := *, *, *;
      if what == 0 && j < |parcels| {
        assert parcels[j] in parcels;
        return parcels[j].bytes;
      } else if what == 1 && j < |asks| {
        ReadEchoRejected(j + 1, asks[j].addrs, counter);
        return ReadRequest(j + 1, asks[j].addrs);
      } else if what == 2 && j < |writes| {
        WriteEchoRejected(writes[j].0, writes[j].1, counter);
        return WriteRequest(writes[j].0, writes[j].1);
      } else if Accept(noise, counter) == None {
        return noise;
      }
      EmptyRejected(counter);
      return [];
    }

    /**
     * CommUDPBroadcast.read: ten attempts, each under a fresh counter, skipping every
     * datagram that is not the reply to the live attempt.  Whatever the network does,
     * a returned value is what the register held at a moment after the accepted
     * attempt was sent and before its reply arrived.  It takes the first reply handed
     * over, repeats a request only after a timeout, and fails exactly after ten of them.
     */
    method Read(addrs: seq<u32>) returns (ok: bool, vals: seq<u32>, ghost sentAt: nat, ghost when: seq<nat>)
      requires Valid() && 0 < |addrs| < 0x100 && Budget(10)
      modifies this`ins, this`parcels, this`asks, this`counter, this`patience, this`heard, this`silent
      ensures Valid() && old(counter) < counter <= old(counter) + 10 && (!ok ==> counter == old(counter) + 10)
      ensures old(ins) <= ins && QuietFrom(ins, |old(ins)|, |ins|)
      ensures old(asks) < asks && forall j | |old(asks)| <= j < |asks| :: asks[j].addrs == addrs
      ensures ok ==> |vals| == |when| == |addrs| && |old(ins)| <= sentAt && asks[|asks| - 1] == Ask(addrs, sentAt)
      ensures ok ==> forall i | 0 <= i < |addrs| ::
                       sentAt <= when[i] <= |ins| && vals[i] == ReadAt(cfg, regs, ins, when[i], addrs[i])
      ensures heard == old(heard) + if ok then [|asks| - 1] else []
      ensures Missed(heard, silent, |old(asks)|, if ok then |asks| - 1 else |asks|)
      ensures ok <==> !Unanswered()
    {
      hide Valid, ReadAt, Missed, QuietFrom;
      ok, vals, sentAt, when := false, [], 0, [];
      NoneMissed(heard, silent, |asks|);
      Counters();
      QuietNone(ins);
      for attempt := 0 to 10
        invariant Valid() && counter == old(counter) + attempt == |asks| && heard == old(heard)
        invariant old(asks) <= asks && forall j | |old(asks)| <= j < |asks| :: asks[j].addrs == addrs
        invariant Missed(heard, silent, |old(asks)|, |asks|)
        invariant old(ins) <= ins && QuietFrom(ins, |old(ins)|, |ins|)
      {
        SendAsk(addrs);
        ghost var ins0, silent0 := ins, silent;
        sentAt := |ins|;
        var got;
        got, when := Await();
        QuietJoins(ins0, ins, |old(ins)|, |ins|);
        if got.Some? {
          MissedUntil(old(heard), silent, |old(asks)|, |asks| - 1);
          return true, got.value, sentAt, when;
        }
        MissedOneMore(heard, silent0, |old(asks)|, |asks| - 1);
      }
    }

    lemma Counters()
      requires Valid()
      ensures counter == |asks| && forall j | j in heard :: j < |asks|
    {
    }

    lemma Answers(p: Parcel, vals: seq<u32>)
      requires Valid() && 0 < |asks| && p in parcels && Accept(p.bytes, counter) == Some(vals)
      ensures var a := asks[|asks| - 1];
              && |vals| == |p.times| == |a.addrs|
              && forall i | 0 <= i < |a.addrs| ::
                   a.at <= p.times[i] <= |ins| && vals[i] == ReadAt(cfg, regs, ins, p.times[i], a.addrs[i])
    {
      hide InFlightBounded, Genuine, Accept, ReadAt;
      AcceptedParcel(cfg, regs, ins, asks, parcels, p, vals);
    }

    /** The receive loop of one attempt: skip what is not the reply to it, until the reply or a timeout. */
    method Await() returns (got: Option<seq<u32>>, ghost when: seq<nat>)
      requires Valid() && 0 < |asks| && Budget(0)
      modifies this`ins, this`parcels, this`patience, this`heard, this`silent
      ensures Valid() && old(ins) <= ins && QuietFrom(ins, |old(ins)|, |ins|)
      ensures got.Some? ==>
                var a := asks[|asks| - 1];
                && |got.value| == |when| == |a.addrs|
                && forall i | 0 <= i < |a.addrs| ::
                     a.at <= when[i] <= |ins| && got.value[i] == ReadAt(cfg, regs, ins, when[i], a.addrs[i])
      ensures heard == if got.Some? then old(heard) + [|asks| - 1] else old(heard)
      ensures silent == if got.None? then old(silent) + [|asks| - 1] else old(silent)
    {
      hide Valid, QuietFrom, Accept, ReadAt;
      when := [];
      QuietNone(ins);
      while true
        invariant Valid() && heard == old(heard) && silent == old(silent)
        invariant old(ins) <= ins && QuietFrom(ins, |old(ins)|, |ins|)
        decreases patience
      {
        ghost var ins0 := ins;
        var r := Receive();
        QuietJoins(ins0, ins, |old(ins)|, |ins|);
        if r.None? {
          return None, [];
        }
        got := Accept(r.value, counter);
        if got.Some? {
          ghost var p :| p in parcels && p.bytes == r.value;
          Answers(p, got.value);
          return got, p.times;
        }
      }
    }

    /** The reply to the newest request is handed over. */
    ghost method Hear()
      requires Valid() && 0 < |asks|
      modifies this`heard
      ensures Valid() && heard == old(heard) + [|asks| - 1]
    {
      hide InFlightBounded, AllGenuine;
      heard := heard + [|asks| - 1];
    }

    /** The socket times out on the newest request. */
    ghost method Miss()
      requires Valid() && 0 < |asks| && patience == 0
      modifies this`silent
      ensures Valid() && silent == old(silent) + [|asks| - 1]
    {
      hide InFlightBounded, AllGenuine;
      silent := silent + [|asks| - 1];
    }

    /** Count up and put one more read request on the wire. */
    method SendAsk(addrs: seq<u32>)
      requires Valid() && 0 < |addrs| < 0x100 && counter + 1 < 0x1_0000_0000
      modifies this`asks, this`counter, this`patience
      ensures Valid() && counter == old(counter) + 1 && asks == old(asks) + [Ask(addrs, |ins|)]
    {
      hide InFlightBounded, Genuine;
      AllGenuineStays(cfg, regs, ins, ins, asks, asks + [Ask(addrs, |ins|)], parcels);
      counter := counter + 1;
      asks := asks + [Ask(addrs, |ins|)];
      patience := *;
    }

    /** The network's choice, where a run fixes it. */
    method Choose(n: nat)
      requires Valid()
      modifies this`patience
      ensures Valid() && patience == n
    {
      hide InFlightBounded, AllGenuine;
      patience := n;
    }

    /** The server executes a write datagram: its one bus access is one cycle of the bridge. */
    method Access(addr: u32, val: u32, core: Option<byte>, phyReady: bool)
      requires Valid() && (addr == regs.pop || addr == regs.txData || addr == regs.errClear)
      modifies this`ins, this`writes
      ensures Valid() && |ins| == |old(ins)| + 1 && old(ins) <= ins
      ensures ins[|old(ins)|] == AccessInput(regs, addr, val, core, phyReady)
           || ins[|old(ins)|] == AccessInput(regs, addr, val, None, phyReady)
      ensures core.None? ==> ins[|old(ins)|] == AccessInput(regs, addr, val, None, phyReady)
    {
      hide InFlightBounded, AllGenuine, Handle, WriteRequest;
      var bus := BusAt(cfg, regs, ins, []);
      var done := Handle(bus, [], WriteRequest(addr, val));
      WriteExecutes(bus, [], addr, val);
      var access := done.trace[0];
      Cycle(AccessInput(regs, access.addr, access.val, core, phyReady));
      writes := writes + [(addr, val)];
    }

    /** A register write: one cycle of the bridge sees it, exactly once, after everything before it. */
    method Write(addr: u32, val: u32) returns (ghost mid: nat)
      requires Valid() && (addr == regs.pop || addr == regs.txData || addr == regs.errClear)
      modifies this`ins, this`parcels, this`writes
      ensures Valid() && old(ins) <= ins && |old(ins)| <= mid < |ins|
      ensures QuietFrom(ins, |old(ins)|, mid) && QuietFrom(ins, mid + 1, |ins|)
      ensures exists core, phy :: ins[mid] == AccessInput(regs, addr, val, core, phy)
    {
      hide InFlightBounded, AllGenuine;
      Pass();
      mid := |ins|;
      var core: Option<byte>, phyReady: bool := *, *;
      Access(addr, val, core, phyReady);
      ghost var after := ins;
      Pass();
      assert ins[mid] == after[mid];
    }
  }

  /** Only the reply to the newest request passes the counter test, and its values are genuine. */
  lemma AcceptedParcel(c: Config, g: Regs, ins: seq<Input>, asks: seq<Ask>, ps: seq<Parcel>, p: Parcel, vals: seq<u32>)
    requires c.Valid() && AllGenuine(c, g, ins, asks, ps) && p in ps && 0 < |asks| < 0x1_0000_0000
    requires Accept(p.bytes, |asks|) == Some(vals)
    ensures var a := asks[|asks| - 1];
            && |vals| == |p.times| == |a.addrs|
            && forall i | 0 <= i < |a.addrs| ::
                 a.at <= p.times[i] <= |ins| && vals[i] == ReadAt(c, g, ins, p.times[i], a.addrs[i])
  {
    hide Accept, ReadAt;
    var j :| 0 <= j < |ps| && ps[j] == p;
    assert Genuine(c, g, ins, asks, p);
  }
}
