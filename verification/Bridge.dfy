/**
 * The console bridge: receive and transmit FIFOs behind a CSR bank, the stall
 * register that stops the 8008, and the sticky fault bits.  `Next` is one
 * cd_sys clock edge as a function; class `ConsoleBridge` is the clocked design.
 */
module Bridge {
  import opened Bytes
  import opened ByteFifo

  datatype Config = Config(rxDepth: nat, txDepth: nat, headroom: nat, hysteresis: nat) {

    /** Depths fit the 13 and 9 bit level fields; both thresholds are non-negative. */
    predicate Valid() {
      && 2 <= rxDepth < 0x2000
      && 1 <= txDepth < 0x200
      && 1 <= hysteresis
      && headroom + hysteresis <= rxDepth
    }

    function Hwm(): int {
      rxDepth - headroom
    }

    function Lwm(): int {
      Hwm() - hysteresis
    }
  }

  /** RX_DEPTH, TX_DEPTH, RX_HEADROOM and RX_HYSTERESIS as shipped. */
  const SHIPPED := Config(4096, 256, 64, 64)

  datatype Fault = RxOverflow | TxWriteWhenFull | RxPopWhenEmpty

  datatype State = State(rx: Fifo, tx: Fifo, stall: bool, sticky: set<Fault>)

  /** What one cycle presents to the bridge from every side. */
  datatype Input = Input(
    core: Option<byte>,      // a byte from the receiving PHY
    phyReady: bool,          // the transmitting PHY takes a byte
    pop: bool,               // console_rx_pop written
    txData: Option<byte>,    // console_tx_data written
    clear: set<Fault>,       // console_err_clear bits written as 1
    reset: bool)

  /** Reset empties both FIFOs and drops the stall; the sticky bits survive it. */
  function Reset(sticky: set<Fault>): State {
    State(EMPTY, EMPTY, false, sticky)
  }

  predicate TxFull(c: Config, s: State) {
    s.tx.Level() == c.txDepth
  }

  /** The fault lines of one cycle. */
  predicate Raised(c: Config, s: State, i: Input, f: Fault) {
    match f
    case RxOverflow => i.core.Some? && !s.rx.Ready(c.rxDepth)
    case TxWriteWhenFull => i.txData.Some? && TxFull(c, s)
    case RxPopWhenEmpty => i.pop && !s.rx.Readable()
  }

  function AllRaised(c: Config, s: State, i: Input): set<Fault> {
    set f | f in {RxOverflow, TxWriteWhenFull, RxPopWhenEmpty} && Raised(c, s, i, f)
  }

  function FaultSet(overflow: bool, rejected: bool, empty: bool): set<Fault> {
    (if overflow then {RxOverflow} else {}) + (if rejected then {TxWriteWhenFull} else {})
    + (if empty then {RxPopWhenEmpty} else {})
  }

  lemma FaultLines(c: Config, s: State, i: Input)
    ensures AllRaised(c, s, i) == FaultSet(i.core.Some? && !s.rx.Ready(c.rxDepth),
                                           i.txData.Some? && s.tx.Level() == c.txDepth,
                                           i.pop && !s.rx.Readable())
  {
  }

  function Next(c: Config, s: State, i: Input): State {
    var sticky' := s.sticky - i.clear + AllRaised(c, s, i);
    if i.reset then Reset(sticky')
    else
      State(
        Tick(s.rx, c.rxDepth, Port(i.core, i.pop && s.rx.Readable())),
        Tick(s.tx, c.txDepth, Port(if TxFull(c, s) then None else i.txData, i.phyReady)),
        if s.rx.Level() >= c.Hwm() then true else if s.rx.Level() <= c.Lwm() then false else s.stall,
        sticky')
  }

  // ---- the registers the host reads -----------------------------------------

  function RxLevel(c: Config, s: State): nat {
    if !s.rx.Readable() then 0 else if s.rx.Level() > c.rxDepth then c.rxDepth else s.rx.Level()
  }

  /** console_rx: data in bits 7:0, valid in bit 8, level in bits 21:9. */
  function RxWord(c: Config, s: State): u32
    requires c.Valid()
  {
    (if s.rx.Readable() then s.rx.out.value + 0x100 else 0) + 0x200 * RxLevel(c, s)
  }

  /** console_tx: level in bits 8:0, full in bit 9. */
  function TxWord(c: Config, s: State): u32
    requires s.tx.Level() <= c.txDepth && c.Valid()
  {
    s.tx.Level() + if TxFull(c, s) then 0x200 else 0
  }

  function FaultBit(f: Fault): nat {
    match f case RxOverflow => 1 case TxWriteWhenFull => 2 case RxPopWhenEmpty => 4
  }

  /** console_err, and the mask format of console_err_clear. */
  function ErrWord(faults: set<Fault>): (w: u32)
    ensures w < 8
  {
    (if RxOverflow in faults then 1 else 0)
    + (if TxWriteWhenFull in faults then 2 else 0)
    + (if RxPopWhenEmpty in faults then 4 else 0)
  }

  /** The faults whose bit is 1 in a mask. */
  function FaultsIn(w: u32): (faults: set<Fault>) {
    set f | f in {RxOverflow, TxWriteWhenFull, RxPopWhenEmpty} && w / FaultBit(f) % 2 == 1
  }

  lemma ErrWordRoundTrip(faults: set<Fault>)
    ensures FaultsIn(ErrWord(faults)) == faults
    ensures ErrWord(faults) == 0 <==> faults == {}
  {
    forall f: Fault ensures f in FaultsIn(ErrWord(faults)) <==> f in faults {
      match f case RxOverflow => case TxWriteWhenFull => case RxPopWhenEmpty =>
    }
  }

  /** The clocked design: registers updated on every edge, CSR fields decoded from them. */
  class ConsoleBridge {
    const cfg: Config
    var rxFifo: Fifo
    var txFifo: Fifo
    var stall: bool
    var sticky: set<Fault>

    constructor (cfg: Config)
      ensures this.cfg == cfg && Registers() == Reset({})
    {
      this.cfg := cfg;
      rxFifo, txFifo, stall, sticky := EMPTY, EMPTY, false, {};
    }

    function Registers(): State
      reads this
    {
      State(rxFifo, txFifo, stall, sticky)
    }

    method Edge(i: Input)
      modifies this
      ensures Registers() == Next(cfg, old(Registers()), i)
    {
      hide Tick, AllRaised, FaultSet;
      // combinational decodes of the registers as they were before the edge
      var txFull := txFifo.Level() == cfg.txDepth;
      var level := rxFifo.Level();
      var pop := i.pop && rxFifo.Readable();
      var push := if txFull then None else i.txData;
      var overflow := i.core.Some? && !rxFifo.Ready(cfg.rxDepth);
      var rejected := i.txData.Some? && txFull;
      var empty := i.pop && !rxFifo.Readable();
      FaultLines(cfg, Registers(), i);

      rxFifo := Tick(rxFifo, cfg.rxDepth, Port(i.core, pop));
      txFifo := Tick(txFifo, cfg.txDepth, Port(push, i.phyReady));
      if level >= cfg.Hwm() {
        stall := true;
      } else if level <= cfg.Lwm() {
        stall := false;
      }
      LatchAll(overflow, rejected, empty, i.clear);
      if i.reset {
        rxFifo, txFifo, stall := EMPTY, EMPTY, false;
      }
    }

    method LatchAll(overflow: bool, rejected: bool, empty: bool, clear: set<Fault>)
      modifies this`sticky
      ensures sticky == old(sticky) - clear + FaultSet(overflow, rejected, empty)
    {
      Latch(RxOverflow, overflow, clear);
      Latch(TxWriteWhenFull, rejected, clear);
      Latch(RxPopWhenEmpty, empty, clear);
      forall f: Fault ensures f in sticky <==> f in old(sticky) - clear + FaultSet(overflow, rejected, empty) {
        match f case RxOverflow => case TxWriteWhenFull => case RxPopWhenEmpty =>
      }
    }

    /** One sticky bit: set wins over a coinciding clear. */
    method Latch(f: Fault, set_: bool, clear: set<Fault>)
      modifies this`sticky
      ensures f in sticky <==> set_ || (f in old(sticky) && f !in clear)
      ensures forall g: Fault | g != f :: g in sticky <==> g in old(sticky)
    {
      if set_ {
        sticky := sticky + {f};
      } else if f in clear {
        sticky := sticky - {f};
      }
    }
  }

  // ---- runs -------------------------------------------------------------------

  /** The state after a history of cycles. */
  function Run(c: Config, s: State, ins: seq<Input>): State {
    if ins == [] then s else Next(c, Run(c, s, Init(ins)), Last(ins))
  }

  function Init<T>(s: seq<T>): seq<T>
    requires s != []
  {
    s[..|s| - 1]
  }

  function Last<T>(s: seq<T>): T
    requires s != []
  {
    s[|s| - 1]
  }

  lemma {:induction false} RunJoins(c: Config, s: State, a: seq<Input>, b: seq<Input>)
    ensures Run(c, s, a + b) == Run(c, Run(c, s, a), b)
  {
    if b == [] {
      assert a + b == a;
    } else {
      hide Next;
      RunJoins(c, s, a, Init(b));
      assert Init(a + b) == a + Init(b) && Last(a + b) == Last(b);
    }
  }

  predicate NoReset(ins: seq<Input>) {
    forall k | 0 <= k < |ins| :: !ins[k].reset
  }

  /** Every byte the core emitted, in order. */
  function Emitted(ins: seq<Input>): Bytes {
    if ins == [] then []
    else Emitted(Init(ins)) + if Last(ins).core.Some? then [Last(ins).core.value] else []
  }

  /** The emitted bytes that found room. */
  function Accepted(c: Config, s: State, ins: seq<Input>): Bytes {
    if ins == [] then []
    else
      var i := Last(ins);
      Accepted(c, s, Init(ins)) +
      if i.core.Some? && Run(c, s, Init(ins)).rx.Ready(c.rxDepth) then [i.core.value] else []
  }

  /** The bytes pops removed, in order. */
  function Popped(c: Config, s: State, ins: seq<Input>): Bytes {
    if ins == [] then []
    else
      var rx := Run(c, s, Init(ins)).rx;
      Popped(c, s, Init(ins)) + if Last(ins).pop && rx.Readable() then [rx.out.value] else []
  }

  /** The host bytes the transmit side took in. */
  function Queued(c: Config, s: State, ins: seq<Input>): Bytes {
    if ins == [] then []
    else
      var i := Last(ins);
      Queued(c, s, Init(ins)) +
      if i.txData.Some? && !TxFull(c, Run(c, s, Init(ins))) then [i.txData.value] else []
  }

  /** The bytes handed to the transmitting PHY. */
  function Transmitted(c: Config, s: State, ins: seq<Input>): Bytes {
    if ins == [] then []
    else
      var tx := Run(c, s, Init(ins)).tx;
      Transmitted(c, s, Init(ins)) + if Last(ins).phyReady && tx.Readable() then [tx.out.value] else []
  }

  /** Facts of every reachable state. */
  predicate Inv(c: Config, s: State) {
    && Settled(s.rx, c.rxDepth)
    && s.tx.Level() <= c.txDepth
  }

  lemma {:induction false} NextKeepsInv(c: Config, s: State, i: Input)
    requires c.Valid() && Inv(c, s)
    ensures Inv(c, Next(c, s, i))
  {
    TickMovesBytes(s.rx, c.rxDepth, Port(i.core, i.pop && s.rx.Readable()));
  }

  lemma {:induction false} RunKeepsInv(c: Config, s: State, ins: seq<Input>)
    requires c.Valid() && Inv(c, s)
    ensures Inv(c, Run(c, s, ins))
  {
    if ins != [] {
      RunKeepsInv(c, s, Init(ins));
      NextKeepsInv(c, Run(c, s, Init(ins)), Last(ins));
    }
  }

  lemma RxWordFields(c: Config, s: State)
    requires c.Valid() && Inv(c, s)
    ensures var w := RxWord(c, s);
            && w / 0x200 == RxLevel(c, s) <= c.rxDepth
            && (s.rx.Readable() ==> w / 0x100 % 2 == 1 && w % 0x100 == s.rx.out.value && w / 0x200 != 0)
            && (!s.rx.Readable() ==> w == 0)
  {
  }

  /**
   * console_rx on every reachable state: valid iff level is non-zero, level never
   * above depth, data is the head byte, and all zero when not valid.
   */
  lemma RxWordIsAtomic(c: Config, sticky: set<Fault>, ins: seq<Input>)
    requires c.Valid()
    ensures var s := Run(c, Reset(sticky), ins);
            var w := RxWord(c, s);
            var data, valid, level := w % 0x100, w / 0x100 % 2, w / 0x200;
            && (valid == 1 <==> level != 0)
            && level <= c.rxDepth
            && (valid == 0 ==> w == 0)
            && (valid == 1 ==> s.rx.Contents() != [] && data == s.rx.Contents()[0])
  {
    RunKeepsInv(c, Reset(sticky), ins);
    RxWordFields(c, Run(c, Reset(sticky), ins));
  }

  /** A pop of a valid head removes exactly that byte and disturbs nothing behind it. */
  lemma PopTakesHead(c: Config, s: State, ins: seq<Input>, i: Input)
    requires i.pop && !i.reset && Run(c, s, ins).rx.Readable()
    ensures var rx := Run(c, s, ins).rx;
            && Popped(c, s, ins + [i]) == Popped(c, s, ins) + [rx.Contents()[0]]
            && rx.Contents()[1..] <= Run(c, s, ins + [i]).rx.Contents()
  {
    assert Init(ins + [i]) == ins;
    TickMovesBytes(Run(c, s, ins).rx, c.rxDepth, Port(i.core, true));
  }

  /** Nothing a FIFO took in is lost, reordered or repeated while no reset occurs. */
  lemma {:induction false} BytesAreConserved(c: Config, sticky: set<Fault>, ins: seq<Input>)
    requires c.Valid() && NoReset(ins)
    ensures var s := Run(c, Reset(sticky), ins);
            && Accepted(c, Reset(sticky), ins) == Popped(c, Reset(sticky), ins) + s.rx.Contents()
            && Queued(c, Reset(sticky), ins) == Transmitted(c, Reset(sticky), ins) + s.tx.Contents()
            && s.tx.Level() <= c.txDepth
            && (!TxFull(c, s) ==> s.tx.Ready(c.txDepth))
  {
    RunKeepsInv(c, Reset(sticky), ins);
    if ins != [] {
      var pre, i := Init(ins), Last(ins);
      BytesAreConserved(c, sticky, pre);
      var s := Run(c, Reset(sticky), pre);
      ConserveOne(s.rx, c.rxDepth, Port(i.core, i.pop && s.rx.Readable()),
                  Accepted(c, Reset(sticky), pre), Popped(c, Reset(sticky), pre));
      ConserveOne(s.tx, c.txDepth, Port(if TxFull(c, s) then None else i.txData, i.phyReady),
                  Queued(c, Reset(sticky), pre), Transmitted(c, Reset(sticky), pre));
    }
  }

  lemma ConserveOne(f: Fifo, depth: nat, p: Port, fed: Bytes, taken: Bytes)
    requires fed == taken + f.Contents()
    ensures fed + (if p.push.Some? && f.Ready(depth) then [p.push.value] else [])
         == taken + (if p.pop && f.Readable() then [f.out.value] else []) + Tick(f, depth, p).Contents()
  {
    TickMovesBytes(f, depth, p);
    var add := if p.push.Some? && f.Ready(depth) then [p.push.value] else [];
    if p.pop && f.Readable() {
      MoveHead(taken, f.Contents(), add);
    } else {
      assert f.Contents()[0..] == f.Contents();
      assert taken + [] == taken;
    }
  }

  lemma MoveHead(taken: Bytes, q: Bytes, add: Bytes)
    requires q != []
    ensures taken + q + add == taken + [q[0]] + (q[1..] + add)
  {
    assert q == [q[0]] + q[1..];
  }

  // ---- the stall keeps the receive FIFO from overflowing ----------------------

  /** Bytes that arrived since the stall became visible; zero while it is down. */
  function InFlight(c: Config, s: State, ins: seq<Input>): nat {
    if ins == [] || !Run(c, s, Init(ins)).stall then 0
    else InFlight(c, s, Init(ins)) + if Last(ins).core.Some? then 1 else 0
  }

  /** The environment: at most `k` bytes arrive while the stall is visible. */
  predicate InFlightBounded(c: Config, k: nat, s: State, ins: seq<Input>) {
    ins == [] || (InFlightBounded(c, k, s, Init(ins)) && InFlight(c, s, ins) <= k)
  }

  lemma {:induction false} LevelIsBounded(c: Config, k: nat, sticky: set<Fault>, ins: seq<Input>)
    requires c.Valid() && InFlightBounded(c, k, Reset(sticky), ins)
    ensures var s := Run(c, Reset(sticky), ins);
            && Settled(s.rx, c.rxDepth)
            && (!s.stall ==> s.rx.Level() <= c.Hwm())
            && (s.stall ==> s.rx.Level() <= c.Hwm() + 1 + InFlight(c, Reset(sticky), ins))
            && s.rx.Level() <= c.rxDepth - c.headroom + 1 + k
  {
    RunKeepsInv(c, Reset(sticky), ins);
    if ins != [] {
      var s, i := Run(c, Reset(sticky), Init(ins)), Last(ins);
      LevelIsBounded(c, k, sticky, Init(ins));
      TickMovesBytes(s.rx, c.rxDepth, Port(i.core, i.pop && s.rx.Readable()));
    }
  }

  /** Within the headroom no byte ever meets a full FIFO and the canary bit is never set. */
  lemma {:induction false} NoOverflow(c: Config, k: nat, sticky: set<Fault>, ins: seq<Input>)
    requires c.Valid() && k <= c.headroom
    requires InFlightBounded(c, k, Reset(sticky), ins)
    ensures RxOverflow !in sticky ==> RxOverflow !in Run(c, Reset(sticky), ins).sticky
    ensures Accepted(c, Reset(sticky), ins) == Emitted(ins)
  {
    if ins != [] {
      var s, i := Run(c, Reset(sticky), Init(ins)), Last(ins);
      NoOverflow(c, k, sticky, Init(ins));
      LevelIsBounded(c, k, sticky, Init(ins));
      if i.core.Some? {
        assert s.stall ==> InFlight(c, Reset(sticky), ins) == InFlight(c, Reset(sticky), Init(ins)) + 1;
        ReadyMeansRoom(s.rx, c.rxDepth);
      }
    }
  }

  const FLOOD := Input(Some(0), false, false, None, {}, false)

  /** Only pushes, one every cycle. */
  function Flood(n: nat): (ins: seq<Input>)
    ensures |ins| == n
  {
    seq(n, _ => FLOOD)
  }

  lemma {:induction false} FloodFills(c: Config, n: nat)
    requires c.Valid() && n <= c.rxDepth + 1
    ensures var s := Run(c, Reset({}), Flood(n));
            && Settled(s.rx, c.rxDepth)
            && s.rx.Level() == n
            && (s.stall <==> n > c.Hwm())
  {
    if n > 0 {
      hide Next;
      FloodFills(c, n - 1);
      assert Init(Flood(n)) == Flood(n - 1);
      FloodStep(c, Run(c, Reset({}), Flood(n - 1)), n - 1);
    }
  }

  lemma FloodStep(c: Config, s: State, n: nat)
    requires c.Valid() && n <= c.rxDepth
    requires Settled(s.rx, c.rxDepth) && s.rx.Level() == n && (s.stall <==> n > c.Hwm())
    ensures var s' := Next(c, s, FLOOD);
            Settled(s'.rx, c.rxDepth) && s'.rx.Level() == n + 1 && (s'.stall <==> n + 1 > c.Hwm())
  {
    TickMovesBytes(s.rx, c.rxDepth, Port(Some(0), false));
    ReadyMeansRoom(s.rx, c.rxDepth);
  }

  lemma {:induction false} FloodIsBounded(c: Config, n: nat)
    requires c.Valid() && n <= c.rxDepth + 1
    ensures InFlight(c, Reset({}), Flood(n)) == if n > c.Hwm() then n - c.Hwm() - 1 else 0
    ensures InFlightBounded(c, c.headroom, Reset({}), Flood(n))
  {
    if n > 0 {
      FloodIsBounded(c, n - 1);
      FloodFills(c, n - 1);
      FloodInit(n);
      hide Run, Flood;
      InFlightUnfold(c, c.headroom, Reset({}), Flood(n));
    }
  }

  lemma FloodInit(n: nat)
    requires n > 0
    ensures Init(Flood(n)) == Flood(n - 1) && Last(Flood(n)) == FLOOD
  {
  }

  lemma InFlightUnfold(c: Config, k: nat, s: State, ins: seq<Input>)
    requires ins != []
    ensures InFlight(c, s, ins) ==
              if Run(c, s, Init(ins)).stall then InFlight(c, s, Init(ins)) + (if Last(ins).core.Some? then 1 else 0) else 0
    ensures InFlightBounded(c, k, s, ins) <==> InFlightBounded(c, k, s, Init(ins)) && InFlight(c, s, ins) <= k
  {
  }

  lemma {:induction false} BoundIsMonotone(c: Config, k: nat, k': nat, s: State, ins: seq<Input>)
    requires k <= k' && InFlightBounded(c, k, s, ins)
    ensures InFlightBounded(c, k', s, ins)
  {
    if ins != [] {
      BoundIsMonotone(c, k, k', s, Init(ins));
    }
  }

  /**
   * Overflow is unreachable under every environment that lets at most `k` bytes
   * through after the stall, exactly when `k` does not exceed the headroom.
   */
  lemma OverflowUnreachableIff(c: Config, k: nat)
    requires c.Valid()
    ensures (forall ins: seq<Input> | InFlightBounded(c, k, Reset({}), ins) ::
               RxOverflow !in Run(c, Reset({}), ins).sticky)
            <==> k <= c.headroom
  {
    if k <= c.headroom {
      forall ins: seq<Input> | InFlightBounded(c, k, Reset({}), ins)
        ensures RxOverflow !in Run(c, Reset({}), ins).sticky
      {
        NoOverflow(c, k, {}, ins);
      }
    } else {
      var n := c.rxDepth + 1;
      var ins := Flood(n + 1);
      FloodFills(c, n);
      FloodIsBounded(c, n);
      assert Init(ins) == Flood(n);
      BoundIsMonotone(c, c.headroom, k, Reset({}), Flood(n));
      ReadyMeansRoom(Run(c, Reset({}), Flood(n)).rx, c.rxDepth);
      assert InFlightBounded(c, k, Reset({}), ins);
      assert RxOverflow in Run(c, Reset({}), ins).sticky;
    }
  }

  /** The shipped depth and headroom with the three bytes that can be in flight. */
  lemma ShippedNeverOverflows(ins: seq<Input>)
    requires InFlightBounded(SHIPPED, 3, Reset({}), ins)
    ensures SHIPPED.Hwm() == 4032 && SHIPPED.Lwm() == 3968
    ensures RxOverflow !in Run(SHIPPED, Reset({}), ins).sticky
    ensures Run(SHIPPED, Reset({}), ins).rx.Level() <= 4036
  {
    NoOverflow(SHIPPED, 3, {}, ins);
    LevelIsBounded(SHIPPED, 3, {}, ins);
  }

  // ---- the stall cannot oscillate -----------------------------------------------

  /** How often the stall went from 0 to 1. */
  function Assertions(c: Config, s: State, ins: seq<Input>): nat {
    if ins == [] then 0
    else
      Assertions(c, s, Init(ins)) +
      if !Run(c, s, Init(ins)).stall && Run(c, s, ins).stall then 1 else 0
  }

  /** `k` assertions from empty cost at least HWM + (k - 1) * hysteresis bytes. */
  lemma StallCannotOscillate(c: Config, sticky: set<Fault>, ins: seq<Input>)
    requires c.Valid() && NoReset(ins)
    ensures var k := Assertions(c, Reset(sticky), ins);
            k > 0 ==> |Accepted(c, Reset(sticky), ins)| >= c.Hwm() + (k - 1) * c.hysteresis
  {
    StallPotential(c, sticky, ins);
  }

  /** Bytes paid for: each release gives back one hysteresis band. */
  predicate Paid(c: Config, s: State, k: nat, pushed: nat) {
    && (k > 0 ==> pushed >= c.Hwm() + (k - 1) * c.hysteresis)
    && if s.stall then k > 0 && pushed >= s.rx.Level() + (k - 1) * c.hysteresis
       else pushed >= s.rx.Level() + k * c.hysteresis
  }

  lemma {:induction false} StallPotential(c: Config, sticky: set<Fault>, ins: seq<Input>)
    requires c.Valid() && NoReset(ins)
    ensures Paid(c, Run(c, Reset(sticky), ins), Assertions(c, Reset(sticky), ins), |Accepted(c, Reset(sticky), ins)|)
  {
    if ins != [] {
      hide Next, Paid, Run;
      RunUnfold(c, Reset(sticky), ins);
      StallPotential(c, sticky, Init(ins));
      PaidStep(c, Run(c, Reset(sticky), Init(ins)), Last(ins),
               Assertions(c, Reset(sticky), Init(ins)), |Accepted(c, Reset(sticky), Init(ins))|);
    }
  }

  lemma RunUnfold(c: Config, s: State, ins: seq<Input>)
    requires ins != []
    ensures Run(c, s, ins) == Next(c, Run(c, s, Init(ins)), Last(ins))
  {
  }

  lemma PaidStep(c: Config, s: State, i: Input, k: nat, pushed: nat)
    requires c.Valid() && !i.reset && Paid(c, s, k, pushed)
    ensures var s' := Next(c, s, i);
            Paid(c, s', if !s.stall && s'.stall then k + 1 else k,
                 if i.core.Some? && s.rx.Ready(c.rxDepth) then pushed + 1 else pushed)
  {
    var level, level' := s.rx.Level(), Next(c, s, i).rx.Level();
    assert level' <= level + if i.core.Some? && s.rx.Ready(c.rxDepth) then 1 else 0;
    AddBand(k, c.hysteresis);
  }

  lemma AddBand(k: nat, h: nat)
    ensures (k + 1) * h == k * h + h
    ensures (k - 1) * h == k * h - h
  {
  }

  // ---- sticky faults --------------------------------------------------------------

  /** Fault `f` occurred in cycle `t`. */
  predicate FaultAt(c: Config, s: State, ins: seq<Input>, t: nat, f: Fault)
    requires t < |ins|
  {
    Raised(c, Run(c, s, ins[..t]), ins[t], f)
  }

  /** Cycle `t` cleared `f`: the bit was written and the fault did not coincide. */
  predicate ClearedAt(c: Config, s: State, ins: seq<Input>, t: nat, f: Fault)
    requires t < |ins|
  {
    f in ins[t].clear && !FaultAt(c, s, ins, t, f)
  }

  predicate ClearedAfter(c: Config, s: State, ins: seq<Input>, from: nat, f: Fault) {
    exists u | from <= u < |ins| :: ClearedAt(c, s, ins, u, f)
  }

  predicate Standing(c: Config, s: State, ins: seq<Input>, f: Fault) {
    exists t | 0 <= t < |ins| :: FaultAt(c, s, ins, t, f) && !ClearedAfter(c, s, ins, t + 1, f)
  }

  /**
   * Over any history of faults, clears and resets a bit reads 1 exactly when its
   * fault occurred (or was there at the start) with no effective clear after it.
   */
  lemma {:induction false} StickyExact(c: Config, s: State, ins: seq<Input>, f: Fault)
    ensures f in Run(c, s, ins).sticky <==>
              Standing(c, s, ins, f) || (f in s.sticky && !ClearedAfter(c, s, ins, 0, f))
  {
    if ins != [] {
      var pre, n := Init(ins), |ins| - 1;
      StickyExact(c, s, pre, f);
      assert ins[..n] == pre;
      ClearedAfterExtends(c, s, ins, 0, f);
      StandingExtends(c, s, ins, f);
    }
  }

  lemma CyclesExtend(c: Config, s: State, ins: seq<Input>, t: nat, f: Fault)
    requires t < |ins| - 1
    ensures FaultAt(c, s, ins, t, f) == FaultAt(c, s, Init(ins), t, f)
    ensures ClearedAt(c, s, ins, t, f) == ClearedAt(c, s, Init(ins), t, f)
  {
    assert ins[..t] == Init(ins)[..t];
  }

  lemma ClearedAfterExtends(c: Config, s: State, ins: seq<Input>, from: nat, f: Fault)
    requires from < |ins|
    ensures ClearedAfter(c, s, ins, from, f) <==>
              ClearedAfter(c, s, Init(ins), from, f) || ClearedAt(c, s, ins, |ins| - 1, f)
  {
    forall u | from <= u < |ins| - 1 ensures ClearedAt(c, s, ins, u, f) == ClearedAt(c, s, Init(ins), u, f) {
      CyclesExtend(c, s, ins, u, f);
    }
  }

  lemma StandingExtends(c: Config, s: State, ins: seq<Input>, f: Fault)
    requires ins != []
    ensures Standing(c, s, ins, f) <==>
              || FaultAt(c, s, ins, |ins| - 1, f)
              || (Standing(c, s, Init(ins), f) && !ClearedAt(c, s, ins, |ins| - 1, f))
  {
    hide FaultAt, ClearedAt, ClearedAfter;
    var n := |ins| - 1;
    forall t | 0 <= t < n
      ensures FaultAt(c, s, ins, t, f) && !ClearedAfter(c, s, ins, t + 1, f) <==>
                (FaultAt(c, s, Init(ins), t, f) && !ClearedAfter(c, s, Init(ins), t + 1, f)
                 && !ClearedAt(c, s, ins, n, f))
    {
      CyclesExtend(c, s, ins, t, f);
      ClearedAfterExtends(c, s, ins, t + 1, f);
    }
    NothingAfterEnd(c, s, ins, f);
  }

  lemma NothingAfterEnd(c: Config, s: State, ins: seq<Input>, f: Fault)
    ensures !ClearedAfter(c, s, ins, |ins|, f)
  {
  }
}
