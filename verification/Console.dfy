/**
 * The host console's operations, drain, send and check_errors, over the retried
 * register access, against the running bridge.
 */
module Console {
  import opened Bytes
  import opened Bridge
  import opened HostLink

  const DRAIN_MAX: nat := 4096
  const FULL_POLLS: nat := 1000          // TX_FULL_TIMEOUT_S in units of TX_FULL_POLL_S

  // ---- streams of a whole history from power-on ------------------------------------

  function PoppedBy(c: Config, ins: seq<Input>): Bytes {
    Popped(c, Reset({}), ins)
  }

  function QueuedBy(c: Config, ins: seq<Input>): Bytes {
    Queued(c, Reset({}), ins)
  }

  /** No cycle in the span popped an empty FIFO or wrote a full one. */
  ghost predicate Clean(c: Config, ins: seq<Input>, a: nat, b: nat) {
    a <= b <= |ins| && forall t | a <= t < b :: CleanAt(c, ins, t)
  }

  ghost predicate CleanAt(c: Config, ins: seq<Input>, t: nat)
    requires t < |ins|
  {
    !FaultAt(c, Reset({}), ins, t, RxPopWhenEmpty) && !FaultAt(c, Reset({}), ins, t, TxWriteWhenFull)
  }

  /** No cycle in the span cleared a sticky bit. */
  ghost predicate NoClear(ins: seq<Input>, a: nat, b: nat) {
    a <= b <= |ins| && forall t | a <= t < b :: ins[t].clear == {}
  }

  lemma CleanExtends(c: Config, ins: seq<Input>, ins': seq<Input>, a: nat, b: nat)
    requires ins <= ins' && Clean(c, ins, a, b)
    ensures Clean(c, ins', a, b)
  {
    forall t | a <= t < b ensures CleanAt(c, ins', t) {
      assert CleanAt(c, ins, t);
      assert ins'[..t] == ins[..t];
    }
  }

  lemma NoClearJoins(ins: seq<Input>, ins': seq<Input>, a: nat, b: nat, d: nat)
    requires ins <= ins' && NoClear(ins, a, b) && NoClear(ins', b, d)
    ensures NoClear(ins', a, d)
  {
    forall t | a <= t < d ensures ins'[t].clear == {} {
      if t < b {
        assert ins'[t] == ins[t];
      }
    }
  }

  lemma CleanJoins(c: Config, ins: seq<Input>, ins': seq<Input>, a: nat, b: nat, d: nat)
    requires ins <= ins' && Clean(c, ins, a, b) && Clean(c, ins', b, d)
    ensures Clean(c, ins', a, d)
  {
    CleanExtends(c, ins, ins', a, b);
  }

  lemma StateStep(c: Config, ins: seq<Input>, t: nat)
    requires t < |ins|
    ensures StateAt(c, ins, t + 1) == Next(c, StateAt(c, ins, t), ins[t])
  {
    hide Next;
    assert Init(ins[..t + 1]) == ins[..t];
  }

  /** One cycle's effect on the streams. */
  lemma StreamStep(c: Config, ins: seq<Input>, t: nat)
    requires t < |ins|
    ensures var s, i := StateAt(c, ins, t), ins[t];
            && PoppedBy(c, ins[..t + 1]) == PoppedBy(c, ins[..t]) + (if i.pop && s.rx.Readable() then [s.rx.out.value] else [])
            && QueuedBy(c, ins[..t + 1]) == QueuedBy(c, ins[..t]) + (if i.txData.Some? && !TxFull(c, s) then [i.txData.value] else [])
            && StateAt(c, ins, t + 1) == Next(c, s, i)
  {
    assert Init(ins[..t + 1]) == ins[..t];
  }

  /** While the host is quiet the head byte stays, transmit room stays, and no stream moves. */
  lemma {:induction false} QuietSpan(c: Config, ins: seq<Input>, a: nat, b: nat)
    requires c.Valid() && QuietFrom(ins, a, b)
    ensures PoppedBy(c, ins[..b]) == PoppedBy(c, ins[..a]) && QueuedBy(c, ins[..b]) == QueuedBy(c, ins[..a])
    ensures StateAt(c, ins, a).rx.Readable() ==> StateAt(c, ins, b).rx.out == StateAt(c, ins, a).rx.out
    ensures StateAt(c, ins, b).tx.Level() <= StateAt(c, ins, a).tx.Level()
    ensures Clean(c, ins, a, b) && NoClear(ins, a, b)
    decreases b
  {
    if a < b {
      hide PoppedBy, QueuedBy, StateAt, Clean;
      QuietSpan(c, ins, a, b - 1);
      StreamStep(c, ins, b - 1);
      QuietTick(c, StateAt(c, ins, b - 1), ins[b - 1]);
      QuietAddsClean(c, ins, a, b - 1);
    }
  }

  lemma QuietTick(c: Config, s: State, i: Input)
    requires Quiet(i)
    ensures s.rx.Readable() ==> Next(c, s, i).rx.out == s.rx.out
    ensures Next(c, s, i).tx.Level() <= s.tx.Level()
  {
  }

  /** Without a clear or a reset no sticky bit falls. */
  lemma {:induction false} StickyGrows(c: Config, ins: seq<Input>, a: nat, b: nat)
    requires QuietFrom(ins, a, b)
    ensures StateAt(c, ins, a).sticky <= StateAt(c, ins, b).sticky
    decreases b
  {
    if a < b {
      hide StateAt, Next;
      StickyGrows(c, ins, a, b - 1);
      StateStep(c, ins, b - 1);
      QuietKeepsSticky(c, StateAt(c, ins, b - 1), ins[b - 1]);
    }
  }

  lemma QuietKeepsSticky(c: Config, s: State, i: Input)
    requires Quiet(i)
    ensures s.sticky <= Next(c, s, i).sticky
  {
  }

  lemma QuietAddsClean(c: Config, ins: seq<Input>, a: nat, b: nat)
    requires Clean(c, ins, a, b) && b < |ins| && Quiet(ins[b])
    ensures Clean(c, ins, a, b + 1)
  {
    assert CleanAt(c, ins, b);
  }

  /** A byte seen valid at `t` is the byte the pop at `mid` removes. */
  lemma PopSpan(c: Config, ins: seq<Input>, t: nat, mid: nat, v: byte)
    requires c.Valid() && QuietFrom(ins, t, mid) && mid < |ins| && QuietFrom(ins, mid + 1, |ins|)
    requires StateAt(c, ins, t).rx.out == Some(v)
    requires ins[mid].pop && ins[mid].txData.None? && ins[mid].clear == {}
    ensures PoppedBy(c, ins) == PoppedBy(c, ins[..t]) + [v] && QueuedBy(c, ins) == QueuedBy(c, ins[..t])
    ensures Clean(c, ins, t, |ins|) && NoClear(ins, t, |ins|)
  {
    hide PoppedBy, QueuedBy, StateAt, Clean;
    QuietSpan(c, ins, t, mid);
    StreamStep(c, ins, mid);
    QuietSpan(c, ins, mid + 1, |ins|);
    assert ins[..|ins|] == ins;
    AccessIsClean(c, ins, t, mid);
  }

  lemma AccessIsClean(c: Config, ins: seq<Input>, t: nat, mid: nat)
    requires Clean(c, ins, t, mid) && mid < |ins| && Clean(c, ins, mid + 1, |ins|)
    requires ins[mid].pop ==> StateAt(c, ins, mid).rx.Readable()
    requires ins[mid].txData.Some? ==> !TxFull(c, StateAt(c, ins, mid))
    ensures Clean(c, ins, t, |ins|)
  {
    assert CleanAt(c, ins, mid);
  }

  /** Room seen at `t` is still there when the write at `mid` lands. */
  lemma PushSpan(c: Config, ins: seq<Input>, t: nat, mid: nat, v: byte)
    requires c.Valid() && QuietFrom(ins, t, mid) && mid < |ins| && QuietFrom(ins, mid + 1, |ins|)
    requires StateAt(c, ins, t).tx.Level() < c.txDepth
    requires !ins[mid].pop && ins[mid].txData == Some(v) && ins[mid].clear == {}
    ensures QueuedBy(c, ins) == QueuedBy(c, ins[..t]) + [v] && PoppedBy(c, ins) == PoppedBy(c, ins[..t])
    ensures Clean(c, ins, t, |ins|) && NoClear(ins, t, |ins|)
  {
    hide PoppedBy, QueuedBy, StateAt, Clean;
    QuietSpan(c, ins, t, mid);
    StreamStep(c, ins, mid);
    QuietSpan(c, ins, mid + 1, |ins|);
    assert ins[..|ins|] == ins;
    AccessIsClean(c, ins, t, mid);
  }

  /** A clear moves no byte. */
  lemma ClearSpan(c: Config, ins: seq<Input>, a: nat, mid: nat)
    requires c.Valid() && QuietFrom(ins, a, mid) && mid < |ins| && QuietFrom(ins, mid + 1, |ins|)
    requires !ins[mid].pop && ins[mid].txData.None?
    ensures QueuedBy(c, ins) == QueuedBy(c, ins[..a]) && PoppedBy(c, ins) == PoppedBy(c, ins[..a])
    ensures Clean(c, ins, a, |ins|)
  {
    hide PoppedBy, QueuedBy, StateAt, Clean;
    QuietSpan(c, ins, a, mid);
    StreamStep(c, ins, mid);
    QuietSpan(c, ins, mid + 1, |ins|);
    assert ins[..|ins|] == ins;
    AccessIsClean(c, ins, a, mid);
  }

  lemma RxBits(c: Config, g: Regs, ins: seq<Input>, t: nat)
    requires c.Valid() && t <= |ins|
    ensures var w, rx := ReadAt(c, g, ins, t, g.rx), StateAt(c, ins, t).rx;
            && (w / 0x100 % 2 == 1 <==> rx.Readable())
            && (rx.Readable() ==> rx.out == Some(w % 0x100))
  {
    RunKeepsInv(c, Reset({}), ins[..t]);
    RxWordFields(c, StateAt(c, ins, t));
  }

  lemma TxBits(c: Config, g: Regs, ins: seq<Input>, t: nat)
    requires c.Valid() && g.Distinct() && t <= |ins|
    ensures ReadAt(c, g, ins, t, g.tx) / 0x200 % 2 == 0 ==> StateAt(c, ins, t).tx.Level() < c.txDepth
    ensures ReadAt(c, g, ins, t, g.tx) / 0x200 % 2 == 1 ==> TxFull(c, StateAt(c, ins, t))
  {
    RunKeepsInv(c, Reset({}), ins[..t]);
  }

  lemma ErrBits(c: Config, g: Regs, ins: seq<Input>, t: nat)
    requires c.Valid() && g.Distinct() && t <= |ins|
    ensures ReadAt(c, g, ins, t, g.err) == ErrWord(StateAt(c, ins, t).sticky)
  {
  }

  // ---- the operations ------------------------------------------------------------------

  /** Every request from number `a` on reads this one register. */
  ghost predicate OnlyAsks(asks: seq<Ask>, a: nat, addr: u32) {
    forall j | a <= j < |asks| :: asks[j].addrs == [addr]
  }

  datatype Fetch = TimedOut | Nothing | Got(value: byte)

  /**
   * The read in drain's loop.  A byte it returns is the head of the FIFO when it
   * returns: appended by the host, not yet popped.
   */
  method LookByte(w: World) returns (f: Fetch)
    requires w.Valid() && w.Budget(10)
    modifies w
    ensures w.Valid() && old(w.ins) <= w.ins && old(w.counter) <= w.counter <= old(w.counter) + 10
    ensures PoppedBy(w.cfg, w.ins) == PoppedBy(w.cfg, old(w.ins)) && QueuedBy(w.cfg, w.ins) == QueuedBy(w.cfg, old(w.ins))
    ensures Clean(w.cfg, w.ins, |old(w.ins)|, |w.ins|) && NoClear(w.ins, |old(w.ins)|, |w.ins|)
    ensures f.Got? ==> StateAt(w.cfg, w.ins, |w.ins|).rx.out == Some(f.value)
    ensures f.Nothing? ==> exists t | |old(w.ins)| <= t <= |w.ins| :: !StateAt(w.cfg, w.ins, t).rx.Readable()
    ensures w.heard == old(w.heard) + if f.TimedOut? then [] else [|w.asks| - 1]
    ensures old(w.asks) <= w.asks && OnlyAsks(w.asks, |old(w.asks)|, w.regs.rx)
    ensures f.TimedOut? ==> w.counter == old(w.counter) + 10
    ensures f.TimedOut? <==> w.Unanswered()
    ensures f.Got? && w.inFlight <= w.cfg.headroom ==>
              var rx := StateAt(w.cfg, w.ins, |w.ins|).rx;
              && rx.Contents() != []
              && Emitted(w.ins) == PoppedBy(w.cfg, w.ins) + [f.value] + rx.Contents()[1..]
  {
    hide PoppedBy, QueuedBy, Clean, StateAt, ReadAt, NoClear, World.Valid, Emitted, World.Unanswered;
    ghost var ins0 := w.ins;
    var ok, vals, sentAt, when := w.Read([w.regs.rx]);
    ValidParts(w);
    SpanAfter(w.cfg, ins0, w.ins);
    if !ok {
      return TimedOut;
    }
    var word := vals[0];
    RxSeen(w.cfg, w.regs, |ins0|, w.ins, when[0], word);
    if word / 0x100 % 2 == 0 {
      return Nothing;
    }
    if w.inFlight <= w.cfg.headroom {
      HeadIsNext(w, word % 0x100);
    }
    return Got(word % 0x100);
  }

  lemma ValidParts(w: World)
    requires w.Valid()
    ensures w.cfg.Valid() && w.regs.Distinct() && w.counter == |w.asks|
  {
  }

  /** What the word read at `t` says of the FIFO then and now. */
  lemma RxSeen(c: Config, g: Regs, a: nat, ins: seq<Input>, t: nat, word: u32)
    requires c.Valid() && a <= t <= |ins| && QuietFrom(ins, a, |ins|) && word == ReadAt(c, g, ins, t, g.rx)
    ensures word / 0x100 % 2 == 0 ==> !StateAt(c, ins, t).rx.Readable()
    ensures word / 0x100 % 2 != 0 ==> StateAt(c, ins, |ins|).rx.out == Some(word % 0x100)
  {
    hide PoppedBy, QueuedBy, Clean, StateAt, ReadAt, NoClear;
    RxBits(c, g, ins, t);
    QuietSpan(c, ins, t, |ins|);
  }

  /** Between append and pop the streams are off by exactly the head byte. */
  lemma HeadIsNext(w: World, v: byte)
    requires w.Valid() && w.inFlight <= w.cfg.headroom && StateAt(w.cfg, w.ins, |w.ins|).rx.out == Some(v)
    ensures var rx := StateAt(w.cfg, w.ins, |w.ins|).rx;
            rx.Contents() != [] && Emitted(w.ins) == PoppedBy(w.cfg, w.ins) + [v] + rx.Contents()[1..]
  {
    hide Emitted, PoppedBy, Run, InFlightBounded, AllGenuine;
    assert w.ins[..|w.ins|] == w.ins;
    NothingVanishes(w.cfg, w.inFlight, w.ins);
    var q := StateAt(w.cfg, w.ins, |w.ins|).rx.Contents();
    assert q == [v] + q[1..];
    assert PoppedBy(w.cfg, w.ins) + ([v] + q[1..]) == PoppedBy(w.cfg, w.ins) + [v] + q[1..];
  }

  /** Within the headroom every emitted byte has been popped or is in the FIFO. */
  lemma NothingVanishes(c: Config, k: nat, ins: seq<Input>)
    requires c.Valid() && k <= c.headroom && NoReset(ins) && InFlightBounded(c, k, Reset({}), ins)
    ensures Emitted(ins) == PoppedBy(c, ins) + Run(c, Reset({}), ins).rx.Contents()
  {
    hide Run, Emitted, Popped, Queued, Transmitted, Accepted, InFlightBounded;
    NoOverflow(c, k, {}, ins);
    BytesAreConserved(c, {}, ins);
  }

  /** One turn of drain's loop: read the triple, stop unless valid, pop what was seen. */
  method FetchByte(w: World) returns (f: Fetch)
    requires w.Valid() && w.Budget(10)
    modifies w
    ensures w.Valid() && old(w.ins) <= w.ins && old(w.counter) <= w.counter <= old(w.counter) + 10
    ensures PoppedBy(w.cfg, w.ins) == PoppedBy(w.cfg, old(w.ins)) + if f.Got? then [f.value] else []
    ensures QueuedBy(w.cfg, w.ins) == QueuedBy(w.cfg, old(w.ins))
    ensures Clean(w.cfg, w.ins, |old(w.ins)|, |w.ins|) && NoClear(w.ins, |old(w.ins)|, |w.ins|)
    ensures f.Nothing? ==> exists t | |old(w.ins)| <= t <= |w.ins| :: !StateAt(w.cfg, w.ins, t).rx.Readable()
    ensures w.heard == old(w.heard) + if f.TimedOut? then [] else [|w.asks| - 1]
    ensures old(w.asks) <= w.asks && OnlyAsks(w.asks, |old(w.asks)|, w.regs.rx)
    ensures f.TimedOut? ==> w.counter == old(w.counter) + 10
    ensures f.TimedOut? <==> w.Unanswered()
  {
    hide PoppedBy, QueuedBy, Clean, StateAt, NoClear, AllGenuine, InFlightBounded, NoReset, FaultsIn, Emitted, World.Unanswered;
    ghost var ins0 := w.ins;
    f := LookByte(w);
    if !f.Got? {
      return;
    }
    ghost var ins1 := w.ins;
    ghost var mid := w.Write(w.regs.pop, 1);
    StateAtStays(w.cfg, ins1, w.ins, |ins1|);
    PopSpan(w.cfg, w.ins, |ins1|, mid, f.value);
    assert w.ins[..|ins1|] == ins1;
    SpansJoin(w.cfg, |ins0|, ins1, w.ins);
  }

  /** A quiet extension moves no stream. */
  lemma SpanAfter(c: Config, ins: seq<Input>, ins': seq<Input>)
    requires c.Valid() && ins <= ins' && QuietFrom(ins', |ins|, |ins'|)
    ensures PoppedBy(c, ins') == PoppedBy(c, ins) && QueuedBy(c, ins') == QueuedBy(c, ins)
    ensures Clean(c, ins', |ins|, |ins'|) && NoClear(ins', |ins|, |ins'|)
  {
    hide PoppedBy, QueuedBy, Clean, StateAt;
    QuietSpan(c, ins', |ins|, |ins'|);
    assert ins'[..|ins'|] == ins' && ins'[..|ins|] == ins;
  }

  /** The streams at any moment `t` of a quiet stretch are those at its start. */
  lemma SpanFrom(c: Config, ins0: seq<Input>, ins1: seq<Input>, ins2: seq<Input>, t: nat)
    requires c.Valid() && ins0 <= ins1 <= ins2 && |ins0| <= t <= |ins1| && QuietFrom(ins1, |ins0|, |ins1|)
    requires Clean(c, ins2, t, |ins2|) && NoClear(ins2, t, |ins2|)
    ensures PoppedBy(c, ins2[..t]) == PoppedBy(c, ins0) && QueuedBy(c, ins2[..t]) == QueuedBy(c, ins0)
    ensures Clean(c, ins2, |ins0|, |ins2|) && NoClear(ins2, |ins0|, |ins2|)
  {
    hide PoppedBy, QueuedBy, Clean, StateAt, NoClear;
    QuietSpan(c, ins1, |ins0|, t);
    assert ins2[..t] == ins1[..t] && ins1[..|ins0|] == ins0;
    CleanJoins(c, ins1, ins2, |ins0|, t, |ins2|);
    NoClearJoins(ins1, ins2, |ins0|, t, |ins2|);
  }

  lemma SpansJoin(c: Config, a: nat, ins: seq<Input>, ins': seq<Input>)
    requires a <= |ins| && ins <= ins'
    requires Clean(c, ins, a, |ins|) && NoClear(ins, a, |ins|)
    requires Clean(c, ins', |ins|, |ins'|) && NoClear(ins', |ins|, |ins'|)
    ensures Clean(c, ins', a, |ins'|) && NoClear(ins', a, |ins'|)
  {
    CleanJoins(c, ins, ins', a, |ins|, |ins'|);
    NoClearJoins(ins, ins', a, |ins|, |ins'|);
  }

  lemma EmptySpan(c: Config, ins: seq<Input>)
    ensures Clean(c, ins, |ins|, |ins|) && NoClear(ins, |ins|, |ins|)
  {
  }

  /**
   * The network behaviour that makes drain lose bytes: some reply of the call was
   * handed over, and then all ten requests of one read went unanswered.
   */
  ghost predicate Lossy(w: World, heardBefore: nat)
    reads w
  {
    |w.heard| > heardBefore && w.Unanswered()
  }

  /**
   * drain.  The bytes it collects, `out`, are popped exactly once and in order, and it
   * never pops an empty FIFO.  The caller gets them unless a read gave up (`raised`).
   * Nothing is lost on the way to the caller if and only if the network was not `Lossy`.
   */
  method Drain(w: World) returns (raised: bool, result: Bytes, ghost out: Bytes)
    requires w.Valid() && w.Budget(10 * DRAIN_MAX)
    modifies w
    ensures w.Valid() && old(w.ins) <= w.ins && old(w.counter) <= w.counter <= old(w.counter) + 10 * DRAIN_MAX
    ensures raised <==> w.Unanswered()
    ensures raised ==> w.counter >= old(w.counter) + 10
    ensures |w.heard| == |old(w.heard)| + |out| + if !raised && |out| < DRAIN_MAX then 1 else 0
    ensures old(w.asks) <= w.asks && OnlyAsks(w.asks, |old(w.asks)|, w.regs.rx)
    ensures PoppedBy(w.cfg, w.ins) == PoppedBy(w.cfg, old(w.ins)) + out
    ensures QueuedBy(w.cfg, w.ins) == QueuedBy(w.cfg, old(w.ins))
    ensures Clean(w.cfg, w.ins, |old(w.ins)|, |w.ins|) && NoClear(w.ins, |old(w.ins)|, |w.ins|)
    ensures |out| <= DRAIN_MAX && result == if raised then [] else out
    ensures !raised && |out| < DRAIN_MAX ==>
              exists t | |old(w.ins)| <= t <= |w.ins| :: !StateAt(w.cfg, w.ins, t).rx.Readable()
    ensures w.inFlight <= w.cfg.headroom ==>
              (Emitted(w.ins) == PoppedBy(w.cfg, old(w.ins)) + result + Run(w.cfg, Reset({}), w.ins).rx.Contents()
               <==> !Lossy(w, |old(w.heard)|))
  {
    hide PoppedBy, QueuedBy, Clean, StateAt, NoClear, World.Valid, Emitted, Run, World.Unanswered;
    raised, result, out := DrainLoop(w);
    if w.inFlight <= w.cfg.headroom {
      Delivered(w, PoppedBy(w.cfg, old(w.ins)), result, out);
    }
  }

  lemma Delivered(w: World, before: Bytes, result: Bytes, out: Bytes)
    requires w.Valid() && w.inFlight <= w.cfg.headroom && PoppedBy(w.cfg, w.ins) == before + out
    requires result == [] || result == out
    ensures Emitted(w.ins) == before + result + Run(w.cfg, Reset({}), w.ins).rx.Contents() <==> result == out
  {
    hide PoppedBy, Emitted, Run, AllGenuine, InFlightBounded, NoReset;
    NothingVanishes(w.cfg, w.inFlight, w.ins);
  }

  method DrainLoop(w: World) returns (raised: bool, result: Bytes, ghost out: Bytes)
    requires w.Valid() && w.Budget(10 * DRAIN_MAX)
    modifies w
    ensures w.Valid() && old(w.ins) <= w.ins && old(w.counter) <= w.counter <= old(w.counter) + 10 * DRAIN_MAX
    ensures raised <==> w.Unanswered()
    ensures raised ==> w.counter >= old(w.counter) + 10
    ensures |w.heard| == |old(w.heard)| + |out| + if !raised && |out| < DRAIN_MAX then 1 else 0
    ensures old(w.asks) <= w.asks && OnlyAsks(w.asks, |old(w.asks)|, w.regs.rx)
    ensures PoppedBy(w.cfg, w.ins) == PoppedBy(w.cfg, old(w.ins)) + out
    ensures QueuedBy(w.cfg, w.ins) == QueuedBy(w.cfg, old(w.ins))
    ensures Clean(w.cfg, w.ins, |old(w.ins)|, |w.ins|) && NoClear(w.ins, |old(w.ins)|, |w.ins|)
    ensures |out| <= DRAIN_MAX && result == if raised then [] else out
    ensures !raised && |out| < DRAIN_MAX ==>
              exists t | |old(w.ins)| <= t <= |w.ins| :: !StateAt(w.cfg, w.ins, t).rx.Readable()
  {
    hide PoppedBy, QueuedBy, Clean, StateAt, NoClear, World.Valid, World.Unanswered;
    var got: Bytes := [];
    EmptySpan(w.cfg, w.ins);
    for n := 0 to DRAIN_MAX
      invariant w.Valid() && old(w.ins) <= w.ins && old(w.counter) <= w.counter <= old(w.counter) + 10 * n
      invariant PoppedBy(w.cfg, w.ins) == PoppedBy(w.cfg, old(w.ins)) + got
      invariant QueuedBy(w.cfg, w.ins) == QueuedBy(w.cfg, old(w.ins))
      invariant Clean(w.cfg, w.ins, |old(w.ins)|, |w.ins|) && NoClear(w.ins, |old(w.ins)|, |w.ins|)
      invariant |got| == n && |w.heard| == |old(w.heard)| + n
      invariant n > 0 ==> !w.Unanswered()
      invariant old(w.asks) <= w.asks && OnlyAsks(w.asks, |old(w.asks)|, w.regs.rx)
    {
      ghost var ins0 := w.ins;
      var f := FetchByte(w);
      SpansJoin(w.cfg, |old(w.ins)|, ins0, w.ins);
      if f.TimedOut? {
        return true, [], got;
      }
      if f.Nothing? {
        return false, got, got;
      }
      got := got + [f.value];
    }
    return false, got, got;
  }

  /**
   * Such a run exists: the core emits `v`, one read is answered and its byte popped, and
   * the ten requests of the next read stay unanswered.  The steps are drain's own, with
   * the choices of the network fixed; the byte is gone and the caller got nothing.
   */
  method LosingRun(c: Config, inFlight: nat, g: Regs, v: byte) returns (w: World, result: Bytes)
    requires c.Valid() && g.Distinct() && 11 < g.pop && 11 < g.txData && 11 < g.errClear
    ensures fresh(w) && w.Valid() && result == []
    ensures Emitted(w.ins) == [v] && PoppedBy(c, w.ins) == [v] && Run(c, Reset({}), w.ins).rx.Contents() == []
    ensures Lossy(w, 0)
  {
    hide World.Valid, InFlightBounded, ReadAt, HostLink.Accept, Run, Emitted, PoppedBy, StateAt, AccessInput, World.Unanswered;
    w := new World(c, inFlight, g);
    var byteIn, idle := Input(Some(v), false, false, None, {}, false), Input(None, false, false, None, {}, false);
    FirstByteAllowed(c, inFlight, byteIn);
    w.Cycle(byteIn);
    w.Cycle(idle);
    assert w.ins == [byteIn, idle];
    ByteShows(c, v, byteIn, idle);

    // the first read: its reply arrives and shows the byte
    w.SendAsk([g.rx]);
    w.Execute(0, [2]);
    OnlyParcel(w);
    var got := HostLink.Accept(w.parcels[0].bytes, w.counter);
    w.Hear();
    var word := got.value[0];
    RxBits(c, g, w.ins, 2);
    assert word / 0x100 % 2 == 1 && word % 0x100 == v;
    var out: Bytes := [word % 0x100];
    w.Access(g.pop, 1, None, false);
    ghost var ins3 := w.ins;
    PopEmpties(c, g, v, [byteIn, idle], ins3);

    // the second read: ten requests, no answer
    for attempt := 0 to 10
      invariant w.Valid() && w.ins == ins3 && w.heard == [0] && w.counter == |w.asks| == 1 + attempt
      invariant |w.silent| == attempt && forall j | 0 <= j < attempt :: w.silent[j] == 1 + j
      invariant w.regs == g && w.cfg == c && fresh(w)
    {
      w.SendAsk([g.rx]);
      w.Choose(0);
      w.Miss();
    }
    AllMissed(w);
    result := [];
  }

  lemma FirstByteAllowed(c: Config, k: nat, i: Input)
    ensures InFlightBounded(c, k, Reset({}), [] + [i])
  {
    assert Init([] + [i]) == [];
  }

  lemma OnlyParcel(w: World)
    requires w.Valid() && |w.asks| == |w.parcels| == 1 && w.parcels[0].ask == 0
    requires w.asks[0].addrs == [w.regs.rx] && w.parcels[0].times == [2] && |w.ins| == 2
    ensures var got := HostLink.Accept(w.parcels[0].bytes, 1);
            got.Some? && |got.value| == 1 && got.value[0] == ReadAt(w.cfg, w.regs, w.ins, 2, w.regs.rx)
  {
    hide ReadAt, InFlightBounded, HostLink.Accept;
    assert Genuine(w.cfg, w.regs, w.ins, w.asks, w.parcels[0]);
  }

  /** One cycle after it was pushed a byte is in the output register. */
  lemma ByteShows(c: Config, v: byte, byteIn: Input, idle: Input)
    requires c.Valid() && Quiet(byteIn) && Quiet(idle) && byteIn.core == Some(v) && idle.core.None?
    ensures StateAt(c, [byteIn, idle], 2).rx.out == Some(v) && StateAt(c, [byteIn, idle], 2).rx.inner == []
    ensures Emitted([byteIn, idle]) == [v] && PoppedBy(c, [byteIn, idle]) == []
  {
    var two, one := [byteIn, idle], [byteIn];
    assert two[..2] == two && Init(two) == one && Init(one) == [];
    var s1 := Next(c, Reset({}), byteIn);
    assert Run(c, Reset({}), one) == s1;
    assert s1.rx.inner == [v] && s1.rx.out == None;
    assert Run(c, Reset({}), two) == Next(c, s1, idle);
    assert Emitted(one) == [] + [v];
    assert Popped(c, Reset({}), one) == [];
  }

  lemma PopEmpties(c: Config, g: Regs, v: byte, ins: seq<Input>, ins': seq<Input>)
    requires c.Valid() && |ins'| == |ins| + 1 && ins <= ins' && ins'[|ins|] == AccessInput(g, g.pop, 1, None, false)
    requires StateAt(c, ins, |ins|).rx.out == Some(v) && StateAt(c, ins, |ins|).rx.inner == []
    requires Emitted(ins) == [v] && PoppedBy(c, ins) == []
    ensures Emitted(ins') == [v] && PoppedBy(c, ins') == [v] && Run(c, Reset({}), ins').rx.Contents() == []
  {
    assert Init(ins') == ins && ins[..|ins|] == ins;
  }

  lemma AllMissed(w: World)
    requires w.heard == [0] && |w.asks| == 11 && |w.silent| == 10 && forall j | 0 <= j < 10 :: w.silent[j] == 1 + j
    ensures Lossy(w, 0)
  {
    forall j: nat | 1 <= j < 11 ensures j in w.silent {
      assert w.silent[j - 1] == j;
    }
  }

  datatype Try = GaveUp | Full | Taken

  /** One answered look at console_tx: the request, and the moment its value was read. */
  datatype Look = Look(ask: nat, at: nat)

  function AsksOf(looks: seq<Look>): (js: seq<nat>)
    ensures |js| == |looks|
  {
    seq(|looks|, i requires 0 <= i < |looks| => looks[i].ask)
  }

  /** The request read console_tx at or after cycle `a`, and the FIFO was full then. */
  ghost predicate FullLook(c: Config, g: Regs, ins: seq<Input>, asks: seq<Ask>, a: nat, l: Look) {
    && l.ask < |asks| && asks[l.ask].addrs == [g.tx]
    && a <= asks[l.ask].at <= l.at <= |ins| && TxFull(c, StateAt(c, ins, l.at))
  }

  /** Each look found the FIFO full, and each request was sent after the look before it. */
  ghost predicate FullAt(c: Config, g: Regs, ins: seq<Input>, asks: seq<Ask>, a: nat, looks: seq<Look>) {
    && (forall i | 0 <= i < |looks| :: FullLook(c, g, ins, asks, a, looks[i]))
    && forall i | 0 < i < |looks| :: looks[i - 1].ask < looks[i].ask && looks[i - 1].at <= asks[looks[i].ask].at
  }

  lemma FullLookStays(c: Config, g: Regs, ins: seq<Input>, ins': seq<Input>, asks: seq<Ask>, asks': seq<Ask>,
                      a: nat, a': nat, l: Look)
    requires FullLook(c, g, ins, asks, a, l) && ins <= ins' && asks <= asks' && a' <= a
    ensures FullLook(c, g, ins', asks', a', l)
  {
    hide TxFull;
    StateAtStays(c, ins, ins', l.at);
  }

  lemma FullAtStays(c: Config, g: Regs, ins: seq<Input>, ins': seq<Input>, asks: seq<Ask>, asks': seq<Ask>,
                    a: nat, a': nat, looks: seq<Look>)
    requires FullAt(c, g, ins, asks, a, looks) && ins <= ins' && asks <= asks' && a' <= a
    ensures FullAt(c, g, ins', asks', a', looks)
  {
    hide FullLook;
    forall i | 0 <= i < |looks| ensures FullLook(c, g, ins', asks', a', looks[i]) && looks[i].ask < |asks| {
      FullLookStays(c, g, ins, ins', asks, asks', a, a', looks[i]);
      LookInRange(c, g, ins, asks, a, looks[i]);
    }
  }

  lemma LookInRange(c: Config, g: Regs, ins: seq<Input>, asks: seq<Ask>, a: nat, l: Look)
    requires FullLook(c, g, ins, asks, a, l)
    ensures l.ask < |asks| && l.at <= |ins| && a <= asks[l.ask].at
  {
  }

  lemma FullAtGrows(c: Config, g: Regs, ins: seq<Input>, ins': seq<Input>, asks: seq<Ask>, asks': seq<Ask>,
                    a: nat, looks: seq<Look>, l: Look)
    requires FullAt(c, g, ins, asks, a, looks) && ins <= ins' && asks <= asks' && a <= |ins|
    requires FullLook(c, g, ins', asks', |ins|, l) && |asks| <= l.ask
    ensures FullAt(c, g, ins', asks', a, looks + [l]) && AsksOf(looks + [l]) == AsksOf(looks) + [l.ask]
  {
    hide FullLook;
    FullAtStays(c, g, ins, ins', asks, asks', a, a, looks);
    FullLookStays(c, g, ins', ins', asks', asks', |ins|, a, l);
    LookInRange(c, g, ins', asks', |ins|, l);
    if looks != [] {
      LookInRange(c, g, ins, asks, a, looks[|looks| - 1]);
    }
  }

  /** One look at console_tx, and the write if there is room. */
  method TrySend(w: World, v: byte) returns (r: Try, ghost look: Look)
    requires w.Valid() && w.Budget(10)
    modifies w
    ensures w.Valid() && old(w.ins) <= w.ins && old(w.counter) <= w.counter <= old(w.counter) + 10
    ensures QueuedBy(w.cfg, w.ins) == QueuedBy(w.cfg, old(w.ins)) + if r.Taken? then [v] else []
    ensures PoppedBy(w.cfg, w.ins) == PoppedBy(w.cfg, old(w.ins))
    ensures Clean(w.cfg, w.ins, |old(w.ins)|, |w.ins|) && NoClear(w.ins, |old(w.ins)|, |w.ins|)
    ensures w.heard == old(w.heard) + if r.GaveUp? then [] else [|w.asks| - 1]
    ensures old(w.asks) <= w.asks && |old(w.asks)| < |w.asks| && OnlyAsks(w.asks, |old(w.asks)|, w.regs.tx)
    ensures (r.GaveUp? <==> w.Unanswered()) && (r.GaveUp? ==> w.counter == old(w.counter) + 10)
    ensures r.Full? ==> look.ask == |w.asks| - 1 && FullLook(w.cfg, w.regs, w.ins, w.asks, |old(w.ins)|, look)
  {
    hide PoppedBy, QueuedBy, Clean, StateAt, ReadAt, NoClear, AllGenuine, InFlightBounded, NoReset, FaultsIn, World.Unanswered;
    ghost var ins0 := w.ins;
    look := Look(0, 0);
    var ok, vals, sentAt, when := w.Read([w.regs.tx]);
    ghost var ins1 := w.ins;
    SpanAfter(w.cfg, ins0, ins1);
    if !ok {
      r := GaveUp;
      return;
    }
    look := Look(|w.asks| - 1, when[0]);
    TxBits(w.cfg, w.regs, ins1, look.at);
    if vals[0] / 0x200 % 2 == 1 {
      r := Full;
      return;
    }
    ghost var mid := w.Write(w.regs.txData, v);
    StateAtStays(w.cfg, ins1, w.ins, look.at);
    QuietJoins(ins1, w.ins, look.at, mid);
    PushSpan(w.cfg, w.ins, look.at, mid, v);
    SpanFrom(w.cfg, ins0, ins1, w.ins, look.at);
    r := Taken;
  }

  /** Wait for transmit room, at most FULL_POLLS times past the first look, then write. */
  method SendByte(w: World, v: byte) returns (r: Try, ghost looks: seq<Look>)
    requires w.Valid() && w.Budget(10 * (FULL_POLLS + 1))
    modifies w
    ensures w.Valid() && old(w.ins) <= w.ins && old(w.counter) <= w.counter <= old(w.counter) + 10 * (FULL_POLLS + 1)
    ensures QueuedBy(w.cfg, w.ins) == QueuedBy(w.cfg, old(w.ins)) + if r.Taken? then [v] else []
    ensures PoppedBy(w.cfg, w.ins) == PoppedBy(w.cfg, old(w.ins))
    ensures Clean(w.cfg, w.ins, |old(w.ins)|, |w.ins|) && NoClear(w.ins, |old(w.ins)|, |w.ins|)
    ensures (r.GaveUp? <==> w.Unanswered()) && (r.GaveUp? ==> w.counter >= old(w.counter) + 10)
    ensures FullAt(w.cfg, w.regs, w.ins, w.asks, |old(w.ins)|, looks) && |looks| <= FULL_POLLS + 1
    ensures r.Full? <==> |looks| == FULL_POLLS + 1
    ensures w.heard == old(w.heard) + AsksOf(looks) + if r.Taken? then [|w.asks| - 1] else []
    ensures old(w.asks) <= w.asks && OnlyAsks(w.asks, |old(w.asks)|, w.regs.tx)
  {
    hide PoppedBy, QueuedBy, Clean, NoClear, World.Valid, FullAt, FullLook, StateAt, World.Unanswered, OnlyAsks, AsksOf;
    EmptySpan(w.cfg, w.ins);
    looks := [];
    NoLooks(w.cfg, w.regs, w.ins, w.asks, w.regs.tx);
    for waited := 0 to FULL_POLLS + 1
      invariant w.Valid() && old(w.ins) <= w.ins && old(w.counter) <= w.counter <= old(w.counter) + 10 * waited
      invariant FullAt(w.cfg, w.regs, w.ins, w.asks, |old(w.ins)|, looks) && |looks| == waited
      invariant w.heard == old(w.heard) + AsksOf(looks)
      invariant old(w.asks) <= w.asks && OnlyAsks(w.asks, |old(w.asks)|, w.regs.tx)
      invariant QueuedBy(w.cfg, w.ins) == QueuedBy(w.cfg, old(w.ins))
      invariant PoppedBy(w.cfg, w.ins) == PoppedBy(w.cfg, old(w.ins))
      invariant Clean(w.cfg, w.ins, |old(w.ins)|, |w.ins|) && NoClear(w.ins, |old(w.ins)|, |w.ins|)
      invariant waited > 0 ==> !w.Unanswered()
    {
      ghost var ins0, asks0 := w.ins, w.asks;
      ghost var look: Look;
      r, look := TrySend(w, v);
      SpansJoin(w.cfg, |old(w.ins)|, ins0, w.ins);
      OnlyAsksJoin(asks0, w.asks, |old(w.asks)|, w.regs.tx);
      if !r.Full? {
        FullAtStays(w.cfg, w.regs, ins0, w.ins, asks0, w.asks, |old(w.ins)|, |old(w.ins)|, looks);
        return;
      }
      FullAtGrows(w.cfg, w.regs, ins0, w.ins, asks0, w.asks, |old(w.ins)|, looks, look);
      looks := looks + [look];
    }
    r := Full;
  }

  lemma NoLooks(c: Config, g: Regs, ins: seq<Input>, asks: seq<Ask>, addr: u32)
    ensures FullAt(c, g, ins, asks, |ins|, []) && AsksOf([]) == [] && OnlyAsks(asks, |asks|, addr)
  {
  }

  lemma OnlyAsksJoin(asks: seq<Ask>, asks': seq<Ask>, a: nat, addr: u32)
    requires asks <= asks' && OnlyAsks(asks, a, addr) && OnlyAsks(asks', |asks|, addr)
    ensures OnlyAsks(asks', a, addr)
  {
  }

  const BYTE_READS: nat := 10 * (FULL_POLLS + 1)

  /**
   * send: accepts a prefix of the data, in order, and never writes a full FIFO.  A short
   * count means FULL_POLLS + 1 looks in a row, all answered, found the FIFO full.  The
   * call is followed as long as the ids of one more byte's reads collide with nothing;
   * `worn` says that they did.
   */
  method Send(w: World, data: Bytes) returns (raised: bool, accepted: nat, worn: bool, ghost looks: seq<Look>)
    requires w.Valid()
    modifies w
    ensures w.Valid() && old(w.ins) <= w.ins && old(w.counter) <= w.counter <= old(w.counter) + BYTE_READS * |data|
    ensures accepted <= |data|
    ensures QueuedBy(w.cfg, w.ins) == QueuedBy(w.cfg, old(w.ins)) + data[..accepted]
    ensures PoppedBy(w.cfg, w.ins) == PoppedBy(w.cfg, old(w.ins))
    ensures Clean(w.cfg, w.ins, |old(w.ins)|, |w.ins|) && NoClear(w.ins, |old(w.ins)|, |w.ins|)
    ensures worn ==> !raised && accepted < |data|
    ensures worn ==> !w.Budget(BYTE_READS) && w.counter <= old(w.counter) + BYTE_READS * accepted
    ensures raised ==> accepted < |data| && w.counter >= old(w.counter) + 10
    ensures data != [] && !worn ==> (raised <==> w.Unanswered())
    ensures !raised && !worn && accepted < |data| ==>
              |looks| == FULL_POLLS + 1 && FullAt(w.cfg, w.regs, w.ins, w.asks, |old(w.ins)|, looks)
    ensures !raised ==> |w.heard| >= |old(w.heard)| + accepted + if accepted < |data| && !worn then FULL_POLLS + 1 else 0
    ensures old(w.asks) <= w.asks && OnlyAsks(w.asks, |old(w.asks)|, w.regs.tx)
  {
    hide PoppedBy, QueuedBy, Clean, StateAt, NoClear, World.Valid, FullAt, World.Unanswered, OnlyAsks, AsksOf;
    EmptySpan(w.cfg, w.ins);
    NoLooks(w.cfg, w.regs, w.ins, w.asks, w.regs.tx);
    raised, accepted, worn, looks := false, 0, false, [];
    while accepted < |data|
      invariant w.Valid() && old(w.ins) <= w.ins && accepted <= |data| && !raised && |w.heard| >= |old(w.heard)| + accepted
      invariant old(w.asks) <= w.asks && OnlyAsks(w.asks, |old(w.asks)|, w.regs.tx)
      invariant !worn && old(w.counter) <= w.counter <= old(w.counter) + BYTE_READS * accepted
      invariant accepted > 0 ==> !w.Unanswered()
      invariant QueuedBy(w.cfg, w.ins) == QueuedBy(w.cfg, old(w.ins)) + data[..accepted]
      invariant PoppedBy(w.cfg, w.ins) == PoppedBy(w.cfg, old(w.ins))
      invariant Clean(w.cfg, w.ins, |old(w.ins)|, |w.ins|) && NoClear(w.ins, |old(w.ins)|, |w.ins|)
    {
      if !w.Budget(BYTE_READS) {
        worn := true;
        return;
      }
      ghost var ins0, asks0 := w.ins, w.asks;
      var r;
      r, looks := SendByte(w, data[accepted]);
      SpansJoin(w.cfg, |old(w.ins)|, ins0, w.ins);
      OnlyAsksJoin(asks0, w.asks, |old(w.asks)|, w.regs.tx);
      if !r.Taken? {
        raised := r.GaveUp?;
        FullAtStays(w.cfg, w.regs, w.ins, w.ins, w.asks, w.asks, |ins0|, |old(w.ins)|, looks);
        return;
      }
      assert data[..accepted + 1] == data[..accepted] + [data[accepted]];
      accepted := accepted + 1;
    }
  }

  /** The error word of moment `at`, with every fault in it that stood at cycle `a`. */
  ghost predicate Noted(c: Config, ins: seq<Input>, a: nat, err: u32, at: nat) {
    && a <= at <= |ins| && err == ErrWord(StateAt(c, ins, at).sticky)
    && StateAt(c, ins, a).sticky <= StateAt(c, ins, at).sticky
  }

  lemma NotedStays(c: Config, ins: seq<Input>, ins': seq<Input>, a: nat, err: u32, at: nat)
    requires Noted(c, ins, a, err, at) && ins <= ins'
    ensures Noted(c, ins', a, err, at)
  {
    hide ErrWord;
    StateAtStays(c, ins, ins', a);
    StateAtStays(c, ins, ins', at);
  }

  lemma ErrSeen(c: Config, g: Regs, a: nat, ins: seq<Input>, t: nat, err: u32)
    requires c.Valid() && g.Distinct() && a <= t <= |ins| && QuietFrom(ins, a, |ins|) && err == ReadAt(c, g, ins, t, g.err)
    ensures Noted(c, ins, a, err, t)
  {
    hide StateAt, ReadAt, ErrWord;
    ErrBits(c, g, ins, t);
    StickyGrows(c, ins, a, t);
  }

  /** A check_errors call that cleared: the cycle of the clear and the faults returned. */
  datatype Report = Report(at: nat, faults: set<Fault>)

  /** check_errors: returns the bits it saw and clears exactly those. */
  method CheckErrors(w: World, clear: bool) returns (raised: bool, err: u32, ghost at: nat, ghost reports: seq<Report>)
    requires w.Valid() && w.Budget(10)
    modifies w
    ensures w.Valid() && old(w.ins) <= w.ins && old(w.counter) <= w.counter <= old(w.counter) + 10
    ensures (raised <==> w.Unanswered()) && (raised ==> w.counter == old(w.counter) + 10)
    ensures w.heard == old(w.heard) + if raised then [] else [|w.asks| - 1]
    ensures old(w.asks) < w.asks && OnlyAsks(w.asks, |old(w.asks)|, w.regs.err)
    ensures QueuedBy(w.cfg, w.ins) == QueuedBy(w.cfg, old(w.ins))
    ensures PoppedBy(w.cfg, w.ins) == PoppedBy(w.cfg, old(w.ins))
    ensures Clean(w.cfg, w.ins, |old(w.ins)|, |w.ins|)
    ensures !raised ==> |old(w.ins)| <= w.asks[|w.asks| - 1].at <= at && Noted(w.cfg, w.ins, |old(w.ins)|, err, at)
    ensures Accounted(w.ins, |old(w.ins)|, reports)
    ensures forall k | 0 <= k < |reports| :: reports[k].faults == FaultsIn(err)
    ensures |reports| == if !raised && clear && err != 0 then 1 else 0
  {
    hide PoppedBy, QueuedBy, Clean, StateAt, ReadAt, ErrWord, FaultsIn, World.Valid, World.Unanswered, Noted;
    ghost var ins0 := w.ins;
    reports, at := [], 0;
    err := 0;
    var ok, vals, sentAt, when := w.Read([w.regs.err]);
    ghost var ins1 := w.ins;
    ValidParts(w);
    SpanAfter(w.cfg, ins0, ins1);
    if !ok {
      return true, 0, 0, [];
    }
    raised, err, at := false, vals[0], when[0];
    ErrSeen(w.cfg, w.regs, |ins0|, ins1, at, err);
    if err != 0 && clear {
      ghost var mid := w.Write(w.regs.errClear, err);
      NotedStays(w.cfg, ins1, w.ins, |ins0|, err, at);
      QuietJoins(ins1, w.ins, |ins0|, mid);
      ClearSpan(w.cfg, w.ins, |ins0|, mid);
      assert w.ins[..|ins0|] == ins0;
      reports := [Report(mid, FaultsIn(err))];
      OneClear(w.ins, |ins0|, mid, FaultsIn(err));
    }
  }

  /** Every clear from cycle `a` on is the clear of some report, of exactly the faults reported. */
  ghost predicate Accounted(ins: seq<Input>, a: nat, reports: seq<Report>) {
    && a <= |ins|
    && (forall t | a <= t < |ins| && ins[t].clear != {} :: exists k | 0 <= k < |reports| :: reports[k] == Report(t, ins[t].clear))
    && (forall k | 0 <= k < |reports| :: a <= reports[k].at < |ins| && ins[reports[k].at].clear == reports[k].faults)
  }

  lemma OneClear(ins: seq<Input>, a: nat, mid: nat, faults: set<Fault>)
    requires QuietFrom(ins, a, mid) && mid < |ins| && QuietFrom(ins, mid + 1, |ins|) && ins[mid].clear == faults
    ensures Accounted(ins, a, [Report(mid, faults)])
  {
    var rs := [Report(mid, faults)];
    forall t | a <= t < |ins| && ins[t].clear != {} ensures exists k | 0 <= k < |rs| :: rs[k] == Report(t, ins[t].clear) {
      assert rs[0] == Report(t, ins[t].clear);
    }
  }

  lemma NoClearAccounted(ins: seq<Input>, a: nat)
    requires NoClear(ins, a, |ins|)
    ensures Accounted(ins, a, [])
  {
  }

  lemma AccountedJoins(ins: seq<Input>, ins': seq<Input>, a: nat, rs: seq<Report>, rs': seq<Report>)
    requires ins <= ins' && a <= |ins| && Accounted(ins, a, rs) && Accounted(ins', |ins|, rs')
    ensures Accounted(ins', a, rs + rs')
  {
    var all := rs + rs';
    forall t | a <= t < |ins'| && ins'[t].clear != {}
      ensures exists k | 0 <= k < |all| :: all[k] == Report(t, ins'[t].clear)
    {
      if t < |ins| {
        assert ins'[t] == ins[t];
        var k :| 0 <= k < |rs| && rs[k] == Report(t, ins[t].clear);
        assert all[k] == rs[k];
      } else {
        var k :| 0 <= k < |rs'| && rs'[k] == Report(t, ins'[t].clear);
        assert all[|rs| + k] == rs'[k];
      }
    }
    forall k | 0 <= k < |all|
      ensures a <= all[k].at < |ins'| && ins'[all[k].at].clear == all[k].faults
    {
      if k < |rs| {
        assert all[k] == rs[k] && ins'[rs[k].at] == ins[rs[k].at];
      } else {
        assert all[k] == rs'[k - |rs|];
      }
    }
  }

  /**
   * The same of a fault that stands at moment `t`, whenever it occurred: it still reads 1,
   * or a call after that moment returned and cleared it.
   */
  lemma StandingIsReported(c: Config, ins: seq<Input>, a: nat, reports: seq<Report>, t: nat, f: Fault)
    requires Accounted(ins, a, reports) && a <= t <= |ins| && f in StateAt(c, ins, t).sticky
    ensures f in Run(c, Reset({}), ins).sticky
         || exists k | 0 <= k < |reports| :: reports[k].at >= t && f in reports[k].faults
  {
    hide Run;
    StandsOrCleared(c, ins, t, |ins|, f);
    assert ins[..|ins|] == ins;
    if f !in Run(c, Reset({}), ins).sticky {
      var u :| t <= u < |ins| && f in ins[u].clear;
      var k :| 0 <= k < |reports| && reports[k] == Report(u, ins[u].clear);
    }
  }

  lemma {:induction false} StandsOrCleared(c: Config, ins: seq<Input>, t: nat, b: nat, f: Fault)
    requires t <= b <= |ins| && f in StateAt(c, ins, t).sticky
    ensures f in StateAt(c, ins, b).sticky || exists u | t <= u < b :: f in ins[u].clear
    decreases b
  {
    if t < b {
      hide StateAt;
      StandsOrCleared(c, ins, t, b - 1, f);
      StateStep(c, ins, b - 1);
    }
  }

  /**
   * With check_errors as the only clearer no fault kind goes unreported: a fault that
   * occurred either still reads 1, or was returned by a call that cleared it afterwards.
   */
  lemma FaultsAreReported(c: Config, ins: seq<Input>, a: nat, reports: seq<Report>, t: nat, f: Fault)
    requires Accounted(ins, a, reports) && a <= t < |ins| && FaultAt(c, Reset({}), ins, t, f)
    ensures f in Run(c, Reset({}), ins).sticky
         || exists k | 0 <= k < |reports| :: reports[k].at > t && f in reports[k].faults
  {
    hide FaultAt;
    StickyExact(c, Reset({}), ins, f);
    if f !in Run(c, Reset({}), ins).sticky {
      assert ClearedAfter(c, Reset({}), ins, t + 1, f);
      var u :| t + 1 <= u < |ins| && ClearedAt(c, Reset({}), ins, u, f);
      var k :| 0 <= k < |reports| && reports[k] == Report(u, ins[u].clear);
    }
  }

  // ---- the promise ------------------------------------------------------------------------

  /** A fault bit set at the end and not raised since cycle `a` was set then. */
  lemma {:induction false} NotRaisedSince(c: Config, ins: seq<Input>, a: nat, b: nat, f: Fault)
    requires a <= b <= |ins| && forall t | a <= t < b :: !FaultAt(c, Reset({}), ins, t, f)
    ensures f in StateAt(c, ins, b).sticky ==> f in StateAt(c, ins, a).sticky
    decreases b
  {
    if a < b {
      hide Run;
      NotRaisedSince(c, ins, a, b - 1, f);
      StateStep(c, ins, b - 1);
      assert !FaultAt(c, Reset({}), ins, b - 1, f);
    }
  }

  lemma {:induction false} EmittedJoins(a: seq<Input>, b: seq<Input>)
    ensures Emitted(a + b) == Emitted(a) + Emitted(b)
  {
    if b == [] {
      assert a + b == a;
    } else {
      EmittedJoins(a, Init(b));
      assert Init(a + b) == a + Init(b);
    }
  }

  lemma {:induction false} TransmittedJoins(c: Config, s: State, a: seq<Input>, b: seq<Input>)
    ensures Transmitted(c, s, a + b) == Transmitted(c, s, a) + Transmitted(c, Run(c, s, a), b)
  {
    hide Run, Transmitted;
    TransmittedUnfold(c, s, a + b);
    TransmittedUnfold(c, Run(c, s, a), b);
    if b == [] {
      assert a + b == a;
    } else {
      TransmittedJoins(c, s, a, Init(b));
      RunJoins(c, s, a, Init(b));
      assert Init(a + b) == a + Init(b) && Last(a + b) == Last(b);
    }
  }

  lemma TransmittedUnfold(c: Config, s: State, ins: seq<Input>)
    ensures Transmitted(c, s, ins) ==
              if ins == [] then [] else
                var tx := Run(c, s, Init(ins)).tx;
                Transmitted(c, s, Init(ins)) + if Last(ins).phyReady && tx.Readable() then [tx.out.value] else []
  {
  }

  lemma {:induction false} PrefixBounded(c: Config, k: nat, s: State, ins: seq<Input>, n: nat)
    requires n <= |ins| && InFlightBounded(c, k, s, ins)
    ensures InFlightBounded(c, k, s, ins[..n])
  {
    if n < |ins| {
      assert Init(ins)[..n] == ins[..n];
      PrefixBounded(c, k, s, Init(ins), n);
    } else {
      assert ins[..n] == ins;
    }
  }

  lemma Cancel(a: Bytes, b: Bytes, c: Bytes)
    requires a + b == a + c
    ensures b == c
  {
    assert b == (a + b)[|a|..] && c == (a + c)[|a|..];
  }

  /**
   * The promise relative to any earlier moment `before`, for a host that was clean since:
   * what waited then ++ what was emitted since = what was popped since ++ what waits now;
   * likewise for transmission; and no fault bit was set since.
   */
  lemma EveryByteSince(c: Config, k: nat, before: seq<Input>, ins: seq<Input>, out: Bytes, fed: Bytes)
    requires c.Valid() && k <= c.headroom && NoReset(ins) && InFlightBounded(c, k, Reset({}), ins)
    requires before <= ins && Clean(c, ins, |before|, |ins|)
    requires PoppedBy(c, ins) == PoppedBy(c, before) + out && QueuedBy(c, ins) == QueuedBy(c, before) + fed
    ensures var s0, s, since := Run(c, Reset({}), before), Run(c, Reset({}), ins), ins[|before|..];
            && s0.rx.Contents() + Emitted(since) == out + s.rx.Contents()
            && s0.tx.Contents() + fed == Transmitted(c, s0, since) + s.tx.Contents()
            && s.sticky <= s0.sticky
  {
    hide Run, Emitted, Popped, Queued, Transmitted, Accepted, InFlightBounded, CleanAt, FaultAt;
    var s0, s, since := Run(c, Reset({}), before), Run(c, Reset({}), ins), ins[|before|..];
    assert ins == before + since && ins[..|before|] == before && ins[..|ins|] == ins;
    PrefixBounded(c, k, Reset({}), ins, |before|);
    EmittedJoins(before, since);
    NothingVanishes(c, k, before);
    NothingVanishes(c, k, ins);
    CancelRx(PoppedBy(c, before), s0.rx.Contents(), Emitted(since), out, s.rx.Contents());
    TransmittedJoins(c, Reset({}), before, since);
    BytesAreConserved(c, {}, before);
    BytesAreConserved(c, {}, ins);
    CancelRx(Transmitted(c, Reset({}), before), s0.tx.Contents(), fed, Transmitted(c, s0, since), s.tx.Contents());
    NoOverflow(c, k, {}, ins);
    forall f | f in s.sticky ensures f in s0.sticky {
      forall t | |before| <= t < |ins| ensures !FaultAt(c, Reset({}), ins, t, f) {
        CleanMeans(c, ins, t, f);
      }
      NotRaisedSince(c, ins, |before|, |ins|, f);
    }
  }

  lemma CancelRx(p: Bytes, waited: Bytes, more: Bytes, out: Bytes, waits: Bytes)
    requires (p + waited) + more == (p + out) + waits
    ensures waited + more == out + waits
  {
    assert (p + waited) + more == p + (waited + more) && (p + out) + waits == p + (out + waits);
    Cancel(p, waited + more, out + waits);
  }

  lemma CleanMeans(c: Config, ins: seq<Input>, t: nat, f: Fault)
    requires t < |ins| && CleanAt(c, ins, t) && f != RxOverflow
    ensures !FaultAt(c, Reset({}), ins, t, f)
  {
    hide FaultAt;
  }

  /** From power-on: emitted = popped ++ waiting, queued = transmitted ++ waiting, no fault bit is ever set. */
  lemma EveryByteOnce(c: Config, k: nat, ins: seq<Input>)
    requires c.Valid() && k <= c.headroom && NoReset(ins) && InFlightBounded(c, k, Reset({}), ins)
    requires Clean(c, ins, 0, |ins|)
    ensures var s := Run(c, Reset({}), ins);
            && Emitted(ins) == PoppedBy(c, ins) + s.rx.Contents()
            && QueuedBy(c, ins) == Transmitted(c, Reset({}), ins) + s.tx.Contents()
            && s.sticky == {}
  {
    EveryByteSince(c, k, [], ins, PoppedBy(c, ins), QueuedBy(c, ins));
    hide Emitted, Transmitted, Popped, Queued, InFlightBounded;
    assert ins[0..] == ins;
    assert [] + Emitted(ins) == Emitted(ins) && [] + QueuedBy(c, ins) == QueuedBy(c, ins);
  }
}
