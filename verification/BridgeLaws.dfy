/**
 * What the bridge's registers mean over whole histories: when the stall is up and that
 * it comes down, which bytes a fault bit stands for, what a reset restarts, and what the
 * status words say of the FIFOs.
 */
module BridgeLaws {
  import opened Bytes
  import opened ByteFifo
  import opened Bridge

  // ---- the stall -------------------------------------------------------------------

  /** The receive level before cycle `t`. */
  function LevelAt(c: Config, s: State, ins: seq<Input>, t: nat): nat
    requires t <= |ins|
  {
    |Bridge.Run(c, s, ins[..t]).rx.Contents()|
  }

  /** Cycle `t` saw the high-water mark reached. */
  predicate HighAt(c: Config, s: State, ins: seq<Input>, t: nat)
    requires t < |ins|
  {
    LevelAt(c, s, ins, t) >= c.rxDepth - c.headroom && !ins[t].reset
  }

  /** Cycle `t` saw the level at or below the low-water mark, or a reset. */
  predicate LowAt(c: Config, s: State, ins: seq<Input>, t: nat)
    requires t < |ins|
  {
    LevelAt(c, s, ins, t) <= c.rxDepth - c.headroom - c.hysteresis || ins[t].reset
  }

  predicate LowFrom(c: Config, s: State, ins: seq<Input>, from: nat) {
    exists u | from <= u < |ins| :: LowAt(c, s, ins, u)
  }

  predicate HighStands(c: Config, s: State, ins: seq<Input>) {
    exists t | 0 <= t < |ins| :: HighAt(c, s, ins, t) && !LowFrom(c, s, ins, t + 1)
  }

  /**
   * Over any history the stall is up exactly when the level reached the high-water mark
   * (or the stall was up at the start) and has not been at the low-water mark since.
   */
  lemma {:induction false} StallExact(c: Config, s: State, ins: seq<Input>)
    requires c.Valid()
    ensures Bridge.Run(c, s, ins).stall <==> HighStands(c, s, ins) || (s.stall && !LowFrom(c, s, ins, 0))
  {
    if ins != [] {
      var pre, n := Init(ins), |ins| - 1;
      StallExact(c, s, pre);
      assert ins[..n] == pre;
      LowFromExtends(c, s, ins, 0);
      HighStandsExtends(c, s, ins);
      StallStep(c, Bridge.Run(c, s, pre), ins[n]);
    }
  }

  lemma StallStep(c: Config, s: State, i: Input)
    requires c.Valid()
    ensures Next(c, s, i).stall <==>
              && !i.reset
              && s.rx.Level() > c.rxDepth - c.headroom - c.hysteresis
              && (s.rx.Level() >= c.rxDepth - c.headroom || s.stall)
  {
  }

  lemma LevelExtends(c: Config, s: State, ins: seq<Input>, t: nat)
    requires t < |ins| - 1
    ensures HighAt(c, s, ins, t) == HighAt(c, s, Init(ins), t) && LowAt(c, s, ins, t) == LowAt(c, s, Init(ins), t)
  {
    assert ins[..t] == Init(ins)[..t];
  }

  lemma LowFromExtends(c: Config, s: State, ins: seq<Input>, from: nat)
    requires from < |ins|
    ensures LowFrom(c, s, ins, from) <==> LowFrom(c, s, Init(ins), from) || LowAt(c, s, ins, |ins| - 1)
  {
    hide HighAt, LowAt;
    forall u | from <= u < |ins| - 1 ensures LowAt(c, s, ins, u) == LowAt(c, s, Init(ins), u) {
      LevelExtends(c, s, ins, u);
    }
  }

  lemma HighStandsExtends(c: Config, s: State, ins: seq<Input>)
    requires ins != []
    ensures HighStands(c, s, ins) <==>
              || HighAt(c, s, ins, |ins| - 1)
              || (HighStands(c, s, Init(ins)) && !LowAt(c, s, ins, |ins| - 1))
  {
    hide HighAt, LowAt, LowFrom;
    var n := |ins| - 1;
    forall t | 0 <= t < n
      ensures HighAt(c, s, ins, t) && !LowFrom(c, s, ins, t + 1) <==>
                (HighAt(c, s, Init(ins), t) && !LowFrom(c, s, Init(ins), t + 1) && !LowAt(c, s, ins, n))
    {
      LevelExtends(c, s, ins, t);
      LowFromExtends(c, s, ins, t + 1);
    }
    NoLowAtEnd(c, s, ins);
  }

  lemma NoLowAtEnd(c: Config, s: State, ins: seq<Input>)
    ensures !LowFrom(c, s, ins, |ins|)
  {
  }

  /** Cycles in which the host pops and the core is silent. */
  predicate Drains(ins: seq<Input>) {
    forall k | 0 <= k < |ins| :: ins[k].pop && ins[k].core.None? && !ins[k].reset
  }

  /** How far `n` such cycles lower the level: one byte each, but for one to fill the output register. */
  predicate Lowered(f: Fifo, level: nat, n: nat) {
    && f.Level() <= level && (f.Level() > 0 && f.out.Some? ==> f.Level() + n <= level + 1)
    && (f.out.None? ==> f.Level() <= 1) && (f.Level() > 0 && f.out.None? ==> n == 0)
  }

  lemma {:induction false} PopsLower(c: Config, s: State, ins: seq<Input>)
    requires c.Valid() && Inv(c, s) && Drains(ins)
    ensures Inv(c, Bridge.Run(c, s, ins)) && Lowered(Bridge.Run(c, s, ins).rx, s.rx.Level(), |ins|)
  {
    Bridge.RunKeepsInv(c, s, ins);
    if ins != [] {
      hide Inv;
      var pre, i := Init(ins), Last(ins);
      PopsLower(c, s, pre);
      OnePop(c, Bridge.Run(c, s, pre), i, s.rx.Level(), |pre|);
    }
  }

  lemma DrainsInit(ins: seq<Input>)
    requires Drains(ins) && ins != []
    ensures Drains(Init(ins))
  {
  }

  lemma LowEnough(f: Fifo, level: nat, n: nat, lwm: nat)
    requires Lowered(f, level, n) && n >= level - lwm + 1
    ensures f.Level() <= lwm
  {
  }

  lemma LevelIsLength(f: Fifo)
    ensures f.Level() == |f.Contents()|
  {
  }

  lemma OnePop(c: Config, s: State, i: Input, level: nat, n: nat)
    requires i.pop && i.core.None? && !i.reset && Lowered(s.rx, level, n)
    ensures Lowered(Next(c, s, i).rx, level, n + 1)
  {
  }

  /**
   * Once the level is at the low-water mark the next edge lowers the stall; and from any
   * reachable state pops without new bytes get there, one byte per cycle.
   */
  lemma StallIsReleased(c: Config, sticky: set<Fault>, ins: seq<Input>, more: seq<Input>)
    requires c.Valid() && Drains(more) && more != []
    requires var level := |Bridge.Run(c, Reset(sticky), ins).rx.Contents()|;
             |more| >= level - (c.rxDepth - c.headroom - c.hysteresis) + 2
    ensures !Bridge.Run(c, Reset(sticky), ins + more).stall
  {
    var s := Bridge.Run(c, Reset(sticky), ins);
    Bridge.RunKeepsInv(c, Reset(sticky), ins);
    LevelIsLength(s.rx);
    hide Inv, Next, Bridge.Run, Fifo.Level, Fifo.Contents, Lowered, Drains;
    Bridge.RunJoins(c, Reset(sticky), ins, more);
    DrainsInit(more);
    PopsLower(c, s, Init(more));
    LowEnough(Bridge.Run(c, s, Init(more)).rx, s.rx.Level(), |more| - 1, c.rxDepth - c.headroom - c.hysteresis);
    Bridge.RunUnfold(c, s, more);
    StallStep(c, Bridge.Run(c, s, Init(more)), Last(more));
  }

  // ---- a fault bit stands for a byte that did not make it -----------------------------

  /** Every byte the host wrote to console_tx_data. */
  function Written(ins: seq<Input>): Bytes {
    if ins == [] then [] else Written(Init(ins)) + if Last(ins).txData.Some? then [Last(ins).txData.value] else []
  }

  /** How often the host wrote console_rx_pop. */
  function Pops(ins: seq<Input>): nat {
    if ins == [] then 0 else Pops(Init(ins)) + if Last(ins).pop then 1 else 0
  }

  predicate NoClears(ins: seq<Input>) {
    forall k | 0 <= k < |ins| :: ins[k].clear == {}
  }

  /**
   * While nothing is cleared each bit reads 1 exactly when something was lost: an emitted
   * byte was not accepted, a written byte was not queued, a pop took no byte.
   */
  lemma {:induction false} FaultMeansLoss(c: Config, ins: seq<Input>)
    requires NoClears(ins)
    ensures var sticky := Bridge.Run(c, Reset({}), ins).sticky;
            && |Accepted(c, Reset({}), ins)| <= |Emitted(ins)| && |Queued(c, Reset({}), ins)| <= |Written(ins)|
            && |Popped(c, Reset({}), ins)| <= Pops(ins)
            && (RxOverflow in sticky <==> |Accepted(c, Reset({}), ins)| < |Emitted(ins)|)
            && (TxWriteWhenFull in sticky <==> |Queued(c, Reset({}), ins)| < |Written(ins)|)
            && (RxPopWhenEmpty in sticky <==> |Popped(c, Reset({}), ins)| < Pops(ins))
  {
    if ins != [] {
      var pre, i := Init(ins), Last(ins);
      FaultMeansLoss(c, pre);
      StickyStep(c, Bridge.Run(c, Reset({}), pre), i);
      hide Next;
    }
  }

  lemma StickyStep(c: Config, s: State, i: Input)
    requires i.clear == {}
    ensures var t := Next(c, s, i).sticky;
            && (RxOverflow in t <==> RxOverflow in s.sticky || (i.core.Some? && !s.rx.Ready(c.rxDepth)))
            && (TxWriteWhenFull in t <==> TxWriteWhenFull in s.sticky || (i.txData.Some? && TxFull(c, s)))
            && (RxPopWhenEmpty in t <==> RxPopWhenEmpty in s.sticky || (i.pop && !s.rx.Readable()))
  {
  }

  // ---- reset -------------------------------------------------------------------------

  /**
   * After a reset the FIFOs and the stall go on as from power-on, whatever came before;
   * only the sticky bits remember.
   */
  lemma {:induction false} ResetRestarts(c: Config, s: State, ins: seq<Input>, i: Input, more: seq<Input>)
    requires i.reset
    ensures var a, b := Bridge.Run(c, s, ins + [i] + more), Bridge.Run(c, Reset({}), more);
            && a.rx == b.rx && a.tx == b.tx && a.stall == b.stall
            && (more == [] ==> forall f :: f in Bridge.Run(c, s, ins).sticky - i.clear ==> f in a.sticky)
  {
    var all := ins + [i] + more;
    if more == [] {
      assert all == ins + [i] && Init(all) == ins && Last(all) == i;
    } else {
      ResetRestarts(c, s, ins, i, Init(more));
      assert Init(all) == ins + [i] + Init(more) && Last(all) == Last(more);
    }
  }

  // ---- the status words -----------------------------------------------------------------

  /** console_rx: head byte, valid bit and the number of bytes held, clamped to the depth. */
  lemma RxWordSays(c: Config, sticky: set<Fault>, ins: seq<Input>)
    requires c.Valid()
    ensures var s := Bridge.Run(c, Reset(sticky), ins);
            var w, held := RxWord(c, s), |s.rx.Contents()|;
            if s.rx.Readable()
            then w == s.rx.Contents()[0] + 0x100 + 0x200 * (if held > c.rxDepth then c.rxDepth else held)
            else w == 0
  {
    Bridge.RunKeepsInv(c, Reset(sticky), ins);
  }

  /** console_tx: the number of bytes held, and bit 9 exactly when that is the depth. */
  lemma TxWordSays(c: Config, sticky: set<Fault>, ins: seq<Input>)
    requires c.Valid()
    ensures var s := Bridge.Run(c, Reset(sticky), ins);
            Inv(c, s) && TxWord(c, s) == |s.tx.Contents()| + if |s.tx.Contents()| == c.txDepth then 0x200 else 0
  {
    Bridge.RunKeepsInv(c, Reset(sticky), ins);
  }

  /** console_err: bit 0 an overflow, bit 1 a rejected write, bit 2 a pop of nothing. */
  lemma ErrWordSays(faults: set<Fault>)
    ensures ErrWord(faults) % 2 == 1 <==> RxOverflow in faults
    ensures ErrWord(faults) / 2 % 2 == 1 <==> TxWriteWhenFull in faults
    ensures ErrWord(faults) / 4 % 2 == 1 <==> RxPopWhenEmpty in faults
    ensures ErrWord(faults) < 8
  {
  }
}
