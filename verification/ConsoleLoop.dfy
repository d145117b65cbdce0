/**
 * console_pump and the loop around it: whole sessions of the host console, with the
 * streams they connect, the announcements they make and the network they meet.
 */
module ConsoleLoop {
  import opened Bytes
  import opened Bridge
  import opened HostLink
  import opened Console

  const READ_CHUNK: nat := 4096
  const EXIT_BYTE: byte := 0x1d

  /** What is forwarded of typed input: everything before the first Ctrl-]. */
  function Typed(data: Bytes): Bytes {
    if data == [] || data[0] == EXIT_BYTE then [] else [data[0]] + Typed(data[1..])
  }

  /** bytes.find of the exit byte. */
  method FindExit(data: Bytes) returns (at: int)
    ensures at == -1 <==> EXIT_BYTE !in data
    ensures at != -1 ==> 0 <= at < |data| && data[at] == EXIT_BYTE && Typed(data) == data[..at]
    ensures at == -1 ==> Typed(data) == data
  {
    for i := 0 to |data|
      invariant EXIT_BYTE !in data[..i]
    {
      if data[i] == EXIT_BYTE {
        TypedPrefix(data, i);
        return i;
      }
      assert data[..i + 1] == data[..i] + [data[i]];
    }
    assert data[..|data|] == data;
    TypedPrefix(data, |data|);
    return -1;
  }

  /** What console_pump forwards of a chunk, and whether it leaves afterwards. */
  method BeforeExit(data: Bytes) returns (leave: bool, chunk: Bytes)
    ensures (leave <==> EXIT_BYTE in data) && chunk == Typed(data) && |chunk| <= |data|
  {
    var at := FindExit(data);
    leave, chunk := at != -1, if at == -1 then data else data[..at];
  }

  lemma {:induction false} TypedPrefix(data: Bytes, i: nat)
    requires i <= |data| && EXIT_BYTE !in data[..i] && (i < |data| ==> data[i] == EXIT_BYTE)
    ensures Typed(data) == data[..i]
    decreases |data|
  {
    if i > 0 {
      assert data[..i][0] == data[0];
      assert data[..i] == [data[0]] + data[1..][..i - 1];
      TypedPrefix(data[1..], i - 1);
    }
  }

  /** Each clearing call announced the error word it returned. */
  ghost predicate Announced(reports: seq<Report>, notes: seq<u32>) {
    |reports| == |notes| && forall k | 0 <= k < |notes| :: reports[k].faults == FaultsIn(notes[k])
  }

  /**
   * One completed iteration: the cycles it spans and the requests made by its end, the error
   * word it saw and when, what it drained and when the FIFO was seen empty, and what it
   * forwarded as send divided it, with the looks that found the FIFO full.
   */
  datatype Round = Round(start: nat, end: nat, asked: nat, note: u32, noteAt: nat, out: Bytes, emptyAt: nat,
                         taken: Bytes, dropped: Bytes, looks: seq<Look>)

  /** The announcement of an error word. */
  function FaultNote(err: u32): seq<u32> {
    if err == 0 then [] else [err]
  }

  /** The announcement of a short send: how many of how many. */
  function DropNote(taken: Bytes, dropped: Bytes): seq<(nat, nat)> {
    if dropped == [] then [] else [(|dropped|, |taken| + |dropped|)]
  }

  function TypedOf(rs: seq<Round>): Bytes {
    if rs == [] then [] else TypedOf(rs[..|rs| - 1]) + (rs[|rs| - 1].taken + rs[|rs| - 1].dropped)
  }

  function TakenOf(rs: seq<Round>): Bytes {
    if rs == [] then [] else TakenOf(rs[..|rs| - 1]) + rs[|rs| - 1].taken
  }

  function DropsOf(rs: seq<Round>): seq<(nat, nat)> {
    if rs == [] then [] else DropsOf(rs[..|rs| - 1]) + DropNote(rs[|rs| - 1].taken, rs[|rs| - 1].dropped)
  }

  function OutOf(rs: seq<Round>): Bytes {
    if rs == [] then [] else OutOf(rs[..|rs| - 1]) + rs[|rs| - 1].out
  }

  function NotesOf(rs: seq<Round>): seq<u32> {
    if rs == [] then [] else NotesOf(rs[..|rs| - 1]) + FaultNote(rs[|rs| - 1].note)
  }

  function TotalDropped(notes: seq<(nat, nat)>): nat {
    if notes == [] then 0 else TotalDropped(notes[..|notes| - 1]) + notes[|notes| - 1].0
  }

  lemma RoundAppended(rs: seq<Round>, r: Round)
    ensures TypedOf(rs + [r]) == TypedOf(rs) + (r.taken + r.dropped)
    ensures TakenOf(rs + [r]) == TakenOf(rs) + r.taken
    ensures DropsOf(rs + [r]) == DropsOf(rs) + DropNote(r.taken, r.dropped)
    ensures OutOf(rs + [r]) == OutOf(rs) + r.out
    ensures NotesOf(rs + [r]) == NotesOf(rs) + FaultNote(r.note)
  {
    hide DropNote, FaultNote;
    assert (rs + [r])[..|rs|] == rs;
  }

  /**
   * No typed byte goes unaccounted: those taken and those announced as dropped add up,
   * and no announcement means that all were taken, in order.
   */
  lemma TypedIsAccounted(rs: seq<Round>)
    ensures |TypedOf(rs)| == |TakenOf(rs)| + TotalDropped(DropsOf(rs))
    ensures DropsOf(rs) == [] <==> TakenOf(rs) == TypedOf(rs)
  {
    hide TypedOf, TakenOf, DropsOf, TotalDropped;
    DropsAddUp(rs);
  }

  lemma {:induction false} DropsAddUp(rs: seq<Round>)
    ensures |TypedOf(rs)| == |TakenOf(rs)| + TotalDropped(DropsOf(rs))
    ensures if DropsOf(rs) == [] then TakenOf(rs) == TypedOf(rs) else TotalDropped(DropsOf(rs)) > 0
  {
    if rs != [] {
      var n := |rs| - 1;
      var r := rs[n];
      DropsAddUp(rs[..n]);
      assert rs == rs[..n] + [r];
      hide TypedOf, TakenOf, DropsOf, TotalDropped;
      RoundAppended(rs[..n], r);
      NoteAppended(DropsOf(rs[..n]), r.taken, r.dropped);
    }
  }

  lemma NoteAppended(notes: seq<(nat, nat)>, taken: Bytes, dropped: Bytes)
    ensures TotalDropped(notes + DropNote(taken, dropped)) == TotalDropped(notes) + |dropped|
    ensures dropped == [] ==> taken + dropped == taken && notes + DropNote(taken, dropped) == notes
  {
    if dropped == [] {
      assert notes + [] == notes;
    } else {
      var all := notes + DropNote(taken, dropped);
      assert all[..|all| - 1] == notes;
    }
  }

  /** A drain that came back short saw the FIFO empty at moment `t`. */
  ghost predicate Drained(c: Config, ins: seq<Input>, a: nat, out: Bytes, t: nat) {
    |out| <= 4096 && (|out| < 4096 ==> a <= t <= |ins| && !StateAt(c, ins, t).rx.Readable())
  }

  lemma DrainedStays(c: Config, ins: seq<Input>, ins': seq<Input>, a: nat, a': nat, out: Bytes, t: nat)
    requires Drained(c, ins, a, out, t) && ins <= ins' && a' <= a
    ensures Drained(c, ins', a', out, t)
  {
    if |out| < 4096 {
      StateAtStays(c, ins, ins', t);
    }
  }

  /** Input was dropped only after 1001 looks in a row that found the FIFO full. */
  ghost predicate Dropped(c: Config, g: Regs, ins: seq<Input>, asks: seq<Ask>, a: nat, dropped: Bytes, looks: seq<Look>) {
    dropped != [] ==> |looks| == 1001 && FullAt(c, g, ins, asks, a, looks)
  }

  lemma NothingDropped(c: Config, g: Regs, ins: seq<Input>, asks: seq<Ask>)
    ensures Dropped(c, g, ins, asks, |ins|, [], []) && DropNote([], []) == [] && Typed([]) == []
  {
  }

  /** What the iteration did, over the history and the requests up to its end. */
  ghost predicate RoundOk(c: Config, g: Regs, ins: seq<Input>, asks: seq<Ask>, r: Round) {
    && r.start <= r.end == |ins| && r.asked == |asks|
    && Noted(c, ins, r.start, r.note, r.noteAt)
    && Drained(c, ins, r.start, r.out, r.emptyAt)
    && Dropped(c, g, ins, asks, r.start, r.dropped, r.looks)
    && PoppedBy(c, ins) == PoppedBy(c, ins[..r.start]) + r.out
    && QueuedBy(c, ins) == QueuedBy(c, ins[..r.start]) + r.taken
  }

  ghost predicate RoundAt(c: Config, g: Regs, ins: seq<Input>, asks: seq<Ask>, r: Round) {
    r.end <= |ins| && r.asked <= |asks| && RoundOk(c, g, ins[..r.end], asks[..r.asked], r)
  }

  /** The iterations since cycle `a`, one after the other. */
  ghost predicate RoundsOk(c: Config, g: Regs, ins: seq<Input>, asks: seq<Ask>, a: nat, rs: seq<Round>) {
    forall k | 0 <= k < |rs| :: RoundAt(c, g, ins, asks, rs[k]) && EndOf(a, rs[..k]) <= rs[k].start
  }

  function EndOf(a: nat, rs: seq<Round>): nat {
    if rs == [] then a else rs[|rs| - 1].end
  }

  lemma RoundStays(c: Config, g: Regs, ins: seq<Input>, ins': seq<Input>, asks: seq<Ask>, asks': seq<Ask>, r: Round)
    requires RoundAt(c, g, ins, asks, r) && ins <= ins' && asks <= asks'
    ensures RoundAt(c, g, ins', asks', r)
  {
    hide RoundOk;
    assert ins'[..r.end] == ins[..r.end] && asks'[..r.asked] == asks[..r.asked];
  }

  lemma RoundsStay(c: Config, g: Regs, ins: seq<Input>, ins': seq<Input>, asks: seq<Ask>, asks': seq<Ask>, a: nat, rs: seq<Round>)
    requires RoundsOk(c, g, ins, asks, a, rs) && ins <= ins' && asks <= asks'
    ensures RoundsOk(c, g, ins', asks', a, rs)
  {
    hide RoundAt, EndOf;
    forall k | 0 <= k < |rs| ensures RoundAt(c, g, ins', asks', rs[k]) {
      RoundStays(c, g, ins, ins', asks, asks', rs[k]);
    }
  }

  lemma RoundsGrow(c: Config, g: Regs, ins: seq<Input>, asks: seq<Ask>, a: nat, rs: seq<Round>, r: Round)
    requires RoundsOk(c, g, ins, asks, a, rs) && RoundOk(c, g, ins, asks, r) && EndOf(a, rs) <= r.start
    ensures RoundsOk(c, g, ins, asks, a, rs + [r])
  {
    LastRound(c, g, ins, asks, r);
    hide RoundAt, EndOf;
    var all := rs + [r];
    forall k | 0 <= k < |all| ensures RoundAt(c, g, ins, asks, all[k]) && EndOf(a, all[..k]) <= all[k].start {
      if k < |rs| {
        assert all[k] == rs[k] && all[..k] == rs[..k];
      } else {
        assert all[..k] == rs;
      }
    }
  }

  lemma LastRound(c: Config, g: Regs, ins: seq<Input>, asks: seq<Ask>, r: Round)
    requires RoundOk(c, g, ins, asks, r)
    ensures RoundAt(c, g, ins, asks, r)
  {
    assert ins[..|ins|] == ins && asks[..|asks|] == asks;
  }

  lemma RoundsEnd(c: Config, g: Regs, ins: seq<Input>, asks: seq<Ask>, a: nat, rs: seq<Round>)
    requires RoundsOk(c, g, ins, asks, a, rs) && a <= |ins|
    ensures EndOf(a, rs) <= |ins|
  {
    hide RoundOk;
    if rs != [] {
      assert RoundAt(c, g, ins, asks, rs[|rs| - 1]);
    }
  }

  /** What select and stdin offered one iteration. */
  datatype Poll = Poll(ready: bool, data: Bytes)

  /** The iteration leaves: end of file, or Ctrl-] in the input. */
  predicate Leaves(p: Poll) {
    p.ready && (p.data == [] || EXIT_BYTE in p.data)
  }

  function Offered(p: Poll): Bytes {
    if p.ready then p.data else []
  }

  /** The input of several iterations, however stdin cut it. */
  function InputOf(ps: seq<Poll>): Bytes {
    if ps == [] then [] else InputOf(ps[..|ps| - 1]) + Offered(ps[|ps| - 1])
  }

  lemma InputAppended(ps: seq<Poll>, p: Poll)
    ensures InputOf(ps + [p]) == InputOf(ps) + Offered(p)
  {
    assert (ps + [p])[..|ps|] == ps;
  }

  lemma {:induction false} TypedAfter(a: Bytes, b: Bytes)
    requires EXIT_BYTE !in a
    ensures Typed(a + b) == a + Typed(b)
  {
    if a == [] {
      assert a + b == b;
    } else {
      assert (a + b)[0] == a[0] && (a + b)[1..] == a[1..] + b;
      TypedAfter(a[1..], b);
    }
  }

  datatype Turn = Continue | Exit | Raised

  const PUMP_READS: nat := 10 + 10 * DRAIN_MAX + 10 * (FULL_POLLS + 1) * READ_CHUNK

  /** console_pump with the streams it connects, from any moment until it leaves or raises. */
  class Session {
    const w: World
    ghost const before: seq<Input>           // everything that happened before the session
    var stdout: Bytes
    var faultNotes: seq<u32>                 // error conditions announced on stderr
    var dropNotes: seq<(nat, nat)>           // dropped and total, announced on stderr
    var alive: bool
    ghost var accepted: Bytes                // the prefixes send reported accepted
    ghost var lost: Bytes                    // popped by a drain that raised
    ghost var unreported: Bytes              // queued by a send that raised
    ghost var reports: seq<Report>
    ghost var rounds: seq<Round>             // the completed iterations

    constructor (w: World)
      requires w.Valid()
      ensures this.w == w && before == w.ins && Valid() && Even() && alive
      ensures stdout == [] && dropNotes == [] && faultNotes == [] && accepted == [] && rounds == []
    {
      this.w, before := w, w.ins;
      stdout, faultNotes, dropNotes, alive := [], [], [], true;
      accepted, lost, unreported, reports, rounds := [], [], [], [], [];
      new;
      EmptySpan(w.cfg, w.ins);
    }

    ghost predicate Valid()
      reads this, w
    {
      && w.Valid() && before <= w.ins
      && PoppedBy(w.cfg, w.ins) == PoppedBy(w.cfg, before) + (stdout + lost)
      && QueuedBy(w.cfg, w.ins) == QueuedBy(w.cfg, before) + (accepted + unreported)
      && (alive ==> lost == [] && unreported == [])
      && Clean(w.cfg, w.ins, |before|, |w.ins|)
      && Accounted(w.ins, |before|, reports)
      && Announced(reports, faultNotes)
    }

    /** Between iterations the streams are those of the completed iterations. */
    ghost predicate Even()
      reads this, w
    {
      && accepted == TakenOf(rounds) && dropNotes == DropsOf(rounds)
      && (alive ==> stdout == OutOf(rounds) && faultNotes == NotesOf(rounds))
      && RoundsOk(w.cfg, w.regs, w.ins, w.asks, |before|, rounds)
    }

    /** check_errors and its announcement: every fault that stands when it is called is announced. */
    method Check() returns (raised: bool, ghost err: u32, ghost at: nat)
      requires Valid() && alive && w.Budget(10)
      modifies this`alive, this`reports, this`faultNotes, w
      ensures Valid() && alive == !raised && old(w.ins) <= w.ins && old(w.counter) <= w.counter <= old(w.counter) + 10
      ensures (raised <==> w.Unanswered()) && (raised ==> w.counter >= old(w.counter) + 10)
      ensures w.heard == old(w.heard) + if raised then [] else [|w.asks| - 1]
      ensures old(w.asks) < w.asks && OnlyAsks(w.asks, |old(w.asks)|, w.regs.err)
      ensures faultNotes == old(faultNotes) + if raised then [] else FaultNote(err)
      ensures !raised ==> Noted(w.cfg, w.ins, |old(w.ins)|, err, at)
    {
      hide PoppedBy, QueuedBy, Clean, Accounted, World.Valid, World.Unanswered, OnlyAsks, Noted, FaultsIn;
      ghost var ins0 := w.ins;
      ghost var rs: seq<Report>;
      var word;
      raised, word, at, rs := CheckErrors(w, true);
      err := word;
      CleanJoins(w.cfg, ins0, w.ins, |before|, |ins0|, |w.ins|);
      AccountedJoins(ins0, w.ins, |before|, reports, rs);
      reports := reports + rs;
      if raised {
        alive := false;
        return;
      }
      if word != 0 {
        faultNotes := faultNotes + [word];
      }
    }

    /** Every fault since the session began still reads 1, or was announced by a call that came after it. */
    lemma FaultsAreAnnounced(t: nat, f: Fault)
      requires Valid() && |before| <= t < |w.ins| && FaultAt(w.cfg, Reset({}), w.ins, t, f)
      ensures f in Run(w.cfg, Reset({}), w.ins).sticky
           || exists k | 0 <= k < |faultNotes| :: reports[k].at > t && f in FaultsIn(faultNotes[k])
    {
      hide FaultAt, Run, FaultsIn, PoppedBy, QueuedBy, Clean, Accounted;
      FaultsAreReported(w.cfg, w.ins, |before|, reports, t, f);
      if f !in Run(w.cfg, Reset({}), w.ins).sticky {
        var k :| 0 <= k < |reports| && reports[k].at > t && f in reports[k].faults;
        assert f in FaultsIn(faultNotes[k]);
      }
    }

    /** So does every fault that stood at some moment of the session, also one from before it. */
    lemma StandingIsAnnounced(t: nat, f: Fault)
      requires Valid() && |before| <= t <= |w.ins| && f in StateAt(w.cfg, w.ins, t).sticky
      ensures f in Run(w.cfg, Reset({}), w.ins).sticky
           || exists k | 0 <= k < |faultNotes| :: reports[k].at >= t && f in FaultsIn(faultNotes[k])
    {
      hide Run, StateAt, FaultsIn, PoppedBy, QueuedBy, Clean, Accounted;
      StandingIsReported(w.cfg, w.ins, |before|, reports, t, f);
      if f !in Run(w.cfg, Reset({}), w.ins).sticky {
        var k :| 0 <= k < |reports| && reports[k].at >= t && f in reports[k].faults;
        assert f in FaultsIn(faultNotes[k]);
      }
    }

    /** drain to stdout.  A byte is lost exactly on a `Lossy` network, and ends the session. */
    method Output() returns (raised: bool, ghost out: Bytes, ghost emptyAt: nat)
      requires Valid() && alive && w.Budget(10 * DRAIN_MAX)
      modifies this`alive, this`stdout, this`lost, w
      ensures Valid() && alive == !raised && old(w.ins) <= w.ins && old(w.counter) <= w.counter <= old(w.counter) + 10 * DRAIN_MAX
      ensures (raised <==> w.Unanswered()) && (raised ==> w.counter >= old(w.counter) + 10)
      ensures lost != [] <==> Lossy(w, |old(w.heard)|)
      ensures stdout == old(stdout) + if raised then [] else out
      ensures !raised ==> Drained(w.cfg, w.ins, |old(w.ins)|, out, emptyAt)
      ensures |w.heard| == |old(w.heard)| + |out| + if !raised && |out| < DRAIN_MAX then 1 else 0
      ensures old(w.asks) <= w.asks && OnlyAsks(w.asks, |old(w.asks)|, w.regs.rx)
    {
      hide PoppedBy, QueuedBy, Clean, Accounted, NoClear, World.Valid, World.Unanswered, StateAt, Emitted, Run, OnlyAsks;
      ghost var ins0 := w.ins;
      var result;
      raised, result, out := Drain(w);
      CleanJoins(w.cfg, ins0, w.ins, |before|, |ins0|, |w.ins|);
      NoClearAccounted(w.ins, |ins0|);
      AccountedJoins(ins0, w.ins, |before|, reports, []);
      assert reports + [] == reports;
      Regroup(PoppedBy(w.cfg, before), stdout, out);
      emptyAt := 0;
      if raised {
        lost := out;
        alive := false;
      } else {
        if |out| < DRAIN_MAX {
          emptyAt :| |old(w.ins)| <= emptyAt <= |w.ins| && !StateAt(w.cfg, w.ins, emptyAt).rx.Readable();
        }
        stdout := stdout + result;
      }
    }

    /** _send_and_report: a short send is always announced with the exact count. */
    method Forward(data: Bytes) returns (raised: bool, ghost n: nat, ghost looks: seq<Look>)
      requires Valid() && alive && w.Budget(10 * (FULL_POLLS + 1) * |data|)
      modifies this`alive, this`accepted, this`unreported, this`dropNotes, w
      ensures Valid() && alive == !raised && old(w.ins) <= w.ins && old(w.asks) <= w.asks
      ensures old(w.counter) <= w.counter <= old(w.counter) + 10 * (FULL_POLLS + 1) * |data|
      ensures data != [] ==> (raised <==> w.Unanswered())
      ensures raised ==> accepted == old(accepted) && dropNotes == old(dropNotes) && unreported <= data
      ensures raised ==> w.counter >= old(w.counter) + 10
      ensures !raised ==> n <= |data| && accepted == old(accepted) + data[..n]
      ensures !raised ==> dropNotes == old(dropNotes) + DropNote(data[..n], data[n..])
      ensures !raised ==> Dropped(w.cfg, w.regs, w.ins, w.asks, |old(w.ins)|, data[n..], looks)
      ensures !raised ==> |w.heard| >= |old(w.heard)| + n
    {
      hide PoppedBy, QueuedBy, Clean, Accounted, NoClear, World.Valid, World.Unanswered, FullAt, OnlyAsks;
      ghost var ins0 := w.ins;
      var count, worn;
      raised, count, worn, looks := Send(w, data);
      n := count;
      CleanJoins(w.cfg, ins0, w.ins, |before|, |ins0|, |w.ins|);
      NoClearAccounted(w.ins, |ins0|);
      AccountedJoins(ins0, w.ins, |before|, reports, []);
      assert reports + [] == reports;
      Regroup(QueuedBy(w.cfg, before), accepted, data[..count]);
      if raised {
        unreported := data[..count];
        alive := false;
        return;
      }
      accepted := accepted + data[..count];
      if count < |data| {
        dropNotes := dropNotes + [(|data| - count, |data|)];
      }
    }

    /** The first half of an iteration: check_errors, then drain. */
    method Listen() returns (raised: bool, ghost r: Round)
      requires Valid() && alive && w.Budget(10 + 10 * DRAIN_MAX)
      modifies this`alive, this`reports, this`faultNotes, this`stdout, this`lost, w
      ensures Valid() && alive == !raised && old(w.ins) <= w.ins && old(w.asks) <= w.asks
      ensures old(w.counter) <= w.counter <= old(w.counter) + 10 + 10 * DRAIN_MAX
      ensures (raised <==> w.Unanswered()) && (raised ==> w.counter >= old(w.counter) + 10)
      ensures old(stdout) <= stdout
      ensures !raised ==> stdout == old(stdout) + r.out && faultNotes == old(faultNotes) + FaultNote(r.note)
      ensures !raised ==> Noted(w.cfg, w.ins, |old(w.ins)|, r.note, r.noteAt)
      ensures !raised ==> Drained(w.cfg, w.ins, |old(w.ins)|, r.out, r.emptyAt)
      ensures !raised ==> |w.heard| == |old(w.heard)| + 1 + |r.out| + if |r.out| < DRAIN_MAX then 1 else 0
    {
      hide Valid, World.Unanswered, Noted, Drained, OnlyAsks, Lossy, FaultNote;
      ghost var note, noteAt, out, emptyAt;
      raised, note, noteAt := Check();
      r := Round(0, 0, 0, note, noteAt, [], 0, [], [], []);
      if raised {
        return;
      }
      ghost var ins1 := w.ins;
      raised, out, emptyAt := Output();
      if raised {
        return;
      }
      r := r.(out := out, emptyAt := emptyAt);
      NotedStays(w.cfg, ins1, w.ins, |old(w.ins)|, note, noteAt);
      DrainedStays(w.cfg, w.ins, w.ins, |ins1|, |old(w.ins)|, out, emptyAt);
    }

    /** The second half: forward what stdin offered, up to Ctrl-]. */
    method Submit(stdinReady: bool, data: Bytes) returns (turn: Turn, ghost r: Round)
      requires Valid() && alive && |data| <= READ_CHUNK && w.Budget(10 * (FULL_POLLS + 1) * READ_CHUNK) && !w.Unanswered()
      modifies this`alive, this`accepted, this`unreported, this`dropNotes, w
      ensures Valid() && alive == (turn != Raised) && old(w.ins) <= w.ins && old(w.asks) <= w.asks
      ensures old(w.counter) <= w.counter <= old(w.counter) + 10 * (FULL_POLLS + 1) * READ_CHUNK
      ensures (turn == Raised <==> w.Unanswered()) && (turn == Raised ==> w.counter >= old(w.counter) + 10)
      ensures turn != Raised ==> (turn == Exit <==> stdinReady && (data == [] || 0x1d in data))
      ensures turn == Raised ==>
                accepted == old(accepted) && dropNotes == old(dropNotes) && unreported <= Typed(Offered(Poll(stdinReady, data)))
      ensures turn != Raised ==>
                && r.taken + r.dropped == Typed(Offered(Poll(stdinReady, data)))
                && accepted == old(accepted) + r.taken && dropNotes == old(dropNotes) + DropNote(r.taken, r.dropped)
                && Dropped(w.cfg, w.regs, w.ins, w.asks, |old(w.ins)|, r.dropped, r.looks)
                && |w.heard| >= |old(w.heard)| + |r.taken|
    {
      hide Valid, World.Unanswered, Typed, Dropped, DropNote;
      r := Round(0, 0, 0, 0, 0, [], 0, [], [], []);
      NothingDropped(w.cfg, w.regs, w.ins, w.asks);
      if !stdinReady {
        return Continue, r;
      }
      if data == [] {
        return Exit, r;
      }
      var leave, chunk := BeforeExit(data);
      var raised := false;
      if chunk != [] {
        ghost var n, looks;
        raised, n, looks := Forward(chunk);
        if !raised {
          r := r.(taken := chunk[..n], dropped := chunk[n..], looks := looks);
          assert chunk[..n] + chunk[n..] == chunk;
        }
      }
      return if raised then Raised else if leave then Exit else Continue, r;
    }

    lemma Streams()
      requires Valid() && alive
      ensures before <= w.ins && w.Valid() && lost == [] && unreported == []
      ensures PoppedBy(w.cfg, w.ins) == PoppedBy(w.cfg, before) + stdout
      ensures QueuedBy(w.cfg, w.ins) == QueuedBy(w.cfg, before) + accepted
    {
      hide PoppedBy, QueuedBy, Clean, Accounted, World.Valid;
      assert stdout + [] == stdout && accepted + [] == accepted;
    }

    /** The iteration that began after `ins0` is complete. */
    ghost method Finish(ins0: seq<Input>, asks0: seq<Ask>, ins1: seq<Input>, r: Round, q: Round)
      requires Valid() && alive && before <= ins0 <= ins1 <= w.ins && asks0 <= w.asks
      requires RoundsOk(w.cfg, w.regs, ins0, asks0, |before|, rounds)
      requires accepted == TakenOf(rounds) + q.taken && dropNotes == DropsOf(rounds) + DropNote(q.taken, q.dropped)
      requires stdout == OutOf(rounds) + r.out && faultNotes == NotesOf(rounds) + FaultNote(r.note)
      requires PoppedBy(w.cfg, ins0) == PoppedBy(w.cfg, before) + OutOf(rounds)
      requires QueuedBy(w.cfg, ins0) == QueuedBy(w.cfg, before) + TakenOf(rounds)
      requires Noted(w.cfg, ins1, |ins0|, r.note, r.noteAt) && Drained(w.cfg, ins1, |ins0|, r.out, r.emptyAt)
      requires Dropped(w.cfg, w.regs, w.ins, w.asks, |ins1|, q.dropped, q.looks)
      modifies this`rounds
      ensures Valid() && Even() && TypedOf(rounds) == TypedOf(old(rounds)) + (q.taken + q.dropped)
      ensures rounds == old(rounds) + [Round(|ins0|, |w.ins|, |w.asks|, r.note, r.noteAt, r.out, r.emptyAt,
                                             q.taken, q.dropped, q.looks)]
    {
      hide PoppedBy, QueuedBy, Clean, Accounted, World.Valid, RoundsOk, Noted, Drained, FullAt, DropNote, FaultNote;
      hide TakenOf, DropsOf, OutOf, NotesOf, TypedOf;
      ghost var done := Round(|ins0|, |w.ins|, |w.asks|, r.note, r.noteAt, r.out, r.emptyAt, q.taken, q.dropped, q.looks);
      Streams();
      NotedStays(w.cfg, ins1, w.ins, |ins0|, r.note, r.noteAt);
      DrainedStays(w.cfg, ins1, w.ins, |ins0|, |ins0|, r.out, r.emptyAt);
      if q.dropped != [] {
        FullAtStays(w.cfg, w.regs, w.ins, w.ins, w.asks, w.asks, |ins1|, |ins0|, q.looks);
      }
      assert w.ins[..|ins0|] == ins0;
      Regroup(PoppedBy(w.cfg, before), OutOf(rounds), r.out);
      Regroup(QueuedBy(w.cfg, before), TakenOf(rounds), q.taken);
      assert RoundOk(w.cfg, w.regs, w.ins, w.asks, done);
      RoundsEnd(w.cfg, w.regs, ins0, asks0, |before|, rounds);
      RoundsStay(w.cfg, w.regs, ins0, w.ins, asks0, w.asks, |before|, rounds);
      RoundsGrow(w.cfg, w.regs, w.ins, w.asks, |before|, rounds, done);
      RoundAppended(rounds, done);
      rounds := rounds + [done];
    }

    /** One iteration more, from cycle `start` to now; it forwarded `data`. */
    ghost predicate OneMore(rs: seq<Round>, start: nat, heard: nat, data: Bytes)
      reads this, w
    {
      && rs <= rounds && |rounds| == |rs| + 1
      && var r := rounds[|rs|];
      && r.start == start && r.end == |w.ins| && r.taken + r.dropped == data
      && |w.heard| >= heard + 1 + |r.out| + (if |r.out| < DRAIN_MAX then 1 else 0) + |r.taken|
      && TypedOf(rounds) == TypedOf(rs) + data
    }

    /**
     * The promise in terms of this session's streams: what waited when it began ++ what
     * the core emitted since = printed ++ lost ++ what waits now, and likewise for what
     * was accepted for transmission; and no fault bit was set since.
     */
    ghost predicate Kept()
      reads this, w
    {
      && before <= w.ins
      && var s0, s, since := Run(w.cfg, Reset({}), before), Run(w.cfg, Reset({}), w.ins), w.ins[|before|..];
      && s0.rx.Contents() + Emitted(since) == stdout + lost + s.rx.Contents()
      && s0.tx.Contents() + (accepted + unreported) == Transmitted(w.cfg, s0, since) + s.tx.Contents()
      && s.sticky <= s0.sticky
    }

    /** It holds in every session, and the printed stream is short by the lost bytes and no others. */
    lemma Promise()
      requires Valid() && w.inFlight <= w.cfg.headroom
      ensures before <= w.ins && Kept()
      ensures var s0, s := Run(w.cfg, Reset({}), before), Run(w.cfg, Reset({}), w.ins);
              s0.rx.Contents() + Emitted(w.ins[|before|..]) == stdout + s.rx.Contents() <==> lost == []
    {
      hide PoppedBy, QueuedBy, Clean, Accounted, Run, Emitted, Transmitted, AllGenuine, InFlightBounded;
      EveryByteSince(w.cfg, w.inFlight, before, w.ins, stdout + lost, accepted + unreported);
      assert stdout + [] == stdout;
    }

    /**
     * One console_pump iteration.  `data` is what stdin returns when it is ready.
     * Unless ten requests of one read go unanswered, it announces every standing fault,
     * drains until the FIFO is seen empty or the limit is reached, and forwards exactly
     * the typed bytes before Ctrl-], dropping only what a full FIFO did not take.
     */
    method Pump(stdinReady: bool, data: Bytes) returns (turn: Turn)
      requires Valid() && Even() && alive && |data| <= READ_CHUNK && w.Budget(PUMP_READS)
      modifies this, w
      ensures Valid() && Even() && alive == (turn != Raised)
      ensures old(w.ins) <= w.ins && old(stdout) <= stdout && old(w.counter) <= w.counter <= old(w.counter) + PUMP_READS
      ensures (turn == Raised <==> w.Unanswered()) && (turn == Raised ==> w.counter >= old(w.counter) + 10)
      ensures turn != Raised ==> (turn == Exit <==> stdinReady && (data == [] || 0x1d in data))
      ensures turn == Raised ==> rounds == old(rounds) && unreported <= Typed(Offered(Poll(stdinReady, data)))
      ensures turn != Raised ==> OneMore(old(rounds), |old(w.ins)|, |old(w.heard)|, Typed(Offered(Poll(stdinReady, data))))
      ensures w.inFlight <= w.cfg.headroom ==> Kept()
    {
      hide Valid, Even, World.Unanswered, World.Valid, Typed, OneMore, Kept, Offered;
      turn := PumpBody(stdinReady, data);
      if w.inFlight <= w.cfg.headroom {
        Promise();
      }
    }

    method PumpBody(stdinReady: bool, data: Bytes) returns (turn: Turn)
      requires Valid() && Even() && alive && |data| <= READ_CHUNK && w.Budget(PUMP_READS)
      modifies this, w
      ensures Valid() && Even() && alive == (turn != Raised)
      ensures old(w.ins) <= w.ins && old(stdout) <= stdout && old(w.counter) <= w.counter <= old(w.counter) + PUMP_READS
      ensures (turn == Raised <==> w.Unanswered()) && (turn == Raised ==> w.counter >= old(w.counter) + 10)
      ensures turn != Raised ==> (turn == Exit <==> stdinReady && (data == [] || 0x1d in data))
      ensures turn == Raised ==> rounds == old(rounds) && unreported <= Typed(Offered(Poll(stdinReady, data)))
      ensures turn != Raised ==> OneMore(old(rounds), |old(w.ins)|, |old(w.heard)|, Typed(Offered(Poll(stdinReady, data))))
    {
      hide Valid, World.Unanswered, Typed, RoundsOk, Noted, Drained, Dropped, DropNote, FaultNote;
      hide TakenOf, DropsOf, OutOf, NotesOf, TypedOf, World.Valid, Leaves, Offered, PoppedBy, QueuedBy;
      ghost var ins0, asks0 := w.ins, w.asks;
      Streams();
      ghost var r, q: Round;
      var raised;
      raised, r := Listen();
      if raised {
        RoundsStay(w.cfg, w.regs, ins0, w.ins, asks0, w.asks, |before|, rounds);
        return Raised;
      }
      ghost var ins1 := w.ins;
      turn, q := Submit(stdinReady, data);
      if turn == Raised {
        RoundsStay(w.cfg, w.regs, ins0, w.ins, asks0, w.asks, |before|, rounds);
      } else {
        Finish(ins0, asks0, ins1, r, q);
      }
    }

    /** select waits; the board goes on. */
    method Wait()
      requires Valid() && Even()
      modifies w`ins, w`parcels
      ensures Valid() && Even() && old(w.ins) <= w.ins
    {
      hide PoppedBy, QueuedBy, Clean, Accounted, NoClear, World.Valid, RoundsOk, TakenOf, DropsOf, OutOf, NotesOf;
      ghost var ins0 := w.ins;
      w.Pass();
      ValidParts(w);
      SpanAfter(w.cfg, ins0, w.ins);
      CleanJoins(w.cfg, ins0, w.ins, |before|, |ins0|, |w.ins|);
      NoClearAccounted(w.ins, |ins0|);
      AccountedJoins(ins0, w.ins, |before|, reports, []);
      assert reports + [] == reports;
      RoundsStay(w.cfg, w.regs, ins0, w.ins, w.asks, w.asks, |before|, rounds);
    }

    /**
     * The loop of console_loop, for as many iterations as `polls` describes.  However
     * stdin cut the input, what the iterations forwarded is the input up to the first
     * Ctrl-] or end of file; with TypedIsAccounted, each of those bytes was accepted
     * or announced as dropped.  It raises exactly when ten requests of one read go
     * unanswered, and every completed iteration did what RoundOk says.  The session is
     * followed as long as the ids of one more iteration's reads collide with nothing.
     */
    method Loop(polls: seq<Poll>) returns (used: nat, turn: Turn)
      requires forall i | 0 <= i < |polls| :: |polls[i].data| <= READ_CHUNK
      requires alive && Valid() && Even()
      modifies this, w
      ensures old(w.ins) <= w.ins && old(stdout) <= stdout && old(rounds) <= rounds && alive == (turn != Raised)
      ensures Stops(polls, used, turn) && (turn == Continue ==> used == |polls| || !w.Budget(PUMP_READS))
      ensures old(w.counter) <= w.counter <= old(w.counter) + PUMP_READS * used
      ensures turn == Raised <==> used > 0 && w.Unanswered()
      ensures turn == Raised ==> w.counter >= old(w.counter) + 10
      ensures Forwarded(old(rounds), rounds, polls, Done(used, turn))
      ensures turn == Raised ==> unreported <= Typed(Offered(polls[used - 1]))
      ensures w.inFlight <= w.cfg.headroom ==> Kept()
      ensures Valid() && Even()
    {
      hide World.Valid, Valid, Even, Typed, TypedOf, Kept, Leaves, Offered, World.Unanswered, Forwarded;
      used, turn := 0, Continue;
      NothingForwarded(rounds, polls);
      while used < |polls| && turn == Continue && w.Budget(PUMP_READS)
        invariant Valid() && Even() && alive == (turn != Raised) && Stops(polls, used, turn)
        invariant old(w.ins) <= w.ins && old(stdout) <= stdout && old(rounds) <= rounds
        invariant old(w.counter) <= w.counter <= old(w.counter) + PUMP_READS * used
        invariant turn == Raised <==> used > 0 && w.Unanswered()
        invariant turn == Raised ==> w.counter >= old(w.counter) + 10
        invariant Forwarded(old(rounds), rounds, polls, Done(used, turn))
        invariant turn == Raised ==> unreported <= Typed(Offered(polls[used - 1]))
      {
        var p := polls[used];
        ghost var rs := rounds;
        Wait();
        turn := Pump(p.ready, p.data);
        assert Poll(p.ready, p.data) == p;
        LeavesIs(p);
        if turn != Raised {
          ForwardedMore(old(rounds), rs, rounds, polls, used);
        }
        used := used + 1;
      }
      if w.inFlight <= w.cfg.headroom {
        Promise();
      }
    }
  }

  /** The iterations used end at the first that leaves, or at one that raised before. */
  ghost predicate Stops(polls: seq<Poll>, used: nat, turn: Turn) {
    && used <= |polls| && (turn != Continue ==> used > 0)
    && (forall i | 0 <= i < (if turn == Continue then used else used - 1) :: !Leaves(polls[i]))
    && (turn == Exit ==> Leaves(polls[used - 1]))
  }

  /** How many of them completed. */
  function Done(used: nat, turn: Turn): nat {
    if turn == Raised && used > 0 then used - 1 else used
  }

  /** The iterations `rs'` adds to `rs` forwarded the input of the first `n` polls, up to Ctrl-]. */
  ghost predicate Forwarded(rs: seq<Round>, rs': seq<Round>, polls: seq<Poll>, n: nat) {
    n <= |polls| && |rs'| == |rs| + n && TypedOf(rs') == TypedOf(rs) + Typed(InputOf(polls[..n]))
  }

  lemma LeavesIs(p: Poll)
    ensures Leaves(p) <==> p.ready && (p.data == [] || 0x1d in p.data)
  {
  }

  lemma NothingForwarded(rs: seq<Round>, polls: seq<Poll>)
    ensures Forwarded(rs, rs, polls, 0)
  {
    assert TypedOf(rs) + [] == TypedOf(rs);
  }

  lemma ForwardedMore(rs: seq<Round>, rs1: seq<Round>, rs2: seq<Round>, polls: seq<Poll>, n: nat)
    requires n < |polls| && Forwarded(rs, rs1, polls, n) && forall i | 0 <= i < n :: !Leaves(polls[i])
    requires |rs2| == |rs1| + 1 && TypedOf(rs2) == TypedOf(rs1) + Typed(Offered(polls[n]))
    ensures Forwarded(rs, rs2, polls, n + 1)
  {
    hide Typed, TypedOf, Leaves, Offered, InputOf;
    NoExit(polls[..n]);
    var a, b := InputOf(polls[..n]), Offered(polls[n]);
    assert polls[..n + 1] == polls[..n] + [polls[n]];
    InputAppended(polls[..n], polls[n]);
    TypedAfter(a, b);
    assert a[..|a|] == a;
    TypedPrefix(a, |a|);
    Regroup(TypedOf(rs), Typed(a), Typed(b));
  }

  lemma {:induction false} NoExit(polls: seq<Poll>)
    requires forall i | 0 <= i < |polls| :: !Leaves(polls[i])
    ensures EXIT_BYTE !in InputOf(polls)
  {
    if polls != [] {
      NoExit(polls[..|polls| - 1]);
      assert !Leaves(polls[|polls| - 1]);
    }
  }

  lemma Regroup(a: Bytes, b: Bytes, c: Bytes)
    ensures (a + b) + c == a + (b + c) && a + (b + []) == a + b && a + ((b + c) + []) == a + (b + c)
  {
  }
}
