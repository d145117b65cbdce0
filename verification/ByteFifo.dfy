/**
 * The buffered byte FIFO under both console directions: an inner memory of
 * `depth` bytes followed by one output register.  One `Tick` is one clock edge.
 */
module ByteFifo {
  import opened Bytes

  datatype Fifo = Fifo(inner: Bytes, out: Option<byte>) {

    /** The raw level signal: inner level plus the output-valid bit. */
    function Level(): nat {
      |inner| + if out.Some? then 1 else 0
    }

    /** Bytes held, oldest first. */
    function Contents(): Bytes {
      (if out.Some? then [out.value] else []) + inner
    }

    /** source.valid */
    predicate Readable() {
      out.Some?
    }

    /** sink.ready, which looks at the inner memory only. */
    predicate Ready(depth: nat) {
      |inner| < depth
    }
  }

  const EMPTY := Fifo([], None)

  /** What one cycle presents: a byte at the sink, a take at the source. */
  datatype Port = Port(push: Option<byte>, pop: bool)

  function Tick(f: Fifo, depth: nat, p: Port): Fifo {
    var transfer := f.inner != [] && (f.out.None? || p.pop);
    var kept := if transfer then f.inner[1..] else f.inner;
    var inner' := if p.push.Some? && f.Ready(depth) then kept + [p.push.value] else kept;
    Fifo(inner', if transfer then Some(f.inner[0]) else if p.pop then None else f.out)
  }

  function Run(depth: nat, ps: seq<Port>): Fifo {
    if ps == [] then EMPTY else Tick(Run(depth, ps[..|ps| - 1]), depth, ps[|ps| - 1])
  }

  // ---- the plain queue it stands for ----------------------------------------

  /** A bounded queue whose head becomes visible one cycle after it is alone. */
  datatype Queue = Queue(items: Bytes, visible: bool)

  function QueueTick(q: Queue, capacity: nat, p: Port): Queue {
    var rest := if p.pop && q.visible && q.items != [] then q.items[1..] else q.items;
    Queue(if p.push.Some? && |q.items| < capacity then rest + [p.push.value] else rest, rest != [])
  }

  function QueueRun(capacity: nat, ps: seq<Port>): Queue {
    if ps == [] then Queue([], false)
    else QueueTick(QueueRun(capacity, ps[..|ps| - 1]), capacity, ps[|ps| - 1])
  }

  function AsQueue(f: Fifo): Queue {
    Queue(f.Contents(), f.Readable())
  }

  /** Holds in every reachable state: the output register refills at once. */
  predicate Settled(f: Fifo, depth: nat) {
    |f.inner| <= depth && (f.out.None? ==> |f.inner| <= 1)
  }

  /** The bytes one cycle removes and adds. */
  function Taken(f: Fifo, p: Port): nat {
    if p.pop && f.Readable() then 1 else 0
  }

  function Added(f: Fifo, depth: nat, p: Port): Bytes {
    if p.push.Some? && f.Ready(depth) then [p.push.value] else []
  }

  /** One edge moves the bytes exactly as a queue does, in every state. */
  lemma TickMovesBytes(f: Fifo, depth: nat, p: Port)
    ensures Taken(f, p) <= |f.Contents()|
    ensures Tick(f, depth, p).Contents() == f.Contents()[Taken(f, p)..] + Added(f, depth, p)
    ensures Tick(f, depth, p).Readable() <==> f.Contents()[Taken(f, p)..] != []
    ensures Settled(f, depth) ==> Settled(Tick(f, depth, p), depth)
  {
    TickSettles(f, depth, p);
    if f.inner != [] && (f.out.None? || p.pop) {
      TickTransfers(f, depth, p);
    } else if p.pop {
      TickEmpties(f, depth, p);
    } else {
      TickHolds(f, depth, p);
    }
  }

  lemma TickTransfers(f: Fifo, depth: nat, p: Port)
    requires f.inner != [] && (f.out.None? || p.pop)
    ensures f.Contents()[Taken(f, p)..] == f.inner && Tick(f, depth, p).Readable()
    ensures Tick(f, depth, p).Contents() == f.inner + Added(f, depth, p)
  {
    assert Tick(f, depth, p) == Fifo(f.inner[1..] + Added(f, depth, p), Some(f.inner[0]));
    Rotate(f.inner, Added(f, depth, p));
    if f.out.Some? {
      assert f.Contents()[1..] == f.inner;
    } else {
      assert f.Contents()[0..] == f.inner;
    }
  }

  lemma TickEmpties(f: Fifo, depth: nat, p: Port)
    requires f.inner == [] && p.pop
    ensures f.Contents()[Taken(f, p)..] == [] && !Tick(f, depth, p).Readable()
    ensures Tick(f, depth, p).Contents() == Added(f, depth, p)
  {
  }

  lemma TickHolds(f: Fifo, depth: nat, p: Port)
    requires (f.inner == [] || f.out.Some?) && !p.pop
    ensures f.Contents()[Taken(f, p)..] == f.Contents() && (Tick(f, depth, p).Readable() <==> f.Contents() != [])
    ensures Tick(f, depth, p).Contents() == f.Contents() + Added(f, depth, p)
  {
    assert Tick(f, depth, p) == Fifo(f.inner + Added(f, depth, p), f.out);
    assert f.Contents()[0..] == f.Contents();
    if f.out.Some? {
      Regroup([f.out.value], f.inner, Added(f, depth, p));
    } else {
      Regroup([], f.inner, Added(f, depth, p));
    }
  }

  lemma Regroup(a: Bytes, b: Bytes, c: Bytes)
    ensures a + (b + c) == a + b + c
  {
  }

  lemma Rotate(inner: Bytes, added: Bytes)
    requires inner != []
    ensures [inner[0]] + (inner[1..] + added) == inner + added
  {
  }

  lemma TickSettles(f: Fifo, depth: nat, p: Port)
    ensures Settled(f, depth) ==> Settled(Tick(f, depth, p), depth)
  {
  }

  lemma ReadyMeansRoom(f: Fifo, depth: nat)
    requires 2 <= depth && Settled(f, depth)
    ensures f.Ready(depth) <==> |f.Contents()| < depth + 1
  {
  }

  lemma {:induction false} RunIsSettled(depth: nat, ps: seq<Port>)
    requires 1 <= depth
    ensures Settled(Run(depth, ps), depth)
  {
    if ps != [] {
      RunIsSettled(depth, ps[..|ps| - 1]);
      TickMovesBytes(Run(depth, ps[..|ps| - 1]), depth, ps[|ps| - 1]);
    }
  }

  lemma {:induction false} DeepFifoIsQueue(depth: nat, ps: seq<Port>)
    requires 2 <= depth
    ensures AsQueue(Run(depth, ps)) == QueueRun(depth + 1, ps)
  {
    if ps != [] {
      var pre, p := ps[..|ps| - 1], ps[|ps| - 1];
      var f := Run(depth, pre);
      DeepFifoIsQueue(depth, pre);
      RunIsSettled(depth, pre);
      ReadyMeansRoom(f, depth);
      TickMovesBytes(f, depth, p);
      assert f.Readable() ==> f.Contents() != [];
    }
  }

  /** A queue of capacity depth + 1 on every input history, exactly when the memory holds two bytes or more. */
  lemma FifoIsQueueIffDeep(depth: nat)
    ensures (forall ps: seq<Port> :: AsQueue(Run(depth, ps)) == QueueRun(depth + 1, ps)) <==> 2 <= depth
  {
    if 2 <= depth {
      forall ps: seq<Port> ensures AsQueue(Run(depth, ps)) == QueueRun(depth + 1, ps) {
        DeepFifoIsQueue(depth, ps);
      }
    } else {
      ShallowFifoDiffers(depth);
    }
  }

  /** Two pushes in a row separate the shallow FIFO from the queue. */
  lemma ShallowFifoDiffers(depth: nat)
    requires depth < 2
    ensures exists ps: seq<Port> :: AsQueue(Run(depth, ps)) != QueueRun(depth + 1, ps)
  {
    var p := Port(Some(0), false);
    var one, two := [p], [p, p];
    assert one[..0] == [] && two[..1] == one;
    var f, q := Tick(EMPTY, depth, p), QueueTick(Queue([], false), depth + 1, p);
    assert Run(depth, one) == f;
    assert QueueRun(depth + 1, one[..0]) == Queue([], false);
    assert QueueRun(depth + 1, one) == q && q == Queue([0], false);
    if depth == 0 {
      assert AsQueue(Run(depth, one)) != QueueRun(depth + 1, one);
    } else {
      assert f == Fifo([0], None);
      assert Run(depth, two) == Tick(f, depth, p) && QueueRun(depth + 1, two) == QueueTick(q, depth + 1, p);
      assert |Tick(f, depth, p).Contents()| == 1 && |QueueTick(q, depth + 1, p).items| == 2;
      assert AsQueue(Run(depth, two)) != QueueRun(depth + 1, two);
    }
  }
}
