/**
 * The run queue of a capability (include-private/Schedule.h): a doubly linked list threaded
 * through the threads themselves. The end marker END_TSO_QUEUE is `null` here.
 */
module RunQueue {
  import opened Sequences

  /** A thread: the two fields the queue uses. */
  class Tso {
    var link: Tso?
    var prev: Tso?

    constructor ()
      ensures link == null && prev == null
    {
      link, prev := null, null;
    }
  }

  /** Neighbours point at each other, and the ends at nothing. */
  ghost predicate Linked(q: seq<Tso>)
    reads q
  {
    && Distinct(q)
    && forall i | 0 <= i < |q| :: q[i].link == At(q, i + 1, null) && q[i].prev == At(q, i - 1, null)
  }

  lemma Ends(q: seq<Tso>)
    requires Distinct(q) && q != []
    ensures At(q, 0, null) == q[0] && At(q, |q| - 1, null) == q[|q| - 1] && At(q, |q|, null) == null == At(q, -1, null)
    ensures At(q, 1, null) == if |q| > 1 then q[1] else null
    ensures forall i | 0 <= i < |q| - 1 :: q[i] != q[|q| - 1]
    ensures forall i | 0 < i < |q| :: q[i] != q[0]
    ensures forall i | 1 < i < |q| :: q[i] != q[1]
  {
  }

  lemma EmptyEnds()
    ensures forall i :: At<Tso?>([], i, null) == null
  {
  }

  lemma Appending(q: seq<Tso>, t: Tso)
    requires Distinct(q) && t !in q
    ensures Distinct(q + [t])
    ensures forall i :: At(q + [t], i, null) == if i > |q| then null else if i == |q| then t else At(q, i, null)
  {
  }

  lemma Pushing(q: seq<Tso>, t: Tso)
    requires Distinct(q) && t !in q
    ensures Distinct([t] + q)
    ensures forall i :: At([t] + q, i, null) == if i < 0 then null else if i == 0 then t else At(q, i - 1, null)
  {
  }

  lemma Popping(q: seq<Tso>)
    requires Distinct(q) && q != []
    ensures Distinct(q[1..])
    ensures forall i :: At(q[1..], i, null) == if i < 0 then null else At(q, i + 1, null)
  {
  }

  class Capability {
    var runQueueHd: Tso?
    var runQueueTl: Tso?
    var nRunQueue: nat
    ghost var queue: seq<Tso>

    /** The chain, both of its ends and the counter all describe the one sequence. */
    ghost predicate Valid()
      reads this, queue
    {
      && Linked(queue)
      && runQueueHd == At(queue, 0, null)
      && runQueueTl == At(queue, |queue| - 1, null)
      && nRunQueue == |queue|
    }

    constructor ()
      ensures Valid() && queue == []
    {
      runQueueHd, runQueueTl, nRunQueue, queue := null, null, 0, [];
    }

    /** `appendToRunQueue` */
    method Append(tso: Tso)
      requires Valid() && tso !in queue && tso.link == null
      modifies this, tso, runQueueTl
      ensures Valid() && queue == old(queue) + [tso]
      ensures runQueueTl == tso
      ensures old(runQueueTl) != null ==> old(runQueueTl).prev == old(runQueueTl.prev)
    {
      hide At, Distinct;
      Appending(queue, tso);
      EmptyEnds();
      if queue != [] {
        Ends(queue);
      }
      if runQueueHd == null {
        runQueueHd := tso;
        tso.prev := null;
      } else {
        runQueueTl.link := tso;
        tso.prev := runQueueTl;
      }
      runQueueTl := tso;
      nRunQueue := nRunQueue + 1;
      queue := queue + [tso];
    }

    /** `pushOnRunQueue` */
    method Push(tso: Tso)
      requires Valid() && tso !in queue
      modifies this, tso, runQueueHd
      ensures Valid() && queue == [tso] + old(queue)
    {
      hide At, Distinct;
      Pushing(queue, tso);
      EmptyEnds();
      if queue != [] {
        Ends(queue);
      }
      tso.link := runQueueHd;
      tso.prev := null;
      if runQueueHd != null {
        runQueueHd.prev := tso;
      }
      runQueueHd := tso;
      if runQueueTl == null {
        runQueueTl := tso;
      }
      nRunQueue := nRunQueue + 1;
      queue := [tso] + queue;
    }

    /** `popRunQueue` */
    method Pop() returns (t: Tso)
      requires Valid() && queue != []
      modifies this, runQueueHd, if runQueueHd == null then null else runQueueHd.link
      ensures Valid() && [t] + queue == old(queue)
      ensures t.link == null && t.prev == null
    {
      hide At, Distinct;
      Ends(queue);
      Popping(queue);
      t := runQueueHd;
      runQueueHd := t.link;
      if t.link != null {
        t.link.prev := null;
      }
      t.link := null;
      if runQueueHd == null {
        runQueueTl := null;
      }
      nRunQueue := nRunQueue - 1;
      queue := queue[1..];
    }

    /** `truncateRunQueue`: the threads keep the links they had. */
    method Truncate()
      requires Valid()
      modifies this
      ensures Valid() && queue == []
    {
      runQueueHd, runQueueTl, nRunQueue := null, null, 0;
      queue := [];
    }

    /** `emptyRunQueue`, and the condition Capability.h asserts about an empty queue. */
    predicate Empty()
      requires Valid()
      reads this, queue
      ensures Empty() <==> queue == []
      ensures Empty() <==> runQueueHd == null
      ensures runQueueHd == null ==> runQueueTl == null && nRunQueue == 0
    {
      nRunQueue == 0
    }
  }

  // ---------------------------------------------------------------------------
  // Following the links
  // ---------------------------------------------------------------------------

  /** The threads met on the way from `t` along `link`, at most `n` of them. */
  ghost function Forward(t: Tso?, n: nat, heap: set<Tso>): seq<Tso>
    reads heap
  {
    if t == null || n == 0 || t !in heap then [] else [t] + Forward(t.link, n - 1, heap)
  }

  ghost function Backward(t: Tso?, n: nat, heap: set<Tso>): seq<Tso>
    reads heap
  {
    if t == null || n == 0 || t !in heap then [] else Backward(t.prev, n - 1, heap) + [t]
  }

  /** The links alone give the queue back, read from either end, and both walks end at the end marker. */
  lemma {:induction false} ForwardIsQueue(q: seq<Tso>, i: nat, heap: set<Tso>)
    requires Linked(q) && i <= |q| && forall t <- q :: t in heap
    ensures Forward(At(q, i, null), |q| - i, heap) == q[i..]
    decreases |q| - i
  {
    hide Linked, At;
    if i < |q| {
      ForwardIsQueue(q, i + 1, heap);
      Neighbours(q, i);
    }
  }

  lemma {:induction false} BackwardIsQueue(q: seq<Tso>, i: nat, heap: set<Tso>)
    requires Linked(q) && i <= |q| && forall t <- q :: t in heap
    ensures Backward(At(q, i - 1, null), i, heap) == q[..i]
  {
    hide Linked, At;
    if i > 0 {
      BackwardIsQueue(q, i - 1, heap);
      Neighbours(q, i - 1);
      hide Backward;
      assert q[..i] == q[..i - 1] + [q[i - 1]];
      assert q[i - 1] in q;
      BackwardStep(q[i - 1], i, heap);
    }
  }

  lemma BackwardStep(t: Tso, n: nat, heap: set<Tso>)
    requires t in heap && n > 0
    ensures Backward(t, n, heap) == Backward(t.prev, n - 1, heap) + [t]
  {
  }

  lemma Neighbours(q: seq<Tso>, i: nat)
    requires Linked(q) && i < |q|
    ensures At(q, i, null) == q[i] && q[i].link == At(q, i + 1, null) && q[i].prev == At(q, i - 1, null)
  {
  }

  // ---------------------------------------------------------------------------
  // Whole runs
  // ---------------------------------------------------------------------------

  datatype Op = Append(tso: Tso) | Push(tso: Tso) | Pop | Truncate

  /** The reference: a sequence, the threads that a truncation left with a link, and the threads popped. */
  datatype Deque = Deque(queue: seq<Tso>, stale: set<Tso>, popped: seq<Tso>)

  predicate Legal(d: Deque, op: Op) {
    match op
    case Append(t) => t !in d.queue && t !in d.stale
    case Push(t) => t !in d.queue
    case Pop => d.queue != []
    case Truncate => true
  }

  function ButLast(q: seq<Tso>): seq<Tso> {
    if q == [] then [] else q[..|q| - 1]
  }

  function Step(d: Deque, op: Op): Deque {
    match op
    case Append(t) => d.(queue := d.queue + [t])
    case Push(t) => Deque([t] + d.queue, d.stale - {t}, d.popped)
    case Pop => if d.queue == [] then d else d.(queue := d.queue[1..], popped := d.popped + [d.queue[0]])
    case Truncate => d.(queue := [], stale := d.stale + (set t <- ButLast(d.queue)))
  }

  ghost predicate LegalRun(d: Deque, ops: seq<Op>)
    decreases |ops|
  {
    ops != [] ==> Legal(d, ops[0]) && LegalRun(Step(d, ops[0]), ops[1..])
  }

  function Run(d: Deque, ops: seq<Op>): Deque
    decreases |ops|
  {
    if ops == [] then d else Run(Step(d, ops[0]), ops[1..])
  }

  /** The threads of a run. */
  function Threads(d: Deque, ops: seq<Op>): set<Tso> {
    (set t <- d.queue) + (set op <- ops | op.Append? || op.Push? :: op.tso)
  }

  /** The threads off the queue that still have a link are the stale ones. */
  ghost predicate Exact(d: Deque, threads: set<Tso>)
    reads threads
  {
    && (forall t <- d.queue :: t !in d.stale)
    && (forall t <- threads | t !in d.queue :: t.link != null <==> t in d.stale)
  }

  /** One legal operation on the linked list does what it does on the sequence. */
  method Perform(cap: Capability, op: Op, ghost d: Deque, ghost threads: set<Tso>) returns (popped: seq<Tso>)
    requires cap.Valid() && cap.queue == d.queue && Legal(d, op) && Exact(d, threads)
    requires forall t <- d.queue :: t in threads
    requires op.Append? || op.Push? ==> op.tso in threads
    modifies cap, threads
    ensures cap.Valid() && cap.queue == Step(d, op).queue && d.popped + popped == Step(d, op).popped
    ensures Exact(Step(d, op), threads)
  {
    hide At, Distinct;
    popped := [];
    EmptyEnds();
    if d.queue != [] {
      Ends(d.queue);
    }
    match op {
      case Append(t) => cap.Append(t);
      case Push(t) => cap.Push(t);
      case Pop =>
        Popping(d.queue);
        var t := cap.Pop();
        popped := [t];
      case Truncate =>
        LinksOf(d.queue);
        cap.Truncate();
    }
  }

  /** And so does any legal run. */
  method Execute(cap: Capability, ops: seq<Op>, ghost start: Deque, ghost threads: set<Tso>) returns (popped: seq<Tso>)
    requires cap.Valid() && cap.queue == start.queue && start.popped == []
    requires Threads(start, ops) <= threads && Exact(start, threads) && LegalRun(start, ops)
    modifies cap, threads
    ensures cap.Valid() && cap.queue == Run(start, ops).queue && popped == Run(start, ops).popped
    ensures Exact(Run(start, ops), threads)
  {
    hide Linked, Exact, Threads, Legal, LegalRun, Run, Step;
    popped := [];
    ghost var d := start;
    var i := 0;
    while i < |ops|
      invariant i <= |ops| && cap.Valid() && cap.queue == d.queue && popped == d.popped
      invariant Threads(d, ops[i..]) <= threads && Exact(d, threads) && LegalRun(d, ops[i..])
      invariant Run(d, ops[i..]) == Run(start, ops)
    {
      Advance(d, ops[i..], threads);
      assert ops[i..][1..] == ops[i + 1..];
      Involved(d, ops[i..], threads);
      var out := Perform(cap, ops[i], d, threads);
      popped := popped + out;
      d := Step(d, ops[i]);
      i := i + 1;
    }
    assert ops[i..] == [];
    RunNothing(d);
  }

  lemma RunNothing(d: Deque)
    ensures Run(d, []) == d
  {
  }

  lemma RunStep(d: Deque, ops: seq<Op>)
    requires ops != [] && LegalRun(d, ops)
    ensures Legal(d, ops[0]) && LegalRun(Step(d, ops[0]), ops[1..])
    ensures Run(d, ops) == Run(Step(d, ops[0]), ops[1..])
  {
  }

  lemma Advance(d: Deque, ops: seq<Op>, threads: set<Tso>)
    requires ops != [] && LegalRun(d, ops) && Threads(d, ops) <= threads
    ensures Legal(d, ops[0]) && LegalRun(Step(d, ops[0]), ops[1..])
    ensures Threads(Step(d, ops[0]), ops[1..]) <= threads
    ensures Run(d, ops) == Run(Step(d, ops[0]), ops[1..])
  {
    RunStep(d, ops);
    hide LegalRun, Run;
    forall t | t in Threads(Step(d, ops[0]), ops[1..]) ensures t in Threads(d, ops) {
    }
  }

  lemma Involved(d: Deque, ops: seq<Op>, threads: set<Tso>)
    requires ops != [] && Threads(d, ops) <= threads
    ensures forall t <- d.queue :: t in threads
    ensures ops[0].Append? || ops[0].Push? ==> ops[0].tso in threads
  {
    forall t <- d.queue ensures t in threads {
      assert t in Threads(d, ops);
    }
    if ops[0].Append? || ops[0].Push? {
      assert ops[0].tso in Threads(d, ops);
    }
  }

  /** Of the threads of a queue, all but the last have a link. */
  lemma LinksOf(q: seq<Tso>)
    requires Linked(q)
    ensures forall t <- q :: t.link != null <==> t in ButLast(q)
  {
    forall i | 0 <= i < |q| ensures q[i].link != null <==> q[i] in ButLast(q) {
      assert q[i].link == At(q, i + 1, null);
      if i < |q| - 1 {
        assert ButLast(q)[i] == q[i];
      } else {
        Ends(q);
      }
    }
  }

  // ---------------------------------------------------------------------------
  // Order
  // ---------------------------------------------------------------------------

  function Appended(ops: seq<Op>): seq<Tso> {
    if ops == [] then [] else (if ops[0].Append? then [ops[0].tso] else []) + Appended(ops[1..])
  }

  /** With appends and pops alone, threads leave in the order they came and none is lost. */
  lemma {:induction false} Fifo(d: Deque, ops: seq<Op>)
    requires LegalRun(d, ops) && forall op <- ops :: op.Append? || op.Pop?
    ensures var r := Run(d, ops); r.popped + r.queue == d.popped + d.queue + Appended(ops)
    decreases |ops|
  {
    hide LegalRun, Run, Step;
    if ops == [] {
      RunNothing(d);
    } else {
      RunStep(d, ops);
      Fifo(Step(d, ops[0]), ops[1..]);
      FifoStep(d, ops[0], Appended(ops[1..]));
    }
  }

  lemma FifoStep(d: Deque, op: Op, later: seq<Tso>)
    requires Legal(d, op) && (op.Append? || op.Pop?)
    ensures var d' := Step(d, op);
      d'.popped + d'.queue + later == d.popped + d.queue + ((if op.Append? then [op.tso] else []) + later)
  {
    if op.Append? {
      assert d.popped + (d.queue + [op.tso]) + later == d.popped + d.queue + ([op.tso] + later);
    } else {
      assert d.popped + [d.queue[0]] + d.queue[1..] == d.popped + d.queue;
      assert [] + later == later;
    }
  }

  /** A pushed thread is the next to leave, and leaves the queue as it was. */
  lemma PushThenPop(d: Deque, t: Tso)
    requires t !in d.queue
    ensures LegalRun(d, [Op.Push(t), Op.Pop])
    ensures var r := Run(d, [Op.Push(t), Op.Pop]); r.queue == d.queue && r.popped == d.popped + [t]
  {
    var d' := Step(d, Op.Push(t));
    var d'' := Step(d', Op.Pop);
    assert [Op.Push(t), Op.Pop][1..] == [Op.Pop];
    assert Run(d', [Op.Pop]) == Run(d'', []) == d'';
    assert LegalRun(d', [Op.Pop]);
  }
}
