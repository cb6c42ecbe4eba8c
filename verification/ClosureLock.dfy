/**
 * The closure lock of ghc-toolkit/boot-libs/rts/SMPClosureOps.h (an `xchg` with WHITEHOLE) and
 * the spin lock of ghc-toolkit/ghc-libdir/include/rts/SpinLock.h (a compare-and-swap), on the
 * weak memory of SMP.h, with any number of threads and the words that a lock protects.
 */
module ClosureLock {
  import opened WeakMemory

  datatype Kind = Closure(whitehole: Value) | Spin

  /**
   * A lock word and the words it guards. The flags say what the `write_barrier` of an unlock does:
   * whether it keeps the release behind earlier stores, and whether also behind earlier loads.
   */
  datatype Lock = Lock(kind: Kind, word: Loc, guarded: Loc -> bool, afterStores: bool, afterLoads: bool)
  {
    /** The content of the lock word while it is taken. */
    function Busy(): Value { if kind.Closure? then kind.whitehole else 0 }

    /** What an unlocker may store. */
    predicate MayStore(v: Value) { if kind.Closure? then v != kind.whitehole else v == 1 }

    /** The result of the atomic operation on a lock word holding `v`: the new content, and success. */
    function Attempt(v: Value): (Value, bool) {
      if kind.Closure? then (kind.whitehole, v != kind.whitehole)
      else (if v == 1 then 0 else v, v != 0)
    }

    ghost predicate Watched(l: Loc) { l == word || guarded(l) }

    ghost predicate Valid() { !guarded(word) }
  }

  datatype State = State(memory: Memory, buffers: Thread -> Buffer, holding: Thread -> Option<Value>)

  datatype Step =
    | Take(t: Thread)
    | Write(t: Thread, l: Loc, v: Value)
    | Read(t: Thread, l: Loc, id: nat)
    | Unlock(t: Thread, v: Value)
    | Other(t: Thread, op: Op)
    | Leave(t: Thread, i: nat)

  ghost predicate Initial(k: Lock, s: State) {
    && k.MayStore(s.memory(k.word))
    && forall t: Thread :: s.buffers(t) == [] && s.holding(t) == None
  }

  ghost predicate NoLoads(b: Buffer, locs: Loc -> bool) {
    forall i | 0 <= i < |b| && b[i].Load? :: !locs(b[i].loc)
  }

  ghost predicate Fresh(b: Buffer, id: nat) {
    forall i | 0 <= i < |b| && b[i].Load? :: b[i].id != id
  }

  ghost predicate Enabled(k: Lock, s: State, step: Step) {
    match step
    // One turn of the spin loops, or `tryLockClosure`. It comes after the thread's own store to the word.
    case Take(t) => s.holding(t) == None && NoStore(s.buffers(t), k.word)
    case Write(t, l, v) => s.holding(t) != None && k.guarded(l)
    // A load is only issued here; what it returns is decided when it leaves the buffer.
    case Read(t, l, id) => s.holding(t) != None && k.guarded(l) && Fresh(s.buffers(t), id)
    case Unlock(t, v) =>
      s.holding(t) != None && k.MayStore(v) && (k.afterLoads ==> NoLoads(s.buffers(t), k.guarded))
    // Anybody may do anything to words that the lock does not guard.
    case Other(t, op) => !op.Barrier? ==> !k.Watched(op.loc)
    case Leave(t, i) => CanLeave(s.buffers(t), i)
  }

  /** What an unlock adds to the buffer. */
  function Release(k: Lock, v: Value): Buffer {
    (if k.afterStores then [Barrier] else []) + [Store(k.word, v)]
  }

  function Apply(k: Lock, s: State, step: Step): State
    requires step.Leave? ==> CanLeave(s.buffers(step.t), step.i)
  {
    match step
    case Take(t) =>
      var v := s.memory(k.word);
      var (v', ok) := k.Attempt(v);
      s.(memory := Set(s.memory, k.word, v'), holding := SetAt(s.holding, t, if ok then Some(v) else None))
    case Write(t, l, v) => s.(buffers := SetAt(s.buffers, t, s.buffers(t) + [Store(l, v)]))
    case Read(t, l, id) => s.(buffers := SetAt(s.buffers, t, s.buffers(t) + [Load(l, id)]))
    case Unlock(t, v) =>
      s.(buffers := SetAt(s.buffers, t, s.buffers(t) + Release(k, v)), holding := SetAt(s.holding, t, None))
    case Other(t, op) => s.(buffers := SetAt(s.buffers, t, s.buffers(t) + [op]))
    case Leave(t, i) =>
      s.(memory := Effect(s.memory, s.buffers(t)[i]), buffers := SetAt(s.buffers, t, Drop(s.buffers(t), i)))
  }

  // ---------------------------------------------------------------------------
  // What threads observe, and the lock they are promised
  // ---------------------------------------------------------------------------

  datatype Event =
    | Acquired(t: Thread, v: Value)
    | Failed(t: Thread)
    | Wrote(t: Thread, l: Loc, v: Value)
    | Asked(t: Thread, l: Loc, id: nat)
    | Answered(t: Thread, id: nat, v: Value)
    | Released(t: Thread, v: Value)
    | Silent

  function EventOf(k: Lock, s: State, step: Step): Event
    requires step.Leave? ==> CanLeave(s.buffers(step.t), step.i)
  {
    match step
    case Take(t) =>
      if k.Attempt(s.memory(k.word)).1 then Acquired(t, s.memory(k.word)) else Failed(t)
    case Write(t, l, v) => Wrote(t, l, v)
    case Read(t, l, id) => Asked(t, l, id)
    case Unlock(t, v) => Released(t, v)
    case Other(t, op) => Silent
    case Leave(t, i) =>
      var b := s.buffers(t);
      // A load returns the newest of the older stores of its own thread, or what is in memory by now.
      if b[i].Load? && k.guarded(b[i].loc) then Answered(t, b[i].id, View(b[..i], s.memory, b[i].loc)) else Silent
  }

  /**
   * One memory, no buffers, and a lock with one holder at most; `asked` is what each load in program
   * order should return.
   */
  datatype Atomic = Atomic(holder: Option<Thread>, value: Value, memory: Memory, asked: (Thread, nat) -> Value)

  function Start(k: Lock, s: State): Atomic {
    Atomic(None, s.memory(k.word), s.memory, (t: Thread, id: nat) => 0)
  }

  /**
   * A lock is acquired only when nobody holds it and returns what the last holder left in it; with
   * `loads`, a holder's load returns what was written last when it was issued, by whomever.
   */
  predicate Legal(a: Atomic, e: Event, loads: bool) {
    match e
    case Acquired(t, v) => a.holder == None && v == a.value
    case Failed(t) => true
    case Wrote(t, l, v) => a.holder == Some(t)
    case Asked(t, l, id) => a.holder == Some(t)
    case Answered(t, id, v) => loads ==> v == a.asked(t, id)
    case Released(t, v) => a.holder == Some(t)
    case Silent => true
  }

  function Promise(asked: (Thread, nat) -> Value, t: Thread, id: nat, v: Value): (Thread, nat) -> Value {
    (u: Thread, n: nat) => if u == t && n == id then v else asked(u, n)
  }

  function After(a: Atomic, e: Event): Atomic {
    match e
    case Acquired(t, v) => a.(holder := Some(t))
    case Wrote(t, l, v) => a.(memory := Set(a.memory, l, v))
    case Asked(t, l, id) => a.(asked := Promise(a.asked, t, id, a.memory(l)))
    case Released(t, v) => a.(holder := None, value := v)
    case _ => a
  }

  /** A run of steps, everything observed in it being legal for an atomic lock. */
  ghost predicate LegalRun(k: Lock, s: State, a: Atomic, steps: seq<Step>, loads: bool)
    decreases |steps|
  {
    steps == [] || (Enabled(k, s, steps[0]) ==>
      && Legal(a, EventOf(k, s, steps[0]), loads)
      && LegalRun(k, Apply(k, s, steps[0]), After(a, EventOf(k, s, steps[0])), steps[1..], loads))
  }

  /** One holder at a time, and the word is handed from each to the next. */
  ghost predicate Excludes(k: Lock) {
    forall s: State, steps: seq<Step> :: Initial(k, s) ==> LegalRun(k, s, Start(k, s), steps, false)
  }

  /** And the guarded words are handed over as well. */
  ghost predicate Correct(k: Lock) {
    forall s: State, steps: seq<Step> :: Initial(k, s) ==> LegalRun(k, s, Start(k, s), steps, true)
  }

  // ---------------------------------------------------------------------------
  // Simulation of the lock word
  // ---------------------------------------------------------------------------

  /** At most one pending store to `l`. */
  ghost predicate OneStore(b: Buffer, l: Loc) {
    forall i, j | 0 <= i < |b| && 0 <= j < |b| && StoresTo(b[i], l) && StoresTo(b[j], l) :: i == j
  }

  /** The lock word after a release: pending or visible. */
  ghost predicate Left(k: Lock, b: Buffer, m: Memory, value: Value) {
    && OneStore(b, k.word) && k.MayStore(value)
    && (if NoStore(b, k.word) then m(k.word) == value else m(k.word) == k.Busy() && OnlyStores(b, k.word, value))
  }

  /** How the weak memory stands for the atomic lock; `last` is the last thread to have held it. */
  ghost predicate Simulates(k: Lock, s: State, a: Atomic, last: Thread) {
    && (forall t: Thread :: s.holding(t) != None <==> a.holder == Some(t))
    && (forall t: Thread | t != last :: NoStore(s.buffers(t), k.word))
    && match a.holder
       case Some(t) => t == last && s.memory(k.word) == k.Busy() && NoStore(s.buffers(t), k.word)
       case None => Left(k, s.buffers(last), s.memory, a.value)
  }

  /** The last holder after a step. */
  function Next(k: Lock, s: State, last: Thread, step: Step): Thread {
    if step.Take? && k.Attempt(s.memory(k.word)).1 then step.t else last
  }

  lemma LeftEnd(k: Lock, b: Buffer, op: Op, m: Memory, value: Value)
    requires Left(k, b, m, value) && !StoresTo(op, k.word)
    ensures Left(k, b + [op], m, value)
  {
    var c := b + [op];
    assert forall i | 0 <= i < |b| :: c[i] == b[i];
    if !NoStore(b, k.word) {
      var i :| 0 <= i < |b| && StoresTo(b[i], k.word);
      assert StoresTo(c[i], k.word);
    }
  }

  /** The release itself. */
  lemma LeftRelease(k: Lock, b: Buffer, m: Memory, value: Value)
    requires NoStore(b, k.word) && m(k.word) == k.Busy() && k.MayStore(value)
    ensures Left(k, b + Release(k, value), m, value)
  {
    var c, n := b + Release(k, value), |b| + |Release(k, value)| - 1;
    assert StoresTo(c[n], k.word);
    assert forall i | 0 <= i < |c| && StoresTo(c[i], k.word) :: i == n;
  }

  /** Removing an operation that is no store to `l` keeps the stores to `l`. */
  lemma DropKeepsStores(b: Buffer, i: nat, l: Loc)
    requires i < |b| && !StoresTo(b[i], l)
    ensures NoStore(Drop(b, i), l) <==> NoStore(b, l)
    ensures OneStore(b, l) ==> OneStore(Drop(b, i), l)
  {
    var c := Drop(b, i);
    if NoStore(c, l) {
      forall x | 0 <= x < |b|
        ensures !StoresTo(b[x], l)
      {
        assert x < i ==> c[x] == b[x];
        assert x > i ==> c[x - 1] == b[x];
      }
    }
  }

  lemma LeftLeave(k: Lock, b: Buffer, i: nat, m: Memory, value: Value)
    requires Left(k, b, m, value) && CanLeave(b, i)
    ensures Left(k, Drop(b, i), Effect(m, b[i]), value)
  {
    if !StoresTo(b[i], k.word) {
      DropKeepsStores(b, i, k.word);
    }
  }

  /** Every step keeps the simulation, whatever the barrier of the unlock does. */
  lemma StepSimulates(k: Lock, s: State, a: Atomic, last: Thread, step: Step)
    requires k.Valid() && Simulates(k, s, a, last) && Enabled(k, s, step)
    ensures Legal(a, EventOf(k, s, step), false)
    ensures Simulates(k, Apply(k, s, step), After(a, EventOf(k, s, step)), Next(k, s, last, step))
  {
    var b := s.buffers(step.t);
    match step
    case Take(t) =>
    case Write(t, l, v) =>
    case Read(t, l, id) =>
    case Unlock(t, v) =>
      LeftRelease(k, b, s.memory, v);
      hide Left;
    case Other(t, op) =>
      if t == last && a.holder == None {
        LeftEnd(k, b, op, s.memory, a.value);
      }
      hide Left;
    case Leave(t, i) =>
      if t == last && a.holder == None {
        LeftLeave(k, b, i, s.memory, a.value);
      } else {
        DropKeepsStores(b, i, k.word);
      }
      hide View;
  }

  lemma {:induction false} RunExcludes(k: Lock, s: State, a: Atomic, last: Thread, steps: seq<Step>)
    requires k.Valid() && Simulates(k, s, a, last)
    ensures LegalRun(k, s, a, steps, false)
    decreases |steps|
  {
    hide Simulates, Apply, EventOf, Legal, After;
    if steps != [] && Enabled(k, s, steps[0]) {
      StepSimulates(k, s, a, last, steps[0]);
      var s', a' := Apply(k, s, steps[0]), After(a, EventOf(k, s, steps[0]));
      RunExcludes(k, s', a', Next(k, s, last, steps[0]), steps[1..]);
    }
  }

  lemma InitialSimulates(k: Lock, s: State)
    requires Initial(k, s)
    ensures Simulates(k, s, Start(k, s), 0)
  {
  }

  /**
   * With or without a barrier at most one thread holds the lock, an acquirer gets what the last
   * unlock stored, and failed attempts change nothing.
   */
  lemma ExcludesAlways(k: Lock)
    requires k.Valid()
    ensures Excludes(k)
  {
    forall s: State, steps: seq<Step> | Initial(k, s)
      ensures LegalRun(k, s, Start(k, s), steps, false)
    {
      InitialSimulates(k, s);
      RunExcludes(k, s, Start(k, s), 0, steps);
    }
  }

  // ---------------------------------------------------------------------------
  // Simulation of the guarded words
  // ---------------------------------------------------------------------------

  /** A load executed now by the thread with buffer `b` would return what was written last. */
  ghost predicate Current(k: Lock, b: Buffer, m: Memory, a: Atomic) {
    forall l | k.guarded(l) :: View(b, m, l) == a.memory(l)
  }

  /** After a release, no store to a guarded word is pending behind it. */
  ghost predicate Settled(k: Lock, b: Buffer) {
    Fenced(b, k.guarded, k.word) && (NoStore(b, k.word) ==> NoEarly(b, k.guarded))
  }

  ghost predicate Guards(k: Lock, s: State, a: Atomic, last: Thread) {
    && (forall t: Thread | t != last :: NoEarly(s.buffers(t), k.guarded))
    && Current(k, s.buffers(last), s.memory, a)
    && (a.holder == None ==> Settled(k, s.buffers(last)))
  }

  /** An operation appended to the buffer: its own store is what its thread reads next. */
  lemma ViewEnd(b: Buffer, op: Op, m: Memory, l: Loc)
    ensures View(b + [op], m, l) == if StoresTo(op, l) then op.value else View(b, m, l)
  {
    assert (b + [op])[..|b|] == b;
  }

  lemma CurrentEnd(k: Lock, b: Buffer, op: Op, m: Memory, a: Atomic, a': Atomic)
    requires Current(k, b, m, a)
    requires forall l | k.guarded(l) :: a'.memory(l) == if StoresTo(op, l) then op.value else a.memory(l)
    ensures Current(k, b + [op], m, a')
  {
    forall l | k.guarded(l)
      ensures View(b + [op], m, l) == a'.memory(l)
    {
      ViewEnd(b, op, m, l);
    }
  }

  lemma CurrentLeave(k: Lock, b: Buffer, i: nat, m: Memory, a: Atomic)
    requires Current(k, b, m, a) && CanLeave(b, i)
    ensures Current(k, Drop(b, i), Effect(m, b[i]), a)
  {
    forall l | k.guarded(l)
      ensures View(Drop(b, i), Effect(m, b[i]), l) == a.memory(l)
    {
      ViewLeave(b, i, m, l);
    }
  }

  /** Stores to other words do not matter. */
  lemma CurrentFrame(k: Lock, b: Buffer, m: Memory, l: Loc, v: Value, a: Atomic)
    requires Current(k, b, m, a) && !k.guarded(l)
    ensures Current(k, b, Set(m, l, v), a)
  {
    forall x | k.guarded(x)
      ensures View(b, Set(m, l, v), x) == a.memory(x)
    {
      ViewFrame(b, m, l, v, x);
    }
  }

  /** The next holder sees what the last one left. */
  lemma CurrentNext(k: Lock, b: Buffer, c: Buffer, m: Memory, a: Atomic)
    requires Current(k, b, m, a) && NoEarly(b, k.guarded) && NoEarly(c, k.guarded)
    ensures Current(k, c, m, a)
  {
    forall l | k.guarded(l)
      ensures View(c, m, l) == a.memory(l)
    {
      ViewOfMemory(b, m, l);
      ViewOfMemory(c, m, l);
    }
  }

  lemma SettledRelease(k: Lock, b: Buffer, v: Value)
    requires k.Valid() && k.afterStores && NoStore(b, k.word)
    ensures Settled(k, b + Release(k, v))
  {
    var c := b + Release(k, v);
    assert c[|b|] == Barrier && c[|b| + 1] == Store(k.word, v);
    assert Fenced(c, k.guarded, k.word);
  }

  lemma SettledEnd(k: Lock, b: Buffer, op: Op)
    requires k.Valid() && Settled(k, b) && (!op.Barrier? ==> !k.Watched(op.loc))
    ensures Settled(k, b + [op])
  {
    assert b + [] == b && b + [op] + [] == b + [op];
    FencedInsert(b, op, [], k.guarded, k.word);
    hide Fenced;
    if !NoStore(b, k.word) {
      var i :| 0 <= i < |b| && StoresTo(b[i], k.word);
      assert StoresTo((b + [op])[i], k.word);
    }
  }

  lemma SettledLeave(k: Lock, b: Buffer, i: nat)
    requires k.Valid() && Settled(k, b) && CanLeave(b, i)
    ensures Settled(k, Drop(b, i))
  {
    FencedDrop(b, i, k.guarded, k.word);
    if StoresTo(b[i], k.word) {
      assert b + [] == b;
      LateDrains(b, [], i, k.guarded, k.word);
    } else {
      DropKeepsStores(b, i, k.word);
    }
  }

  /** If the release waits for stores, every step keeps the guarded words current. */
  lemma StepGuards(k: Lock, s: State, a: Atomic, last: Thread, step: Step)
    requires k.Valid() && k.afterStores
    requires Simulates(k, s, a, last) && Guards(k, s, a, last) && Enabled(k, s, step)
    ensures Guards(k, Apply(k, s, step), After(a, EventOf(k, s, step)), Next(k, s, last, step))
  {
    var b, a' := s.buffers(last), After(a, EventOf(k, s, step));
    match step
    case Take(t) => TakeGuards(k, s, a, last, t);
    case Write(t, l, v) =>
      CurrentEnd(k, b, Store(l, v), s.memory, a, a');
      hide Current, Simulates;
    case Read(t, l, id) =>
      CurrentEnd(k, b, Load(l, id), s.memory, a, a');
      hide Current;
    case Unlock(t, v) =>
      SettledRelease(k, b, v);
      CurrentEnd(k, b, Barrier, s.memory, a, a');
      CurrentEnd(k, b + [Barrier], Store(k.word, v), s.memory, a', a');
      assert b + [Barrier] + [Store(k.word, v)] == b + Release(k, v);
      hide Current, Settled;
    case Other(t, op) =>
      CurrentEnd(k, b, op, s.memory, a, a);
      if t == last && a.holder == None {
        SettledEnd(k, b, op);
      }
      hide Current, Settled;
    case Leave(t, i) => LeaveGuards(k, s, a, last, t, i);
  }

  lemma TakeGuards(k: Lock, s: State, a: Atomic, last: Thread, t: Thread)
    requires k.Valid() && Simulates(k, s, a, last) && Guards(k, s, a, last) && Enabled(k, s, Take(t))
    ensures var step := Take(t);
      Guards(k, Apply(k, s, step), After(a, EventOf(k, s, step)), Next(k, s, last, step))
  {
    var b, v := s.buffers(last), k.Attempt(s.memory(k.word)).0;
    CurrentFrame(k, b, s.memory, k.word, v, a);
    if k.Attempt(s.memory(k.word)).1 {
      CurrentNext(k, b, s.buffers(t), Set(s.memory, k.word, v), a);
      assert Current(k, s.buffers(t), Set(s.memory, k.word, v), After(a, Acquired(t, s.memory(k.word))));
    }
    hide Current, Settled;
  }

  lemma LeaveGuards(k: Lock, s: State, a: Atomic, last: Thread, t: Thread, i: nat)
    requires k.Valid() && Guards(k, s, a, last) && Enabled(k, s, Leave(t, i))
    ensures Guards(k, Apply(k, s, Leave(t, i)), a, last)
    ensures After(a, EventOf(k, s, Leave(t, i))) == a
  {
    var b := s.buffers(t);
    if t == last {
      CurrentLeave(k, b, i, s.memory, a);
      if a.holder == None {
        SettledLeave(k, b, i);
      }
    } else if b[i].Store? {
      CurrentFrame(k, s.buffers(last), s.memory, b[i].loc, b[i].value, a);
    }
    hide View, Settled, Current;
  }

  lemma InitialGuards(k: Lock, s: State)
    requires Initial(k, s)
    ensures Guards(k, s, Start(k, s), 0) && Promises(k, s, Start(k, s), 0)
  {
  }

  // ---------------------------------------------------------------------------
  // Simulation of pending loads
  // ---------------------------------------------------------------------------

  /** What the pending loads of a buffer would return by now. */
  ghost predicate Promised(k: Lock, b: Buffer, m: Memory, a: Atomic, t: Thread) {
    forall i | 0 <= i < |b| && b[i].Load? && k.guarded(b[i].loc) ::
      View(b[..i], m, b[i].loc) == a.asked(t, b[i].id)
  }

  /** Only a holder has loads of guarded words pending, and they will return what they should. */
  ghost predicate Promises(k: Lock, s: State, a: Atomic, last: Thread) {
    && (forall t: Thread | t != last || a.holder == None :: NoLoads(s.buffers(t), k.guarded))
    && Promised(k, s.buffers(last), s.memory, a, last)
  }

  lemma PromisedEnd(k: Lock, b: Buffer, op: Op, m: Memory, a: Atomic, a': Atomic, t: Thread)
    requires Promised(k, b, m, a, t)
    requires op.Load? && k.guarded(op.loc) ==> a'.asked(t, op.id) == View(b, m, op.loc)
    requires forall i | 0 <= i < |b| && b[i].Load? :: a'.asked(t, b[i].id) == a.asked(t, b[i].id)
    ensures Promised(k, b + [op], m, a', t)
  {
    var c := b + [op];
    forall i | 0 <= i < |c| && c[i].Load? && k.guarded(c[i].loc)
      ensures View(c[..i], m, c[i].loc) == a'.asked(t, c[i].id)
    {
      assert c[..i] == b[..i] && b[..|b|] == b;
      assert i < |b| ==> c[i] == b[i];
    }
  }

  /** Whatever leaves a buffer, the loads behind it and before it still see the same. */
  lemma ViewBefore(b: Buffer, i: nat, m: Memory, j: nat)
    requires CanLeave(b, i) && j < |b| && j != i && b[j].Load?
    ensures View(Drop(b, i)[..if j < i then j else j - 1], Effect(m, b[i]), b[j].loc) == View(b[..j], m, b[j].loc)
  {
    var c := Drop(b, i);
    if j < i {
      assert c[..j] == b[..j];
      if b[i].Store? {
        assert !Waits(b[j], b[i]);
        ViewFrame(b[..j], m, b[i].loc, b[i].value, b[j].loc);
      }
    } else {
      assert c[..j - 1] == Drop(b[..j], i);
      ViewLeave(b[..j], i, m, b[j].loc);
    }
  }

  lemma PromisedLeave(k: Lock, b: Buffer, i: nat, m: Memory, a: Atomic, t: Thread)
    requires Promised(k, b, m, a, t) && CanLeave(b, i)
    ensures Promised(k, Drop(b, i), Effect(m, b[i]), a, t)
  {
    var c := Drop(b, i);
    forall x | 0 <= x < |c| && c[x].Load? && k.guarded(c[x].loc)
      ensures View(c[..x], Effect(m, b[i]), c[x].loc) == a.asked(t, c[x].id)
    {
      ViewBefore(b, i, m, if x < i then x else x + 1);
    }
  }

  lemma PromisedFrame(k: Lock, b: Buffer, m: Memory, l: Loc, v: Value, a: Atomic, t: Thread)
    requires Promised(k, b, m, a, t) && !k.guarded(l)
    ensures Promised(k, b, Set(m, l, v), a, t)
  {
    forall i | 0 <= i < |b| && b[i].Load? && k.guarded(b[i].loc)
      ensures View(b[..i], Set(m, l, v), b[i].loc) == a.asked(t, b[i].id)
    {
      ViewFrame(b[..i], m, l, v, b[i].loc);
    }
  }

  lemma NoLoadsEnd(k: Lock, b: Buffer, op: Op)
    requires NoLoads(b, k.guarded) && (op.Load? ==> !k.guarded(op.loc))
    ensures NoLoads(b + [op], k.guarded)
  {
  }

  /** If the release also waits for loads, every step keeps the promises. */
  lemma StepPromises(k: Lock, s: State, a: Atomic, last: Thread, step: Step)
    requires k.Valid() && k.afterStores && k.afterLoads && Enabled(k, s, step)
    requires Simulates(k, s, a, last) && Guards(k, s, a, last) && Promises(k, s, a, last)
    ensures Legal(a, EventOf(k, s, step), true)
    ensures Promises(k, Apply(k, s, step), After(a, EventOf(k, s, step)), Next(k, s, last, step))
  {
    StepSimulates(k, s, a, last, step);
    var b, a' := s.buffers(last), After(a, EventOf(k, s, step));
    match step
    case Take(t) =>
      PromisedFrame(k, b, s.memory, k.word, k.Attempt(s.memory(k.word)).0, a, last);
    case Write(t, l, v) =>
      PromisedEnd(k, b, Store(l, v), s.memory, a, a', last);
      hide Promised;
    case Read(t, l, id) =>
      PromisedEnd(k, b, Load(l, id), s.memory, a, a', last);
      hide Promised;
    case Unlock(t, v) =>
      NoLoadsEnd(k, b, Barrier);
      NoLoadsEnd(k, b + [Barrier], Store(k.word, v));
      assert b + [Barrier] + [Store(k.word, v)] == b + Release(k, v);
    case Other(t, op) =>
      PromisedEnd(k, b, op, s.memory, a, a, last);
      hide Promised;
    case Leave(t, i) =>
      LeavePromises(k, s, a, last, t, i);
  }

  lemma LeavePromises(k: Lock, s: State, a: Atomic, last: Thread, t: Thread, i: nat)
    requires k.Valid() && Guards(k, s, a, last) && Promises(k, s, a, last) && Enabled(k, s, Leave(t, i))
    ensures Legal(a, EventOf(k, s, Leave(t, i)), true)
    ensures Promises(k, Apply(k, s, Leave(t, i)), After(a, EventOf(k, s, Leave(t, i))), last)
  {
    var b := s.buffers(t);
    if t == last {
      PromisedLeave(k, b, i, s.memory, a, last);
    } else if b[i].Store? {
      PromisedFrame(k, s.buffers(last), s.memory, b[i].loc, b[i].value, a, last);
    }
    assert After(a, EventOf(k, s, Leave(t, i))) == a;
    hide View, Guards;
  }

  lemma {:induction false} RunIsLegal(k: Lock, s: State, a: Atomic, last: Thread, steps: seq<Step>)
    requires k.Valid() && k.afterStores && k.afterLoads
    requires Simulates(k, s, a, last) && Guards(k, s, a, last) && Promises(k, s, a, last)
    ensures LegalRun(k, s, a, steps, true)
    decreases |steps|
  {
    hide Simulates, Guards, Promises, Apply, EventOf, Legal, After;
    if steps != [] && Enabled(k, s, steps[0]) {
      StepSimulates(k, s, a, last, steps[0]);
      StepGuards(k, s, a, last, steps[0]);
      StepPromises(k, s, a, last, steps[0]);
      var s', a' := Apply(k, s, steps[0]), After(a, EventOf(k, s, steps[0]));
      RunIsLegal(k, s', a', Next(k, s, last, steps[0]), steps[1..]);
    }
  }

  lemma FencedIsCorrect(k: Lock)
    requires k.Valid() && k.afterStores && k.afterLoads
    ensures Correct(k)
  {
    forall s: State, steps: seq<Step> | Initial(k, s)
      ensures LegalRun(k, s, Start(k, s), steps, true)
    {
      InitialSimulates(k, s);
      InitialGuards(k, s);
      RunIsLegal(k, s, Start(k, s), 0, steps);
    }
  }

  // ---------------------------------------------------------------------------
  // The lock word itself
  // ---------------------------------------------------------------------------

  /** A run from one state of the two machines to another. */
  ghost predicate Reaches(k: Lock, s: State, a: Atomic, steps: seq<Step>, s': State, a': Atomic)
    decreases |steps|
  {
    if steps == [] then s' == s && a' == a
    else
      Enabled(k, s, steps[0]) &&
      Reaches(k, Apply(k, s, steps[0]), After(a, EventOf(k, s, steps[0])), steps[1..], s', a')
  }

  /** A thread holds the lock, or has released it and the release is not visible yet. */
  ghost predicate Occupies(k: Lock, s: State, t: Thread) {
    s.holding(t) != None || !NoStore(s.buffers(t), k.word)
  }

  /** One occupant at most, and the lock word says whether there is one. */
  ghost predicate WordTells(k: Lock, s: State) {
    && (forall t: Thread, t': Thread | Occupies(k, s, t) && Occupies(k, s, t') :: t == t')
    && var occupied := exists t: Thread :: Occupies(k, s, t);
      match k.kind
      case Closure(whitehole) => s.memory(k.word) == whitehole <==> occupied
      case Spin => s.memory(k.word) == if occupied then 0 else 1
  }

  lemma {:induction false} RunSimulates(k: Lock, s: State, a: Atomic, last: Thread, steps: seq<Step>,
                                        s': State, a': Atomic)
    returns (last': Thread)
    requires k.Valid() && Simulates(k, s, a, last) && Reaches(k, s, a, steps, s', a')
    ensures Simulates(k, s', a', last')
    ensures k.afterStores && Guards(k, s, a, last) ==> Guards(k, s', a', last')
    decreases |steps|
  {
    hide Simulates, Guards, Apply, EventOf, Legal, After;
    if steps == [] {
      last' := last;
    } else {
      StepSimulates(k, s, a, last, steps[0]);
      if k.afterStores && Guards(k, s, a, last) {
        StepGuards(k, s, a, last, steps[0]);
      }
      var m, n := Apply(k, s, steps[0]), After(a, EventOf(k, s, steps[0]));
      last' := RunSimulates(k, m, n, Next(k, s, last, steps[0]), steps[1..], s', a');
    }
  }

  /**
   * In every reachable state at most one thread occupies the lock, and the lock word is WHITEHOLE
   * (0 for a spin lock, which otherwise is 1) exactly when one does; this takes no barrier.
   */
  lemma WordTellsAlways(k: Lock, s: State, steps: seq<Step>, s': State, a': Atomic)
    requires k.Valid() && Initial(k, s) && Reaches(k, s, Start(k, s), steps, s', a')
    ensures WordTells(k, s')
  {
    hide Reaches;
    InitialSimulates(k, s);
    var last := RunSimulates(k, s, Start(k, s), 0, steps, s', a');
    assert a'.holder != None || !NoStore(s'.buffers(last), k.word) ==> Occupies(k, s', last);
  }

  /** A holder may store any info pointer but WHITEHOLE; a spin lock is only ever set to 1. */
  lemma MayUnlock(k: Lock, s: State, t: Thread, v: Value)
    requires s.holding(t) != None && NoLoads(s.buffers(t), k.guarded)
    ensures Enabled(k, s, Unlock(t, v)) <==> match k.kind case Closure(whitehole) => v != whitehole case Spin => v == 1
  {
  }

  /** What an attempt on the lock would give in a state. */
  ghost predicate Fails(k: Lock, s: State, t: Thread) {
    EventOf(k, s, Take(t)) == Failed(t)
  }

  /**
   * In every reachable state an attempt fails exactly when the lock is occupied; otherwise it takes the
   * lock, and returns the content of the word.
   */
  lemma FailsIffOccupied(k: Lock, s: State, steps: seq<Step>, s': State, a': Atomic, t: Thread)
    requires k.Valid() && Initial(k, s) && Reaches(k, s, Start(k, s), steps, s', a') && Enabled(k, s', Take(t))
    ensures Fails(k, s', t) <==> exists u: Thread :: Occupies(k, s', u)
    ensures !Fails(k, s', t) ==> EventOf(k, s', Take(t)) == Acquired(t, s'.memory(k.word))
    ensures !Fails(k, s', t) ==> Apply(k, s', Take(t)).holding(t) == Some(s'.memory(k.word))
  {
    WordTellsAlways(k, s, steps, s', a');
    InitialSimulates(k, s);
    var last := RunSimulates(k, s, Start(k, s), 0, steps, s', a');
    hide Reaches, Initial;
    if a'.holder == None && NoStore(s'.buffers(last), k.word) {
      assert k.MayStore(s'.memory(k.word));
    } else {
      assert s'.memory(k.word) == k.Busy();
    }
  }

  /** In every reachable state, a load that a holder executes at once returns what was written last. */
  ghost predicate HandsOver(k: Lock) {
    forall s: State, steps: seq<Step>, s': State, a': Atomic, t: Thread, l: Loc ::
      Initial(k, s) && Reaches(k, s, Start(k, s), steps, s', a') && s'.holding(t) != None && k.guarded(l) ==>
        View(s'.buffers(t), s'.memory, l) == a'.memory(l)
  }

  lemma StoresHandOver(k: Lock)
    requires k.Valid() && k.afterStores
    ensures HandsOver(k)
  {
    hide View;
    forall s: State, steps: seq<Step>, s': State, a': Atomic, t: Thread, l: Loc
      | Initial(k, s) && Reaches(k, s, Start(k, s), steps, s', a') && s'.holding(t) != None && k.guarded(l)
      ensures View(s'.buffers(t), s'.memory, l) == a'.memory(l)
    {
      InitialSimulates(k, s);
      InitialGuards(k, s);
      var last := RunSimulates(k, s, Start(k, s), 0, steps, s', a');
    }
  }

  // ---------------------------------------------------------------------------
  // Both halves of the barrier are needed
  // ---------------------------------------------------------------------------

  ghost predicate CanReach(k: Lock, s: State, s': State, a': Atomic) {
    exists steps: seq<Step> :: Reaches(k, s, Start(k, s), steps, s', a')
  }

  lemma {:induction false} ReachesThen(k: Lock, s: State, a: Atomic, steps: seq<Step>, s': State, a': Atomic,
                                       step: Step)
    requires Reaches(k, s, a, steps, s', a') && Enabled(k, s', step)
    ensures Reaches(k, s, a, steps + [step], Apply(k, s', step), After(a', EventOf(k, s', step)))
    ensures !Legal(a', EventOf(k, s', step), true) ==> !LegalRun(k, s, a, steps + [step], true)
    decreases |steps|
  {
    hide Apply, After, EventOf, Legal;
    if steps == [] {
      assert [step][1..] == [] && steps + [step] == [step];
    } else {
      assert (steps + [step])[0] == steps[0] && (steps + [step])[1..] == steps[1..] + [step];
      ReachesThen(k, Apply(k, s, steps[0]), After(a, EventOf(k, s, steps[0])), steps[1..], s', a', step);
    }
  }

  lemma Then(k: Lock, s: State, s': State, a': Atomic, step: Step)
    requires CanReach(k, s, s', a') && Enabled(k, s', step)
    ensures CanReach(k, s, Apply(k, s', step), After(a', EventOf(k, s', step)))
  {
    hide Enabled, Apply, After, EventOf, Legal, Reaches;
    var steps: seq<Step> :| Reaches(k, s, Start(k, s), steps, s', a');
    ReachesThen(k, s, Start(k, s), steps, s', a', step);
  }

  lemma IllegalAfter(k: Lock, s: State, s': State, a': Atomic, step: Step)
    requires Initial(k, s) && CanReach(k, s, s', a') && Enabled(k, s', step) && !Legal(a', EventOf(k, s', step), true)
    ensures !Correct(k)
  {
    hide Enabled, Apply, After, EventOf, Legal, Reaches, LegalRun;
    var steps: seq<Step> :| Reaches(k, s, Start(k, s), steps, s', a');
    ReachesThen(k, s, Start(k, s), steps, s', a', step);
  }

  /** A value that leaves the lock free. */
  function Free(k: Lock): Value {
    if k.kind.Closure? then k.kind.whitehole + 1 else 1
  }

  /** Every word, the lock's included, holds that value. */
  function Uniform(k: Lock): State {
    State((x: Loc) => Free(k), (t: Thread) => [], (t: Thread) => None)
  }

  lemma Here(k: Lock)
    ensures Initial(k, Uniform(k)) && CanReach(k, Uniform(k), Uniform(k), Start(k, Uniform(k)))
  {
    assert Reaches(k, Uniform(k), Start(k, Uniform(k)), [], Uniform(k), Start(k, Uniform(k)));
  }

  /** One more step of a run from there. */
  lemma Do(k: Lock, s: State, a: Atomic, step: Step) returns (s': State, a': Atomic)
    requires CanReach(k, Uniform(k), s, a) && Enabled(k, s, step)
    ensures s' == Apply(k, s, step) && a' == After(a, EventOf(k, s, step)) && CanReach(k, Uniform(k), s', a')
  {
    hide CanReach;
    Then(k, Uniform(k), s, a, step);
    s', a' := Apply(k, s, step), After(a, EventOf(k, s, step));
  }

  /** Thread 0 takes the lock, does `step` and unlocks. */
  lemma HoldOnce(k: Lock, step: Step, op: Op) returns (s: State, a: Atomic)
    requires k.Valid() && step.t == 0 && (op.Store? || op.Load?) && k.guarded(op.loc) && !(op.Load? && k.afterLoads)
    requires step == if op.Store? then Write(0, op.loc, op.value) else Read(0, op.loc, op.id)
    ensures CanReach(k, Uniform(k), s, a) && s.memory(op.loc) == Free(k)
    ensures s.buffers(0) == [op] + Release(k, Free(k)) && s.buffers(1) == [] && s.holding(1) == None
    ensures a.memory(op.loc) == if op.Store? then op.value else Free(k)
    ensures op.Load? ==> a.asked(0, op.id) == Free(k)
  {
    Here(k);
    hide CanReach;
    s, a := Do(k, Uniform(k), Start(k, Uniform(k)), Take(0));
    s, a := Do(k, s, a, step);
    assert s.buffers(0) == [op];
    s, a := Do(k, s, a, Unlock(0, Free(k)));
  }

  /** The release becomes visible before the operation `op` of its thread takes effect, and thread 1 takes the lock. */
  lemma Overtake(k: Lock, op: Op, s: State, a: Atomic) returns (s': State, a': Atomic)
    requires k.Valid() && (op.Store? || op.Load?) && k.guarded(op.loc) && (op.Store? ==> !k.afterStores)
    requires CanReach(k, Uniform(k), s, a) && s.memory(op.loc) == Free(k)
    requires s.buffers(0) == [op] + Release(k, Free(k)) && s.buffers(1) == [] && s.holding(1) == None
    ensures CanReach(k, Uniform(k), s', a') && s'.memory(op.loc) == Free(k)
    ensures s'.buffers(0) == [op] && s'.buffers(1) == [] && s'.holding(1) != None
    ensures a'.memory == a.memory && a'.asked == a.asked
  {
    hide CanReach;
    s', a' := s, a;
    if k.afterStores {
      s', a' := Do(k, s', a', Leave(0, 1));
    }
    assert s'.buffers(0) == [op, Store(k.word, Free(k))];
    s', a' := Do(k, s', a', Leave(0, 1));
    s', a' := Do(k, s', a', Take(1));
  }

  lemma StaleRead(k: Lock, l: Loc, s: State, a: Atomic)
    requires k.guarded(l) && CanReach(k, Uniform(k), s, a)
    requires s.buffers(1) == [] && s.holding(1) != None && s.memory(l) != a.memory(l)
    ensures !Correct(k)
  {
    hide CanReach, Correct;
    var s', a' := Do(k, s, a, Read(1, l, 0));
    Here(k);
    IllegalAfter(k, Uniform(k), s', a', Leave(1, 0));
  }

  lemma LateRead(k: Lock, l: Loc, s: State, a: Atomic)
    requires k.guarded(l) && CanReach(k, Uniform(k), s, a) && s.buffers(0) == [Load(l, 0)]
    requires s.buffers(1) == [] && s.holding(1) != None
    ensures !Correct(k)
  {
    hide CanReach, Correct;
    var s', a' := Do(k, s, a, Write(1, l, a.asked(0, 0) + 1));
    s', a' := Do(k, s', a', Leave(1, 0));
    Here(k);
    IllegalAfter(k, Uniform(k), s', a', Leave(0, 0));
  }

  /** If the release may pass earlier stores, the next holder reads an old value. */
  lemma StoresNeeded(k: Lock, l: Loc)
    requires k.Valid() && !k.afterStores && k.guarded(l)
    ensures !HandsOver(k) && !Correct(k)
  {
    hide CanReach, Correct, HandsOver;
    var op := Store(l, Free(k) + 1);
    var s, a := HoldOnce(k, Write(0, l, Free(k) + 1), op);
    s, a := Overtake(k, op, s, a);
    Here(k);
    NotHandedOver(k, s, a, 1, l);
    StaleRead(k, l, s, a);
  }

  lemma NotHandedOver(k: Lock, s: State, a: Atomic, t: Thread, l: Loc)
    requires CanReach(k, Uniform(k), s, a) && Initial(k, Uniform(k)) && s.holding(t) != None && k.guarded(l)
    requires View(s.buffers(t), s.memory, l) != a.memory(l)
    ensures !HandsOver(k)
  {
    hide Reaches, Initial;
  }

  /** If it may pass earlier loads, a holder reads a value that was written after it unlocked. */
  lemma LoadsNeeded(k: Lock, l: Loc)
    requires k.Valid() && !k.afterLoads && k.guarded(l)
    ensures !Correct(k)
  {
    hide CanReach, Correct;
    var op := Load(l, 0);
    var s, a := HoldOnce(k, Read(0, l, 0), op);
    s, a := Overtake(k, op, s, a);
    LateRead(k, l, s, a);
  }

  /**
   * Threads that follow the protocol cannot tell the lock from an atomic one over a single
   * memory, under every interleaving and every order in which operations take effect, exactly
   * when the release waits for all stores and loads of the holder.
   */
  lemma CorrectIffFenced(k: Lock, l: Loc)
    requires k.Valid() && k.guarded(l)
    ensures HandsOver(k) <==> k.afterStores
    ensures Correct(k) <==> k.afterStores && k.afterLoads
  {
    hide Correct, HandsOver;
    if k.afterStores {
      StoresHandOver(k);
    }
    if !k.afterStores {
      StoresNeeded(k, l);
    } else if !k.afterLoads {
      LoadsNeeded(k, l);
    } else {
      FencedIsCorrect(k);
    }
  }

  // ---------------------------------------------------------------------------
  // The processors of SMP.h
  // ---------------------------------------------------------------------------

  datatype Processor = X86 | PowerPc | SparcTso | Arm

  /**
   * What `write_barrier` is made of: nothing where the processor keeps a store behind all earlier stores
   * and loads, `lwsync`, which orders both, and `dmb st`, which orders stores only.
   */
  function OnProcessor(p: Processor, kind: Kind, word: Loc, guarded: Loc -> bool): Lock {
    Lock(kind, word, guarded, true, p != Arm)
  }

  lemma CorrectExceptOnArm(p: Processor, kind: Kind, word: Loc, guarded: Loc -> bool, l: Loc)
    requires !guarded(word) && guarded(l)
    ensures Excludes(OnProcessor(p, kind, word, guarded)) && HandsOver(OnProcessor(p, kind, word, guarded))
    ensures Correct(OnProcessor(p, kind, word, guarded)) <==> p != Arm
  {
    hide Excludes, HandsOver, Correct;
    ExcludesAlways(OnProcessor(p, kind, word, guarded));
    CorrectIffFenced(OnProcessor(p, kind, word, guarded), l);
  }
}
