/**
 * Publishing an indirection: `updateWithIndirection` of ghc-toolkit/boot-libs/rts/Updates.h
 * against the reader protocol of Note [Heap memory barriers] in SMP.h, over every interleaving
 * and every order in which stores may become visible.
 */
module Publication {
  import opened WeakMemory

  const INFO: nat := 0
  const INDIRECTEE: nat := 1

  /**
   * One update. `build` are the stores that made `p2`; `blackhole` is the address of the
   * BLACKHOLE info table; the last three flags say which of the barriers are there.
   */
  datatype Setup = Setup(
    initial: Memory, p1: nat, p2: nat, blackhole: Value, build: seq<(nat, Value)>, updater: Thread,
    firstWriteBarrier: bool, secondWriteBarrier: bool, readBarrier: bool)
  {
    function Info(): Loc { Loc(p1, INFO) }

    function Indirectee(): Loc { Loc(p1, INDIRECTEE) }

    /** `p1` was a black hole before the update. */
    predicate WasBlackholed() { initial(Info()) == blackhole }

    ghost predicate IsBuilt(l: Loc) {
      exists i :: 0 <= i < |build| && l == Loc(p2, build[i].0)
    }

    ghost predicate Protected(l: Loc) { l == Info() || l == Indirectee() || IsBuilt(l) }

    /** `p2` is another closure, and not yet what `p1` refers to. */
    ghost predicate Valid() {
      p1 != p2 && initial(Indirectee()) != p2
    }

    function BuildOps(n: nat): Buffer
      requires n <= |build|
    {
      if n == 0 then [] else BuildOps(n - 1) + [Store(Loc(p2, build[n - 1].0), build[n - 1].1)]
    }

    /** The stores and barriers of the updater in program order. */
    function Program(): Buffer {
      BuildOps(|build|)
      + (if firstWriteBarrier then [Barrier] else [])
      + [Store(Indirectee(), p2)]
      + (if secondWriteBarrier then [Barrier] else [])
      + [Store(Info(), blackhole)]
    }
  }

  /** The two loads of an observer, as far as they have been executed. */
  datatype Observer = Observer(info: Option<Value>, indirectee: Option<Value>)

  datatype State = State(
    memory: Memory, buffers: Thread -> Buffer, issued: nat, observers: Thread -> Observer)

  datatype Step =
    | Issue
    | Other(t: Thread, op: Op)
    | Leave(t: Thread, i: nat)
    | LoadInfo(t: Thread)
    | LoadIndirectee(t: Thread)

  function Init(u: Setup): State {
    State(u.initial, (t: Thread) => [], 0, (t: Thread) => Observer(None, None))
  }

  ghost predicate Enabled(u: Setup, s: State, step: Step) {
    match step
    // The updater goes on in program order.
    case Issue => s.issued < |u.Program()|
    // Anybody may do anything to other words at any time.
    case Other(t, op) => op.Store? ==> !u.Protected(op.loc)
    case Leave(t, i) => CanLeave(s.buffers(t), i)
    // Every other processor may observe; only a read barrier keeps the loads in order.
    case LoadInfo(t) => t != u.updater && s.observers(t).info == None
    case LoadIndirectee(t) =>
      t != u.updater && s.observers(t).indirectee == None && (u.readBarrier ==> s.observers(t).info != None)
  }

  function Apply(u: Setup, s: State, step: Step): State
    requires step.Issue? ==> s.issued < |u.Program()|
    requires step.Leave? ==> CanLeave(s.buffers(step.t), step.i)
  {
    match step
    case Issue =>
      var b := s.buffers(u.updater) + [u.Program()[s.issued]];
      s.(buffers := SetAt(s.buffers, u.updater, b), issued := s.issued + 1)
    case Other(t, op) => s.(buffers := SetAt(s.buffers, t, s.buffers(t) + [op]))
    case Leave(t, i) =>
      s.(memory := Effect(s.memory, s.buffers(t)[i]), buffers := SetAt(s.buffers, t, Drop(s.buffers(t), i)))
    case LoadInfo(t) =>
      var info := Some(View(s.buffers(t), s.memory, u.Info()));
      s.(observers := SetAt(s.observers, t, s.observers(t).(info := info)))
    case LoadIndirectee(t) =>
      var indirectee := Some(View(s.buffers(t), s.memory, u.Indirectee()));
      s.(observers := SetAt(s.observers, t, s.observers(t).(indirectee := indirectee)))
  }

  /** The states that some interleaving reaches. */
  ghost predicate Reaches(u: Setup, s: State, steps: seq<Step>, s': State)
    decreases |steps|
  {
    if steps == [] then s' == s
    else Enabled(u, s, steps[0]) && Reaches(u, Apply(u, s, steps[0]), steps[1..], s')
  }

  /** The processor `t` reads all of `p2` as it was built. */
  ghost predicate SeesBuilt(u: Setup, s: State, t: Thread) {
    forall l | u.IsBuilt(l) :: View(s.buffers(t), s.memory, l) == View(u.BuildOps(|u.build|), u.initial, l)
  }

  /**
   * An observer that found `p1` to be a black hole has read `p2` and sees it built; if `p1`
   * already was one, it may instead have read the owner that was there before.
   */
  ghost predicate Safe(u: Setup, s: State) {
    forall t | t != u.updater && s.observers(t).info == Some(u.blackhole) && s.observers(t).indirectee != None ::
      var w := s.observers(t).indirectee.value;
      || (w == u.p2 && SeesBuilt(u, s, t))
      || (u.WasBlackholed() && w == u.initial(u.Indirectee()))
  }

  ghost predicate AlwaysSafe(u: Setup) {
    forall steps: seq<Step>, s: State :: Reaches(u, Init(u), steps, s) ==> Safe(u, s)
  }

  // ---------------------------------------------------------------------------
  // The invariant
  // ---------------------------------------------------------------------------

  /** What the updater has pending and still to issue. */
  function Ahead(u: Setup, s: State): Buffer {
    s.buffers(u.updater) + (if s.issued <= |u.Program()| then u.Program()[s.issued..] else [])
  }

  /** Nobody but the updater touches the protected words, and for it nothing is lost. */
  ghost predicate Confined(u: Setup, s: State) {
    && s.issued <= |u.Program()|
    && (forall t, i | t != u.updater && 0 <= i < |s.buffers(t)| && s.buffers(t)[i].Store? ::
          !u.Protected(s.buffers(t)[i].loc))
    && (forall l | u.Protected(l) :: View(Ahead(u, s), s.memory, l) == View(u.Program(), u.initial, l))
  }

  /**
   * The word `late` holds its old value or `v`, and `v` only when no store to an early word
   * is pending any more.
   */
  ghost predicate Gated(u: Setup, s: State, early: Loc -> bool, late: Loc, v: Value) {
    && Fenced(Ahead(u, s), early, late)
    && OnlyStores(Ahead(u, s), late, v)
    && (s.memory(late) == u.initial(late) || (s.memory(late) == v && NoEarly(Ahead(u, s), early)))
  }

  lemma AheadOfIssue(u: Setup, s: State)
    requires s.issued < |u.Program()|
    ensures Ahead(u, Apply(u, s, Issue)) == Ahead(u, s)
  {
    hide Setup.Program;
    var p, n := u.Program(), s.issued;
    assert p[n..] == [p[n]] + p[n + 1..];
  }

  lemma AheadOfDrop(u: Setup, s: State, i: nat, s': State)
    requires s.issued <= |u.Program()| && i < |s.buffers(u.updater)|
    requires s'.buffers(u.updater) == Drop(s.buffers(u.updater), i) && s'.issued == s.issued
    ensures Ahead(u, s') == Drop(Ahead(u, s), i)
  {
    hide Setup.Program;
  }

  /** What a step leaves of the pending operations: the same, one inserted, or one removed. */
  lemma AheadKept(u: Setup, s: State, step: Step)
    requires Confined(u, s) && Enabled(u, s, step)
    ensures var s', a, b := Apply(u, s, step), Ahead(u, s), s.buffers(u.updater);
      var rest := u.Program()[s.issued..];
      && s'.issued <= |u.Program()|
      && (step.Other? && step.t == u.updater ==> Ahead(u, s') == b + [step.op] + rest)
      && (step.Leave? && step.t == u.updater ==>
            CanLeave(a, step.i) && a[step.i] == b[step.i] && Ahead(u, s') == Drop(a, step.i))
      && (step.Issue? || step.LoadInfo? || step.LoadIndirectee? || step.t != u.updater ==> Ahead(u, s') == a)
  {
    hide Setup.Program, Setup.Protected, View;
    var b := s.buffers(u.updater);
    assert forall j | 0 <= j < |b| :: Ahead(u, s)[j] == b[j];
    match step
    case Issue =>
      AheadOfIssue(u, s);
    case Other(t, op) =>
    case Leave(t, i) =>
      if t == u.updater {
        AheadOfDrop(u, s, i, Apply(u, s, step));
      }
    case LoadInfo(t) =>
    case LoadIndirectee(t) =>
  }

  /** A step keeps the updater's view of the protected words. */
  lemma ViewKept(u: Setup, s: State, step: Step, l: Loc)
    requires Confined(u, s) && Enabled(u, s, step) && u.Protected(l)
    ensures var s' := Apply(u, s, step);
      s'.issued <= |u.Program()| && View(Ahead(u, s'), s'.memory, l) == View(Ahead(u, s), s.memory, l)
  {
    AheadKept(u, s, step);
    hide Setup.Program, Setup.Protected, View, Ahead;
    if step.Other? && step.t == u.updater {
      assert s.buffers(u.updater) + u.Program()[s.issued..] == Ahead(u, s) by { AheadIs(u, s); }
      ViewInsert(s.buffers(u.updater), step.op, u.Program()[s.issued..], s.memory, l);
    } else if step.Leave? && step.t == u.updater {
      ViewLeave(Ahead(u, s), step.i, s.memory, l);
    } else if step.Leave? && s.buffers(step.t)[step.i].Store? {
      var op := s.buffers(step.t)[step.i];
      ViewFrame(Ahead(u, s), s.memory, op.loc, op.value, l);
    }
  }

  lemma AheadIs(u: Setup, s: State)
    requires s.issued <= |u.Program()|
    ensures Ahead(u, s) == s.buffers(u.updater) + u.Program()[s.issued..]
  {
  }

  lemma ConfinedKept(u: Setup, s: State, step: Step)
    requires Confined(u, s) && Enabled(u, s, step)
    ensures Confined(u, Apply(u, s, step))
  {
    AheadKept(u, s, step);
    hide Setup.Program, Setup.Protected, View, Ahead;
    var s' := Apply(u, s, step);
    forall l | u.Protected(l)
      ensures View(Ahead(u, s'), s'.memory, l) == View(u.Program(), u.initial, l)
    {
      ViewKept(u, s, step, l);
    }
  }

  /** `early` and `late` are among the protected words. */
  ghost predicate Watches(u: Setup, early: Loc -> bool, late: Loc) {
    u.Protected(late) && forall l | early(l) :: u.Protected(l)
  }

  lemma NoEarlyKept(u: Setup, s: State, step: Step, early: Loc -> bool, late: Loc)
    requires Watches(u, early, late) && Enabled(u, s, step) && Confined(u, s)
    requires NoEarly(Ahead(u, s), early)
    ensures Apply(u, s, step).issued <= |u.Program()| && NoEarly(Ahead(u, Apply(u, s, step)), early)
  {
    AheadKept(u, s, step);
    AheadIs(u, s);
    hide Setup.Program, Setup.Protected, View, Ahead;
    if step.Other? && step.t == u.updater {
      NoEarlyInsert(s.buffers(u.updater), step.op, u.Program()[s.issued..], early);
    }
  }

  /** The pending operations stay fenced, and only the new value is stored to `late`. */
  lemma FenceKept(u: Setup, s: State, step: Step, early: Loc -> bool, late: Loc, v: Value)
    requires Watches(u, early, late) && Enabled(u, s, step) && Confined(u, s)
    requires Fenced(Ahead(u, s), early, late) && OnlyStores(Ahead(u, s), late, v)
    ensures var s' := Apply(u, s, step);
      s'.issued <= |u.Program()| && Fenced(Ahead(u, s'), early, late) && OnlyStores(Ahead(u, s'), late, v)
  {
    AheadKept(u, s, step);
    AheadIs(u, s);
    hide Setup.Program, Setup.Protected, View, Ahead, Fenced;
    if step.Other? && step.t == u.updater {
      FencedInsert(s.buffers(u.updater), step.op, u.Program()[s.issued..], early, late);
      OnlyStoresInsert(s.buffers(u.updater), step.op, u.Program()[s.issued..], late, v);
    } else if step.Leave? && step.t == u.updater {
      FencedDrop(Ahead(u, s), step.i, early, late);
    }
  }

  lemma GatedKept(u: Setup, s: State, step: Step, early: Loc -> bool, late: Loc, v: Value)
    requires Watches(u, early, late) && Enabled(u, s, step) && Confined(u, s)
    requires Gated(u, s, early, late, v)
    ensures Confined(u, Apply(u, s, step)) && Gated(u, Apply(u, s, step), early, late, v)
  {
    ConfinedKept(u, s, step);
    FenceKept(u, s, step, early, late, v);
    AheadKept(u, s, step);
    AheadIs(u, s);
    if NoEarly(Ahead(u, s), early) {
      NoEarlyKept(u, s, step, early, late);
    } else if step.Leave? && step.t == u.updater && StoresTo(s.buffers(u.updater)[step.i], late) {
      LateDrains(s.buffers(u.updater), u.Program()[s.issued..], step.i, early, late);
    }
    hide Setup.Program, Setup.Protected, NoEarly, Fenced, View, Ahead, Confined;
    assert step.Leave? && step.t != u.updater ==> !StoresTo(s.buffers(step.t)[step.i], late) by {
      OthersElsewhere(u, s, late);
    }
  }

  lemma OthersElsewhere(u: Setup, s: State, l: Loc)
    requires Confined(u, s) && u.Protected(l)
    ensures forall t, i | t != u.updater && 0 <= i < |s.buffers(t)| && s.buffers(t)[i].Store? ::
      s.buffers(t)[i].loc != l
  {
    hide Setup.Program, Setup.Protected, View, Ahead;
  }

  /** What an observer reads of a protected word without pending early stores is its final value. */
  lemma ReadsFinal(u: Setup, s: State, t: Thread, early: Loc -> bool, l: Loc)
    requires Confined(u, s) && t != u.updater && u.Protected(l) && early(l) && NoEarly(Ahead(u, s), early)
    ensures View(s.buffers(t), s.memory, l) == View(u.Program(), u.initial, l)
  {
    hide Setup.Program, Setup.Protected;
    ViewOfMemory(Ahead(u, s), s.memory, l);
    ReadsMemory(u, s, t, l);
  }

  lemma ReadsMemory(u: Setup, s: State, t: Thread, l: Loc)
    requires Confined(u, s) && t != u.updater && u.Protected(l)
    ensures View(s.buffers(t), s.memory, l) == s.memory(l)
  {
    hide Setup.Program, Setup.Protected;
    ViewOfMemory(s.buffers(t), s.memory, l);
  }

  // ---------------------------------------------------------------------------
  // The program of the updater
  // ---------------------------------------------------------------------------

  lemma {:induction false} BuildShape(u: Setup, n: nat)
    requires n <= |u.build|
    ensures |u.BuildOps(n)| == n
    ensures forall i | 0 <= i < n :: u.BuildOps(n)[i] == Store(Loc(u.p2, u.build[i].0), u.build[i].1)
  {
    if n > 0 {
      BuildShape(u, n - 1);
    }
  }

  /** Operations behind the build stores, none of them on `l`. */
  lemma ViewBefore(b: Buffer, c: Buffer, m: Memory, l: Loc)
    requires NoStore(c, l)
    ensures View(b + c, m, l) == View(b, m, l)
    decreases |c|
  {
    if c == [] {
      assert b + c == b;
    } else {
      var d := c[..|c| - 1];
      assert (b + c)[..|b + c| - 1] == b + d;
      ViewBefore(b, d, m, l);
    }
  }

  /** The stores behind the build: barriers and the two words of `p1`. */
  function Suffix(u: Setup): Buffer {
    (if u.firstWriteBarrier then [Barrier] else [])
    + [Store(u.Indirectee(), u.p2)]
    + (if u.secondWriteBarrier then [Barrier] else [])
    + [Store(u.Info(), u.blackhole)]
  }

  lemma ProgramIs(u: Setup)
    ensures u.Program() == u.BuildOps(|u.build|) + Suffix(u)
  {
  }

  lemma FinalValues(u: Setup)
    requires u.p1 != u.p2
    ensures View(u.Program(), u.initial, u.Indirectee()) == u.p2
    ensures forall l | u.IsBuilt(l) :: View(u.Program(), u.initial, l) == View(u.BuildOps(|u.build|), u.initial, l)
  {
    hide Setup.BuildOps;
    ProgramIs(u);
    hide Setup.Program;
    var b := u.BuildOps(|u.build|);
    forall l | u.IsBuilt(l)
      ensures View(u.Program(), u.initial, l) == View(b, u.initial, l)
    {
      ViewBefore(b, Suffix(u), u.initial, l);
    }
    var upTo := b + (if u.firstWriteBarrier then [Barrier] else []) + [Store(u.Indirectee(), u.p2)];
    var rest := (if u.secondWriteBarrier then [Barrier] else []) + [Store(u.Info(), u.blackhole)];
    assert u.Program() == upTo + rest;
    ViewBefore(upTo, rest, u.initial, u.Indirectee());
  }

  /** Where each operation of the program stands. */
  lemma ProgramShape(u: Setup)
    ensures var p, n, f := u.Program(), |u.build|, if u.firstWriteBarrier then 1 else 0;
      var g := n + f + 1 + if u.secondWriteBarrier then 1 else 0;
      && |p| == g + 1
      && (forall i | 0 <= i < n :: p[i] == Store(Loc(u.p2, u.build[i].0), u.build[i].1))
      && (u.firstWriteBarrier ==> p[n] == Barrier)
      && p[n + f] == Store(u.Indirectee(), u.p2)
      && (u.secondWriteBarrier ==> p[n + f + 1] == Barrier)
      && p[g] == Store(u.Info(), u.blackhole)
  {
    BuildShape(u, |u.build|);
    ProgramIs(u);
    hide Setup.Program, Setup.BuildOps;
    var b, c := u.BuildOps(|u.build|), Suffix(u);
    assert forall i | 0 <= i < |c| :: (b + c)[|b| + i] == c[i];
  }

  // ---------------------------------------------------------------------------
  // Safety
  // ---------------------------------------------------------------------------

  /** Everything an observer reads after the info pointer. */
  ghost function AllButInfo(u: Setup): Loc -> bool {
    l => l == u.Indirectee() || u.IsBuilt(l)
  }

  ghost function OnlyBuilt(u: Setup): Loc -> bool {
    l => u.IsBuilt(l)
  }

  /** For a `p1` that was no black hole: who has seen the new info pointer will only read final values. */
  ghost predicate InfoInvariant(u: Setup, s: State) {
    && Confined(u, s) && Gated(u, s, AllButInfo(u), u.Info(), u.blackhole)
    && forall t | t != u.updater :: var o := s.observers(t);
         && (o.indirectee != None ==> o.info != None)
         && (o.info == Some(u.blackhole) ==>
               NoEarly(Ahead(u, s), AllButInfo(u)) && (o.indirectee == None || o.indirectee == Some(u.p2)))
  }

  /** For any `p1`: who has read `p2` from it will find it built. */
  ghost predicate IndirecteeInvariant(u: Setup, s: State) {
    && Confined(u, s) && Gated(u, s, OnlyBuilt(u), u.Indirectee(), u.p2)
    && forall t | t != u.updater && s.observers(t).indirectee != None :: var w := s.observers(t).indirectee.value;
         w == u.initial(u.Indirectee()) || (w == u.p2 && NoEarly(Ahead(u, s), OnlyBuilt(u)))
  }

  lemma StartConfined(u: Setup)
    ensures Confined(u, Init(u)) && Ahead(u, Init(u)) == u.Program()
  {
    hide Setup.Program;
    assert [] + u.Program()[0..] == u.Program();
  }

  lemma InfoStart(u: Setup)
    requires u.p1 != u.p2 && !u.WasBlackholed() && u.secondWriteBarrier
    ensures InfoInvariant(u, Init(u))
  {
    StartConfined(u);
    ProgramShape(u);
    hide Setup.Program, Confined, Ahead;
    var p, n := u.Program(), |u.build| + if u.firstWriteBarrier then 1 else 0;
    assert Fenced(p, AllButInfo(u), u.Info()) by {
      assert p[n + 1] == Barrier;
    }
  }

  lemma IndirecteeStart(u: Setup)
    requires u.p1 != u.p2 && u.firstWriteBarrier
    ensures IndirecteeInvariant(u, Init(u))
  {
    StartConfined(u);
    ProgramShape(u);
    hide Setup.Program, Confined, Ahead;
    var p, n := u.Program(), |u.build|;
    assert Fenced(p, OnlyBuilt(u), u.Indirectee()) by {
      assert p[n] == Barrier;
    }
  }

  lemma InfoKept(u: Setup, s: State, step: Step)
    requires u.p1 != u.p2 && u.readBarrier && !u.WasBlackholed() && InfoInvariant(u, s) && Enabled(u, s, step)
    ensures InfoInvariant(u, Apply(u, s, step))
  {
    var early := AllButInfo(u);
    assert Watches(u, early, u.Info());
    GatedKept(u, s, step, early, u.Info(), u.blackhole);
    if NoEarly(Ahead(u, s), early) {
      NoEarlyKept(u, s, step, early, u.Info());
      if step.LoadIndirectee? {
        ReadsFinal(u, s, step.t, early, u.Indirectee());
        FinalValues(u);
      }
    }
    if step.LoadInfo? {
      ReadsMemory(u, s, step.t, u.Info());
    }
    hide Setup.Program, Setup.Protected, Confined, Fenced, NoEarly, View, OnlyStores, Ahead;
  }

  lemma IndirecteeKept(u: Setup, s: State, step: Step)
    requires u.p1 != u.p2 && IndirecteeInvariant(u, s) && Enabled(u, s, step)
    ensures IndirecteeInvariant(u, Apply(u, s, step))
  {
    var early := OnlyBuilt(u);
    assert Watches(u, early, u.Indirectee());
    GatedKept(u, s, step, early, u.Indirectee(), u.p2);
    if NoEarly(Ahead(u, s), early) {
      NoEarlyKept(u, s, step, early, u.Indirectee());
    }
    if step.LoadIndirectee? {
      ReadsMemory(u, s, step.t, u.Indirectee());
    }
    hide Setup.Program, Setup.Protected, Confined, Fenced, NoEarly, View, OnlyStores, Ahead;
  }

  lemma BuiltIsSeen(u: Setup, s: State, t: Thread)
    requires u.p1 != u.p2 && Confined(u, s) && t != u.updater && NoEarly(Ahead(u, s), OnlyBuilt(u))
    ensures SeesBuilt(u, s, t)
  {
    FinalValues(u);
    hide Setup.Program, Confined, View, Ahead;
    forall l | u.IsBuilt(l)
      ensures View(s.buffers(t), s.memory, l) == View(u.BuildOps(|u.build|), u.initial, l)
    {
      ReadsFinal(u, s, t, OnlyBuilt(u), l);
    }
  }

  ghost function NoLoc(): Loc -> bool {
    l => false
  }

  /** For a build that stores nothing new: `p2` always looks built. */
  ghost predicate NothingInvariant(u: Setup, s: State) {
    && Confined(u, s) && Gated(u, s, NoLoc(), u.Indirectee(), u.p2)
    && (forall l | u.IsBuilt(l) :: Gated(u, s, NoLoc(), l, u.initial(l)))
    && forall t | t != u.updater && s.observers(t).indirectee != None :: var w := s.observers(t).indirectee.value;
         w == u.initial(u.Indirectee()) || w == u.p2
  }

  lemma NothingStart(u: Setup)
    requires u.p1 != u.p2 && BuildsNothing(u)
    ensures NothingInvariant(u, Init(u))
  {
    StartConfined(u);
    ProgramShape(u);
    hide Setup.Program, Confined, Ahead;
    forall l | u.IsBuilt(l)
      ensures OnlyStores(u.Program(), l, u.initial(l))
    {
      assert forall i | 0 <= i < |u.build| && StoresTo(u.Program()[i], l) :: u.build[i].1 == u.initial(l);
    }
  }

  lemma NothingKept(u: Setup, s: State, step: Step)
    requires u.p1 != u.p2 && NothingInvariant(u, s) && Enabled(u, s, step)
    ensures NothingInvariant(u, Apply(u, s, step))
  {
    hide Setup.Program, Setup.Protected, Confined, Fenced, NoEarly, View, OnlyStores, Ahead;
    forall l | u.IsBuilt(l)
      ensures Gated(u, Apply(u, s, step), NoLoc(), l, u.initial(l))
    {
      BuiltIsWatched(u, l);
      GatedKept(u, s, step, NoLoc(), l, u.initial(l));
    }
    BuiltIsWatched(u, u.Indirectee());
    GatedKept(u, s, step, NoLoc(), u.Indirectee(), u.p2);
    if step.LoadIndirectee? {
      ReadsMemory(u, s, step.t, u.Indirectee());
    }
  }

  lemma BuiltIsWatched(u: Setup, l: Loc)
    requires u.IsBuilt(l) || l == u.Indirectee()
    ensures Watches(u, NoLoc(), l) && u.Protected(l)
  {
  }

  lemma NothingIsSeen(u: Setup, s: State, t: Thread)
    requires u.p1 != u.p2 && BuildsNothing(u) && NothingInvariant(u, s) && t != u.updater
    ensures SeesBuilt(u, s, t)
  {
    hide Setup.Program, Setup.Protected, Confined, Fenced, NoEarly, View, OnlyStores, Ahead;
    forall l | u.IsBuilt(l)
      ensures View(s.buffers(t), s.memory, l) == View(u.BuildOps(|u.build|), u.initial, l)
    {
      assert Gated(u, s, NoLoc(), l, u.initial(l));
      BuiltIsWatched(u, l);
      ReadsMemory(u, s, t, l);
      NothingBuilt(u, |u.build|, l);
    }
  }

  lemma {:induction false} NothingBuilt(u: Setup, n: nat, l: Loc)
    requires n <= |u.build| && BuildsNothing(u)
    ensures View(u.BuildOps(n), u.initial, l) == u.initial(l)
  {
    if n > 0 {
      assert u.BuildOps(n)[..|u.BuildOps(n)| - 1] == u.BuildOps(n - 1);
      NothingBuilt(u, n - 1, l);
    }
  }

  /** All stores that build `p2` store what was there before. */
  ghost predicate BuildsNothing(u: Setup) {
    forall i | 0 <= i < |u.build| :: u.build[i].1 == u.initial(Loc(u.p2, u.build[i].0))
  }

  /** The barriers an update needs. */
  ghost predicate Guarded(u: Setup) {
    if u.WasBlackholed() then u.firstWriteBarrier || BuildsNothing(u)
    else u.secondWriteBarrier && u.readBarrier
  }

  lemma InvariantsAreSafe(u: Setup, s: State)
    requires u.p1 != u.p2
    requires InfoInvariant(u, s)
      || (u.WasBlackholed() && (IndirecteeInvariant(u, s) || (BuildsNothing(u) && NothingInvariant(u, s))))
    ensures Safe(u, s)
  {
    hide Gated, Confined, View, Setup.Program, Ahead, NoEarly;
    forall t | t != u.updater && s.observers(t).info == Some(u.blackhole) && s.observers(t).indirectee != None
      ensures var w := s.observers(t).indirectee.value;
        (w == u.p2 && SeesBuilt(u, s, t)) || (u.WasBlackholed() && w == u.initial(u.Indirectee()))
    {
      FewerEarly(Ahead(u, s), u);
      if NoEarly(Ahead(u, s), OnlyBuilt(u)) && Confined(u, s) {
        BuiltIsSeen(u, s, t);
      } else if BuildsNothing(u) && NothingInvariant(u, s) {
        NothingIsSeen(u, s, t);
      }
    }
  }

  lemma FewerEarly(b: Buffer, u: Setup)
    ensures NoEarly(b, AllButInfo(u)) ==> NoEarly(b, OnlyBuilt(u))
  {
  }

  lemma {:induction false} RunsKeep(u: Setup, s: State, steps: seq<Step>, s': State)
    requires u.p1 != u.p2 && Reaches(u, s, steps, s')
    ensures u.readBarrier && !u.WasBlackholed() && InfoInvariant(u, s) ==> InfoInvariant(u, s')
    ensures IndirecteeInvariant(u, s) ==> IndirecteeInvariant(u, s')
    ensures NothingInvariant(u, s) ==> NothingInvariant(u, s')
    decreases |steps|
  {
    hide InfoInvariant, IndirecteeInvariant, NothingInvariant, Setup.Valid, Setup.WasBlackholed, Apply;
    if steps != [] {
      if u.readBarrier && !u.WasBlackholed() && InfoInvariant(u, s) {
        InfoKept(u, s, steps[0]);
      }
      if IndirecteeInvariant(u, s) {
        IndirecteeKept(u, s, steps[0]);
      }
      if NothingInvariant(u, s) {
        NothingKept(u, s, steps[0]);
      }
      RunsKeep(u, Apply(u, s, steps[0]), steps[1..], s');
    }
  }

  lemma GuardedIsSafe(u: Setup)
    requires u.p1 != u.p2 && Guarded(u)
    ensures AlwaysSafe(u)
  {
    forall steps: seq<Step>, s: State | Reaches(u, Init(u), steps, s)
      ensures Safe(u, s)
    {
      if !u.WasBlackholed() {
        InfoStart(u);
      } else if u.firstWriteBarrier {
        IndirecteeStart(u);
      } else {
        NothingStart(u);
      }
      RunsKeep(u, Init(u), steps, s);
      hide InfoInvariant, IndirecteeInvariant, NothingInvariant;
      InvariantsAreSafe(u, s);
    }
  }

  // ---------------------------------------------------------------------------
  // Every barrier is needed
  // ---------------------------------------------------------------------------

  ghost predicate CanReach(u: Setup, s: State, s': State) {
    exists steps: seq<Step> :: Reaches(u, s, steps, s')
  }

  lemma {:induction false} ReachesAppend(u: Setup, s: State, a: seq<Step>, m: State, b: seq<Step>, s': State)
    requires Reaches(u, s, a, m) && Reaches(u, m, b, s')
    ensures Reaches(u, s, a + b, s')
    decreases |a|
  {
    hide Apply;
    if a == [] {
      assert a + b == b;
    } else {
      assert (a + b)[1..] == a[1..] + b;
      ReachesAppend(u, Apply(u, s, a[0]), a[1..], m, b, s');
    }
  }

  lemma ThenStep(u: Setup, s: State, m: State, step: Step)
    requires CanReach(u, s, m) && Enabled(u, m, step)
    ensures CanReach(u, s, Apply(u, m, step))
  {
    hide Apply;
    var a: seq<Step> :| Reaches(u, s, a, m);
    assert Reaches(u, Apply(u, m, step), [step][1..], Apply(u, m, step));
    ReachesAppend(u, s, a, m, [step], Apply(u, m, step));
  }

  lemma Here(u: Setup, s: State)
    ensures CanReach(u, s, s)
  {
    assert Reaches(u, s, [], s);
  }

  /** The updater can run to its end before any store becomes visible. */
  lemma {:induction false} IssueAll(u: Setup, s0: State, s: State) returns (s': State)
    requires CanReach(u, s0, s) && s.issued <= |u.Program()|
    ensures CanReach(u, s0, s') && s'.memory == s.memory && s'.observers == s.observers
    ensures s'.issued == |u.Program()| && s'.buffers(u.updater) == Ahead(u, s)
    ensures forall t | t != u.updater :: s'.buffers(t) == s.buffers(t)
    decreases |u.Program()| - s.issued
  {
    hide Setup.Program, CanReach;
    if s.issued == |u.Program()| {
      s' := s;
    } else {
      AheadOfIssue(u, s);
      ThenStep(u, s0, s, Issue);
      s' := IssueAll(u, s0, Apply(u, s, Issue));
    }
  }

  /** The oldest `k` pending operations of the updater can take effect in order. */
  lemma {:induction false} Flush(u: Setup, s0: State, s: State, k: nat) returns (s': State)
    requires CanReach(u, s0, s) && k <= |s.buffers(u.updater)|
    ensures CanReach(u, s0, s') && s'.observers == s.observers
    ensures s'.buffers(u.updater) == s.buffers(u.updater)[k..]
    ensures forall t | t != u.updater :: s'.buffers(t) == s.buffers(t)
    ensures forall l :: s'.memory(l) == View(s.buffers(u.updater)[..k], s.memory, l)
    decreases k
  {
    hide CanReach;
    if k == 0 {
      s' := s;
    } else {
      var b := s.buffers(u.updater);
      var m := Apply(u, s, Leave(u.updater, 0));
      ThenStep(u, s0, s, Leave(u.updater, 0));
      assert m.buffers(u.updater) == b[1..];
      s' := Flush(u, s0, m, k - 1);
      assert b[1..][k - 1..] == b[k..];
      forall l
        ensures s'.memory(l) == View(b[..k], s.memory, l)
      {
        FlushView(b, k, s.memory, l);
      }
    }
  }

  lemma FlushView(b: Buffer, k: nat, m: Memory, l: Loc)
    requires 0 < k <= |b|
    ensures View(b[1..][..k - 1], Effect(m, b[0]), l) == View(b[..k], m, l)
  {
    assert b[1..][..k - 1] == Drop(b[..k], 0);
    ViewLeave(b[..k], 0, m, l);
  }

  /** The whole program is pending and nothing visible; `seen` is what observer `t` has loaded. */
  ghost predicate AllPending(u: Setup, s: State, t: Thread, seen: Observer) {
    && CanReach(u, Init(u), s)
    && s.memory == u.initial && s.buffers(u.updater) == u.Program() && s.issued == |u.Program()|
    && t != u.updater && s.buffers(t) == [] && s.observers(t) == seen
  }

  /**
   * The oldest `k` operations take effect, then the `i`-th of the rest overtakes those before
   * it. Then the observer loads what it has not loaded yet.
   */
  lemma Overtake(u: Setup, s: State, t: Thread, seen: Observer, k: nat, i: nat) returns (s': State)
    requires AllPending(u, s, t, seen) && k <= |u.Program()| && CanLeave(u.Program()[k..], i) && seen.info == None
    requires u.Program()[k..][i].Store?
    ensures CanReach(u, Init(u), s') && s'.buffers(t) == []
    ensures var op := u.Program()[k..][i];
      s'.memory(op.loc) == op.value && forall l | l != op.loc :: s'.memory(l) == View(u.Program()[..k], u.initial, l)
    ensures s'.observers(t) == Observer(Some(s'.memory(u.Info())),
      if seen.indirectee == None then Some(s'.memory(u.Indirectee())) else seen.indirectee)
  {
    hide Setup.Program, CanLeave, CanReach;
    var m := Flush(u, Init(u), s, k);
    ThenStep(u, Init(u), m, Leave(u.updater, i));
    var n := Apply(u, m, Leave(u.updater, i));
    assert n.buffers(t) == [] && n.observers(t) == seen;
    ThenStep(u, Init(u), n, LoadInfo(t));
    s' := Apply(u, n, LoadInfo(t));
    if seen.indirectee == None {
      ThenStep(u, Init(u), s', LoadIndirectee(t));
      s' := Apply(u, s', LoadIndirectee(t));
    }
  }

  lemma PendingFirst(u: Setup, t: Thread) returns (s: State)
    requires t != u.updater
    ensures AllPending(u, s, t, Observer(None, None))
  {
    StartConfined(u);
    Here(u, Init(u));
    hide Setup.Program, CanReach, Confined, Ahead;
    s := IssueAll(u, Init(u), Init(u));
  }

  /** Without a read barrier the indirectee may have been loaded before the update began. */
  lemma PendingAfterLoad(u: Setup, t: Thread) returns (s: State)
    requires t != u.updater && !u.readBarrier
    ensures AllPending(u, s, t, Observer(None, Some(u.initial(u.Indirectee()))))
  {
    StartConfined(u);
    Here(u, Init(u));
    hide Setup.Program, CanReach, Confined;
    ThenStep(u, Init(u), Init(u), LoadIndirectee(t));
    var m := Apply(u, Init(u), LoadIndirectee(t));
    assert Ahead(u, m) == Ahead(u, Init(u));
    s := IssueAll(u, Init(u), m);
  }

  lemma UnsafeState(u: Setup, s: State, t: Thread)
    requires CanReach(u, Init(u), s) && t != u.updater && s.observers(t).info == Some(u.blackhole)
    requires s.observers(t).indirectee != None
    requires var w := s.observers(t).indirectee.value;
      && (w == u.p2 ==> !SeesBuilt(u, s, t))
      && (u.WasBlackholed() ==> w != u.initial(u.Indirectee()))
    ensures !AlwaysSafe(u)
  {
    assert !Safe(u, s);
  }

  /** Without the barrier between the two stores to `p1`, the info pointer can show first. */
  lemma SecondBarrierNeeded(u: Setup)
    requires u.Valid() && !u.WasBlackholed() && !u.secondWriteBarrier
    ensures !AlwaysSafe(u)
  {
    hide Setup.Program, CanReach, AlwaysSafe, SeesBuilt;
    var t := u.updater + 1;
    var s := PendingFirst(u, t);
    ProgramShape(u);
    var p := u.Program();
    var k := |p| - 2;
    assert p[k..][0] == p[k] && p[k..][1] == p[k + 1];
    var s' := Overtake(u, s, t, Observer(None, None), k, 1);
    assert NoStore(p[..k], u.Indirectee());
    ViewOfMemory(p[..k], u.initial, u.Indirectee());
    UnsafeState(u, s', t);
  }

  /** Without the read barrier an observer can have loaded the old indirectee beforehand. */
  lemma ReadBarrierNeeded(u: Setup)
    requires u.Valid() && !u.WasBlackholed() && !u.readBarrier
    ensures !AlwaysSafe(u)
  {
    hide Setup.Program, CanReach, AlwaysSafe, SeesBuilt, View;
    var t := u.updater + 1;
    var s := PendingAfterLoad(u, t);
    ProgramShape(u);
    var p := u.Program();
    var k := |p| - 1;
    assert p[k..][0] == p[k];
    var s' := Overtake(u, s, t, Observer(None, Some(u.initial(u.Indirectee()))), k, 0);
    UnsafeState(u, s', t);
  }

  lemma LastStore(b: Buffer, m: Memory, l: Loc)
    requires b != [] && StoresTo(b[|b| - 1], l)
    ensures View(b, m, l) == b[|b| - 1].value
  {
  }

  /** Without the first barrier the store to the indirectee may overtake the build stores from `k` on. */
  lemma IndirecteeOvertakes(u: Setup, k: nat)
    requires u.Valid() && !u.firstWriteBarrier && k <= |u.build|
    ensures var p, i := u.Program(), |u.build| - k;
      |p| > |u.build| && CanLeave(p[k..], i) && p[k..][i] == Store(u.Indirectee(), u.p2) && NoStore(p[..k], u.Info())
  {
    ProgramShape(u);
    hide Setup.Program;
    var p := u.Program();
    assert forall j | 0 <= j <= |u.build| - k :: p[k..][j] == p[k + j];
  }

  /** What is visible of word `i` of the build after its first `k` stores, for a `k` that shows it unfinished. */
  lemma Unfinished(u: Setup, i: nat) returns (k: nat)
    requires u.Valid() && !u.firstWriteBarrier
    requires i < |u.build| && u.build[i].1 != u.initial(Loc(u.p2, u.build[i].0))
    ensures k <= |u.build| < |u.Program()| && var l := Loc(u.p2, u.build[i].0);
      View(u.Program()[..k], u.initial, l) != View(u.BuildOps(|u.build|), u.initial, l)
  {
    ProgramShape(u);
    hide Setup.Program, Setup.BuildOps;
    var l, p := Loc(u.p2, u.build[i].0), u.Program();
    k := if View(u.BuildOps(|u.build|), u.initial, l) == u.initial(l) then i + 1 else 0;
    hide View;
    if k > 0 {
      LastStore(p[..k], u.initial, l);
    } else {
      ViewOfMemory(p[..k], u.initial, l);
    }
  }

  /** Without the barrier before the indirectee, an observer of a black hole can enter `p2` half built. */
  lemma FirstBarrierNeeded(u: Setup)
    requires u.Valid() && u.WasBlackholed() && !u.firstWriteBarrier && !BuildsNothing(u)
    ensures !AlwaysSafe(u)
  {
    hide Setup.Program, Setup.BuildOps, CanReach, AlwaysSafe, View, CanLeave;
    var t := u.updater + 1;
    var i :| 0 <= i < |u.build| && u.build[i].1 != u.initial(Loc(u.p2, u.build[i].0));
    var l := Loc(u.p2, u.build[i].0);
    var k := Unfinished(u, i);
    IndirecteeOvertakes(u, k);
    var s := PendingFirst(u, t);
    var s' := Overtake(u, s, t, Observer(None, None), k, |u.build| - k);
    ViewOfMemory(u.Program()[..k], u.initial, u.Info());
    ViewOfMemory(s'.buffers(t), s'.memory, l);
    assert u.IsBuilt(l);
    UnsafeState(u, s', t);
  }

  /**
   * An update is safe under every interleaving and every order in which stores become visible
   * exactly when it has these barriers: for a closure that was no black hole, the one between
   * indirectee and info pointer together with the readers' barrier; for one that already was,
   * the one before the indirectee, unless building `p2` changes no word.
   */
  lemma SafeIffGuarded(u: Setup)
    requires u.Valid()
    ensures AlwaysSafe(u) <==> Guarded(u)
  {
    hide AlwaysSafe;
    if Guarded(u) {
      GuardedIsSafe(u);
    } else if u.WasBlackholed() {
      FirstBarrierNeeded(u);
    } else if !u.secondWriteBarrier {
      SecondBarrierNeeded(u);
    } else {
      ReadBarrierNeeded(u);
    }
  }
}
