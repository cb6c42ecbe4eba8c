/**
 * Memory in which what a processor has issued takes effect in any order, except that operations on
 * one location keep their order and no store overtakes a write barrier
 * (ghc-toolkit/ghc-libdir/include/stg/SMP.h). Loads are not held back by a write barrier, and hold
 * none back.
 */
module WeakMemory {

  type Thread = nat
  type Value = nat

  datatype Option<T> = None | Some(value: T)

  /** A word of a heap object. */
  datatype Loc = Loc(closure: nat, field: nat)

  type Memory = Loc -> Value

  /** Several loads may be pending; `id` tells them apart. */
  datatype Op = Store(loc: Loc, value: Value) | Load(loc: Loc, id: nat) | Barrier

  /** What a processor has issued and has not taken effect yet, in program order. */
  type Buffer = seq<Op>

  function Set(m: Memory, l: Loc, v: Value): Memory {
    x => if x == l then v else m(x)
  }

  function SetAt<T>(f: Thread -> T, t: Thread, x: T): Thread -> T {
    (u: Thread) => if u == t then x else f(u)
  }

  predicate StoresTo(op: Op, l: Loc) {
    op.Store? && op.loc == l
  }

  /** `second` has to wait for `first`, which was issued before it. */
  predicate Waits(first: Op, second: Op) {
    match second
    case Store(l, _) => first.Barrier? || first.loc == l
    case Load(l, _) => first.Load? && first.loc == l
    case Barrier => !first.Load?
  }

  /** The operation at `i` may take effect next. */
  predicate CanLeave(b: Buffer, i: nat) {
    i < |b| && forall j | 0 <= j < i :: !Waits(b[j], b[i])
  }

  /** What an operation does to memory. */
  function Effect(m: Memory, op: Op): Memory {
    if op.Store? then Set(m, op.loc, op.value) else m
  }

  function Drop<T>(b: seq<T>, i: nat): (r: seq<T>)
    requires i < |b|
    ensures |r| == |b| - 1
    ensures forall j | 0 <= j < |r| :: r[j] == if j < i then b[j] else b[j + 1]
  {
    b[..i] + b[i + 1..]
  }

  /** What a processor itself reads: its newest store to the location, if any is pending. */
  function View(b: Buffer, m: Memory, l: Loc): Value {
    if b == [] then m(l)
    else if StoresTo(b[|b| - 1], l) then b[|b| - 1].value
    else View(b[..|b| - 1], m, l)
  }

  ghost predicate NoStore(b: Buffer, l: Loc) {
    forall i | 0 <= i < |b| :: !StoresTo(b[i], l)
  }

  lemma {:induction false} ViewOfMemory(b: Buffer, m: Memory, l: Loc)
    requires NoStore(b, l)
    ensures View(b, m, l) == m(l)
  {
    if b != [] {
      ViewOfMemory(b[..|b| - 1], m, l);
    }
  }

  /** Operations on other locations in the middle of a buffer do not matter. */
  lemma {:induction false} ViewInsert(b: Buffer, op: Op, c: Buffer, m: Memory, l: Loc)
    requires !StoresTo(op, l)
    ensures View(b + [op] + c, m, l) == View(b + c, m, l)
  {
    if c == [] {
      assert b + [op] + c == b + [op] && b + c == b;
      assert (b + [op])[..|b|] == b;
    } else {
      var n := |c| - 1;
      assert (b + [op] + c)[..|b| + 1 + n] == b + [op] + c[..n];
      assert (b + c)[..|b| + n] == b + c[..n];
      ViewInsert(b, op, c[..n], m, l);
    }
  }

  /** An operation that takes effect changes nothing for its own processor. */
  lemma {:induction false} ViewLeave(b: Buffer, i: nat, m: Memory, l: Loc)
    requires CanLeave(b, i)
    ensures View(Drop(b, i), Effect(m, b[i]), l) == View(b, m, l)
  {
    var n := |b| - 1;
    if i == n {
      assert Drop(b, i) == b[..n];
      if StoresTo(b[i], l) {
        ViewOfMemory(b[..n], Set(m, l, b[i].value), l);
      } else if b[i].Store? {
        ViewFrame(b[..n], m, b[i].loc, b[i].value, l);
      }
    } else {
      var c := Drop(b, i);
      assert c[|c| - 1] == b[n];
      assert c[..|c| - 1] == Drop(b[..n], i);
      ViewLeave(b[..n], i, m, l);
    }
  }

  lemma {:induction false} ViewFrame(b: Buffer, m: Memory, x: Loc, v: Value, l: Loc)
    requires x != l
    ensures View(b, Set(m, x, v), l) == View(b, m, l)
  {
    if b != [] {
      ViewFrame(b[..|b| - 1], m, x, v, l);
    }
  }

  // ---------------------------------------------------------------------------
  // Fences
  // ---------------------------------------------------------------------------

  ghost predicate BarrierBetween(b: Buffer, i: nat, j: nat)
    requires j <= |b|
  {
    exists k :: i < k < j && b[k] == Barrier
  }

  /** Every store to an early location comes before every store to `late`, with a barrier between them. */
  ghost predicate Fenced(b: Buffer, early: Loc -> bool, late: Loc) {
    forall i, j | 0 <= i < |b| && 0 <= j < |b| && b[i].Store? && early(b[i].loc) && StoresTo(b[j], late) ::
      i < j && BarrierBetween(b, i, j)
  }

  ghost predicate NoEarly(b: Buffer, early: Loc -> bool) {
    forall i | 0 <= i < |b| && b[i].Store? :: !early(b[i].loc)
  }

  /** Removing what may leave the buffer keeps the fence. */
  lemma FencedDrop(b: Buffer, i: nat, early: Loc -> bool, late: Loc)
    requires Fenced(b, early, late) && CanLeave(b, i)
    ensures Fenced(Drop(b, i), early, late)
  {
    var c := Drop(b, i);
    forall x, y | 0 <= x < |c| && 0 <= y < |c| && c[x].Store? && early(c[x].loc) && StoresTo(c[y], late)
      ensures x < y && BarrierBetween(c, x, y)
    {
      var x', y' := if x < i then x else x + 1, if y < i then y else y + 1;
      assert b[x'] == c[x] && b[y'] == c[y];
      var k :| x' < k < y' && b[k] == Barrier && k != i;
      assert c[if k < i then k else k - 1] == Barrier;
    }
  }

  lemma FencedInsert(b: Buffer, op: Op, c: Buffer, early: Loc -> bool, late: Loc)
    requires Fenced(b + c, early, late) && (op.Store? ==> !early(op.loc) && op.loc != late)
    ensures Fenced(b + [op] + c, early, late)
  {
    var a, d := b + c, b + [op] + c;
    forall x, y | 0 <= x < |d| && 0 <= y < |d| && d[x].Store? && early(d[x].loc) && StoresTo(d[y], late)
      ensures x < y && BarrierBetween(d, x, y)
    {
      var x', y' := if x < |b| then x else x - 1, if y < |b| then y else y - 1;
      assert a[x'] == d[x] && a[y'] == d[y];
      var k :| x' < k < y' && a[k] == Barrier;
      assert d[if k < |b| then k else k + 1] == Barrier;
    }
  }

  /** A store to `late` that may take effect has no early store before or behind it. */
  lemma LateDrains(b: Buffer, c: Buffer, i: nat, early: Loc -> bool, late: Loc)
    requires Fenced(b + c, early, late) && CanLeave(b, i) && StoresTo(b[i], late)
    ensures NoEarly(b + c, early)
  {
    var a := b + c;
    assert forall k | 0 <= k < i :: a[k] == b[k];
    assert StoresTo(a[i], late) && forall k | 0 <= k < i :: a[k] != Barrier;
  }

  lemma NoEarlyInsert(b: Buffer, op: Op, c: Buffer, early: Loc -> bool)
    requires NoEarly(b + c, early) && (op.Store? ==> !early(op.loc))
    ensures NoEarly(b + [op] + c, early)
  {
    var a, d := b + c, b + [op] + c;
    assert forall x | 0 <= x < |d| && x != |b| :: d[x] == a[if x < |b| then x else x - 1];
  }

  /** All pending stores to `l` store `v`. */
  ghost predicate OnlyStores(b: Buffer, l: Loc, v: Value) {
    forall i | 0 <= i < |b| && StoresTo(b[i], l) :: b[i].value == v
  }

  lemma OnlyStoresInsert(b: Buffer, op: Op, c: Buffer, l: Loc, v: Value)
    requires OnlyStores(b + c, l, v) && !StoresTo(op, l)
    ensures OnlyStores(b + [op] + c, l, v)
  {
    var a, d := b + c, b + [op] + c;
    assert forall x | 0 <= x < |d| && x != |b| :: d[x] == a[if x < |b| then x else x - 1];
  }
}
