/**
 * Doubly linked block lists (rts/storage/Block.h): `link` and `back` pointers inside the block
 * descriptors, and a head pointer outside.
 */
module BlockList {
  import opened Sequences

  class Bdescr {
    var link: Bdescr?
    var back: Bdescr?

    constructor ()
    {
    }
  }

  /** The variable a `bdescr **list` points at. */
  class Head {
    var first: Bdescr?

    constructor ()
      ensures first == null
    {
      first := null;
    }
  }

  /** The list that starts at `first` is `s`: every `link` and every `back` leads to the neighbour. */
  ghost predicate IsList(first: Bdescr?, s: seq<Bdescr>)
    reads s
  {
    && Distinct(s)
    && first == At(s, 0, null)
    && forall i | 0 <= i < |s| :: s[i].link == At(s, i + 1, null) && s[i].back == At(s, i - 1, null)
  }

  /** So the two pointers undo each other. */
  lemma MutuallyInverse(first: Bdescr?, s: seq<Bdescr>, b: Bdescr)
    requires IsList(first, s) && b in s
    ensures b.link != null ==> b.link in s && b.link.back == b
    ensures b.back != null ==> b.back in s && b.back.link == b
    ensures b.back == null <==> first == b
  {
    var i :| 0 <= i < |s| && s[i] == b;
    assert b.link == At(s, i + 1, null) && b.back == At(s, i - 1, null);
  }

  // ---------------------------------------------------------------------------
  // What each operation does to the sequence
  // ---------------------------------------------------------------------------

  function Removed(s: seq<Bdescr>, i: nat): seq<Bdescr>
    requires i < |s|
  {
    s[..i] + s[i + 1..]
  }

  function Inserted(s: seq<Bdescr>, i: nat, b: Bdescr): seq<Bdescr>
    requires i <= |s|
  {
    s[..i] + [b] + s[i..]
  }

  lemma Near(s: seq<Bdescr>, i: nat)
    requires Distinct(s) && i < |s|
    ensures At(s, i, null) == s[i] && (At(s, 0, null) == s[i] <==> i == 0)
    ensures At(s, i + 1, null) == if i + 1 < |s| then s[i + 1] else null
    ensures At(s, i - 1, null) == if i > 0 then s[i - 1] else null
    ensures forall j | 0 <= j < |s| :: (s[j] == s[i] <==> j == i)
    ensures i + 1 < |s| ==> forall j | 0 <= j < |s| :: (s[j] == s[i + 1] <==> j == i + 1)
    ensures i > 0 ==> forall j | 0 <= j < |s| :: (s[j] == s[i - 1] <==> j == i - 1)
  {
  }

  function RemovedAt(s: seq<Bdescr>, i: nat, j: int): Bdescr? {
    if j < 0 then null else if j < i then At(s, j, null) else At(s, j + 1, null)
  }

  lemma Removing(s: seq<Bdescr>, i: nat)
    requires Distinct(s) && i < |s|
    ensures Distinct(Removed(s, i)) && |Removed(s, i)| == |s| - 1 && s[i] !in Removed(s, i)
    ensures forall j :: At(Removed(s, i), j, null) == RemovedAt(s, i, j)
    ensures forall j {:trigger Removed(s, i)[j]} | 0 <= j < |s| - 1 ::
      Removed(s, i)[j] == if j < i then s[j] else s[j + 1]
  {
    var r := Removed(s, i);
    assert forall j | 0 <= j < |r| :: r[j] == if j < i then s[j] else s[j + 1];
    forall j ensures At(r, j, null) == RemovedAt(s, i, j) {
    }
  }

  function InsertedAt(s: seq<Bdescr>, i: nat, b: Bdescr, j: int): Bdescr? {
    if j < 0 then null else if j < i then At(s, j, null) else if j == i then b else At(s, j - 1, null)
  }

  lemma Inserting(s: seq<Bdescr>, i: nat, b: Bdescr)
    requires Distinct(s) && i <= |s| && b !in s
    ensures Distinct(Inserted(s, i, b)) && |Inserted(s, i, b)| == |s| + 1
    ensures forall j :: At(Inserted(s, i, b), j, null) == InsertedAt(s, i, b, j)
    ensures forall j {:trigger Inserted(s, i, b)[j]} | 0 <= j <= |s| ::
      Inserted(s, i, b)[j] == if j < i then s[j] else if j == i then b else s[j - 1]
  {
    var r := Inserted(s, i, b);
    assert forall j | 0 <= j < |r| :: r[j] == if j < i then s[j] else if j == i then b else s[j - 1];
    forall j ensures At(r, j, null) == InsertedAt(s, i, b, j) {
    }
  }

  lemma Replacing(s: seq<Bdescr>, i: nat, b: Bdescr)
    requires Distinct(s) && i < |s| && b !in s
    ensures Distinct(s[i := b])
    ensures forall j :: At(s[i := b], j, null) == if j == i then b else At(s, j, null)
  {
    var r := s[i := b];
    forall j ensures At(r, j, null) == if j == i then b else At(s, j, null) {
    }
  }

  lemma Layout(s: seq<Bdescr>, i: nat, b: Bdescr)
    requires i < |s|
    ensures Inserted(s, i + 1, b) == s[..i + 1] + [b] + s[i + 1..] && Removed(s, i) == s[..i] + s[i + 1..]
  {
  }

  lemma Front(s: seq<Bdescr>, b: Bdescr)
    ensures Inserted(s, 0, b) == [b] + s
  {
  }

  lemma Outside(s: seq<Bdescr>)
    ensures forall j | j < 0 || j >= |s| :: At(s, j, null) == null
    ensures s != [] ==> At(s, 0, null) == s[0]
  {
  }

  // ---------------------------------------------------------------------------
  // The operations
  // ---------------------------------------------------------------------------

  /** `dbl_link_onto` */
  method LinkOnto(bd: Bdescr, list: Head, ghost s: seq<Bdescr>)
    requires IsList(list.first, s) && bd !in s
    modifies list, bd, list.first
    ensures IsList(list.first, [bd] + s)
  {
    hide At, Distinct;
    Inserting(s, 0, bd);
    Front(s, bd);
    Outside(s);
    if s != [] {
      Near(s, 0);
    }
    bd.link := list.first;
    bd.back := null;
    if list.first != null {
      list.first.back := bd;
    }
    list.first := bd;
    hide Inserted;
  }

  /** `dbl_link_remove`: the removed block keeps its own pointers. */
  method LinkRemove(bd: Bdescr, list: Head, ghost s: seq<Bdescr>, ghost i: nat)
    requires IsList(list.first, s) && i < |s| && s[i] == bd
    modifies list, bd.back, bd.link
    ensures IsList(list.first, s[..i] + s[i + 1..])
    ensures bd.link == old(bd.link) && bd.back == old(bd.back)
  {
    hide At, Distinct, Removed;
    Removing(s, i);
    Layout(s, i, bd);
    Outside(s);
    Near(s, i);
    if bd.back != null {
      bd.back.link := bd.link;
    } else {
      list.first := bd.link;
    }
    if bd.link != null {
      bd.link.back := bd.back;
    }
  }

  /** `dbl_link_insert_after` */
  method LinkInsertAfter(bd: Bdescr, after: Bdescr, ghost first: Bdescr?, ghost s: seq<Bdescr>, ghost i: nat)
    requires IsList(first, s) && bd !in s && i < |s| && s[i] == after
    modifies bd, after, after.link
    ensures IsList(first, s[..i + 1] + [bd] + s[i + 1..])
  {
    hide At, Distinct, Inserted;
    Inserting(s, i + 1, bd);
    Layout(s, i, bd);
    Outside(s);
    Near(s, i);
    bd.link := after.link;
    bd.back := after;
    if after.link != null {
      after.link.back := bd;
    }
    after.link := bd;
  }

  /** `dbl_link_replace`: the replaced block keeps its own pointers. */
  method LinkReplace(new_: Bdescr, old_: Bdescr, list: Head, ghost s: seq<Bdescr>, ghost i: nat)
    requires IsList(list.first, s) && new_ !in s && i < |s| && s[i] == old_
    modifies list, new_, old_.link, old_.back
    ensures IsList(list.first, s[i := new_])
    ensures old_.link == old(old_.link) && old_.back == old(old_.back)
  {
    hide At, Distinct;
    Replacing(s, i, new_);
    Outside(s);
    Near(s, i);
    new_.link := old_.link;
    new_.back := old_.back;
    if old_.link != null {
      old_.link.back := new_;
    }
    if old_.back != null {
      old_.back.link := new_;
    } else {
      list.first := new_;
    }
  }

  // ---------------------------------------------------------------------------
  // Whole runs over several lists
  // ---------------------------------------------------------------------------

  datatype Op =
    | Onto(bd: Bdescr, k: nat)
    | Remove(bd: Bdescr, k: nat)
    | InsertAfter(bd: Bdescr, after: Bdescr, k: nat)
    | Replace(bd: Bdescr, replaced: Bdescr, k: nat)

  /** Where a block is in its list. */
  function Position(s: seq<Bdescr>, b: Bdescr): (i: nat)
    requires b in s
    ensures i < |s| && s[i] == b
  {
    if s[0] == b then 0 else 1 + Position(s[1..], b)
  }

  /** Lists that share no block. */
  ghost predicate Apart(lists: seq<seq<Bdescr>>) {
    forall k, l, b | 0 <= k < |lists| && 0 <= l < |lists| && k != l && b in lists[k] :: b !in lists[l]
  }

  /** A block joins one list from outside all of them; a block that leaves or is followed is in the list named. */
  ghost predicate Legal(lists: seq<seq<Bdescr>>, op: Op) {
    && op.k < |lists|
    && (op.Remove? || forall k | 0 <= k < |lists| :: op.bd !in lists[k])
    && (op.Remove? ==> op.bd in lists[op.k])
    && (op.InsertAfter? ==> op.after in lists[op.k])
    && (op.Replace? ==> op.replaced in lists[op.k])
  }

  ghost function Step(lists: seq<seq<Bdescr>>, op: Op): seq<seq<Bdescr>>
    requires Legal(lists, op)
  {
    lists[op.k := Changed(lists[op.k], op)]
  }

  function Changed(s: seq<Bdescr>, op: Op): seq<Bdescr>
    requires op.Remove? ==> op.bd in s
    requires op.InsertAfter? ==> op.after in s
    requires op.Replace? ==> op.replaced in s
  {
    match op
    case Onto(b, _) => Inserted(s, 0, b)
    case Remove(b, _) => Removed(s, Position(s, b))
    case InsertAfter(b, after, _) => Inserted(s, Position(s, after) + 1, b)
    case Replace(b, replaced, _) => s[Position(s, replaced) := b]
  }

  ghost predicate LegalRun(lists: seq<seq<Bdescr>>, ops: seq<Op>)
    decreases |ops|
  {
    ops != [] ==> Legal(lists, ops[0]) && LegalRun(Step(lists, ops[0]), ops[1..])
  }

  ghost function Run(lists: seq<seq<Bdescr>>, ops: seq<Op>): seq<seq<Bdescr>>
    requires LegalRun(lists, ops)
    decreases |ops|
  {
    if ops == [] then lists else Run(Step(lists, ops[0]), ops[1..])
  }

  ghost function Blocks(lists: seq<seq<Bdescr>>): set<Bdescr> {
    set k, b | 0 <= k < |lists| && b in lists[k] :: b
  }

  /** Each head starts its own list, and no block is on two. */
  ghost predicate AllLists(heads: seq<Head>, lists: seq<seq<Bdescr>>)
    reads heads, Blocks(lists)
  {
    && |heads| == |lists|
    && (forall k, l | 0 <= k < l < |heads| :: heads[k] != heads[l])
    && Apart(lists)
    && forall k | 0 <= k < |lists| ::
      assert forall b <- lists[k] :: b in Blocks(lists);
      IsList(heads[k].first, lists[k])
  }

  lemma ChangedBlocks(s: seq<Bdescr>, op: Op)
    requires op.Remove? ==> op.bd in s
    requires op.InsertAfter? ==> op.after in s
    requires op.Replace? ==> op.replaced in s
    ensures forall b | b in Changed(s, op) :: b in s || b == op.bd
  {
  }

  lemma StaysApart(lists: seq<seq<Bdescr>>, op: Op)
    requires Apart(lists) && Legal(lists, op)
    ensures Apart(Step(lists, op))
  {
    ChangedBlocks(lists[op.k], op);
    hide Changed;
  }

  lemma PointersStay(first: Bdescr?, s: seq<Bdescr>)
    requires IsList(first, s)
    ensures first != null ==> first in s
    ensures forall b | b in s :: (b.link != null ==> b.link in s) && (b.back != null ==> b.back in s)
  {
    forall b | b in s ensures (b.link != null ==> b.link in s) && (b.back != null ==> b.back in s) {
      MutuallyInverse(first, s, b);
    }
  }

  /** One legal operation changes its own list as the sequence says, and no other. */
  method Perform(heads: seq<Head>, op: Op, ghost lists: seq<seq<Bdescr>>)
    requires AllLists(heads, lists) && Legal(lists, op)
    modifies heads, op.bd, Blocks(lists)
    ensures AllLists(heads, Step(lists, op))
  {
    hide IsList, Position, Removed, Inserted;
    ghost var s := lists[op.k];
    PointersStay(heads[op.k].first, s);
    StaysApart(lists, op);
    match op {
      case Onto(b, k) =>
        LinkOnto(b, heads[k], s);
        Front(s, b);
      case Remove(b, k) =>
        LinkRemove(b, heads[k], s, Position(s, b));
        Layout(s, Position(s, b), b);
      case InsertAfter(b, after, k) =>
        LinkInsertAfter(b, after, heads[k].first, s, Position(s, after));
        Layout(s, Position(s, after), b);
      case Replace(b, replaced, k) => LinkReplace(b, replaced, heads[k], s, Position(s, replaced));
    }
  }

  /** The blocks an operation brings in. */
  function Added(ops: seq<Op>): set<Bdescr> {
    set op <- ops :: op.bd
  }

  /** And any legal run leaves every list well formed, with the contents the sequences have. */
  method Execute(heads: seq<Head>, ops: seq<Op>, ghost start: seq<seq<Bdescr>>)
    requires AllLists(heads, start) && LegalRun(start, ops)
    modifies heads, Blocks(start), Added(ops)
    ensures AllLists(heads, Run(start, ops))
  {
    hide AllLists, Legal, Step;
    ghost var lists := start;
    var i := 0;
    while i < |ops|
      invariant i <= |ops| && AllLists(heads, lists) && LegalRun(lists, ops[i..])
      invariant Run(lists, ops[i..]) == Run(start, ops)
      invariant Blocks(lists) <= Blocks(start) + Added(ops)
    {
      assert ops[i..][1..] == ops[i + 1..];
      BlocksGrow(lists, ops[i]);
      Perform(heads, ops[i], lists);
      lists := Step(lists, ops[i]);
      i := i + 1;
    }
  }

  lemma BlocksGrow(lists: seq<seq<Bdescr>>, op: Op)
    requires Legal(lists, op)
    ensures Blocks(Step(lists, op)) <= Blocks(lists) + {op.bd}
  {
    ChangedBlocks(lists[op.k], op);
    hide Changed;
  }
}
