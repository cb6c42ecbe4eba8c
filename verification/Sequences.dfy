/**
 * Sequences, as the models share them.
 */
module Sequences {

  /** The parts of something, laid end to end. */
  function Flatten<T>(chunks: seq<seq<T>>): seq<T> {
    if chunks == [] then [] else chunks[0] + Flatten(chunks[1..])
  }

  lemma {:induction false} FlattenEnd<T>(chunks: seq<seq<T>>, last: seq<T>)
    ensures Flatten(chunks + [last]) == Flatten(chunks) + last
  {
    if chunks == [] {
      assert Flatten([last]) == last + Flatten([last][1..]) == last;
      assert chunks + [last] == [last];
    } else {
      assert (chunks + [last])[1..] == chunks[1..] + [last];
      FlattenEnd(chunks[1..], last);
      Regroup(chunks[0], Flatten(chunks[1..]), last);
    }
  }

  lemma FlattenTo<T>(chunks: seq<seq<T>>, i: nat)
    requires i < |chunks|
    ensures Flatten(chunks[..i + 1]) == Flatten(chunks[..i]) + chunks[i]
  {
    assert chunks[..i + 1] == chunks[..i] + [chunks[i]];
    FlattenEnd(chunks[..i], chunks[i]);
  }

  lemma FlattenNothing<T>(chunks: seq<seq<T>>)
    ensures Flatten(chunks[..0]) == []
  {
  }

  lemma Regroup<T>(a: seq<T>, b: seq<T>, c: seq<T>)
    ensures a + (b + c) == (a + b) + c
  {
  }

  /** The `i`-th element, or `none` outside the sequence. */
  function At<T>(s: seq<T>, i: int, none: T): T {
    if 0 <= i < |s| then s[i] else none
  }

  ghost predicate Distinct<T>(s: seq<T>) {
    forall i, j | 0 <= i < j < |s| :: s[i] != s[j]
  }
}
