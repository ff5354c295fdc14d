/** Sequence counting and selection: the role `collections.Counter` and
    `max(iterable, key=...)` play in the object model. */
module Counting {

  /** Number of positions of `xs` that hold `x`, counted from the left. */
  function Occurrences<T(==)>(xs: seq<T>, x: T): nat
  {
    if xs == [] then 0
    else Occurrences(xs[..|xs| - 1], x) + (if xs[|xs| - 1] == x then 1 else 0)
  }

  /** A multiset built from a sequence (a `Counter`) holds each element as
      many times as the sequence does. */
  lemma {:induction false} MultiplicityIsOccurrences<T>(xs: seq<T>, x: T)
    ensures multiset(xs)[x] == Occurrences(xs, x)
  {
    if xs != [] {
      var init := xs[..|xs| - 1];
      assert xs == init + [xs[|xs| - 1]];
      MultiplicityIsOccurrences(init, x);
    }
  }

  /** An element occurs at least once exactly when it is in the sequence. */
  lemma {:induction false} OccurrencesPositiveIffMember<T>(xs: seq<T>, x: T)
    ensures Occurrences(xs, x) > 0 <==> x in xs
  {
    if xs != [] {
      var init := xs[..|xs| - 1];
      assert xs == init + [xs[|xs| - 1]];
      OccurrencesPositiveIffMember(init, x);
    }
  }

  /** The index `max(range(len(keys)), key=keys.__getitem__)` picks: scanning
      from the left, a later key replaces the current best only when it is
      strictly larger, so the first of several equal maxima wins. */
  function FirstArgMax(keys: seq<int>): (k: nat)
    requires keys != []
    ensures k < |keys|
    ensures forall j :: 0 <= j < |keys| ==> keys[j] <= keys[k]
    ensures forall j :: 0 <= j < k ==> keys[j] < keys[k]
  {
    if |keys| == 1 then 0
    else
      var init := keys[..|keys| - 1];
      var best := FirstArgMax(init);
      assert forall j :: 0 <= j < |init| ==> keys[j] == init[j];
      if keys[|keys| - 1] > keys[best] then |keys| - 1 else best
  }
}
