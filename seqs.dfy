/** Sequence helpers used across the model. */
module Seqs {

  predicate NoDup<T(==)>(xs: seq<T>) {
    forall i, j :: 0 <= i < j < |xs| ==> xs[i] != xs[j]
  }

  /** `a` is a prefix of `b`. */
  predicate IsPrefix<T(==)>(a: seq<T>, b: seq<T>) {
    |a| <= |b| && b[..|a|] == a
  }

  /**
   * `[...new Set(xs)]`: the distinct elements of `xs`, each at the place of
   * its first occurrence.
   */
  function Dedup(xs: seq<string>): (r: seq<string>)
    ensures NoDup(r)
    ensures forall x :: x in r <==> x in xs
    ensures |r| <= |xs|
  {
    if xs == [] then []
    else
      var d := Dedup(xs[..|xs| - 1]);
      var x := xs[|xs| - 1];
      assert xs == xs[..|xs| - 1] + [x];
      if x in d then d else d + [x]
  }

  /** A duplicate-free sequence is its own `Dedup`. */
  lemma {:induction false} DedupOfDistinct(xs: seq<string>)
    requires NoDup(xs)
    ensures Dedup(xs) == xs
  {
    if xs != [] {
      var init := xs[..|xs| - 1];
      assert NoDup(init);
      DedupOfDistinct(init);
      assert xs[|xs| - 1] !in init;
      assert init + [xs[|xs| - 1]] == xs;
    }
  }

  /** Adding one element to a duplicate-free list, as `addTask` does with the used categories. */
  lemma DedupAppend(xs: seq<string>, x: string)
    requires NoDup(xs)
    ensures Dedup(xs + [x]) == if x in xs then xs else xs + [x]
  {
    assert (xs + [x])[..|xs|] == xs;
    DedupOfDistinct(xs);
  }
}
