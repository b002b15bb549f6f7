/** Shared vocabulary: a result type for the error paths, and sequences seen as sets. */
module Common {

  datatype Result<+T, +E> = Ok(value: T) | Err(error: E)

  /** `set(xs)` in Python. */
  function Elems<T>(xs: seq<T>): set<T>
  {
    set x | x in xs
  }

  /** No element occurs twice. */
  predicate Distinct<T(==)>(xs: seq<T>)
  {
    forall i, j :: 0 <= i < j < |xs| ==> xs[i] != xs[j]
  }

  /** A duplicate-free list has as many members as elements. */
  lemma {:induction false} DistinctCard<T>(xs: seq<T>)
    requires Distinct(xs)
    ensures |Elems(xs)| == |xs|
  {
    if xs != [] {
      var init := xs[..|xs| - 1];
      assert Distinct(init);
      DistinctCard(init);
      assert xs == init + [xs[|xs| - 1]];
      assert xs[|xs| - 1] !in Elems(init);
      assert Elems(xs) == Elems(init) + {xs[|xs| - 1]};
    }
  }
}
