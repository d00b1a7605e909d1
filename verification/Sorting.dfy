/** A stable sort by an integer key, as SQL's ORDER BY and the standard library's `sort_by_key` do. */
module Sorting {
  ghost predicate SortedBy<T>(xs: seq<T>, key: T -> int) {
    forall i, j :: 0 <= i < j < |xs| ==> key(xs[i]) <= key(xs[j])
  }

  function InsertBy<T>(sorted: seq<T>, x: T, key: T -> int): (r: seq<T>)
    ensures |r| == |sorted| + 1
  {
    if sorted == [] || key(sorted[|sorted| - 1]) <= key(x) then sorted + [x]
    else InsertBy(sorted[..|sorted| - 1], x, key) + [sorted[|sorted| - 1]]
  }

  function SortBy<T>(xs: seq<T>, key: T -> int): (r: seq<T>)
    ensures |r| == |xs|
  {
    if xs == [] then [] else InsertBy(SortBy(xs[..|xs| - 1], key), xs[|xs| - 1], key)
  }

  lemma {:induction false} InsertBounded<T>(sorted: seq<T>, x: T, key: T -> int, bound: int)
    requires key(x) <= bound && forall i :: 0 <= i < |sorted| ==> key(sorted[i]) <= bound
    ensures forall i :: 0 <= i < |InsertBy(sorted, x, key)| ==> key(InsertBy(sorted, x, key)[i]) <= bound
  {
    if sorted != [] && key(sorted[|sorted| - 1]) > key(x) {
      InsertBounded(sorted[..|sorted| - 1], x, key, bound);
    }
  }

  lemma {:induction false} InsertSorted<T>(sorted: seq<T>, x: T, key: T -> int)
    requires SortedBy(sorted, key)
    ensures SortedBy(InsertBy(sorted, x, key), key)
  {
    if sorted != [] && key(sorted[|sorted| - 1]) > key(x) {
      InsertSorted(sorted[..|sorted| - 1], x, key);
      InsertBounded(sorted[..|sorted| - 1], x, key, key(sorted[|sorted| - 1]));
    }
  }

  lemma {:induction false} InsertKeeps<T>(sorted: seq<T>, x: T, key: T -> int)
    ensures multiset(InsertBy(sorted, x, key)) == multiset(sorted) + multiset{x}
  {
    if sorted != [] && key(sorted[|sorted| - 1]) > key(x) {
      InsertKeeps(sorted[..|sorted| - 1], x, key);
      assert sorted == sorted[..|sorted| - 1] + [sorted[|sorted| - 1]];
    }
  }

  /** The result is sorted and holds every element as often as before. */
  lemma {:induction false} SortBySorts<T>(xs: seq<T>, key: T -> int)
    ensures SortedBy(SortBy(xs, key), key)
    ensures multiset(SortBy(xs, key)) == multiset(xs)
  {
    if xs != [] {
      var n := |xs| - 1;
      SortBySorts(xs[..n], key);
      InsertSorted(SortBy(xs[..n], key), xs[n], key);
      InsertKeeps(SortBy(xs[..n], key), xs[n], key);
      assert xs == xs[..n] + [xs[n]];
    }
  }

  /** A sequence whose keys already increase is left alone. */
  lemma {:induction false} SortByFixed<T>(xs: seq<T>, key: T -> int)
    requires SortedBy(xs, key)
    ensures SortBy(xs, key) == xs
  {
    if xs != [] {
      SortByFixed(xs[..|xs| - 1], key);
    }
  }
}
