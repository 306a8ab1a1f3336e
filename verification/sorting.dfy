/**
  Python's `sorted(xs, key=k)` for an integer key: a stable sort, written as
  insertion sort on sequences.
 */
module Sorting {

  ghost predicate SortedBy<T>(xs: seq<T>, key: T -> int) {
    forall i, j | 0 <= i < j < |xs| :: key(xs[i]) <= key(xs[j])
  }

  /** Inserts `x` after every element whose key is not greater, so equal keys keep their order. */
  function Insert<T>(sorted: seq<T>, x: T, key: T -> int): (r: seq<T>)
    requires SortedBy(sorted, key)
    ensures multiset(r) == multiset(sorted) + multiset{x}
    ensures forall y | y in r :: y == x || y in sorted
    ensures SortedBy(r, key)
    decreases |sorted|
  {
    if |sorted| == 0 || key(sorted[|sorted| - 1]) <= key(x) then
      sorted + [x]
    else
      var init := sorted[..|sorted| - 1];
      var last := sorted[|sorted| - 1];
      assert sorted == init + [last];
      var mid := Insert(init, x, key);
      KeysBelowLast(sorted, x, key, mid);
      AppendMaxSorted(mid, last, key);
      mid + [last]
  }

  /**
    When `x` sorts before the last element, whatever holds only `x` and
    elements of the rest lies at or below that last element's key.
   */
  lemma KeysBelowLast<T>(sorted: seq<T>, x: T, key: T -> int, mid: seq<T>)
    requires SortedBy(sorted, key) && |sorted| > 0 && key(x) < key(sorted[|sorted| - 1])
    requires forall y | y in mid :: y == x || y in sorted[..|sorted| - 1]
    ensures forall i | 0 <= i < |mid| :: key(mid[i]) <= key(sorted[|sorted| - 1])
  {
    forall i | 0 <= i < |mid|
      ensures key(mid[i]) <= key(sorted[|sorted| - 1])
    {
      var y := mid[i];
      assert y in mid;
      if y != x {
        var j :| 0 <= j < |sorted| - 1 && sorted[..|sorted| - 1][j] == y;
        assert sorted[j] == y;
      }
    }
  }

  /** Appending an element whose key bounds all the others keeps the order. */
  lemma AppendMaxSorted<T>(xs: seq<T>, last: T, key: T -> int)
    requires SortedBy(xs, key)
    requires forall i | 0 <= i < |xs| :: key(xs[i]) <= key(last)
    ensures SortedBy(xs + [last], key)
  {
  }

  /** A stable sort by `key`: a permutation of `xs` in non-decreasing key order. */
  function InsertionSort<T>(xs: seq<T>, key: T -> int): (r: seq<T>)
    ensures multiset(r) == multiset(xs)
    ensures SortedBy(r, key)
  {
    if |xs| == 0 then []
    else
      assert xs == xs[..|xs| - 1] + [xs[|xs| - 1]];
      Insert(InsertionSort(xs[..|xs| - 1], key), xs[|xs| - 1], key)
  }

  /** Sorting a sequence that is already in key order leaves it unchanged. */
  lemma {:induction false} SortKeepsSorted<T>(xs: seq<T>, key: T -> int)
    requires SortedBy(xs, key)
    ensures InsertionSort(xs, key) == xs
  {
    if |xs| > 0 {
      var init, last := xs[..|xs| - 1], xs[|xs| - 1];
      SortedSplit(xs, key);
      SortKeepsSorted(init, key);
      InsertAtEnd(init, last, key);
    }
  }

  lemma SortedSplit<T>(xs: seq<T>, key: T -> int)
    requires SortedBy(xs, key) && |xs| > 0
    ensures SortedBy(xs[..|xs| - 1], key)
    ensures |xs| == 1 || key(xs[|xs| - 2]) <= key(xs[|xs| - 1])
  {
  }

  lemma InsertAtEnd<T>(init: seq<T>, x: T, key: T -> int)
    requires SortedBy(init, key)
    requires |init| == 0 || key(init[|init| - 1]) <= key(x)
    ensures Insert(init, x, key) == init + [x]
  {
  }
}
