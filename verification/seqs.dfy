/** Subsequences, witnessed by a strictly increasing list of positions. */
module Seqs {
  import opened Wrappers

  /** `idx[i]` is where `a[i]` sits in `b`, and the positions increase. */
  ghost predicate Embeds<T>(idx: seq<int>, a: seq<T>, b: seq<T>) {
    && |idx| == |a|
    && (forall i | 0 <= i < |idx| :: 0 <= idx[i] < |b| && b[idx[i]] == a[i])
    && (forall i, j | 0 <= i < j < |idx| :: idx[i] < idx[j])
  }

  /** `a` is `b` with some elements left out, the rest in their original order. */
  ghost predicate IsSubsequence<T>(a: seq<T>, b: seq<T>) {
    exists idx :: Embeds(idx, a, b)
  }

  /** Appending to `b` alone keeps the embedding. */
  lemma EmbedsExtendRight<T>(idx: seq<int>, a: seq<T>, b: seq<T>, extra: seq<T>)
    requires Embeds(idx, a, b)
    ensures Embeds(idx, a, b + extra)
  {
    forall i | 0 <= i < |idx|
      ensures (b + extra)[idx[i]] == a[i]
    {
      assert idx[i] < |b|;
    }
  }

  /** Appending the same element to both keeps the embedding, one position longer. */
  lemma EmbedsExtendBoth<T>(idx: seq<int>, a: seq<T>, b: seq<T>, x: T, extra: seq<T>)
    requires Embeds(idx, a, b)
    ensures Embeds(idx + [|b|], a + [x], b + [x] + extra)
  {
    var idx' := idx + [|b|];
    var b' := b + [x] + extra;
    forall i | 0 <= i < |idx'|
      ensures 0 <= idx'[i] < |b'| && b'[idx'[i]] == (a + [x])[i]
    {
      if i < |idx| {
        assert idx'[i] == idx[i] && idx[i] < |b|;
      }
    }
    forall i, j | 0 <= i < j < |idx'|
      ensures idx'[i] < idx'[j]
    {
      if j < |idx| {
        assert idx'[i] == idx[i] && idx'[j] == idx[j];
      } else {
        assert idx'[i] == idx[i] && idx[i] < |b|;
      }
    }
  }
  /** No element occurs twice. */
  ghost predicate NoDuplicates<T>(xs: seq<T>) {
    forall i, j | 0 <= i < j < |xs| :: xs[i] != xs[j]
  }

  /** The elements of `xs` at their first occurrence, in order of first appearance. */
  function Distinct<T(==)>(xs: seq<T>): (r: seq<T>)
    ensures forall i | 0 <= i < |r| :: r[i] in xs
    ensures forall i | 0 <= i < |xs| :: xs[i] in r
    ensures NoDuplicates(r)
  {
    if xs == [] then []
    else
      var init := Distinct(xs[..|xs| - 1]);
      var x := xs[|xs| - 1];
      if x in xs[..|xs| - 1] then init else init + [x]
  }

  /** Appending an element extends `Distinct` by it when it is new. */
  lemma DistinctSnoc<T>(xs: seq<T>, x: T)
    ensures Distinct(xs + [x]) == Distinct(xs) + (if x in xs then [] else [x])
  {
    assert (xs + [x])[..|xs|] == xs;
  }

  /** `Distinct(xs)` is `xs` with the repeated occurrences left out. */
  lemma {:induction false} DistinctIsSubsequence<T>(xs: seq<T>) returns (idx: seq<int>)
    ensures Embeds(idx, Distinct(xs), xs)
    ensures forall i | 0 <= i < |idx| :: xs[idx[i]] !in xs[..idx[i]]
  {
    if xs == [] {
      idx := [];
    } else {
      var init := xs[..|xs| - 1];
      var x := xs[|xs| - 1];
      var idx0 := DistinctIsSubsequence(init);
      assert xs == init + [x] + [];
      FirstsCarry(xs, init, idx0);
      if x in init {
        EmbedsExtendRight(idx0, Distinct(init), init, [x]);
        idx := idx0;
      } else {
        EmbedsExtendBoth(idx0, Distinct(init), init, x, []);
        idx := idx0 + [|init|];
        assert xs[..|init|] == init;
      }
    }
  }

  /** Positions of first occurrences in a prefix stay first occurrences in the whole. */
  lemma FirstsCarry<T>(xs: seq<T>, init: seq<T>, idx: seq<int>)
    requires |init| <= |xs| && init == xs[..|init|]
    requires forall i | 0 <= i < |idx| :: 0 <= idx[i] < |init| && init[idx[i]] !in init[..idx[i]]
    ensures forall i | 0 <= i < |idx| :: xs[idx[i]] !in xs[..idx[i]]
  {
    forall i | 0 <= i < |idx| ensures xs[idx[i]] !in xs[..idx[i]] {
      assert xs[..idx[i]] == init[..idx[i]];
    }
  }

  /** A sequence without repetitions is its own `Distinct`. */
  lemma {:induction false} DistinctOfDistinct<T>(xs: seq<T>)
    requires NoDuplicates(xs)
    ensures Distinct(xs) == xs
  {
    if xs != [] {
      var init := xs[..|xs| - 1];
      DistinctOfDistinct(init);
      assert xs[|xs| - 1] !in init;
      assert init + [xs[|xs| - 1]] == xs;
    }
  }

  /** The values `f` yields along `xs`, in order, leaving out the elements it maps to `None`. */
  function FilterMap<A, B>(xs: seq<A>, f: A -> Option<B>): (ys: seq<B>)
    ensures |ys| <= |xs|
  {
    if xs == [] then []
    else
      var n := |xs| - 1;
      var y := f(xs[n]);
      FilterMap(xs[..n], f) + (if y.Some? then [y.value] else [])
  }

  /**
    `FilterMap` keeps exactly the yielded values, in order: output `k` is what
    `f` yields at position `idx[k]`, the positions increase, and every position
    where `f` yields a value is among them.
   */
  lemma {:induction false} FilterMapEmbedding<A, B>(xs: seq<A>, f: A -> Option<B>) returns (idx: seq<int>)
    ensures |idx| == |FilterMap(xs, f)|
    ensures forall k | 0 <= k < |idx| :: 0 <= idx[k] < |xs| && f(xs[idx[k]]) == Some(FilterMap(xs, f)[k])
    ensures forall k, l | 0 <= k < l < |idx| :: idx[k] < idx[l]
    ensures forall j | 0 <= j < |xs| && f(xs[j]).Some? :: exists k :: 0 <= k < |idx| && idx[k] == j
  {
    if xs == [] {
      idx := [];
    } else {
      var n := |xs| - 1;
      var init := xs[..n];
      var idx0 := FilterMapEmbedding(init, f);
      var ys0 := FilterMap(init, f);
      assert forall j | 0 <= j < n :: xs[j] == init[j];
      if f(xs[n]).Some? {
        idx := idx0 + [n];
        assert FilterMap(xs, f) == ys0 + [f(xs[n]).value];
        forall j | 0 <= j < |xs| && f(xs[j]).Some?
          ensures exists k :: 0 <= k < |idx| && idx[k] == j
        {
          if j < n {
            var k :| 0 <= k < |idx0| && idx0[k] == j;
            assert idx[k] == j;
          } else {
            assert idx[|idx0|] == j;
          }
        }
      } else {
        idx := idx0;
        assert FilterMap(xs, f) == ys0;
      }
    }
  }
}
