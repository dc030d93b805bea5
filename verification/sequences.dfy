/**
 Filtering and flattening of sequences: the shape of the `Iterators.concat` /
 `Iterators.filter` pipeline through which a caller reads the batches of a sweep scan.
 */
module Sequences {

  /** The elements of `xs` that satisfy `p`, in their original order. */
  function Filter<T(!new)>(p: T -> bool, xs: seq<T>): (r: seq<T>)
    ensures |r| <= |xs|
    ensures forall x :: x in r <==> x in xs && p(x)
    ensures forall i :: 0 <= i < |r| ==> p(r[i])
  {
    if xs == [] then []
    else if p(xs[0]) then [xs[0]] + Filter(p, xs[1..])
    else Filter(p, xs[1..])
  }

  /** `f` applied to each element of `xs`, in order. */
  function Map<T, U>(f: T -> U, xs: seq<T>): (r: seq<U>)
    ensures |r| == |xs|
    ensures forall i :: 0 <= i < |xs| ==> r[i] == f(xs[i])
  {
    seq(|xs|, i requires 0 <= i < |xs| => f(xs[i]))
  }

  /** The concatenation of a sequence of batches, in batch order. */
  function Flatten<T(!new)>(batches: seq<seq<T>>): (r: seq<T>)
    ensures forall x :: x in r <==> exists i :: 0 <= i < |batches| && x in batches[i]
  {
    if batches == [] then []
    else
      var last := batches[|batches| - 1];
      var r := Flatten(batches[..|batches| - 1]) + last;
      assert forall i :: 0 <= i < |batches| - 1 ==> batches[..|batches| - 1][i] == batches[i];
      r
  }

  lemma FlattenAppend<T(!new)>(batches: seq<seq<T>>, b: seq<T>)
    ensures Flatten(batches + [b]) == Flatten(batches) + b
  {
    assert (batches + [b])[..|batches|] == batches;
  }

  /** Filtering keeps nothing when no element satisfies `p`. */
  lemma {:induction false} FilterNone<T(!new)>(p: T -> bool, xs: seq<T>)
    requires forall i :: 0 <= i < |xs| ==> !p(xs[i])
    ensures Filter(p, xs) == []
  {
    if xs != [] {
      FilterNone(p, xs[1..]);
    }
  }

  /** `p` holds of an element of `xs` only if it holds of every earlier one. */
  predicate PrefixClosed<T>(p: T -> bool, xs: seq<T>) {
    forall i, j :: 0 <= i < j < |xs| && p(xs[j]) ==> p(xs[i])
  }

  /**
   When `p` is prefix-closed on `xs`, the sequence is the part satisfying `p` followed by
   the part satisfying its complement `q`.
   */
  lemma {:induction false} FilterSplitsPrefix<T(!new)>(p: T -> bool, q: T -> bool, xs: seq<T>)
    requires forall x :: q(x) == !p(x)
    requires PrefixClosed(p, xs)
    ensures xs == Filter(p, xs) + Filter(q, xs)
  {
    if xs != [] {
      var tail := xs[1..];
      forall i, j | 0 <= i < j < |tail| && p(tail[j])
        ensures p(tail[i])
      {
        assert tail[j] == xs[j + 1] && tail[i] == xs[i + 1];
      }
      assert PrefixClosed(p, tail);
      FilterSplitsPrefix(p, q, tail);
      if !p(xs[0]) {
        forall j | 0 <= j < |tail|
          ensures !p(tail[j])
        {
          assert tail[j] == xs[j + 1];
        }
        FilterNone(p, tail);
      }
    }
  }

  /** When `p` holds exactly from position `k` on, the suffix from `k` holds exactly the elements satisfying `p`. */
  lemma SuffixWhere<T(!new)>(p: T -> bool, xs: seq<T>, k: nat)
    requires k <= |xs|
    requires forall i :: 0 <= i < |xs| ==> (p(xs[i]) <==> i >= k)
    ensures forall x :: x in xs[k..] <==> x in xs && p(x)
  {
    forall x | x in xs[k..]
      ensures x in xs && p(x)
    {
      var j :| 0 <= j < |xs| - k && xs[k..][j] == x;
      assert xs[j + k] == x;
    }
  }
}
