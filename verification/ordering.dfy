/**
 Strict total orders and the sorted enumeration of a finite set under one. A sweep scan
 hands out cells in ascending cell order and each cell's timestamps in ascending order;
 both are the enumeration defined here.
 */
module Ordering {
  import opened Sequences

  /** `less` is irreflexive, transitive and relates every two distinct values. */
  ghost predicate StrictTotalOrder<T(!new)>(less: (T, T) -> bool) {
    && (forall x :: !less(x, x))
    && (forall x, y, z :: less(x, y) && less(y, z) ==> less(x, z))
    && (forall x, y :: x != y ==> less(x, y) || less(y, x))
  }

  /** Every element is `less` than every later one: ascending, with no duplicates. */
  predicate StrictlySorted<T>(xs: seq<T>, less: (T, T) -> bool) {
    forall i, j :: 0 <= i < j < |xs| ==> less(xs[i], xs[j])
  }

  /** `m` is the least element of `s`. */
  predicate IsLeast<T(==)>(m: T, s: set<T>, less: (T, T) -> bool) {
    m in s && forall x :: x in s && x != m ==> less(m, x)
  }

  lemma {:induction false} LeastExists<T(!new)>(s: set<T>, less: (T, T) -> bool)
    requires s != {}
    requires StrictTotalOrder(less)
    ensures exists m :: IsLeast(m, s, less)
  {
    var x :| x in s;
    if s == {x} {
      assert IsLeast(x, s, less);
    } else {
      LeastExists(s - {x}, less);
      var m :| IsLeast(m, s - {x}, less);
      if less(x, m) {
        forall y | y in s && y != x
          ensures less(x, y)
        {
          assert y in s - {x};
          if y != m {
            assert less(m, y);
          }
        }
        assert IsLeast(x, s, less);
      } else {
        forall y | y in s && y != m
          ensures less(m, y)
        {
          if y != x {
            assert y in s - {x};
          }
        }
        assert IsLeast(m, s, less);
      }
    }
  }

  /** The least element of a non-empty finite set. */
  function Least<T(!new)>(s: set<T>, less: (T, T) -> bool): (m: T)
    requires s != {}
    requires StrictTotalOrder(less)
    ensures m in s
    ensures forall x :: x in s && x != m ==> less(m, x)
  {
    LeastExists(s, less);
    var m :| IsLeast(m, s, less);
    m
  }

  /** The elements of `s` in ascending order, each once. */
  function Enumerate<T(!new)>(s: set<T>, less: (T, T) -> bool): (r: seq<T>)
    requires StrictTotalOrder(less)
    ensures StrictlySorted(r, less)
    ensures |r| == |s|
    ensures forall x :: x in r <==> x in s
    decreases |s|
  {
    if s == {} then []
    else
      var m := Least(s, less);
      [m] + Enumerate(s - {m}, less)
  }

  /** A set has at most one least element. */
  lemma LeastUnique<T(!new)>(m1: T, m2: T, s: set<T>, less: (T, T) -> bool)
    requires StrictTotalOrder(less)
    requires IsLeast(m1, s, less) && IsLeast(m2, s, less)
    ensures m1 == m2
  {
  }

  /** The head of a strictly sorted sequence is the least of its elements. */
  lemma HeadIsLeast<T(!new)>(xs: seq<T>, less: (T, T) -> bool)
    requires StrictTotalOrder(less)
    requires StrictlySorted(xs, less) && xs != []
    ensures IsLeast(xs[0], (set x | x in xs), less)
  {
    forall y | y in xs && y != xs[0]
      ensures less(xs[0], y)
    {
      var i :| 0 <= i < |xs| && xs[i] == y;
    }
  }

  lemma SameElementsSameEmptiness<T(!new)>(a: seq<T>, b: seq<T>)
    requires forall x :: x in a <==> x in b
    ensures a == [] <==> b == []
  {
    if a != [] {
      assert a[0] in a;
    }
    if b != [] {
      assert b[0] in b;
    }
  }

  /** Two strictly sorted sequences with the same elements are the same sequence. */
  lemma {:induction false} SortedUnique<T(!new)>(a: seq<T>, b: seq<T>, less: (T, T) -> bool)
    requires StrictTotalOrder(less)
    requires StrictlySorted(a, less) && StrictlySorted(b, less)
    requires forall x :: x in a <==> x in b
    ensures a == b
  {
    SameElementsSameEmptiness(a, b);
    if a != [] {
      var s := set x | x in a;
      assert s == set x | x in b;
      HeadIsLeast(a, less);
      HeadIsLeast(b, less);
      LeastUnique(a[0], b[0], s, less);
      forall x
        ensures x in a[1..] <==> x in b[1..]
      {
        if x in a[1..] {
          var i :| 0 <= i < |a[1..]| && a[1..][i] == x;
          assert less(a[0], a[i + 1]);
          assert a[i + 1] in a;
          var k :| 0 <= k < |b| && b[k] == x;
          assert k != 0;
          assert b[1..][k - 1] == x;
        }
        if x in b[1..] {
          var i :| 0 <= i < |b[1..]| && b[1..][i] == x;
          assert less(b[0], b[i + 1]);
          assert b[i + 1] in b;
          var k :| 0 <= k < |a| && a[k] == x;
          assert k != 0;
          assert a[1..][k - 1] == x;
        }
      }
      SortedUnique(a[1..], b[1..], less);
      assert a == [a[0]] + a[1..];
      assert b == [b[0]] + b[1..];
    }
  }

  /** Two sorted sequences, every element of the first below every element of the second, concatenate sorted. */
  lemma SortedConcat<T>(a: seq<T>, b: seq<T>, less: (T, T) -> bool)
    requires StrictlySorted(a, less) && StrictlySorted(b, less)
    requires forall i, j :: 0 <= i < |a| && 0 <= j < |b| ==> less(a[i], b[j])
    ensures StrictlySorted(a + b, less)
  {
    forall i, j | 0 <= i < j < |a + b|
      ensures less((a + b)[i], (a + b)[j])
    {
      if j < |a| {
        assert (a + b)[i] == a[i] && (a + b)[j] == a[j];
      } else if i < |a| {
        assert (a + b)[i] == a[i] && (a + b)[j] == b[j - |a|];
      } else {
        assert (a + b)[i] == b[i - |a|] && (a + b)[j] == b[j - |a|];
      }
    }
  }

  /** Filtering keeps the relative order of what it keeps. */
  lemma {:induction false} FilterSorted<T(!new)>(p: T -> bool, xs: seq<T>, less: (T, T) -> bool)
    requires StrictlySorted(xs, less)
    ensures StrictlySorted(Filter(p, xs), less)
  {
    if xs != [] {
      assert StrictlySorted(xs[1..], less);
      FilterSorted(p, xs[1..], less);
      var rest := Filter(p, xs[1..]);
      forall j | 0 <= j < |rest|
        ensures less(xs[0], rest[j])
      {
        assert rest[j] in xs[1..];
        var k :| 0 <= k < |xs[1..]| && xs[1..][k] == rest[j];
        assert xs[k + 1] == rest[j];
      }
    }
  }
}
