/**
 * Ordering a finite set by a strict total order. Two places in the server
 * receive their input in sorted order from code outside it: ioutil.ReadDir
 * lists a directory sorted by file name, and SQLite returns rows in ORDER BY
 * order. Both are modelled by SortSet.
 */
module Sorting {

  ghost predicate StrictTotalOrder<T(!new)>(less: (T, T) -> bool)
  {
    && (forall a :: !less(a, a))
    && (forall a, b, c :: less(a, b) && less(b, c) ==> less(a, c))
    && (forall a, b :: a != b ==> less(a, b) || less(b, a))
  }

  ghost predicate SortedBy<T>(s: seq<T>, less: (T, T) -> bool)
  {
    forall i, j :: 0 <= i < j < |s| ==> less(s[i], s[j])
  }

  /** Every non-empty finite set has a least element. */
  lemma {:induction false} HasLeast<T(!new)>(s: set<T>, less: (T, T) -> bool)
    requires StrictTotalOrder(less) && s != {}
    ensures exists m :: m in s && forall x :: x in s && x != m ==> less(m, x)
    decreases |s|
  {
    var y :| y in s;
    var rest := s - {y};
    if rest == {} {
      assert s == {y};
    } else {
      HasLeast(rest, less);
      var m :| m in rest && forall x :: x in rest && x != m ==> less(m, x);
      if less(y, m) {
        forall x | x in s && x != y
          ensures less(y, x)
        {
          if x != m {
            assert x in rest;
            assert less(m, x);
          }
        }
        assert y in s && forall x :: x in s && x != y ==> less(y, x);
      } else {
        assert y != m;
        assert less(m, y);
        forall x | x in s && x != m
          ensures less(m, x)
        {
          if x != y {
            assert x in rest;
          }
        }
        assert m in s && forall x :: x in s && x != m ==> less(m, x);
      }
    }
  }

  /** The elements of `s`, each once, in increasing order: repeatedly take the least remaining element. */
  method SortSet<T(!new)>(s: set<T>, less: (T, T) -> bool) returns (r: seq<T>)
    requires StrictTotalOrder(less)
    ensures |r| == |s|
    ensures forall x :: x in s <==> x in r
    ensures SortedBy(r, less)
  {
    r := [];
    var rest := s;
    while rest != {}
      invariant rest <= s
      invariant forall x :: x in s <==> x in r || x in rest
      invariant |r| + |rest| == |s|
      invariant SortedBy(r, less)
      invariant forall i, x :: 0 <= i < |r| && x in rest ==> less(r[i], x)
      decreases |rest|
    {
      HasLeast(rest, less);
      var m :| m in rest && forall x :: x in rest && x != m ==> less(m, x);
      r := r + [m];
      rest := rest - {m};
    }
  }

  /** The elements of a sequence without repetitions number as many as its length. */
  lemma {:induction false} DistinctElements<T>(a: seq<T>)
    requires forall i, j :: 0 <= i < j < |a| ==> a[i] != a[j]
    ensures |set x | x in a| == |a|
  {
    if a != [] {
      DistinctElements(a[1..]);
      var rest := set x | x in a[1..];
      assert (set x | x in a) == {a[0]} + rest;
      assert a[0] !in rest;
    }
  }

  /** Two sorted listings of the same elements start with the same, least, element. */
  lemma SortedHeadsAgree<T(!new)>(a: seq<T>, b: seq<T>, less: (T, T) -> bool)
    requires StrictTotalOrder(less)
    requires SortedBy(a, less) && SortedBy(b, less)
    requires forall x :: x in a <==> x in b
    requires a != [] && b != []
    ensures a[0] == b[0]
  {
    assert a[0] in b;
    var j :| 0 <= j < |b| && b[j] == a[0];
    assert b[0] in a;
    var i :| 0 <= i < |a| && a[i] == b[0];
  }

  /** A strict total order sorts a collection one way only: two sorted listings of the same elements are equal. */
  lemma {:induction false} SortedUnique<T(!new)>(a: seq<T>, b: seq<T>, less: (T, T) -> bool)
    requires StrictTotalOrder(less)
    requires SortedBy(a, less) && SortedBy(b, less)
    requires forall x :: x in a <==> x in b
    ensures a == b
    decreases |a|
  {
    DistinctElements(a);
    DistinctElements(b);
    assert (set x | x in a) == (set x | x in b);
    if a != [] {
      SortedHeadsAgree(a, b, less);
      forall x ensures x in a[1..] <==> x in b[1..] {
        if x in a[1..] {
          var i :| 1 <= i < |a| && a[i] == x;
          assert less(a[0], x);
          assert x != b[0] && x in b;
          var j :| 0 <= j < |b| && b[j] == x;
          assert b[1..][j - 1] == x;
        }
        if x in b[1..] {
          var j :| 1 <= j < |b| && b[j] == x;
          assert less(b[0], x);
          assert x != a[0] && x in a;
          var i :| 0 <= i < |a| && a[i] == x;
          assert a[1..][i - 1] == x;
        }
      }
      SortedUnique(a[1..], b[1..], less);
      assert a == [a[0]] + a[1..] && b == [b[0]] + b[1..];
    }
  }
}
