/**
 * What the pipelines need of Go's `sort.Sort`: given a strict total order,
 * the result is sorted and a permutation of the input. The algorithm below is
 * an insertion sort; the library's own algorithm is not modelled.
 */
module Sorting {
  import opened Collections

  ghost predicate StrictTotalOrder<T(!new)>(less: (T, T) -> bool)
  {
    && (forall x :: !less(x, x))
    && (forall x, y, z :: less(x, y) && less(y, z) ==> less(x, z))
    && (forall x, y :: x != y ==> less(x, y) || less(y, x))
  }

  /** No later element is smaller than an earlier one (what `sort.IsSorted` checks). */
  predicate Sorted<T>(s: seq<T>, less: (T, T) -> bool)
  {
    forall i, j :: 0 <= i < j < |s| ==> !less(s[j], s[i])
  }

  /** Every earlier element is strictly smaller than every later one. */
  predicate StrictlySorted<T>(s: seq<T>, less: (T, T) -> bool)
  {
    forall i, j :: 0 <= i < j < |s| ==> less(s[i], s[j])
  }

  /** For distinct elements, sorted means strictly sorted. */
  lemma SortedDistinctIsStrict<T(!new)>(s: seq<T>, less: (T, T) -> bool)
    requires StrictTotalOrder(less)
    requires Sorted(s, less) && Distinct(s)
    ensures StrictlySorted(s, less)
  {
    forall i, j | 0 <= i < j < |s|
      ensures less(s[i], s[j])
    {
      assert s[i] != s[j] && !less(s[j], s[i]);
    }
  }

  /**
   * Inserting `x` in front of the first element that is not smaller than it
   * keeps a sorted sequence sorted.
   */
  lemma InsertKeepsSorted<T(!new)>(r: seq<T>, p: nat, x: T, less: (T, T) -> bool)
    requires StrictTotalOrder(less)
    requires Sorted(r, less) && p <= |r|
    requires forall k :: 0 <= k < p ==> less(r[k], x)
    requires p < |r| ==> !less(r[p], x)
    ensures Sorted(r[..p] + [x] + r[p..], less)
  {
    var t := r[..p] + [x] + r[p..];
    forall a, b | 0 <= a < b < |t|
      ensures !less(t[b], t[a])
    {
      if b < p || a > p {
        assert t[a] == r[if a < p then a else a - 1];
        assert t[b] == r[if b < p then b else b - 1];
      } else if a < p {
        assert less(r[a], x);
        if b > p {
          assert t[b] == r[b - 1];
          assert !less(r[b - 1], r[a]);
        }
      } else {
        assert t[a] == x && t[b] == r[b - 1];
        assert b - 1 == p || !less(r[b - 1], r[p]);
      }
    }
  }

  lemma InsertAddsOne<T>(r: seq<T>, p: nat, x: T)
    requires p <= |r|
    ensures multiset(r[..p] + [x] + r[p..]) == multiset(r) + multiset{x}
  {
    assert r == r[..p] + r[p..];
  }

  /**
   * Sorts `s` by `less`: the result is sorted and has the same elements,
   * each as often, as the input.
   */
  method Sort<T(!new)>(s: seq<T>, less: (T, T) -> bool) returns (r: seq<T>)
    requires StrictTotalOrder(less)
    ensures Sorted(r, less)
    ensures multiset(r) == multiset(s)
  {
    r := [];
    for i := 0 to |s|
      invariant Sorted(r, less)
      invariant multiset(r) == multiset(s[..i])
    {
      var x := s[i];
      var p := 0;
      while p < |r| && less(r[p], x)
        invariant 0 <= p <= |r|
        invariant forall k :: 0 <= k < p ==> less(r[k], x)
      {
        p := p + 1;
      }
      InsertKeepsSorted(r, p, x, less);
      InsertAddsOne(r, p, x);
      r := r[..p] + [x] + r[p..];
      assert s[..i + 1] == s[..i] + [x];
    }
    assert s[..|s|] == s;
  }
}
