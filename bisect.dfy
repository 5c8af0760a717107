/**
 * Right-biased binary search over an ascending list of thresholds, as done by
 * Python's `bisect.bisect_right`, together with its reference meaning: the
 * number of thresholds that are at most the searched value.
 */
module Bisect {

  /** Non-decreasing order: the precondition under which bisect_right is meaningful. */
  predicate Sorted(a: seq<real>) {
    forall i, j :: 0 <= i < j < |a| ==> a[i] <= a[j]
  }

  /** Strictly ascending order, the shape of every threshold list in the grading table. */
  predicate StrictlyIncreasing(a: seq<real>) {
    forall i, j :: 0 <= i < j < |a| ==> a[i] < a[j]
  }

  /** `i` splits `a` into a prefix of elements <= x and a suffix of elements > x. */
  predicate SplitsAt(a: seq<real>, x: real, i: nat) {
    && i <= |a|
    && (forall j :: 0 <= j < i ==> a[j] <= x)
    && (forall j :: i <= j < |a| ==> x < a[j])
  }

  /** The number of elements of `a` that are at most `x`. */
  function CountAtMost(a: seq<real>, x: real): (n: nat)
    ensures n <= |a|
  {
    if a == [] then 0
    else CountAtMost(a[..|a| - 1], x) + (if a[|a| - 1] <= x then 1 else 0)
  }

  /**
   * One step of the library's search loop: `lo` and `hi` bound the insertion
   * point; the middle element moves `hi` down when x is below it and `lo` up
   * otherwise, so equal elements end up to the left of the result.
   */
  function Search(a: seq<real>, x: real, lo: nat, hi: nat): (r: nat)
    requires lo <= hi <= |a|
    ensures lo <= r <= hi
    decreases hi - lo
  {
    if lo < hi then
      var mid := (lo + hi) / 2;
      if x < a[mid] then Search(a, x, lo, mid) else Search(a, x, mid + 1, hi)
    else
      lo
  }

  /** `bisect.bisect_right(a, x)`: the insertion point to the right of any elements equal to x. */
  function BisectRight(a: seq<real>, x: real): (i: nat)
    ensures i <= |a|
  {
    Search(a, x, 0, |a|)
  }

  lemma StrictlyIncreasingIsSorted(a: seq<real>)
    requires StrictlyIncreasing(a)
    ensures Sorted(a)
  {
  }

  /** The search keeps "everything left of lo is <= x, everything from hi on is > x". */
  lemma {:induction false} SearchSplits(a: seq<real>, x: real, lo: nat, hi: nat)
    requires Sorted(a)
    requires lo <= hi <= |a|
    requires forall j :: 0 <= j < lo ==> a[j] <= x
    requires forall j :: hi <= j < |a| ==> x < a[j]
    ensures SplitsAt(a, x, Search(a, x, lo, hi))
    decreases hi - lo
  {
    if lo < hi {
      var mid := (lo + hi) / 2;
      if x < a[mid] {
        SearchSplits(a, x, lo, mid);
      } else {
        SearchSplits(a, x, mid + 1, hi);
      }
    }
  }

  /** On sorted input the result of bisect_right splits the list at x. */
  lemma BisectRightSplits(a: seq<real>, x: real)
    requires Sorted(a)
    ensures SplitsAt(a, x, BisectRight(a, x))
  {
    SearchSplits(a, x, 0, |a|);
  }

  /** A split point is always the count of elements <= x. */
  lemma {:induction false} SplitIsCount(a: seq<real>, x: real, i: nat)
    requires SplitsAt(a, x, i)
    ensures CountAtMost(a, x) == i
  {
    if a != [] {
      var init := a[..|a| - 1];
      if i == |a| {
        assert SplitsAt(init, x, i - 1);
        SplitIsCount(init, x, i - 1);
      } else {
        assert SplitsAt(init, x, i);
        SplitIsCount(init, x, i);
      }
    }
  }

  /** bisect_right on a sorted list returns the number of elements <= x. */
  lemma BisectRightIsCount(a: seq<real>, x: real)
    ensures Sorted(a) ==> BisectRight(a, x) == CountAtMost(a, x)
  {
    if Sorted(a) {
      BisectRightSplits(a, x);
      SplitIsCount(a, x, BisectRight(a, x));
    }
  }

  /** A value equal to the k-th boundary lands just above it, at k + 1, never at k. */
  lemma BoundaryGoesUp(a: seq<real>, k: nat)
    requires StrictlyIncreasing(a)
    requires k < |a|
    ensures BisectRight(a, a[k]) == k + 1
  {
    StrictlyIncreasingIsSorted(a);
    BisectRightSplits(a, a[k]);
    var i := BisectRight(a, a[k]);
    assert k < i;
    assert k + 1 < |a| ==> a[k] < a[k + 1];
  }

  /** Below the first boundary the insertion point is 0; at or above the last it is |a|. */
  lemma BisectRightExtremes(a: seq<real>, x: real)
    requires Sorted(a)
    requires |a| > 0
    ensures x < a[0] ==> BisectRight(a, x) == 0
    ensures a[|a| - 1] <= x ==> BisectRight(a, x) == |a|
  {
    BisectRightSplits(a, x);
  }

  /** The insertion point never decreases as the value grows. */
  lemma BisectRightMonotone(a: seq<real>, x: real, y: real)
    requires Sorted(a)
    requires x <= y
    ensures BisectRight(a, x) <= BisectRight(a, y)
  {
    BisectRightSplits(a, x);
    BisectRightSplits(a, y);
    var i, j := BisectRight(a, x), BisectRight(a, y);
    assert j < |a| ==> y < a[j];
  }
}
