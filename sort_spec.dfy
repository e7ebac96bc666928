/**
 * What the sorting routines promise, stated once for all of them: sorted
 * order, counts of the elements at most a pivot, and the step that turns a
 * partitioned range with two sorted sides into a sorted range.
 *
 * The quicksorts sort `int` arrays; `std::swap` and the pointer `swap` of
 * the Lomuto variant are both `Swap` here.
 */
module SortSpec {
  /**
   * The index range `[start, end]`, inclusive at both ends as both
   * quicksorts pass it, can be worked on in an array of length `len`: it
   * is empty (the recursion's base case), or it lies inside the array.
   */
  predicate InBounds(len: int, start: int, end: int)
  {
    start >= end || (0 <= start && end < len)
  }

  predicate Sorted(s: seq<int>)
  {
    forall i, j :: 0 <= i < j < |s| ==> s[i] <= s[j]
  }

  predicate AllAtMost(s: seq<int>, v: int)
  {
    forall k :: 0 <= k < |s| ==> s[k] <= v
  }

  predicate AllAbove(s: seq<int>, v: int)
  {
    forall k :: 0 <= k < |s| ==> s[k] > v
  }

  /** How many elements of `s` are at most `v`. */
  function CountAtMost(s: seq<int>, v: int): (r: nat)
    ensures r <= |s|
  {
    if s == [] then 0 else CountAtMost(s[..|s| - 1], v) + (if s[|s| - 1] <= v then 1 else 0)
  }

  lemma {:induction false} CountAtMostAppend(x: seq<int>, y: seq<int>, v: int)
    ensures CountAtMost(x + y, v) == CountAtMost(x, v) + CountAtMost(y, v)
    decreases |y|
  {
    if y != [] {
      var n := |y| - 1;
      assert (x + y)[..|x + y| - 1] == x + y[..n];
      CountAtMostAppend(x, y[..n], v);
    } else {
      assert x + y == x;
    }
  }

  /** The count is the length exactly when every element is at most `v`. */
  lemma {:induction false} CountAtMostAll(s: seq<int>, v: int)
    ensures CountAtMost(s, v) == |s| <==> AllAtMost(s, v)
    decreases |s|
  {
    if s != [] {
      var n := |s| - 1;
      CountAtMostAll(s[..n], v);
      assert AllAtMost(s, v) <==> AllAtMost(s[..n], v) && s[n] <= v;
    }
  }

  /** The count is 0 exactly when every element is above `v`. */
  lemma {:induction false} CountAtMostNone(s: seq<int>, v: int)
    ensures CountAtMost(s, v) == 0 <==> AllAbove(s, v)
    decreases |s|
  {
    if s != [] {
      var n := |s| - 1;
      CountAtMostNone(s[..n], v);
      assert AllAbove(s, v) <==> AllAbove(s[..n], v) && s[n] > v;
    }
  }

  /** Overwriting one element changes the count by that element's contribution. */
  lemma {:induction false} CountAtMostUpdate(s: seq<int>, i: int, w: int, v: int)
    requires 0 <= i < |s|
    ensures CountAtMost(s[i := w], v) ==
      CountAtMost(s, v) - (if s[i] <= v then 1 else 0) + (if w <= v then 1 else 0)
    decreases |s|
  {
    var n := |s| - 1;
    if i < n {
      assert s[i := w][..n] == s[..n][i := w];
      CountAtMostUpdate(s[..n], i, w, v);
    } else {
      assert s[i := w][..n] == s[..n];
    }
  }

  /** Exchanging two elements keeps the count. */
  lemma CountAtMostSwap(s: seq<int>, i: int, j: int, v: int)
    requires 0 <= i < |s| && 0 <= j < |s|
    ensures CountAtMost(s[i := s[j]][j := s[i]], v) == CountAtMost(s, v)
  {
    CountAtMostUpdate(s, i, s[j], v);
    CountAtMostUpdate(s[i := s[j]], j, s[i], v);
  }

  /** Outside `[s, e]` `x` equals `x0`, and inside it holds the same elements. */
  predicate Kept(x: seq<int>, x0: seq<int>, s: int, e: int)
    requires 0 <= s <= e < |x0|
  {
    |x| == |x0| && x[..s] == x0[..s] && x[e + 1..] == x0[e + 1..] &&
    multiset(x[s..e + 1]) == multiset(x0[s..e + 1])
  }

  /** `std::swap(a[i], a[j])`, and `swap(&a[i], &a[j])` through `int` pointers. */
  method Swap(a: array<int>, i: int, j: int)
    requires 0 <= i < a.Length && 0 <= j < a.Length
    modifies a
    ensures a[..] == old(a[..])[i := old(a[j])][j := old(a[i])]
    ensures a[i] == old(a[j]) && a[j] == old(a[i])
    ensures forall k :: 0 <= k < a.Length && k != i && k != j ==> a[k] == old(a[k])
  {
    a[i], a[j] := a[j], a[i];
  }

  /**
   * Exchanging two elements of the range `[s, e]` of `x` leaves the rest of
   * `x` alone and keeps the range's multiset and its count of elements at
   * most `v`.
   */
  lemma SwapInRange(x: seq<int>, s: int, e: int, i: int, j: int, v: int)
    requires 0 <= s <= i <= e < |x| && s <= j <= e
    ensures var y := x[i := x[j]][j := x[i]];
      y[..s] == x[..s] && y[e + 1..] == x[e + 1..] &&
      multiset(y[s..e + 1]) == multiset(x[s..e + 1]) &&
      CountAtMost(y[s..e + 1], v) == CountAtMost(x[s..e + 1], v)
  {
    var y := x[i := x[j]][j := x[i]];
    var r := x[s..e + 1];
    assert y[s..e + 1] == r[i - s := r[j - s]][j - s := r[i - s]];
    CountAtMostSwap(r, i - s, j - s, v);
  }

  /** Exchanging two elements of `[s, e]` keeps the range's elements and the rest of the array. */
  lemma SwapKept(y: seq<int>, x: seq<int>, s: int, e: int, i: int, j: int)
    requires 0 <= s <= e < |x| && Kept(y, x, s, e)
    requires s <= i <= e && s <= j <= e
    ensures Kept(y[i := y[j]][j := y[i]], x, s, e)
  {
    SwapInRange(y, s, e, i, j, 0);
  }

  /** A permutation keeps every bound that holds for all elements. */
  lemma PermutationKeepsBounds(x: seq<int>, y: seq<int>, v: int)
    requires multiset(x) == multiset(y)
    ensures AllAtMost(x, v) ==> AllAtMost(y, v)
    ensures AllAbove(x, v) ==> AllAbove(y, v)
  {
    forall k | 0 <= k < |y|
      ensures y[k] in multiset(x)
    {
      assert y[k] in multiset(y);
    }
  }

  /**
   * What a quicksort call on the inclusive range `[s, e]` promises, `x0`
   * being the array before and `x` after: an empty range (`s >= e`) leaves
   * the array as it was; otherwise the range lies inside the array, ends
   * sorted and holds the elements it held, and nothing outside it changes.
   */
  predicate SortedRange(x: seq<int>, x0: seq<int>, s: int, e: int)
  {
    if s >= e then x == x0
    else
      0 <= s && e < |x0| && |x| == |x0| &&
      Sorted(x[s..e + 1]) && multiset(x[s..e + 1]) == multiset(x0[s..e + 1]) &&
      x[..s] == x0[..s] && x[e + 1..] == x0[e + 1..]
  }

  /**
   * The recursion step of both quicksorts: a range partitioned around the
   * pivot at `p`, whose two sides are then sorted in place one after the
   * other, is sorted and holds the elements it held before: `x` is the
   * array before the partition, `x0` after it, `x1` after the left side is
   * sorted and `x2` after the right side is.
   */
  lemma SortedAroundPivot(x: seq<int>, x0: seq<int>, x1: seq<int>, x2: seq<int>, s: int, p: int, e: int)
    requires 0 <= s <= p <= e < |x| && s < e && Kept(x0, x, s, e)
    requires AllAtMost(x0[s..p], x0[p]) && AllAbove(x0[p + 1..e + 1], x0[p])
    requires SortedRange(x1, x0, s, p - 1) && SortedRange(x2, x1, p + 1, e)
    ensures SortedRange(x2, x, s, e)
  {
    assert |x1| == |x0| && |x2| == |x1|;
    assert x1[..s] == x0[..s] && x1[p..] == x0[p..] by {
      if s < p - 1 {
        assert x1[p..] == x1[p - 1 + 1..];
      }
    }
    assert x2[..p + 1] == x1[..p + 1] && x2[e + 1..] == x1[e + 1..];
    SidesSortedAroundPivot(x0, x1, x2, s, p, e);
    assert x2[..s] == x[..s] && x2[e + 1..] == x[e + 1..];
  }

  lemma SidesSortedAroundPivot(x0: seq<int>, x1: seq<int>, x2: seq<int>, s: int, p: int, e: int)
    requires 0 <= s <= p <= e < |x0| && |x1| == |x0| && |x2| == |x0|
    requires AllAtMost(x0[s..p], x0[p]) && AllAbove(x0[p + 1..e + 1], x0[p])
    requires x1[..s] == x0[..s] && x1[p..] == x0[p..]
    requires Sorted(x1[s..p]) && multiset(x1[s..p]) == multiset(x0[s..p])
    requires x2[..p + 1] == x1[..p + 1] && x2[e + 1..] == x1[e + 1..]
    requires Sorted(x2[p + 1..e + 1]) && multiset(x2[p + 1..e + 1]) == multiset(x1[p + 1..e + 1])
    ensures Sorted(x2[s..e + 1]) && multiset(x2[s..e + 1]) == multiset(x0[s..e + 1])
    ensures x2[..s] == x0[..s] && x2[e + 1..] == x0[e + 1..]
  {
    var pivot := x0[p];
    var left, right := x2[s..p], x2[p + 1..e + 1];
    assert left == x1[s..p];
    assert x1[p + 1..e + 1] == x0[p + 1..e + 1];
    assert x2[p] == pivot;
    PermutationKeepsBounds(x0[s..p], left, pivot);
    PermutationKeepsBounds(x0[p + 1..e + 1], right, pivot);
    assert x2[s..e + 1] == left + [pivot] + right;
    assert x0[s..e + 1] == x0[s..p] + [pivot] + x0[p + 1..e + 1];
    assert x2[..s] == x1[..s];
    assert x2[e + 1..] == x0[e + 1..];
  }
}
