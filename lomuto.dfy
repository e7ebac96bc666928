/**
 * The stand-alone quicksort with the Lomuto partition: the last element
 * of the range is the pivot, one scan grows the prefix of elements at most
 * it, and a final exchange puts the pivot after that prefix. The threaded
 * branch (depth at most 4) recurses on the same two ranges as the
 * sequential one and joins both threads, so it is the sequential
 * recursion here.
 */
module Lomuto {
  import opened SortSpec

  /** The scan's state: `[p, i]` at most the pivot `v`, `(i, j)` above it, the pivot still at `r`. */
  predicate Scanned(y: seq<int>, p: int, r: int, i: int, j: int, v: int)
  {
    0 <= p <= j <= r < |y| && p - 1 <= i < j && y[r] == v &&
    (forall k :: p <= k <= i ==> y[k] <= v) &&
    (forall k :: i < k < j ==> y[k] > v)
  }

  /** One pass of the scan: an element at most the pivot joins the prefix by an exchange. */
  lemma ScanStep(y: seq<int>, p: int, r: int, i: int, j: int, v: int)
    requires Scanned(y, p, r, i, j, v) && j < r && y[j] <= v
    ensures Scanned(y[i + 1 := y[j]][j := y[i + 1]], p, r, i + 1, j + 1, v)
  {
  }

  /** The final exchange puts the pivot between the two sides. */
  lemma ScanDone(y: seq<int>, p: int, r: int, i: int, v: int)
    requires Scanned(y, p, r, i, r, v)
    ensures var z := y[i + 1 := y[r]][r := y[i + 1]];
      z[i + 1] == v && AllAtMost(z[p..i + 1], v) && AllAbove(z[i + 2..r + 1], v)
  {
  }

  /** The body of the scan for index `j`: an element at most the pivot is exchanged into the prefix. */
  method ScanPass(a: array<int>, p: int, r: int, i: int, j: int, x: int, ghost x0: seq<int>)
    returns (i': int)
    requires Scanned(a[..], p, r, i, j, x) && j < r
    requires 0 <= p <= r < |x0| && Kept(a[..], x0, p, r)
    modifies a
    ensures Scanned(a[..], p, r, i', j + 1, x) && Kept(a[..], x0, p, r)
  {
    i' := i;
    if a[j] <= x {
      ScanStep(a[..], p, r, i, j, x);
      SwapKept(a[..], x0, p, r, i + 1, j);
      i' := i + 1;
      Swap(a, i', j);
    }
  }

  /** The scan of `partition`: every index of `[p, r)` is passed once, the pivot stays at `r`. */
  method Scan(a: array<int>, p: int, r: int, x: int, ghost x0: seq<int>) returns (i: int)
    requires 0 <= p <= r < a.Length && a[r] == x && a[..] == x0
    modifies a
    ensures Scanned(a[..], p, r, i, r, x) && Kept(a[..], x0, p, r)
  {
    i := p - 1;
    var j := p;
    while j <= r - 1
      invariant Scanned(a[..], p, r, i, j, x)
      invariant Kept(a[..], x0, p, r)
    {
      i := ScanPass(a, p, r, i, j, x, x0);
      j := j + 1;
    }
  }

  /**
   * `partition(array, p, r)`: the pivot `array[r]` ends at the returned
   * index, with only elements at most it before it and only larger ones
   * after it inside `[p, r]`.
   */
  method Partition(a: array<int>, p: int, r: int) returns (q: int)
    requires 0 <= p <= r < a.Length
    modifies a
    ensures p <= q <= r
    ensures a[q] == old(a[r])
    ensures AllAtMost(a[p..q], a[q]) && AllAbove(a[q + 1..r + 1], a[q])
    ensures a[..p] == old(a[..p]) && a[r + 1..] == old(a[r + 1..])
    ensures multiset(a[p..r + 1]) == multiset(old(a[p..r + 1]))
  {
    ghost var x0 := a[..];
    var x := a[r];
    var i := Scan(a, p, r, x, x0);
    ScanDone(a[..], p, r, i, x);
    SwapKept(a[..], x0, p, r, i + 1, r);
    Swap(a, i + 1, r);
    q := i + 1;
  }

  /**
   * `parallel_quick_sort(array, left, right, depth)`: nothing happens when
   * `left >= right`; otherwise the inclusive range `[left, right]` ends
   * sorted, holding the elements it held, and the rest is untouched.
   */
  method ParallelQuickSort(a: array<int>, left: int, right: int, depth: int)
    requires InBounds(a.Length, left, right)
    modifies a
    ensures SortedRange(a[..], old(a[..]), left, right)
    decreases right - left
  {
    if left >= right {
      return;
    }
    var q := Partition(a, left, right);
    ghost var x0 := a[..];
    ParallelQuickSort(a, left, q - 1, depth + 1);
    ghost var x1 := a[..];
    ParallelQuickSort(a, q + 1, right, depth + 1);
    SortedAroundPivot(old(a[..]), x0, x1, a[..], left, q, right);
  }

  /** The element count `main` sorts. */
  const SIZE := 1000000

  /**
   * The call in `main` as written: the whole vector with its size as the
   * inclusive right end, which is in bounds only for an empty vector.
   */
  method SortAllAsWritten(a: array<int>)
    requires InBounds(a.Length, 0, a.Length)
    modifies a
    ensures a[..] == old(a[..])
  {
    ParallelQuickSort(a, 0, a.Length, 1);
  }

  /** `main`'s vector of `SIZE` elements makes that call read and write one past the end. */
  lemma MainSortsPastEnd()
    ensures !InBounds(SIZE, 0, SIZE)
    ensures InBounds(SIZE, 0, SIZE - 1)
  {
  }

  /** The call with the last index as the right end: the whole vector ends sorted and permuted. */
  method SortAll(a: array<int>)
    modifies a
    ensures Sorted(a[..]) && multiset(a[..]) == multiset(old(a[..]))
  {
    ParallelQuickSort(a, 0, a.Length - 1, 1);
    if a.Length > 1 {
      assert a[..] == a[0..a.Length];
      assert old(a[..]) == old(a[0..a.Length]);
    }
  }
}
