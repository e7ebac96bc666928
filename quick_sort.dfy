/**
 * The quicksort whose partition first counts the elements at most the
 * pivot, puts the pivot at that offset, and then swaps misplaced pairs
 * from both ends. The same code appears in two source files; it is
 * modelled once. The threaded branch recurses on the same two ranges as
 * the sequential one and joins both threads, so it is the sequential
 * recursion here.
 */
module QuickSort {
  import opened SortSpec

  /** The first loop of `partition`: how many elements of `(start, end]` are at most the pivot. */
  method CountAtMostPivot(a: array<int>, start: int, end: int, pivot: int) returns (count: int)
    requires 0 <= start <= end < a.Length
    ensures count == CountAtMost(a[start + 1..end + 1], pivot)
  {
    count := 0;
    var i := start + 1;
    while i <= end
      invariant start + 1 <= i <= end + 1
      invariant count == CountAtMost(a[start + 1..i], pivot)
    {
      assert a[start + 1..i + 1][..i - start - 1] == a[start + 1..i];
      if a[i] <= pivot {
        count := count + 1;
      }
      i := i + 1;
    }
  }

  /** The pivot at the head of a range counts itself among the elements at most the pivot. */
  lemma CountWithPivot(x: seq<int>, s: int, e: int)
    requires 0 <= s <= e < |x|
    ensures CountAtMost(x[s..e + 1], x[s]) == 1 + CountAtMost(x[s + 1..e + 1], x[s])
  {
    assert x[s..e + 1] == [x[s]] + x[s + 1..e + 1];
    CountAtMostAppend([x[s]], x[s + 1..e + 1], x[s]);
    assert [x[s]][..0] == [];
  }

  /**
   * While a swap is still due, some element at or after `i` is above the
   * pivot: otherwise the whole range would be at most the pivot, more
   * elements than the count put to the left of it.
   */
  lemma AboveExists(x: seq<int>, s: int, i: int, p: int, e: int, v: int)
    requires 0 <= s <= i <= e < |x| && p < e
    requires forall k :: s <= k < i ==> x[k] <= v
    requires CountAtMost(x[s..e + 1], v) == p - s + 1
    ensures exists k :: i <= k <= e && x[k] > v
  {
    if forall k :: i <= k <= e ==> x[k] <= v {
      CountAtMostAll(x[s..e + 1], v);
    }
  }

  /**
   * Once one side of the pivot holds only what belongs there, so does the
   * other: the range holds exactly as many elements at most the pivot as
   * the left side and the pivot have places.
   */
  lemma SidesSettled(x: seq<int>, s: int, p: int, e: int, v: int)
    requires 0 <= s <= p <= e < |x| && x[p] == v
    requires CountAtMost(x[s..e + 1], v) == p - s + 1
    requires (forall k :: s <= k < p ==> x[k] <= v) || (forall k :: p < k <= e ==> x[k] > v)
    ensures AllAtMost(x[s..p], v) && AllAbove(x[p + 1..e + 1], v)
  {
    var left, right := x[s..p], x[p + 1..e + 1];
    assert x[s..e + 1] == left + ([v] + right);
    CountAtMostAppend(left, [v] + right, v);
    CountAtMostAppend([v], right, v);
    assert [v][..0] == [];
    CountAtMostAll(left, v);
    CountAtMostNone(right, v);
  }

  /**
   * The state of the two-pointer loop of `partition` over `x`: the pivot
   * `v` sits at `p`, everything before `i` is at most it, everything after
   * `j` is above it, and the range holds exactly `p - s + 1` elements at
   * most it.
   */
  predicate Split(x: seq<int>, s: int, e: int, p: int, i: int, j: int, v: int)
  {
    0 <= s <= i <= e < |x| && p <= j <= e && s <= p && x[p] == v &&
    (forall k :: s <= k < i ==> x[k] <= v) &&
    (forall k :: j < k <= e ==> x[k] > v) &&
    CountAtMost(x[s..e + 1], v) == p - s + 1
  }

  /** The first inner loop of the two-pointer pass: skip elements at most the pivot. */
  method SkipAtMost(a: array<int>, start: int, end: int, p: int, i: int, j: int, pivot: int)
    returns (i': int)
    requires Split(a[..], start, end, p, i, j, pivot) && i < p && j > p
    ensures i <= i' <= end && a[i'] > pivot
    ensures Split(a[..], start, end, p, i', j, pivot)
  {
    AboveExists(a[..], start, i, p, end, pivot);
    ghost var w :| i <= w <= end && a[w] > pivot;
    i' := i;
    while a[i'] <= pivot
      invariant i <= i' <= w
      decreases w - i'
      invariant forall k :: start <= k < i' ==> a[k] <= pivot
    {
      i' := i' + 1;
    }
  }

  /** The second inner loop: skip elements above the pivot; it stops at the pivot at the latest. */
  method SkipAbove(a: array<int>, start: int, end: int, p: int, i: int, j: int, pivot: int)
    returns (j': int)
    requires Split(a[..], start, end, p, i, j, pivot)
    ensures p <= j' <= j && a[j'] <= pivot
    ensures Split(a[..], start, end, p, i, j', pivot)
  {
    j' := j;
    while a[j'] > pivot
      invariant p <= j' <= j
      decreases j'
      invariant forall k :: j' < k <= end ==> a[k] > pivot
    {
      j' := j' - 1;
    }
  }

  /**
   * Exchanging the misplaced pair found by the two inner loops moves both
   * pointers one step inward and keeps the loop state.
   */
  lemma ExchangeStep(y: seq<int>, x: seq<int>, s: int, e: int, p: int, i: int, j: int, v: int)
    requires 0 <= s <= e < |x|
    requires Split(y, s, e, p, i, j, v) && Kept(y, x, s, e)
    requires i < p < j && y[i] > v && y[j] <= v
    ensures Split(y[i := y[j]][j := y[i]], s, e, p, i + 1, j - 1, v)
    ensures Kept(y[i := y[j]][j := y[i]], x, s, e)
  {
    SwapInRange(y, s, e, i, j, v);
  }

  /**
   * One pass of the two-pointer loop: both inner loops, then the exchange
   * of the misplaced pair when both pointers are still short of the pivot.
   */
  method Pass(a: array<int>, start: int, end: int, p: int, i: int, j: int, pivot: int, ghost x: seq<int>)
    returns (i': int, j': int)
    requires 0 <= start <= end < |x|
    requires Split(a[..], start, end, p, i, j, pivot) && Kept(a[..], x, start, end)
    requires i < p < j
    modifies a
    ensures Split(a[..], start, end, p, i', j', pivot) && Kept(a[..], x, start, end)
    ensures (end - i') + (j' - start) < (end - i) + (j - start)
  {
    i' := SkipAtMost(a, start, end, p, i, j, pivot);
    j' := SkipAbove(a, start, end, p, i', j, pivot);
    if i' < p && j' > p {
      ExchangeStep(a[..], x, start, end, p, i', j', pivot);
      Swap(a, i', j');
      i', j' := i' + 1, j' - 1;
    }
  }

  /**
   * `partition(arr, start, end)`: the pivot `arr[start]` ends at `start`
   * plus the number of other elements at most it, with only such elements
   * before it and only larger ones after it inside `[start, end]`.
   */
  method Partition(a: array<int>, start: int, end: int) returns (p: int)
    requires 0 <= start <= end < a.Length
    modifies a
    ensures start <= p <= end
    ensures p == start + CountAtMost(old(a[start + 1..end + 1]), old(a[start]))
    ensures a[p] == old(a[start])
    ensures AllAtMost(a[start..p], a[p]) && AllAbove(a[p + 1..end + 1], a[p])
    ensures a[..start] == old(a[..start]) && a[end + 1..] == old(a[end + 1..])
    ensures multiset(a[start..end + 1]) == multiset(old(a[start..end + 1]))
  {
    var pivot := a[start];
    var count := CountAtMostPivot(a, start, end, pivot);
    p := start + count;
    ghost var x := a[..];
    CountWithPivot(x, start, end);
    Swap(a, p, start);
    SwapInRange(x, start, end, p, start, pivot);
    var i, j := start, end;
    while i < p && j > p
      invariant Split(a[..], start, end, p, i, j, pivot)
      invariant Kept(a[..], x, start, end)
      decreases (end - i) + (j - start)
    {
      i, j := Pass(a, start, end, p, i, j, pivot, x);
    }
    SidesSettled(a[..], start, p, end, pivot);
  }

  /**
   * `quick_sort_process(arr, start, end, depth, max_threads)`: nothing
   * happens on a range with `start >= end`; otherwise the inclusive range
   * `[start, end]` ends sorted, holding the elements it held, and the rest
   * of the array is untouched.
   */
  method QuickSortProcess(a: array<int>, start: int, end: int, depth: int, maxThreads: int)
    requires InBounds(a.Length, start, end)
    modifies a
    ensures SortedRange(a[..], old(a[..]), start, end)
    decreases end - start
  {
    if start >= end {
      return;
    }
    var p := Partition(a, start, end);
    ghost var x0 := a[..];
    QuickSortProcess(a, start, p - 1, depth + 1, maxThreads);
    ghost var x1 := a[..];
    QuickSortProcess(a, p + 1, end, depth + 1, maxThreads);
    SortedAroundPivot(old(a[..]), x0, x1, a[..], start, p, end);
  }

  /**
   * `quick_sort` as written: it passes `arr.size()` as the inclusive end,
   * which is in bounds only for the empty array.
   */
  method QuickSortAsWritten(a: array<int>, maxThreads: int)
    requires InBounds(a.Length, 0, a.Length)
    modifies a
    ensures a[..] == old(a[..])
  {
    QuickSortProcess(a, 0, a.Length, 1, maxThreads);
  }

  /** For every non-empty array, the call made by `quick_sort` reads one past the end. */
  lemma QuickSortReadsPastEnd(len: int)
    requires len > 0
    ensures !InBounds(len, 0, len)
    ensures InBounds(len, 0, len - 1)
  {
  }

  /** `quick_sort` with the last index as the inclusive end: the array ends sorted and permuted. */
  method QuickSort(a: array<int>, maxThreads: int)
    modifies a
    ensures Sorted(a[..]) && multiset(a[..]) == multiset(old(a[..]))
  {
    QuickSortProcess(a, 0, a.Length - 1, 1, maxThreads);
    if a.Length > 1 {
      assert a[..] == a[0..a.Length];
      assert old(a[..]) == old(a[0..a.Length]);
    }
  }
}
