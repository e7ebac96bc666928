/**
 * The sequential bucket sort over `float` values, modelled over `real`
 * (no rounding): each value goes to bucket `int(val * num_buckets)`, every
 * bucket is sorted, and the buckets are written back in order. The exclusive
 * scan of the TBB variant, which computes where each bucket starts in the
 * output, is modelled by its sequential meaning.
 */
module BucketSort {
  predicate Sorted(s: seq<real>)
  {
    forall i, j :: 0 <= i < j < |s| ==> s[i] <= s[j]
  }

  /** The C++ conversion of a floating value to `int`: toward zero. */
  function Trunc(x: real): (r: int)
    ensures x >= 0.0 ==> r as real <= x < r as real + 1.0
    ensures x < 0.0 ==> r as real - 1.0 < x <= r as real
  {
    if x >= 0.0 then x.Floor else -((-x).Floor)
  }

  /** Converting toward zero never reverses the order of two values. */
  lemma TruncMonotone(x: real, y: real)
    requires x <= y
    ensures Trunc(x) <= Trunc(y)
  {
  }

  /** `int bucket_idx = val * num_buckets`. */
  function BucketOf(v: real, n: int): int
  {
    Trunc(v * n as real)
  }

  /** Every value of `s` has a bucket index in `[0, n)`, so `buckets[bucket_idx]` is in range. */
  predicate InRange(s: seq<real>, n: int)
  {
    forall k :: 0 <= k < |s| ==> 0 <= BucketOf(s[k], n) < n
  }

  /** Values in `[0, 1)` with at least one bucket are in range; there truncation is the floor. */
  lemma UnitIntervalInRange(s: seq<real>, n: int)
    requires n >= 1 && forall k :: 0 <= k < |s| ==> 0.0 <= s[k] < 1.0
    ensures InRange(s, n)
  {
    forall k | 0 <= k < |s|
      ensures 0 <= BucketOf(s[k], n) < n
    {
      assert 0.0 <= s[k] * n as real < n as real;
    }
  }

  /** The bucket index is monotone in the value. */
  lemma BucketOfMonotone(u: real, v: real, n: int)
    requires u <= v && n >= 0
    ensures BucketOf(u, n) <= BucketOf(v, n)
  {
    assert u * n as real <= v * n as real;
    TruncMonotone(u * n as real, v * n as real);
  }

  function Insert(v: real, s: seq<real>): (r: seq<real>)
    requires Sorted(s)
    ensures Sorted(r) && multiset(r) == multiset(s) + multiset{v}
    ensures |r| == |s| + 1 && (r[0] == v || (s != [] && r[0] == s[0]))
  {
    if s == [] || v <= s[0] then [v] + s
    else
      var t := Insert(v, s[1..]);
      assert s == [s[0]] + s[1..];
      assert s[0] <= t[0];
      [s[0]] + t
  }

  /** `std::sort` on one bucket: a sorted permutation of it. */
  function SortValues(s: seq<real>): (r: seq<real>)
    ensures Sorted(r) && multiset(r) == multiset(s)
  {
    if s == [] then []
    else
      assert s == s[..|s| - 1] + [s[|s| - 1]];
      Insert(s[|s| - 1], SortValues(s[..|s| - 1]))
  }

  /** The buckets one after the other, as the write-back loop lays them out. */
  function Flatten(bs: seq<seq<real>>): seq<real>
  {
    if bs == [] then [] else Flatten(bs[..|bs| - 1]) + bs[|bs| - 1]
  }

  lemma {:induction false} FlattenAppend(x: seq<seq<real>>, y: seq<seq<real>>)
    ensures Flatten(x + y) == Flatten(x) + Flatten(y)
    decreases |y|
  {
    if y == [] {
      calc {
        Flatten(x + y);
        { assert x + y == x; }
        Flatten(x);
        Flatten(x) + Flatten(y);
      }
    } else {
      var n := |y| - 1;
      calc {
        Flatten(x + y);
        Flatten((x + y)[..|x + y| - 1]) + (x + y)[|x + y| - 1];
        { assert (x + y)[..|x + y| - 1] == x + y[..n]; }
        Flatten(x + y[..n]) + y[n];
        { FlattenAppend(x, y[..n]); }
        Flatten(x) + Flatten(y[..n]) + y[n];
        Flatten(x) + Flatten(y);
      }
    }
  }

  /** The layout around bucket `b`: the buckets before it, it, and the buckets after it. */
  lemma FlattenSplit(bs: seq<seq<real>>, b: int)
    requires 0 <= b < |bs|
    ensures Flatten(bs) == Flatten(bs[..b]) + bs[b] + Flatten(bs[b + 1..])
  {
    var front, back := bs[..b + 1], bs[b + 1..];
    assert bs == front + back;
    FlattenAppend(front, back);
    assert front[..|front| - 1] == bs[..b] && front[|front| - 1] == bs[b];
    assert Flatten(front) == Flatten(bs[..b]) + bs[b];
  }

  /** Appending a value to one bucket adds it to the layout's elements. */
  lemma FlattenPush(bs: seq<seq<real>>, b: int, v: real)
    requires 0 <= b < |bs|
    ensures multiset(Flatten(bs[b := bs[b] + [v]])) == multiset(Flatten(bs)) + multiset{v}
  {
    var cs := bs[b := bs[b] + [v]];
    FlattenSplit(bs, b);
    FlattenSplit(cs, b);
    assert cs[..b] == bs[..b] && cs[b + 1..] == bs[b + 1..];
  }

  /** Permuting one bucket keeps the layout's elements. */
  lemma FlattenPermute(bs: seq<seq<real>>, b: int, t: seq<real>)
    requires 0 <= b < |bs| && multiset(t) == multiset(bs[b])
    ensures multiset(Flatten(bs[b := t])) == multiset(Flatten(bs))
  {
    var cs := bs[b := t];
    FlattenSplit(bs, b);
    FlattenSplit(cs, b);
    assert cs[..b] == bs[..b] && cs[b + 1..] == bs[b + 1..];
  }

  /** Every value sits in the bucket its index names. */
  predicate InOwnBucket(bs: seq<seq<real>>, n: int)
  {
    forall b, k :: 0 <= b < |bs| && 0 <= k < |bs[b]| ==> BucketOf(bs[b][k], n) == b
  }

  predicate AllSorted(bs: seq<seq<real>>)
  {
    forall b :: 0 <= b < |bs| ==> Sorted(bs[b])
  }

  /** Every value in the layout of buckets placed by index has an index below the bucket count. */
  lemma {:induction false} FlattenBelow(bs: seq<seq<real>>, n: int)
    requires InOwnBucket(bs, n)
    ensures forall k :: 0 <= k < |Flatten(bs)| ==> BucketOf(Flatten(bs)[k], n) < |bs|
    decreases |bs|
  {
    if bs != [] {
      var m := |bs| - 1;
      FlattenBelow(bs[..m], n);
      assert Flatten(bs) == Flatten(bs[..m]) + bs[m];
    }
  }

  /**
   * Sorted buckets placed by a monotone index lay out in sorted order: a
   * value of an earlier bucket has a smaller index, so it cannot exceed a
   * value of a later one.
   */
  lemma {:induction false} FlattenSorted(bs: seq<seq<real>>, n: int)
    requires n >= 0 && InOwnBucket(bs, n) && AllSorted(bs)
    ensures Sorted(Flatten(bs))
    decreases |bs|
  {
    if bs != [] {
      var m := |bs| - 1;
      var front := Flatten(bs[..m]);
      FlattenSorted(bs[..m], n);
      FlattenBelow(bs[..m], n);
      forall i, k | 0 <= i < |front| && 0 <= k < |bs[m]|
        ensures front[i] <= bs[m][k]
      {
        if front[i] > bs[m][k] {
          BucketOfMonotone(bs[m][k], front[i], n);
        }
      }
      assert Flatten(bs) == front + bs[m];
    }
  }

  /** Appending a value to the bucket its index names keeps every value in its own bucket. */
  lemma AppendKeepsOwn(bs: seq<seq<real>>, n: int, idx: int, v: real)
    requires InOwnBucket(bs, n) && 0 <= idx < |bs| && BucketOf(v, n) == idx
    ensures InOwnBucket(bs[idx := bs[idx] + [v]], n)
  {
  }

  /** Replacing a bucket by a permutation of itself keeps every value in its own bucket. */
  lemma PermuteKeepsOwn(bs: seq<seq<real>>, n: int, b: int, t: seq<real>)
    requires InOwnBucket(bs, n) && 0 <= b < |bs| && multiset(t) == multiset(bs[b])
    ensures InOwnBucket(bs[b := t], n)
  {
    forall k | 0 <= k < |t|
      ensures BucketOf(t[k], n) == b
    {
      assert t[k] in multiset(bs[b]);
    }
  }

  /** The first loop of `bucket_sort`: every value appended to the bucket its index names. */
  method Distribute(arr: array<real>, n: int) returns (buckets: seq<seq<real>>)
    requires n >= 0 && InRange(arr[..], n)
    ensures |buckets| == n && InOwnBucket(buckets, n)
    ensures multiset(Flatten(buckets)) == multiset(arr[..])
  {
    buckets := seq(n, _ => []);
    assert forall b :: 0 <= b < n ==> buckets[b] == [];
    FlattenEmpty(buckets);
    var i := 0;
    while i < arr.Length
      invariant 0 <= i <= arr.Length
      invariant |buckets| == n && InOwnBucket(buckets, n)
      invariant multiset(Flatten(buckets)) == multiset(arr[..i])
    {
      var val := arr[i];
      assert arr[..i + 1] == arr[..i] + [val];
      var idx := BucketOf(val, n);
      FlattenPush(buckets, idx, val);
      AppendKeepsOwn(buckets, n, idx, val);
      buckets := buckets[idx := buckets[idx] + [val]];
      i := i + 1;
    }
    assert arr[..i] == arr[..];
  }

  lemma {:induction false} FlattenEmpty(bs: seq<seq<real>>)
    requires forall b :: 0 <= b < |bs| ==> bs[b] == []
    ensures Flatten(bs) == []
    decreases |bs|
  {
    if bs != [] {
      FlattenEmpty(bs[..|bs| - 1]);
    }
  }

  /** The second loop: `std::sort` on every bucket in turn. */
  method SortEach(buckets: seq<seq<real>>, n: int) returns (sorted: seq<seq<real>>)
    requires InOwnBucket(buckets, n)
    ensures |sorted| == |buckets| && InOwnBucket(sorted, n) && AllSorted(sorted)
    ensures multiset(Flatten(sorted)) == multiset(Flatten(buckets))
  {
    sorted := buckets;
    var b := 0;
    while b < |sorted|
      invariant 0 <= b <= |sorted| == |buckets|
      invariant InOwnBucket(sorted, n)
      invariant forall c :: 0 <= c < b ==> Sorted(sorted[c])
      invariant multiset(Flatten(sorted)) == multiset(Flatten(buckets))
    {
      var t := SortValues(sorted[b]);
      PermuteKeepsOwn(sorted, n, b, t);
      FlattenPermute(sorted, b, t);
      sorted := sorted[b := t];
      b := b + 1;
    }
  }

  /** The inner write-back loop: one bucket's values at `write_idx` onward. */
  method WriteBucket(arr: array<real>, w: int, bucket: seq<real>) returns (w': int)
    requires 0 <= w && w + |bucket| <= arr.Length
    modifies arr
    ensures w' == w + |bucket|
    ensures arr[..w'] == old(arr[..w]) + bucket
    ensures arr[w'..] == old(arr[w'..])
  {
    w' := w;
    var i := 0;
    while i < |bucket|
      invariant 0 <= i <= |bucket| && w' == w + i
      invariant arr[..w'] == old(arr[..w]) + bucket[..i]
      invariant arr[w + |bucket|..] == old(arr[w + |bucket|..])
    {
      arr[w'] := bucket[i];
      assert bucket[..i + 1] == bucket[..i] + [bucket[i]];
      w' := w' + 1;
      i := i + 1;
    }
    assert bucket[..i] == bucket;
  }

  /** The write-back loops: the array becomes the buckets laid out in order. */
  method WriteBack(arr: array<real>, buckets: seq<seq<real>>)
    requires |Flatten(buckets)| == arr.Length
    modifies arr
    ensures arr[..] == Flatten(buckets)
  {
    var w := 0;
    var b := 0;
    while b < |buckets|
      invariant 0 <= b <= |buckets| && w <= arr.Length
      invariant w == |Flatten(buckets[..b])| && arr[..w] == Flatten(buckets[..b])
    {
      FlattenAppend(buckets[..b + 1], buckets[b + 1..]);
      assert buckets[..b + 1] + buckets[b + 1..] == buckets;
      assert buckets[..b + 1][..b] == buckets[..b];
      w := WriteBucket(arr, w, buckets[b]);
      b := b + 1;
    }
    assert buckets[..b] == buckets;
  }

  /**
   * `bucket_sort(arr, num_buckets)`: given a non-negative bucket count and
   * every value's bucket index in range, the array ends sorted and holding
   * the values it held.
   */
  method BucketSort(arr: array<real>, n: int)
    requires n >= 0 && InRange(arr[..], n)
    modifies arr
    ensures Sorted(arr[..]) && multiset(arr[..]) == multiset(old(arr[..]))
  {
    var buckets := Distribute(arr, n);
    buckets := SortEach(buckets, n);
    FlattenSorted(buckets, n);
    assert |Flatten(buckets)| == arr.Length by {
      assert |multiset(Flatten(buckets))| == |multiset(arr[..])|;
    }
    WriteBack(arr, buckets);
  }

  /** The sum of `s`. */
  function SumOf(s: seq<int>): int
  {
    if s == [] then 0 else SumOf(s[..|s| - 1]) + s[|s| - 1]
  }

  /**
   * The scan of `tbb_bucket_sort` run as one range: `shifts[i]` is the sum
   * of the sizes of the buckets before `i`.
   */
  method ExclusiveScan(sizes: seq<int>) returns (shifts: seq<int>)
    ensures |shifts| == |sizes|
    ensures forall i :: 0 <= i < |sizes| ==> shifts[i] == SumOf(sizes[..i])
  {
    shifts := seq(|sizes|, _ => 0);
    var localSum := 0;
    var i := 0;
    while i < |sizes|
      invariant 0 <= i <= |sizes| == |shifts|
      invariant localSum == SumOf(sizes[..i])
      invariant forall k :: 0 <= k < i ==> shifts[k] == SumOf(sizes[..k])
    {
      shifts := shifts[i := localSum];
      assert sizes[..i + 1][..i] == sizes[..i];
      localSum := localSum + sizes[i];
      i := i + 1;
    }
  }

  /** `sizes[b] = buckets[b].size()`. */
  function Sizes(bs: seq<seq<real>>): (r: seq<int>)
    ensures |r| == |bs| && forall b :: 0 <= b < |bs| ==> r[b] == |bs[b]|
  {
    seq(|bs|, b requires 0 <= b < |bs| => |bs[b]|)
  }

  /** The sizes of the buckets before `b` add up to where bucket `b` starts in the layout. */
  lemma {:induction false} SizesPrefix(bs: seq<seq<real>>, b: int)
    requires 0 <= b <= |bs|
    ensures SumOf(Sizes(bs)[..b]) == |Flatten(bs[..b])|
    decreases b
  {
    if b > 0 {
      SizesPrefix(bs, b - 1);
      assert Sizes(bs)[..b][..b - 1] == Sizes(bs)[..b - 1];
      assert bs[..b][..b - 1] == bs[..b - 1];
    }
  }

  /**
   * The scatter loop of `tbb_bucket_sort` writes `buckets[b][i]` to
   * `arr[shifts[b] + i]`; with the shifts of the scan that is exactly the
   * position the sequential write-back gives it.
   */
  lemma ScatterPlacement(bs: seq<seq<real>>, b: int, i: int)
    requires 0 <= b < |bs| && 0 <= i < |bs[b]|
    ensures 0 <= SumOf(Sizes(bs)[..b]) + i < |Flatten(bs)|
    ensures Flatten(bs)[SumOf(Sizes(bs)[..b]) + i] == bs[b][i]
  {
    SizesPrefix(bs, b);
    FlattenAppend(bs[..b + 1], bs[b + 1..]);
    assert bs[..b + 1] + bs[b + 1..] == bs;
    assert bs[..b + 1][..b] == bs[..b];
  }
}
