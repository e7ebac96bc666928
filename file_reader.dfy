/**
 * The pattern counter of the file reader: the number of (possibly
 * overlapping) places where a pattern occurs in a text, found by repeated
 * `std::string::find`, and the split of a file of `file_size` bytes into
 * one byte range per thread. Reading the file and the word-boundary
 * adjustment of each range are not part of this model.
 */
module FileReader {
  import opened Wrappers
  import opened Machine

  /** `pattern` occurs in `data` starting at index `k`. */
  predicate MatchAt(data: string, pattern: string, k: int)
  {
    0 <= k && k + |pattern| <= |data| && data[k..k + |pattern|] == pattern
  }

  /**
   * `data.find(pattern, pos)`: the first index at or after `pos` where the
   * pattern occurs, or none (`npos`), in particular whenever `pos` is past
   * the end.
   */
  function Find(data: string, pattern: string, pos: nat): (r: Option<nat>)
    ensures r.Some? ==> pos <= r.value && MatchAt(data, pattern, r.value)
    ensures r.Some? ==> forall k :: pos <= k < r.value ==> !MatchAt(data, pattern, k)
    ensures r.None? ==> forall k :: pos <= k ==> !MatchAt(data, pattern, k)
    decreases |data| + 1 - pos
  {
    if pos > |data| then None
    else if MatchAt(data, pattern, pos) then Some(pos)
    else Find(data, pattern, pos + 1)
  }

  /** The number of indices at or after `pos` where the pattern occurs. */
  function CountFrom(data: string, pattern: string, pos: nat): nat
    decreases |data| + 1 - pos
  {
    if pos > |data| then 0
    else (if MatchAt(data, pattern, pos) then 1 else 0) + CountFrom(data, pattern, pos + 1)
  }

  /** Every index where the pattern occurs, overlapping occurrences included. */
  function Occurrences(data: string, pattern: string): nat
  {
    CountFrom(data, pattern, 0)
  }

  /** Indices without an occurrence add nothing to the count. */
  lemma {:induction false} CountSkips(data: string, pattern: string, a: nat, b: nat)
    requires a <= b
    requires forall k :: a <= k < b ==> !MatchAt(data, pattern, k)
    ensures CountFrom(data, pattern, a) == CountFrom(data, pattern, b)
    decreases b - a
  {
    if a < b && a <= |data| {
      CountSkips(data, pattern, a + 1, b);
    }
  }

  /** With no occurrence at or after `pos`, the count from `pos` is 0. */
  lemma {:induction false} CountNone(data: string, pattern: string, pos: nat)
    requires forall k :: pos <= k ==> !MatchAt(data, pattern, k)
    ensures CountFrom(data, pattern, pos) == 0
    decreases |data| + 1 - pos
  {
    if pos <= |data| {
      CountNone(data, pattern, pos + 1);
    }
  }

  /**
   * `get_num_occurances(data, pattern)`: every search resumes one past the
   * last occurrence found, so every occurrence is counted, overlapping
   * ones included.
   */
  method GetNumOccurrences(data: string, pattern: string) returns (occurrences: int)
    ensures occurrences == Occurrences(data, pattern)
  {
    var pos: nat := 0;
    occurrences := 0;
    var found := Find(data, pattern, pos);
    while found.Some?
      invariant found == Find(data, pattern, pos)
      invariant occurrences + CountFrom(data, pattern, pos) == Occurrences(data, pattern)
      decreases |data| + 1 - pos
    {
      CountSkips(data, pattern, pos, found.value);
      pos := found.value;
      occurrences := occurrences + 1;
      pos := pos + 1;
      found := Find(data, pattern, pos);
    }
    CountNone(data, pattern, pos);
  }

  /** A pattern longer than the text never occurs. */
  lemma LongPatternNeverOccurs(data: string, pattern: string)
    requires |pattern| > |data|
    ensures Occurrences(data, pattern) == 0
  {
    CountNone(data, pattern, 0);
  }

  /** A non-empty pattern can start only at the first `|data| - |pattern| + 1` indices. */
  lemma {:induction false} CountFromBound(data: string, pattern: string, pos: nat)
    requires |pattern| >= 1
    ensures CountFrom(data, pattern, pos) <= if pos <= |data| - |pattern| then |data| - |pattern| + 1 - pos else 0
    decreases |data| + 1 - pos
  {
    if pos <= |data| {
      CountFromBound(data, pattern, pos + 1);
    }
  }

  lemma OccurrencesBound(data: string, pattern: string)
    requires 1 <= |pattern| <= |data|
    ensures Occurrences(data, pattern) <= |data| - |pattern| + 1
  {
    CountFromBound(data, pattern, 0);
  }

  /** The empty pattern occurs at every index up to and including `|data|`. */
  lemma {:induction false} EmptyPatternCount(data: string, pos: nat)
    requires pos <= |data| + 1
    ensures CountFrom(data, "", pos) == |data| + 1 - pos
    decreases |data| + 1 - pos
  {
    if pos <= |data| {
      assert MatchAt(data, "", pos) by {
        assert data[pos..pos] == "";
      }
      EmptyPatternCount(data, pos + 1);
    }
  }

  lemma EmptyPatternOccurrences(data: string)
    ensures Occurrences(data, "") == |data| + 1
  {
    EmptyPatternCount(data, 0);
  }

  /** Starting the count later never finds more occurrences. */
  lemma {:induction false} CountFromAntitone(data: string, pattern: string, a: nat, b: nat)
    requires a <= b
    ensures CountFrom(data, pattern, b) <= CountFrom(data, pattern, a)
    decreases b - a
  {
    if a < b && a <= |data| {
      CountFromAntitone(data, pattern, a + 1, b);
    }
  }

  /**
   * Overlapping occurrences are all counted: two occurrences at `a` and `b`
   * that overlap (as `"aa"` at 0 and 1 in `"aaa"`) count twice, because the
   * search resumes one past an occurrence, not past its end.
   */
  lemma OverlappingCounted(data: string, pattern: string, a: nat, b: nat)
    requires a < b < a + |pattern|
    requires MatchAt(data, pattern, a) && MatchAt(data, pattern, b)
    ensures Occurrences(data, pattern) >= 2
  {
    CountFromAntitone(data, pattern, 0, a);
    CountFromAntitone(data, pattern, a + 1, b);
    assert CountFrom(data, pattern, a) == 1 + CountFrom(data, pattern, a + 1);
    assert CountFrom(data, pattern, b) == 1 + CountFrom(data, pattern, b + 1);
  }

  /** One thread's byte range `[start, end)`. */
  datatype Range = Range(start: int, end: int)

  /**
   * `size_per_thread = (file_size - 1) / num_threads + 1` in `size_t`
   * arithmetic: for an empty file `file_size - 1` wraps around.
   */
  function SizePerThread(fileSize: u64, numThreads: int): u64
    requires numThreads >= 1
  {
    ((fileSize - 1) % TWO_64 / numThreads + 1) % TWO_64
  }

  /**
   * The range of thread `i` in `process`:
   * `[i * size_per_thread, min((i + 1) * size_per_thread, file_size))`, in
   * `size_t` arithmetic.
   */
  function Chunk(fileSize: u64, numThreads: int, i: int): Range
    requires 0 <= i < numThreads
  {
    var s := SizePerThread(fileSize, numThreads);
    var hi := ((i + 1) * s) % TWO_64;
    Range((i * s) % TWO_64, if hi < fileSize then hi else fileSize)
  }

  lemma MulMono(a: int, b: int, c: int)
    requires 0 <= a <= b && c >= 0
    ensures a * c <= b * c
  {
  }

  /** Euclidean division of `n >= 0` by `t >= 1`, stated with the product as one term. */
  lemma DivMod(n: int, t: int)
    requires n >= 0 && t >= 1
    ensures 0 <= n / t <= n && 0 <= n % t < t && n == t * (n / t) + n % t
  {
    MulMono(1, t, n / t);
  }

  /**
   * For a non-empty file the per-thread size does not wrap: it is the
   * rounded-up share, and `numThreads` of them reach the end of the file
   * but overshoot it by less than `numThreads`.
   */
  lemma ShareBounds(fileSize: u64, numThreads: int)
    requires fileSize >= 1 && numThreads >= 1 && fileSize + numThreads <= TWO_64
    ensures var s := SizePerThread(fileSize, numThreads);
      s == (fileSize - 1) / numThreads + 1 && 1 <= s <= fileSize &&
      fileSize <= numThreads * s < fileSize + numThreads
  {
    var t := numThreads;
    SmallMod(fileSize - 1);
    DivMod(fileSize - 1, t);
    var q, r := (fileSize - 1) / t, (fileSize - 1) % t;
    SmallMod(q + 1);
    assert t * (q + 1) == t * q + t;
  }

  /**
   * For a non-empty file nothing wraps around: every range is
   * `[i * s, min((i + 1) * s, file_size))` in plain arithmetic.
   */
  lemma ChunkArithmetic(fileSize: u64, numThreads: int, i: int)
    requires fileSize >= 1 && 0 <= i < numThreads && fileSize + numThreads <= TWO_64
    ensures var s := SizePerThread(fileSize, numThreads);
      Chunk(fileSize, numThreads, i) ==
        Range(i * s, if (i + 1) * s < fileSize then (i + 1) * s else fileSize)
  {
    var s := SizePerThread(fileSize, numThreads);
    ShareBounds(fileSize, numThreads);
    MulMono(i + 1, numThreads, s);
    MulMono(i, i + 1, s);
    SmallMod(i * s);
    SmallMod((i + 1) * s);
  }

  /**
   * The ranges follow one another: each ends where the next starts, unless
   * it is cut at the end of the file; the last one ends exactly there.
   */
  lemma ChunksContiguous(fileSize: u64, numThreads: int, i: int)
    requires fileSize >= 1 && 0 <= i < numThreads && fileSize + numThreads <= TWO_64
    ensures i + 1 < numThreads && Chunk(fileSize, numThreads, i).end < fileSize ==>
      Chunk(fileSize, numThreads, i).end == Chunk(fileSize, numThreads, i + 1).start
    ensures i + 1 == numThreads ==> Chunk(fileSize, numThreads, i).end == fileSize
  {
    ShareBounds(fileSize, numThreads);
    ChunkArithmetic(fileSize, numThreads, i);
    if i + 1 < numThreads {
      ChunkArithmetic(fileSize, numThreads, i + 1);
    }
  }

  /** Every byte of the file lies in the range of thread `x / size_per_thread`. */
  lemma ChunksCover(fileSize: u64, numThreads: int, x: int)
    requires fileSize >= 1 && 1 <= numThreads && fileSize + numThreads <= TWO_64
    requires 0 <= x < fileSize
    ensures var k := x / SizePerThread(fileSize, numThreads);
      0 <= k < numThreads &&
      Chunk(fileSize, numThreads, k).start <= x < Chunk(fileSize, numThreads, k).end
  {
    ShareBounds(fileSize, numThreads);
    var s := SizePerThread(fileSize, numThreads);
    DivMod(x, s);
    var k := x / s;
    assert s * k <= x < s * k + s;
    if k >= numThreads {
      MulMono(numThreads, k, s);
      assert false;
    }
    ChunkArithmetic(fileSize, numThreads, k);
    assert (k + 1) * s == s * k + s;
  }

  /** With more threads than bytes a trailing range can start after it ends. */
  lemma TrailingChunkInverted()
    ensures Chunk(2, 5, 4) == Range(4, 2)
  {
    assert SizePerThread(2, 5) == 1;
  }

  /**
   * For an empty file `file_size - 1` wraps around: one thread gets a
   * per-thread size of 0, and with two the second range starts at `2^63`.
   */
  lemma EmptyFileWraps()
    ensures SizePerThread(0, 1) == 0
    ensures Chunk(0, 2, 1) == Range(0x8000_0000_0000_0000, 0)
  {
    assert SizePerThread(0, 2) == 0x8000_0000_0000_0000;
  }
}
