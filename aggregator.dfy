/**
 * The sliding-window aggregator of like and view events: a ring of
 * buckets, each counting the likes and views per post during one bucket
 * duration, and running totals per post over the whole window.
 *
 * The state is described twice: as a value (`Window`) with the operations
 * as functions on it, over which the invariants are proved, and as the
 * class `WindowAggregator`, which updates an array of buckets and its map
 * fields in place and is proved to follow the functions step by step.
 *
 * The start time that the source keeps in a function-local `static`
 * variable, shared by every aggregator, is a per-object field `clock`
 * here; the program builds a single aggregator. Timestamps and times are
 * `uint64_t` and wrap modulo 2^64; post ids and counts are unbounded
 * integers.
 */
module Aggregator {
  import opened Text
  import opened Machine

  datatype EventType = Like | View

  datatype Event = Event(timestamp: u64, kind: EventType, postId: int)

  /** One slot of the ring: its time span and its counts per post. */
  datatype Bucket = Bucket(startMs: u64, endMs: u64, likes: map<int, int>, views: map<int, int>)

  /** A value-initialised bucket: zero times, no counts. */
  const EMPTY_BUCKET: Bucket := Bucket(0, 0, map[], map[])

  /** The aggregator's state as a value. */
  datatype Window = Window(
    buckets: seq<Bucket>,
    likes: map<int, int>,
    views: map<int, int>,
    cur: int,
    clock: u64)

  /** The count `operator[]` reads: a missing post counts 0. */
  function Count(m: map<int, int>, p: int): int
  {
    if p in m then m[p] else 0
  }

  /** `m[p]++` (or `m[p] += 1`) on a map that value-initialises missing keys. */
  function Bump(m: map<int, int>, p: int): (r: map<int, int>)
    ensures r.Keys == m.Keys + {p}
    ensures Count(r, p) == Count(m, p) + 1
    ensures forall q :: q != p && q in m ==> r[q] == m[q]
  {
    m[p := Count(m, p) + 1]
  }

  /** Reading `m[p]` through `operator[]`: a missing post is inserted with 0. */
  function Peek(m: map<int, int>, p: int): (r: map<int, int>)
    ensures r.Keys == m.Keys + {p}
    ensures forall q :: Count(r, q) == Count(m, q)
  {
    if p in m then m else m[p := 0]
  }

  function Tally(b: Bucket, kind: EventType): map<int, int>
  {
    match kind
    case Like => b.likes
    case View => b.views
  }

  function Total(w: Window, kind: EventType): map<int, int>
  {
    match kind
    case Like => w.likes
    case View => w.views
  }

  /** The counts of post `p` of one kind, summed over a sequence of buckets. */
  function Sum(bs: seq<Bucket>, kind: EventType, p: int): int
  {
    if bs == [] then 0 else Sum(bs[..|bs| - 1], kind, p) + Count(Tally(bs[|bs| - 1], kind), p)
  }

  predicate NonNegative(m: map<int, int>)
  {
    forall p :: p in m ==> m[p] >= 0
  }

  /** The ring has a bucket and the cursor points into it. */
  predicate WellShaped(w: Window)
  {
    |w.buckets| > 0 && 0 <= w.cur < |w.buckets|
  }

  /**
   * The aggregator's invariant: no count is negative, and for every post
   * the total of each kind (a missing post counting 0) is the sum of that
   * post's counts over all buckets.
   */
  ghost predicate Consistent(w: Window)
  {
    WellShaped(w) &&
    (forall j, kind :: 0 <= j < |w.buckets| ==> NonNegative(Tally(w.buckets[j], kind))) &&
    NonNegative(w.likes) && NonNegative(w.views) &&
    (forall kind, p :: Count(Total(w, kind), p) == Sum(w.buckets, kind, p))
  }

  /** `uint64_t bucket_duration_ms = bucket_sec_ * 1000`, the `int` product converted. */
  function Duration(bucketSec: int): u64
  {
    (bucketSec * 1000) % TWO_64
  }

  /**
   * `add_event_to_current_bucket`: the event's post gets one more like or
   * view, both in the current bucket and in the totals.
   */
  function AddEvent(w: Window, e: Event): (r: Window)
    requires WellShaped(w)
    ensures WellShaped(r) && r.cur == w.cur && r.clock == w.clock
    ensures |r.buckets| == |w.buckets|
    ensures forall j :: 0 <= j < |w.buckets| && j != w.cur ==> r.buckets[j] == w.buckets[j]
    ensures r.buckets[r.cur].startMs == w.buckets[w.cur].startMs
    ensures r.buckets[r.cur].endMs == w.buckets[w.cur].endMs
    ensures forall kind, p ::
      Count(Total(r, kind), p) ==
      Count(Total(w, kind), p) + (if kind == e.kind && p == e.postId then 1 else 0)
    ensures forall kind, p ::
      Count(Tally(r.buckets[r.cur], kind), p) ==
      Count(Tally(w.buckets[w.cur], kind), p) + (if kind == e.kind && p == e.postId then 1 else 0)
  {
    var b := w.buckets[w.cur];
    match e.kind
    case View =>
      w.(buckets := w.buckets[w.cur := b.(views := Bump(b.views, e.postId))],
         views := Bump(w.views, e.postId))
    case Like =>
      w.(buckets := w.buckets[w.cur := b.(likes := Bump(b.likes, e.postId))],
         likes := Bump(w.likes, e.postId))
  }

  /**
   * `drop_stats_from_total` for one kind: every post counted in the
   * dropped bucket loses that count from its total, and its entry is
   * erased once the total is no longer positive.
   */
  function Subtracted(total: map<int, int>, counts: map<int, int>): (r: map<int, int>)
    ensures forall p :: p !in counts ==> (p in r <==> p in total)
    ensures forall p :: p in counts ==> (p in r <==> Count(total, p) - counts[p] > 0)
    ensures forall p :: p in r ==> r[p] == Count(total, p) - Count(counts, p)
  {
    map p | p in total.Keys + counts.Keys && (p in counts ==> Count(total, p) - counts[p] > 0) ::
      Count(total, p) - Count(counts, p)
  }

  /** One pass of the loop in `drop_stats_from_total`: `total[p] -= c`, then erase if `<= 0`. */
  function SubtractOne(total: map<int, int>, p: int, c: int): map<int, int>
  {
    if Count(total, p) - c <= 0 then total - {p} else total[p := Count(total, p) - c]
  }

  /**
   * One iteration of the loop in `advance_to`: the cursor moves to the next
   * bucket of the ring, that bucket's counts leave the totals, the bucket
   * is reset and stamped, and the start time moves on by one duration.
   * As written, iteration `i` stamps the bucket with the start time plus
   * `i` durations, although the start time has already moved on by `i`
   * durations; `fixed` stamps it with the start time it is entering.
   */
  function Recycle(w: Window, i: nat, d: u64, fixed: bool): Window
    requires |w.buckets| > 0
  {
    var c := (w.cur + 1) % |w.buckets|;
    var b := w.buckets[c];
    var start: u64 := if fixed then (w.clock + d) % TWO_64 else (w.clock + (i * d) % TWO_64) % TWO_64;
    Window(
      w.buckets[c := Bucket(start, (start + d) % TWO_64, map[], map[])],
      Subtracted(w.likes, b.likes),
      Subtracted(w.views, b.views),
      c,
      (w.clock + d) % TWO_64)
  }

  /** Iterations `i` up to `n` of the loop in `advance_to`. */
  function AdvanceFrom(w: Window, i: nat, n: int, d: u64, fixed: bool): (r: Window)
    requires WellShaped(w)
    ensures WellShaped(r) && |r.buckets| == |w.buckets|
    decreases n - i
  {
    if i >= n then w else AdvanceFrom(Recycle(w, i, d, fixed), i + 1, n, d, fixed)
  }

  /**
   * `advance_to`: while the start time is 0 (no event has stamped it yet),
   * the current bucket is stamped with `[t, t+d)` and nothing advances;
   * otherwise the ring advances by the number of whole durations elapsed,
   * computed in `uint64_t` and converted to `int`.
   */
  function Advance(w: Window, t: u64, d: u64, fixed: bool): (r: Window)
    requires WellShaped(w) && d > 0
    ensures WellShaped(r) && |r.buckets| == |w.buckets|
  {
    if w.clock == 0 then
      var b := w.buckets[w.cur];
      w.(buckets := w.buckets[w.cur := b.(startMs := t, endMs := (t + d) % TWO_64)], clock := t)
    else
      AdvanceFrom(w, 0, Steps(w.clock, t, d), d, fixed)
  }

  /**
   * `int buckets_to_advance = elapsed_ms / bucket_duration_ms`: whole
   * durations from the start time to `t`, with `uint64_t` subtraction and
   * the quotient converted to `int`.
   */
  function Steps(clock: u64, t: u64, d: u64): int
    requires d > 0
  {
    ToInt32(((t - clock) % TWO_64) / d)
  }

  /** Without wrap-around, the steps are the whole durations between the two times. */
  lemma StepsElapsed(clock: u64, t: u64, d: u64)
    requires d > 0 && clock <= t && (t - clock) / d <= INT_MAX
    ensures 0 <= Steps(clock, t, d) == (t - clock) / d
    ensures Steps(clock, t, d) * d <= t - clock < Steps(clock, t, d) * d + d
  {
    var a := t - clock;
    assert a % TWO_64 == a;
    assert a == (a / d) * d + a % d;
    MulBounds(a / d, d);
  }

  /** `process_event`: advance to the event's time, then count it. */
  function Process(w: Window, e: Event, d: u64, fixed: bool): Window
    requires WellShaped(w) && d > 0
  {
    AddEvent(Advance(w, e.timestamp, d, fixed), e)
  }

  // ---------------------------------------------------------------------
  // Sums over the ring

  /** Replacing one bucket changes each sum by the difference of its counts. */
  lemma {:induction false} SumUpdate(bs: seq<Bucket>, j: int, b: Bucket, kind: EventType, p: int)
    requires 0 <= j < |bs|
    ensures Sum(bs[j := b], kind, p) == Sum(bs, kind, p) - Count(Tally(bs[j], kind), p) + Count(Tally(b, kind), p)
    decreases |bs|
  {
    var n := |bs| - 1;
    if j < n {
      assert bs[j := b][..n] == bs[..n][j := b];
      SumUpdate(bs[..n], j, b, kind, p);
    } else {
      assert bs[j := b][..n] == bs[..n];
    }
  }

  lemma {:induction false} SumNonNegative(bs: seq<Bucket>, kind: EventType, p: int)
    requires forall j :: 0 <= j < |bs| ==> NonNegative(Tally(bs[j], kind))
    ensures Sum(bs, kind, p) >= 0
    decreases |bs|
  {
    if bs != [] {
      var n := |bs| - 1;
      assert forall j :: 0 <= j < n ==> bs[..n][j] == bs[j];
      SumNonNegative(bs[..n], kind, p);
      assert NonNegative(Tally(bs[n], kind));
    }
  }

  /** A window with every bucket empty sums to 0 everywhere. */
  lemma {:induction false} SumOfEmpty(bs: seq<Bucket>, kind: EventType, p: int)
    requires forall j :: 0 <= j < |bs| ==> bs[j] == EMPTY_BUCKET
    ensures Sum(bs, kind, p) == 0
    decreases |bs|
  {
    if bs != [] {
      var n := |bs| - 1;
      assert forall j :: 0 <= j < n ==> bs[..n][j] == bs[j];
      SumOfEmpty(bs[..n], kind, p);
    }
  }

  /** The freshly constructed aggregator: every bucket empty, no totals. */
  lemma EmptyIsConsistent(n: nat)
    requires n > 0
    ensures Consistent(Window(seq(n, _ => EMPTY_BUCKET), map[], map[], 0, 0))
  {
    var bs := seq(n, _ => EMPTY_BUCKET);
    forall kind, p
      ensures Sum(bs, kind, p) == 0
    {
      SumOfEmpty(bs, kind, p);
    }
  }

  // ---------------------------------------------------------------------
  // The invariant is preserved

  lemma AddEventKeepsConsistent(w: Window, e: Event)
    requires Consistent(w)
    ensures Consistent(AddEvent(w, e))
  {
    var r := AddEvent(w, e);
    forall kind, p
      ensures Count(Total(r, kind), p) == Sum(r.buckets, kind, p)
    {
      assert r.buckets == w.buckets[w.cur := r.buckets[w.cur]];
      SumUpdate(w.buckets, w.cur, r.buckets[w.cur], kind, p);
    }
    forall j, kind | 0 <= j < |r.buckets|
      ensures NonNegative(Tally(r.buckets[j], kind))
    {
      if j == w.cur {
        assert NonNegative(Tally(w.buckets[j], kind));
        forall q | q in Tally(r.buckets[j], kind)
          ensures Tally(r.buckets[j], kind)[q] >= 0
        {
          assert Count(Tally(r.buckets[j], kind), q) >= Count(Tally(w.buckets[j], kind), q);
        }
      }
    }
    forall kind, q | q in Total(r, kind)
      ensures Total(r, kind)[q] >= 0
    {
      assert Count(Total(r, kind), q) >= Count(Total(w, kind), q);
    }
  }

  /**
   * Subtracting a bucket's counts from totals that include them leaves the
   * sums over the other buckets, erasing exactly the posts that fall to 0.
   */
  lemma SubtractedCount(total: map<int, int>, counts: map<int, int>, p: int, rest: int)
    requires Count(total, p) == rest + Count(counts, p) && rest >= 0
    ensures Count(Subtracted(total, counts), p) == rest
  {
  }

  /** Recycling leaves every bucket's counts non-negative: the recycled one is empty. */
  lemma RecycleKeepsTallies(w: Window, i: nat, d: u64, fixed: bool)
    requires Consistent(w)
    ensures var r := Recycle(w, i, d, fixed);
      forall j, kind :: 0 <= j < |r.buckets| ==> NonNegative(Tally(r.buckets[j], kind))
  {
    var r := Recycle(w, i, d, fixed);
    forall j, kind | 0 <= j < |r.buckets|
      ensures NonNegative(Tally(r.buckets[j], kind))
    {
      if j != r.cur {
        assert NonNegative(Tally(w.buckets[j], kind));
      }
    }
  }

  /** Recycling a bucket subtracts its counts of `p` from the totals before resetting it. */
  lemma RecycleKeepsCount(w: Window, i: nat, d: u64, fixed: bool, kind: EventType, p: int)
    requires Consistent(w)
    ensures var r := Recycle(w, i, d, fixed);
      Count(Total(r, kind), p) == Sum(r.buckets, kind, p)
  {
    var r := Recycle(w, i, d, fixed);
    var c := r.cur;
    var old_ := w.buckets[c];
    assert r.buckets == w.buckets[c := r.buckets[c]];
    SumUpdate(w.buckets, c, r.buckets[c], kind, p);
    var others := w.buckets[c := EMPTY_BUCKET];
    SumUpdate(w.buckets, c, EMPTY_BUCKET, kind, p);
    forall j | 0 <= j < |others|
      ensures NonNegative(Tally(others[j], kind))
    {
      if j != c {
        assert NonNegative(Tally(w.buckets[j], kind));
      }
    }
    SumNonNegative(others, kind, p);
    assert Total(r, kind) == Subtracted(Total(w, kind), Tally(old_, kind));
    SubtractedCount(Total(w, kind), Tally(old_, kind), p, Sum(r.buckets, kind, p));
  }

  /** Recycling a bucket subtracts it from the totals before resetting it. */
  lemma RecycleKeepsConsistent(w: Window, i: nat, d: u64, fixed: bool)
    requires Consistent(w)
    ensures Consistent(Recycle(w, i, d, fixed))
  {
    var r := Recycle(w, i, d, fixed);
    RecycleKeepsTallies(w, i, d, fixed);
    forall kind, p
      ensures Count(Total(r, kind), p) == Sum(r.buckets, kind, p)
    {
      RecycleKeepsCount(w, i, d, fixed, kind, p);
    }
    forall kind, q | q in Total(r, kind)
      ensures Total(r, kind)[q] >= 0
    {
      RecycleKeepsCount(w, i, d, fixed, kind, q);
      SumNonNegative(r.buckets, kind, q);
    }
  }

  lemma {:induction false} AdvanceFromKeepsConsistent(w: Window, i: nat, n: int, d: u64, fixed: bool)
    requires Consistent(w)
    ensures Consistent(AdvanceFrom(w, i, n, d, fixed))
    decreases n - i
  {
    if i < n {
      RecycleKeepsConsistent(w, i, d, fixed);
      AdvanceFromKeepsConsistent(Recycle(w, i, d, fixed), i + 1, n, d, fixed);
    }
  }

  lemma AdvanceKeepsConsistent(w: Window, t: u64, d: u64, fixed: bool)
    requires Consistent(w) && d > 0
    ensures Consistent(Advance(w, t, d, fixed))
  {
    if w.clock == 0 {
      var r := Advance(w, t, d, fixed);
      forall kind, p
        ensures Sum(r.buckets, kind, p) == Sum(w.buckets, kind, p)
      {
        SumUpdate(w.buckets, w.cur, r.buckets[w.cur], kind, p);
      }
      assert forall j, kind :: 0 <= j < |r.buckets| ==> Tally(r.buckets[j], kind) == Tally(w.buckets[j], kind);
    } else {
      AdvanceFromKeepsConsistent(w, 0, Steps(w.clock, t, d), d, fixed);
    }
  }

  /**
   * The key invariant of `process_event`: totals stay equal to the sums
   * over the buckets, whichever way recycled buckets are stamped.
   */
  lemma ProcessKeepsConsistent(w: Window, e: Event, d: u64, fixed: bool)
    requires Consistent(w) && d > 0
    ensures Consistent(Process(w, e, d, fixed))
  {
    AdvanceKeepsConsistent(w, e.timestamp, d, fixed);
    AddEventKeepsConsistent(Advance(w, e.timestamp, d, fixed), e);
  }

  /** `get_total_likes`/`get_total_views` insert a zero entry, which changes no count. */
  lemma PeekKeepsConsistent(w: Window, p: int)
    requires Consistent(w)
    ensures Consistent(w.(likes := Peek(w.likes, p)))
    ensures Consistent(w.(views := Peek(w.views, p)))
  {
    var a := w.(likes := Peek(w.likes, p));
    var b := w.(views := Peek(w.views, p));
    assert forall kind, q :: Count(Total(a, kind), q) == Count(Total(w, kind), q);
    assert forall kind, q :: Count(Total(b, kind), q) == Count(Total(w, kind), q);
  }

  // ---------------------------------------------------------------------
  // Cursor and clock

  lemma ModPlus(x: int, n: int)
    requires n > 0
    ensures (x + n) % n == x % n
  {
    var q, r := x / n, x % n;
    var q', r' := (x + n) / n, (x + n) % n;
    assert x == q * n + r;
    assert x + n == q' * n + r';
    var k := q + 1 - q';
    assert k * n == r' - r;
    MulBounds(k, n);
  }

  /** The sign bounds of `k * n` that the step-count and ring-index proofs (`StepsElapsed`, `AdvanceCatchesUp`, `DivOf`, `ModPlus`) need. */
  lemma MulBounds(k: int, n: int)
    requires n > 0
    ensures k >= 1 ==> k * n >= n
    ensures k <= -1 ==> k * n <= -n
  {
  }

  /** A number between `q` and `q + 1` multiples of `d` has quotient `q`. */
  lemma DivOf(a: int, d: int, q: int)
    requires d > 0 && q * d <= a < q * d + d
    ensures a / d == q
  {
    assert a == (a / d) * d + a % d;
    var k := a / d - q;
    assert k * d == (a / d) * d - q * d;
    MulBounds(k, d);
  }

  lemma ModSmall(x: int, n: int)
    requires 0 <= x < n
    ensures x % n == x
  {
    DivOf(x, n, 0);
  }

  /** Moving the cursor one place and then `k` more is moving it `k + 1` places. */
  lemma CursorStep(c: int, k: int, n: int, total: int)
    requires 0 <= c < n && total == c + 1 + k
    ensures ((c + 1) % n + k) % n == total % n
  {
    if c + 1 < n {
      ModSmall(c + 1, n);
    } else {
      DivOf(n, n, 1);
      ModPlus(k, n);
      assert total == k + n;
    }
  }

  /** Moving the start time one duration and then `m` more is moving it `k = m + 1` durations. */
  lemma ClockStep(clock: int, d: int, m: int, k: int)
    requires k == m + 1
    ensures ((clock + d) % TWO_64 + m * d) % TWO_64 == (clock + k * d) % TWO_64
  {
    ModAddMod(clock + d, m * d);
    assert (clock + d) + m * d == clock + k * d;
  }

  /** One recycle moves the cursor one place and the start time one duration. */
  lemma RecycleMoves(w: Window, i: nat, d: u64, fixed: bool)
    requires WellShaped(w)
    ensures |Recycle(w, i, d, fixed).buckets| == |w.buckets|
    ensures Recycle(w, i, d, fixed).cur == (w.cur + 1) % |w.buckets|
    ensures Recycle(w, i, d, fixed).clock == (w.clock + d) % TWO_64
  {
  }

  /** Advancing `k` buckets moves the cursor `k` places round the ring. */
  lemma {:induction false} AdvanceFromCursor(w: Window, i: nat, n: int, d: u64, fixed: bool)
    requires WellShaped(w) && i <= n
    ensures AdvanceFrom(w, i, n, d, fixed).cur == (w.cur + (n - i)) % |w.buckets|
    decreases n - i
  {
    var N := |w.buckets|;
    if i < n {
      var r := Recycle(w, i, d, fixed);
      RecycleMoves(w, i, d, fixed);
      AdvanceFromCursor(r, i + 1, n, d, fixed);
      CursorStep(w.cur, n - (i + 1), N, w.cur + (n - i));
    } else {
      ModSmall(w.cur, N);
    }
  }

  /** The base case of `AdvanceFromClock`: zero steps leave the start time where it is. */
  lemma ClockStill(clock: u64, d: int, k: int)
    requires k == 0
    ensures (clock + k * d) % TWO_64 == clock
  {
    SmallMod(clock);
  }

  /** Advancing `k` buckets moves the start time `k` durations on, modulo 2^64. */
  lemma {:induction false} AdvanceFromClock(w: Window, i: nat, n: int, d: u64, fixed: bool)
    requires WellShaped(w) && i <= n
    ensures AdvanceFrom(w, i, n, d, fixed).clock == (w.clock + (n - i) * d) % TWO_64
    decreases n - i
  {
    if i < n {
      var r := Recycle(w, i, d, fixed);
      RecycleMoves(w, i, d, fixed);
      AdvanceFromClock(r, i + 1, n, d, fixed);
      ClockStep(w.clock, d, n - (i + 1), n - i);
    } else {
      ClockStill(w.clock, d, n - i);
    }
  }

  /** The first event, while the start time is still 0, only stamps the current bucket. */
  lemma FirstEventOnlyStamps(w: Window, t: u64, d: u64, fixed: bool)
    requires WellShaped(w) && d > 0 && w.clock == 0
    ensures Advance(w, t, d, fixed).clock == t
    ensures Advance(w, t, d, fixed).cur == w.cur
    ensures Advance(w, t, d, fixed).likes == w.likes && Advance(w, t, d, fixed).views == w.views
    ensures forall j, kind :: 0 <= j < |w.buckets| ==>
      Tally(Advance(w, t, d, fixed).buckets[j], kind) == Tally(w.buckets[j], kind)
    ensures Advance(w, t, d, fixed).buckets[w.cur].startMs == t
    ensures Advance(w, t, d, fixed).buckets[w.cur].endMs == (t + d) % TWO_64
  {
  }

  /** An event less than one duration after the start time advances nothing. */
  lemma WithinDurationNoAdvance(w: Window, t: u64, d: u64, fixed: bool)
    requires WellShaped(w) && d > 0 && w.clock != 0
    requires w.clock <= t < w.clock + d
    ensures Advance(w, t, d, fixed) == w
  {
    DivOf(t - w.clock, d, 0);
    StepsElapsed(w.clock, t, d);
  }

  /**
   * A later event advances the ring by the whole durations elapsed since
   * the start time, which then lies within one duration before the event.
   */
  lemma AdvanceCatchesUp(w: Window, t: u64, d: u64, fixed: bool)
    requires WellShaped(w) && d > 0 && w.clock != 0 && w.clock <= t
    requires (t - w.clock) / d <= INT_MAX
    ensures var k := (t - w.clock) / d;
      var r := Advance(w, t, d, fixed);
      r.cur == (w.cur + k) % |w.buckets| &&
      r.clock == w.clock + k * d &&
      r.clock <= t < r.clock + d
  {
    var k := Steps(w.clock, t, d);
    StepsElapsed(w.clock, t, d);
    var r := AdvanceFrom(w, 0, k, d, fixed);
    assert r == Advance(w, t, d, fixed);
    AdvanceFromCursor(w, 0, k, d, fixed);
    AdvanceFromClock(w, 0, k, d, fixed);
    assert (k - 0) * d == k * d;
    MulBounds(k, d);
    var x := w.clock + k * d;
    assert 0 <= x <= t < x + d;
    SmallMod(x);
    assert r.cur == (w.cur + k) % |w.buckets| && r.clock == x;
  }

  // ---------------------------------------------------------------------
  // The start time of a recycled bucket

  /** The current bucket's span starts at the start time and lasts one duration. */
  predicate Stamped(w: Window, d: u64)
    requires WellShaped(w)
  {
    w.buckets[w.cur].startMs == w.clock && w.buckets[w.cur].endMs == (w.clock + d) % TWO_64
  }

  /**
   * As written: after an event one to two durations past the start time,
   * the ring advances once and the new current bucket is stamped with the
   * old start time, one duration behind the start time it covers.
   */
  lemma AdvanceStampsBehind(w: Window, t: u64, d: u64)
    requires WellShaped(w) && d > 0 && w.clock != 0
    requires w.clock + d <= t < w.clock + 2 * d
    ensures Advance(w, t, d, false).clock == w.clock + d
    ensures Advance(w, t, d, false).buckets[Advance(w, t, d, false).cur].startMs == w.clock
    ensures !Stamped(Advance(w, t, d, false), d)
  {
    DivOf(t - w.clock, d, 1);
    StepsElapsed(w.clock, t, d);
    assert Steps(w.clock, t, d) == 1;
    var r := Recycle(w, 0, d, false);
    assert Advance(w, t, d, false) == AdvanceFrom(w, 0, 1, d, false);
    assert AdvanceFrom(w, 0, 1, d, false) == AdvanceFrom(r, 1, 1, d, false);
    assert AdvanceFrom(r, 1, 1, d, false) == r;
    assert 0 * d == 0;
    SmallMod(w.clock);
    SmallMod(w.clock + d);
    assert r.buckets[r.cur].startMs == w.clock;
    assert r.clock == w.clock + d;
  }

  lemma {:induction false} AdvanceFromKeepsStamped(w: Window, i: nat, n: int, d: u64)
    requires WellShaped(w) && Stamped(w, d)
    ensures WellShaped(AdvanceFrom(w, i, n, d, true))
    ensures Stamped(AdvanceFrom(w, i, n, d, true), d)
    decreases n - i
  {
    if i < n {
      AdvanceFromKeepsStamped(Recycle(w, i, d, true), i + 1, n, d);
    }
  }

  /**
   * Intended: stamping each recycled bucket with the start time it enters
   * keeps the current bucket's span equal to `[start, start + duration)`,
   * from the first event on.
   */
  lemma ProcessKeepsStamped(w: Window, e: Event, d: u64)
    requires WellShaped(w) && d > 0
    requires w.clock == 0 || Stamped(w, d)
    ensures WellShaped(Process(w, e, d, true))
    ensures Stamped(Process(w, e, d, true), d)
  {
    if w.clock != 0 {
      AdvanceFromKeepsStamped(w, 0, Steps(w.clock, e.timestamp, d), d);
    }
  }

  // ---------------------------------------------------------------------
  // The class

  /** `drop_stats_from_total`'s loop over one map of the dropped bucket. */
  method SubtractCounts(total: map<int, int>, counts: map<int, int>) returns (r: map<int, int>)
    ensures r == Subtracted(total, counts)
  {
    r := total;
    var rest := counts;
    ghost var done: map<int, int> := map[];
    while rest != map[]
      invariant forall q :: q in counts <==> q in done || q in rest
      invariant forall q :: q in done ==> q !in rest && done[q] == counts[q]
      invariant forall q :: q in rest ==> rest[q] == counts[q]
      invariant r == Subtracted(total, done)
      decreases rest.Keys
    {
      SomeKey(rest);
      var p :| p in rest;
      SubtractOneStep(total, done, p, rest[p]);
      r := SubtractOne(r, p, rest[p]);
      done := done[p := rest[p]];
      rest := rest - {p};
    }
    assert forall q :: q !in rest;
    assert forall q :: q in done <==> q in counts;
    assert done.Keys == counts.Keys;
  }

  lemma SomeKey(m: map<int, int>)
    requires m != map[]
    ensures exists p :: p in m
  {
    if forall p :: p !in m {
      assert false;
    }
  }

  lemma SubtractOneStep(total: map<int, int>, done: map<int, int>, p: int, c: int)
    requires p !in done
    ensures Subtracted(total, done[p := c]) == SubtractOne(Subtracted(total, done), p, c)
  {
    var a := Subtracted(total, done[p := c]);
    var b := SubtractOne(Subtracted(total, done), p, c);
    assert Count(Subtracted(total, done), p) == Count(total, p);
    assert a.Keys == b.Keys;
    forall q | q in a
      ensures a[q] == b[q]
    {
      if q != p {
        assert Count(done[p := c], q) == Count(done, q);
      }
    }
  }

  class WindowAggregator {
    const windowSec: int
    const bucketSec: int
    const numBuckets: int
    /** `bucket_sec_ * 1000` as `uint64_t`, the same on every call of `advance_to`. */
    const duration: u64
    const buckets: array<Bucket>
    var totalLikes: map<int, int>
    var totalViews: map<int, int>
    var cur: int
    /** The `static bucket_start_time` of `advance_to`, kept per aggregator. */
    var clock: u64

    function Value(): Window
      reads this, buckets
    {
      Window(buckets[..], totalLikes, totalViews, cur, clock)
    }

    predicate Shaped()
      reads this
    {
      buckets.Length == numBuckets && duration == Duration(bucketSec) && duration > 0
    }

    ghost predicate Valid()
      reads this, buckets
    {
      Shaped() && (numBuckets > 0 ==> Consistent(Value()))
    }

    constructor (windowSec: int, bucketSec: int)
      requires bucketSec != 0 && windowSec % bucketSec == 0 && windowSec / bucketSec >= 0
      requires INT_MIN <= bucketSec * 1000 <= INT_MAX
      ensures Valid()
      ensures this.windowSec == windowSec && this.bucketSec == bucketSec
      ensures numBuckets == windowSec / bucketSec && cur == 0 && clock == 0
      ensures totalLikes == map[] && totalViews == map[]
      ensures forall j :: 0 <= j < buckets.Length ==> buckets[j] == EMPTY_BUCKET
    {
      this.windowSec := windowSec;
      this.bucketSec := bucketSec;
      numBuckets := windowSec / bucketSec;
      duration := Duration(bucketSec);
      buckets := new Bucket[windowSec / bucketSec](_ => EMPTY_BUCKET);
      totalLikes := map[];
      totalViews := map[];
      cur := 0;
      clock := 0;
      new;
      if numBuckets > 0 {
        assert buckets[..] == seq(numBuckets, _ => EMPTY_BUCKET);
        EmptyIsConsistent(numBuckets);
      }
    }

    method ProcessEvent(e: Event)
      requires Valid() && numBuckets > 0
      modifies this, buckets
      ensures Valid()
      ensures Value() == Process(old(Value()), e, duration, false)
    {
      ghost var w := Value();
      AdvanceTo(e.timestamp);
      AddEventToCurrentBucket(e);
    }

    method AddEventToCurrentBucket(e: Event)
      requires Valid() && numBuckets > 0
      modifies this, buckets
      ensures Valid()
      ensures Value() == AddEvent(old(Value()), e)
    {
      ghost var w := Value();
      AddEventKeepsConsistent(w, e);
      var b := buckets[cur];
      match e.kind {
        case View =>
          buckets[cur] := b.(views := Bump(b.views, e.postId));
          totalViews := Bump(totalViews, e.postId);
        case Like =>
          buckets[cur] := b.(likes := Bump(b.likes, e.postId));
          totalLikes := Bump(totalLikes, e.postId);
      }
    }

    method AdvanceTo(timestamp: u64)
      requires Valid() && numBuckets > 0
      modifies this, buckets
      ensures Valid()
      ensures Value() == Advance(old(Value()), timestamp, duration, false)
    {
      ghost var w := Value();
      AdvanceKeepsConsistent(w, timestamp, duration, false);
      if clock == 0 {
        var b := buckets[cur];
        buckets[cur] := b.(startMs := timestamp, endMs := (timestamp + duration) % TWO_64);
        clock := timestamp;
        return;
      }
      var n := Steps(clock, timestamp, duration);
      var i: nat := 0;
      while i < n
        invariant Shaped() && 0 <= cur < numBuckets
        invariant AdvanceFrom(Value(), i, n, duration, false) == AdvanceFrom(w, 0, n, duration, false)
        decreases n - i
      {
        RecycleNext(i);
        i := i + 1;
      }
    }

    /** One iteration of the loop in `advance_to`. */
    method RecycleNext(i: nat)
      requires Shaped() && 0 <= cur < numBuckets
      modifies this, buckets
      ensures Shaped() && 0 <= cur < numBuckets
      ensures Value() == Recycle(old(Value()), i, duration, false)
    {
      ghost var r := Recycle(Value(), i, duration, false);
      cur := (cur + 1) % numBuckets;
      DropStatsFromTotal(cur);
      assert totalLikes == r.likes && totalViews == r.views;
      var start: u64 := (clock + (i * duration) % TWO_64) % TWO_64;
      buckets[cur] := Bucket(start, (start + duration) % TWO_64, map[], map[]);
      clock := (clock + duration) % TWO_64;
      assert buckets[..] == r.buckets;
    }

    method DropStatsFromTotal(idx: int)
      requires Shaped() && 0 <= idx < numBuckets
      modifies this
      ensures Shaped() && cur == old(cur) && clock == old(clock)
      ensures totalLikes == Subtracted(old(totalLikes), buckets[idx].likes)
      ensures totalViews == Subtracted(old(totalViews), buckets[idx].views)
    {
      totalLikes := SubtractCounts(totalLikes, buckets[idx].likes);
      totalViews := SubtractCounts(totalViews, buckets[idx].views);
    }

    method GetTotalLikes(postId: int) returns (v: int)
      requires Valid()
      modifies this
      ensures Valid()
      ensures v == Count(old(totalLikes), postId) && totalLikes == Peek(old(totalLikes), postId)
      ensures totalViews == old(totalViews) && cur == old(cur) && clock == old(clock)
    {
      if numBuckets > 0 {
        PeekKeepsConsistent(Value(), postId);
      }
      totalLikes := Peek(totalLikes, postId);
      v := totalLikes[postId];
    }

    method GetTotalViews(postId: int) returns (v: int)
      requires Valid()
      modifies this
      ensures Valid()
      ensures v == Count(old(totalViews), postId) && totalViews == Peek(old(totalViews), postId)
      ensures totalLikes == old(totalLikes) && cur == old(cur) && clock == old(clock)
    {
      if numBuckets > 0 {
        PeekKeepsConsistent(Value(), postId);
      }
      totalViews := Peek(totalViews, postId);
      v := totalViews[postId];
    }
  }
}
