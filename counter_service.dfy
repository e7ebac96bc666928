/**
 * The in-process counter benchmark: a map of per-post view counters behind
 * one lock (`DistributedCounter`), a generator that turns random draws into a
 * batch of requests, a worker that applies a slice of the batch, and the
 * split of the batch into per-thread slices.
 *
 * Threads and the lock are not modelled: the workers run one after another,
 * which is the meaning the lock gives them (every request is applied whole).
 */
module CounterService {

  /** `OperationType`. */
  datatype OpType = GetViewsOp | AddViewOp

  /** `Request`. */
  datatype Request = Request(op: OpType, postId: int)

  /** The count of a post: `counters_.find` falls back to 0. */
  function Views(counters: map<int, int>, postId: int): int {
    if postId in counters then counters[postId] else 0
  }

  /** What one request does to the counters: only ADD_VIEW changes them. */
  function Effect(counters: map<int, int>, r: Request): map<int, int> {
    if r.op == AddViewOp then counters[r.postId := Views(counters, r.postId) + 1] else counters
  }

  /** The counters after the requests of `reqs`, in order. */
  function Applied(counters: map<int, int>, reqs: seq<Request>): map<int, int>
    decreases |reqs|
  {
    if |reqs| == 0 then counters else Effect(Applied(counters, reqs[..|reqs| - 1]), reqs[|reqs| - 1])
  }

  /** The number of ADD_VIEW requests for `postId` in `reqs`. */
  function AddsFor(reqs: seq<Request>, postId: int): nat
    decreases |reqs|
  {
    if |reqs| == 0 then 0
    else AddsFor(reqs[..|reqs| - 1], postId) + (if reqs[|reqs| - 1] == Request(AddViewOp, postId) then 1 else 0)
  }

  /** The number of ADD_VIEW requests in `reqs`. */
  function Writes(reqs: seq<Request>): nat
    decreases |reqs|
  {
    if |reqs| == 0 then 0
    else Writes(reqs[..|reqs| - 1]) + (if reqs[|reqs| - 1].op == AddViewOp then 1 else 0)
  }

  /** `cmds[start..end)` as the worker loop visits it: empty when `start >= end`. */
  function Slice(cmds: seq<Request>, start: int, end: int): seq<Request>
    requires start < end ==> 0 <= start && end <= |cmds|
  {
    if start < end then cmds[start..end] else []
  }

  /** Extending the slice by the request at `id` applies that request last. */
  lemma RunStep(counters: map<int, int>, cmds: seq<Request>, start: int, id: int)
    requires 0 <= start <= id < |cmds|
    ensures Applied(counters, Slice(cmds, start, id + 1)) == Effect(Applied(counters, Slice(cmds, start, id)), cmds[id])
    ensures Writes(Slice(cmds, start, id + 1)) == Writes(Slice(cmds, start, id)) + (if cmds[id].op == AddViewOp then 1 else 0)
  {
    var t := Slice(cmds, start, id + 1);
    assert t[..|t| - 1] == Slice(cmds, start, id);
  }

  class DistributedCounter {
    var counters: map<int, int>
    var readOps: int
    var writeOps: int

    constructor ()
      ensures counters == map[] && readOps == 0 && writeOps == 0
    {
      counters := map[];
      readOps := 0;
      writeOps := 0;
    }

    /** `add_view`: one more view of `postId` (created at 0), and one more write. */
    method AddView(postId: int)
      modifies this
      ensures counters == old(counters)[postId := Views(old(counters), postId) + 1]
      ensures writeOps == old(writeOps) + 1 && readOps == old(readOps)
    {
      counters := counters[postId := Views(counters, postId) + 1];
      writeOps := writeOps + 1;
    }

    /**
     * `get_views`: the stored count, or 0 for a post never viewed; it inserts
     * nothing. The `read_ops_++` after both returns is never reached, so the
     * read counter is not touched.
     */
    method GetViews(postId: int) returns (v: int)
      ensures postId in counters ==> v == counters[postId]
      ensures postId !in counters ==> v == 0
    {
      if postId !in counters {
        return 0;
      } else {
        return counters[postId];
      }
    }

    /** `get_read_ops`. */
    method GetReadOps() returns (n: int)
      ensures n == readOps
    {
      return readOps;
    }

    /** `get_write_ops`. */
    method GetWriteOps() returns (n: int)
      ensures n == writeOps
    {
      return writeOps;
    }
  }

  /** `WorkloadManager`: a worker bound to one shared counter. */
  class WorkloadManager {
    const data: DistributedCounter

    constructor (data: DistributedCounter)
      ensures this.data == data
    {
      this.data := data;
    }

    /** `run(cmds, start_cmd, end_cmd)`: apply `cmds[start_cmd..end_cmd)` in index order. */
    method Run(cmds: seq<Request>, startCmd: int, endCmd: int)
      requires startCmd < endCmd ==> 0 <= startCmd && endCmd <= |cmds|
      modifies data
      ensures data.counters == Applied(old(data.counters), Slice(cmds, startCmd, endCmd))
      ensures data.writeOps == old(data.writeOps) + Writes(Slice(cmds, startCmd, endCmd))
      ensures data.readOps == old(data.readOps)
    {
      var cmdId := startCmd;
      while cmdId < endCmd
        invariant cmdId == startCmd || startCmd < cmdId <= endCmd
        invariant data.counters == Applied(old(data.counters), Slice(cmds, startCmd, cmdId))
        invariant data.writeOps == old(data.writeOps) + Writes(Slice(cmds, startCmd, cmdId))
        invariant data.readOps == old(data.readOps)
      {
        RunStep(old(data.counters), cmds, startCmd, cmdId);
        Dispatch(cmds[cmdId]);
        cmdId := cmdId + 1;
      }
    }

    /** The body of `run`'s loop: a GET_VIEWS reads, an ADD_VIEW adds one view. */
    method Dispatch(cmd: Request)
      modifies data
      ensures data.counters == Effect(old(data.counters), cmd)
      ensures data.writeOps == old(data.writeOps) + (if cmd.op == AddViewOp then 1 else 0)
      ensures data.readOps == old(data.readOps)
    {
      if cmd.op == GetViewsOp {
        var _ := data.GetViews(cmd.postId);
      }
      if cmd.op == AddViewOp {
        data.AddView(cmd.postId);
      }
    }
  }

  // ---------------------------------------------------------------------------
  // Generating a batch.

  /**
   * The request built from one pair of draws of `uniform_dist(0, max_post_id)`:
   * the first is the post, the second decides the operation.
   */
  function RequestOf(postDraw: int, opDraw: int, readsPerWrites: int): Request
    requires readsPerWrites >= 1 && opDraw >= 0
  {
    Request(if opDraw % (readsPerWrites + 1) == 0 then GetViewsOp else AddViewOp, postDraw)
  }

  /**
   * `gen_batch`: `draws[i]` is the pair of draws made for request `i`. The
   * batch has one request per draw pair, in order, each naming a post in
   * `[0, max_post_id]`; it is a read exactly when the second draw is a
   * multiple of `reads_per_writes + 1`.
   */
  method GenBatch(batchSize: int, maxPostId: int, readsPerWrites: int, draws: seq<(int, int)>)
    returns (batch: seq<Request>)
    requires readsPerWrites >= 1
    requires 0 <= batchSize == |draws|
    requires forall i :: 0 <= i < |draws| ==> 0 <= draws[i].0 <= maxPostId && 0 <= draws[i].1 <= maxPostId
    ensures |batch| == batchSize
    ensures forall i :: 0 <= i < |batch| ==> batch[i] == RequestOf(draws[i].0, draws[i].1, readsPerWrites)
    ensures forall i :: 0 <= i < |batch| ==> 0 <= batch[i].postId <= maxPostId
    ensures forall i :: 0 <= i < |batch| ==>
      (batch[i].op == GetViewsOp <==> draws[i].1 % (readsPerWrites + 1) == 0)
  {
    batch := [];
    var i := 0;
    while i < batchSize
      invariant 0 <= i <= batchSize && |batch| == i
      invariant forall k :: 0 <= k < i ==> batch[k] == RequestOf(draws[k].0, draws[k].1, readsPerWrites)
    {
      var postId := draws[i].0;
      var opProb := draws[i].1 % (readsPerWrites + 1);
      var opType;
      if opProb == 0 {
        opType := GetViewsOp;
      } else {
        opType := AddViewOp;
      }
      batch := batch + [Request(opType, postId)];
      i := i + 1;
    }
  }

  // ---------------------------------------------------------------------------
  // Splitting the batch between threads.

  /** C++ `/` on `int`: the quotient truncated toward zero. */
  function CDiv(a: int, b: int): int
    requires b > 0
  {
    if a >= 0 then a / b else -((-a) / b)
  }

  /** `work_per_thread = (total_work - 1) / num_threads + 1`. */
  function WorkPerThread(total: nat, threads: nat): (w: nat)
    requires threads >= 1
    ensures total >= 1 ==> w >= 1
  {
    CDiv(total - 1, threads) + 1
  }

  /** The first request of thread `i`. */
  function ThreadStart(total: nat, threads: nat, i: nat): nat
    requires threads >= 1
  {
    i * WorkPerThread(total, threads)
  }

  /** One past the last request of thread `i`: `min((i + 1) * work_per_thread, total_work)`. */
  function ThreadEnd(total: nat, threads: nat, i: nat): nat
    requires threads >= 1
  {
    var e := (i + 1) * WorkPerThread(total, threads);
    if e < total then e else total
  }

  /** The threads together cover every request: `num_threads * work_per_thread >= total_work`. */
  lemma ThreadsCoverBatch(total: nat, threads: nat)
    requires threads >= 1
    ensures threads * WorkPerThread(total, threads) >= total
  {
    if total >= 1 {
      var q := (total - 1) / threads;
      assert total - 1 == q * threads + (total - 1) % threads;
      assert WorkPerThread(total, threads) == q + 1;
      assert threads * (q + 1) == q * threads + threads;
    }
  }

  /** Request `k` belongs to thread `k / work_per_thread` and to no other thread. */
  lemma ThreadOfRequest(total: nat, threads: nat, k: nat, i: nat)
    requires threads >= 1 && k < total && i < threads
    ensures var w := WorkPerThread(total, threads);
      k / w < threads
      && (ThreadStart(total, threads, i) <= k < ThreadEnd(total, threads, i) <==> i == k / w)
  {
    var w := WorkPerThread(total, threads);
    ThreadsCoverBatch(total, threads);
    DivBelow(k, w, threads);
    DivUnique(k, w, i);
  }

  lemma DivBelow(k: nat, w: nat, n: nat)
    requires w > 0 && k < n * w
    ensures k / w < n
  {
    var j := k / w;
    assert j * w <= k by {
      assert k == j * w + k % w;
    }
    if j >= n {
      MulMonotone(n, j, w);
      assert false;
    }
  }

  lemma DivUnique(k: nat, w: nat, i: nat)
    requires w > 0
    ensures i * w <= k < (i + 1) * w <==> i == k / w
  {
    var j := k / w;
    assert k == j * w + k % w;
    assert (i + 1) * w == i * w + w;
    assert (j + 1) * w == j * w + w;
    if i < j {
      MulMonotone(i + 1, j, w);
    } else if i > j {
      MulMonotone(j + 1, i, w);
    }
  }

  lemma MulMonotone(a: nat, b: nat, c: nat)
    requires a <= b
    ensures a * c <= b * c
  {
    assert b * c == a * c + (b - a) * c;
  }

  // ---------------------------------------------------------------------------
  // Properties of the counters.

  /** Applying two pieces one after the other is applying their concatenation. */
  lemma {:induction false} AppliedConcat(c: map<int, int>, a: seq<Request>, b: seq<Request>)
    ensures Applied(Applied(c, a), b) == Applied(c, a + b)
    decreases |b|
  {
    if |b| > 0 {
      var b' := b[..|b| - 1];
      assert (a + b)[..|a + b| - 1] == a + b';
      AppliedConcat(c, a, b');
    } else {
      assert a + b == a;
    }
  }

  /** Each post's count grows by the number of ADD_VIEW requests for it; GET_VIEWS changes nothing. */
  lemma {:induction false} ViewsAfterApplied(c: map<int, int>, reqs: seq<Request>, postId: int)
    ensures Views(Applied(c, reqs), postId) == Views(c, postId) + AddsFor(reqs, postId)
    decreases |reqs|
  {
    if |reqs| > 0 {
      ViewsAfterApplied(c, reqs[..|reqs| - 1], postId);
    }
  }

  /**
   * `main`: every thread runs `run` on its slice. Run one after another, the
   * threads leave the counters exactly as one pass over the whole batch would.
   */
  method RunThreads(data: DistributedCounter, cmds: seq<Request>, numThreads: nat)
    requires numThreads >= 1
    modifies data
    ensures data.counters == Applied(old(data.counters), cmds)
    ensures data.writeOps == old(data.writeOps) + Writes(cmds)
    ensures data.readOps == old(data.readOps)
  {
    var totalWork := |cmds|;
    var workPerThread := WorkPerThread(totalWork, numThreads);
    var threadIdx := 0;
    ghost var covered := 0;
    while threadIdx < numThreads
      invariant threadIdx <= numThreads && covered == threadIdx * workPerThread
      invariant data.counters == Applied(old(data.counters), cmds[..Min(covered, totalWork)])
      invariant data.writeOps == old(data.writeOps) + Writes(cmds[..Min(covered, totalWork)])
      invariant data.readOps == old(data.readOps)
    {
      var startCmd := threadIdx * workPerThread;
      var endCmd := Min((threadIdx + 1) * workPerThread, totalWork);
      assert (threadIdx + 1) * workPerThread == covered + workPerThread;
      var mgr := new WorkloadManager(data);
      mgr.Run(cmds, startCmd, endCmd);
      PrefixThenSlice(cmds, covered, covered + workPerThread);
      AppliedConcat(old(data.counters), cmds[..Min(covered, totalWork)], Slice(cmds, startCmd, endCmd));
      WritesConcat(cmds[..Min(covered, totalWork)], Slice(cmds, startCmd, endCmd));
      threadIdx := threadIdx + 1;
      covered := covered + workPerThread;
    }
    ThreadsCoverBatch(totalWork, numThreads);
    assert cmds[..totalWork] == cmds;
  }

  /** The requests before `a`, then those of `[a, b)`, are the requests before `b`. */
  lemma PrefixThenSlice(cmds: seq<Request>, a: nat, b: nat)
    requires a <= b
    ensures cmds[..Min(a, |cmds|)] + Slice(cmds, a, Min(b, |cmds|)) == cmds[..Min(b, |cmds|)]
  {
  }

  function Min(a: int, b: int): int {
    if a < b then a else b
  }

  lemma {:induction false} WritesConcat(a: seq<Request>, b: seq<Request>)
    ensures Writes(a + b) == Writes(a) + Writes(b)
    decreases |b|
  {
    if |b| > 0 {
      var b' := b[..|b| - 1];
      assert (a + b)[..|a + b| - 1] == a + b';
      WritesConcat(a, b');
    } else {
      assert a + b == a;
    }
  }
}
