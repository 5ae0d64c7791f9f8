/** The schedulers that run a planner's jobs, each modelled by the sequential loop
    or counter rule it is built on. A scheduler sees the planner through its job
    count n and the indices it passes to `Job`; running `Job(i)` is recorded as i,
    since what a job does to its render target is not modelled. */
module Schedulers {
  import opened IntMath
  import opened Planners

  // ---------------------------------------------------------------------------
  // SingleThreadScheduler

  /** `SingleThreadScheduler.Schedule`: runs Job(i) for i from 0 while i != n. The
      indices run are 0, 1, ..., n - 1, ascending; none when n is 0. */
  method SingleThreadSchedule(n: int) returns (ran: seq<int>)
    requires n >= 0
    ensures ran == Range(0, n)
    ensures |ran| == n && forall k :: 0 <= k < n ==> ran[k] == k
  {
    ran := [];
    var i := 0;
    while i != n
      invariant 0 <= i <= n
      invariant ran == Range(0, i)
    {
      ran := ran + [i];  // planner.Job(i)()
      i := i + 1;
    }
    forall k | 0 <= k < n ensures ran[k] == k {
      RangeAt(0, n, k);
    }
  }

  /** Running the indices 0, 1, ..., JobCount - 1 writes each pixel of each target
      through exactly one of the jobs run. */
  lemma SingleThreadWritesEachPixelOnce(p: Planner, ran: seq<int>, t: int, x: int, y: int)
    requires JobCount(p).Ok? && ran == Range(0, JobCount(p).value)
    requires IsPixel(p, t, x, y)
    ensures exists k :: 0 <= k < |ran| && Job(p, ran[k]).Ok? && Covers(p, Job(p, ran[k]).value, t, x, y)
    ensures forall k1, k2 ::
      (0 <= k1 < |ran| && 0 <= k2 < |ran| &&
       Job(p, ran[k1]).Ok? && Covers(p, Job(p, ran[k1]).value, t, x, y) &&
       Job(p, ran[k2]).Ok? && Covers(p, Job(p, ran[k2]).value, t, x, y)) ==> k1 == k2
  {
    var o := Owner(p, t, x, y);
    EachPixelWrittenOnce(p, t, x, y, 0);
    RangeAt(0, JobCount(p).value, o);
    assert ran[o] == o;
    forall k1, k2 |
      0 <= k1 < |ran| && 0 <= k2 < |ran| &&
      Job(p, ran[k1]).Ok? && Covers(p, Job(p, ran[k1]).value, t, x, y) &&
      Job(p, ran[k2]).Ok? && Covers(p, Job(p, ran[k2]).value, t, x, y)
      ensures k1 == k2
    {
      RangeAt(0, JobCount(p).value, k1);
      RangeAt(0, JobCount(p).value, k2);
      EachPixelWrittenOnce(p, t, x, y, k1);
      EachPixelWrittenOnce(p, t, x, y, k2);
    }
  }

  // ---------------------------------------------------------------------------
  // ManualThreadingScheduler, run sequentially: the workers share the counter
  // `row`, and each atomic increment hands out the next value. Running one worker
  // to completion after another is one of the interleavings; the claims made are
  // the same in all of them.

  /** One worker thread as written: `jobIndex = Interlocked.Increment(ref row)`,
      stop when jobIndex >= n, otherwise run Job(jobIndex). It claims row0 + 1,
      row0 + 2, ... (each value once, one more than the last), runs the claims below
      n and stops at the first claim that is not. */
  method Worker(n: int, row0: int) returns (row: int, claims: seq<int>, ran: seq<int>)
    ensures row == if row0 + 1 < n then n else row0 + 1
    ensures claims == Range(row0 + 1, row + 1)
    ensures ran == Range(row0 + 1, n)
  {
    row, claims, ran := row0, [], [];
    while true
      invariant row0 <= row && (row == row0 || row < n)
      invariant claims == Range(row0 + 1, row + 1)
      invariant ran == claims
      decreases n - row
    {
      row := row + 1;
      var jobIndex := row;
      claims := claims + [jobIndex];
      if jobIndex >= n {
        break;
      }
      ran := ran + [jobIndex];  // planner.Job(jobIndex)()
    }
  }

  /** `ManualThreadingScheduler.Schedule` with `nthreads` workers (the processor
      count) over a shared counter that starts at 0. The claims are 1, 2, ..., so no
      index is claimed twice; the indices run are exactly 1, ..., n - 1: index 0 is
      never run, and no index at or above n is. */
  method ManualThreadingSchedule(n: int, nthreads: nat) returns (claims: seq<int>, ran: seq<int>)
    ensures claims == Range(1, |claims| + 1)
    ensures |claims| == if nthreads == 0 then 0 else (if n > 1 then n - 1 else 0) + nthreads
    ensures nthreads == 0 ==> ran == []
    ensures nthreads > 0 ==> ran == Range(1, n)
    ensures forall k :: k in ran <==> nthreads > 0 && 1 <= k < n
  {
    var row := 0;
    claims, ran := [], [];
    var i := 0;
    while i != nthreads
      invariant 0 <= i <= nthreads
      invariant claims == Range(1, row + 1) && row >= 0
      invariant i == 0 ==> row == 0 && ran == []
      invariant i > 0 ==> ran == Range(1, n) && row == (if n > 1 then n - 1 else 0) + i
    {
      var row', claims', ran' := Worker(n, row);
      claims, ran := claims + claims', ran + ran';
      RangeAppend(1, row + 1, row' + 1);
      row := row';
      i := i + 1;
    }
    forall k ensures k in ran <==> nthreads > 0 && 1 <= k < n {
      RangeMembers(1, n, k);
    }
  }

  /** The indices the scheduler as written runs, 1, ..., JobCount - 1, leave pixel
      (0, 0) of target 0 unwritten under every planner of `Job` (the pixel planner
      with its corrected mapping): only the job of index 0 writes it. For the frame
      planner target 0 is never computed, and for the monolith planner, whose only
      job has index 0, nothing is. */
  lemma ManualThreadingSkipsFirstJob(p: Planner)
    requires JobCount(p).Ok? && IsPixel(p, 0, 0, 0)
    ensures JobCount(p).value >= 1
    ensures forall i :: i in Range(1, JobCount(p).value) ==>
      Job(p, i).Ok? && !Covers(p, Job(p, i).value, 0, 0, 0)
  {
    EachPixelWrittenOnce(p, 0, 0, 0, 0);
    forall i | i in Range(1, JobCount(p).value)
      ensures Job(p, i).Ok? && !Covers(p, Job(p, i).value, 0, 0, 0)
    {
      RangeMembers(1, JobCount(p).value, i);
      JobThenIndexOf(p, i);
      EachPixelWrittenOnce(p, 0, 0, 0, i);
    }
  }

  /** One worker with the intended claim rule: take the counter's current value,
      then advance it (`Interlocked.Increment(ref row) - 1`). It runs row0, ...,
      n - 1 and stops at the first claim at or above n. */
  method FixedWorker(n: int, row0: int) returns (row: int, ran: seq<int>)
    ensures row == if row0 < n then n + 1 else row0 + 1
    ensures ran == Range(row0, n)
  {
    row, ran := row0, [];
    while true
      invariant row0 <= row && (row == row0 || row <= n)
      invariant ran == Range(row0, row)
      decreases n - row
    {
      var jobIndex := row;
      row := row + 1;
      if jobIndex >= n {
        break;
      }
      ran := ran + [jobIndex];  // planner.Job(jobIndex)()
    }
  }

  /** The scheduler with the intended claim rule runs every index of [0, n) exactly
      once, as long as there is at least one worker. */
  method FixedManualThreadingSchedule(n: int, nthreads: nat) returns (ran: seq<int>)
    ensures nthreads == 0 ==> ran == []
    ensures nthreads > 0 ==> ran == Range(0, n)
    ensures forall k :: k in ran <==> nthreads > 0 && 0 <= k < n
  {
    var row := 0;
    ran := [];
    var i := 0;
    while i != nthreads
      invariant 0 <= i <= nthreads
      invariant row >= 0
      invariant i == 0 ==> row == 0 && ran == []
      invariant i > 0 ==> ran == Range(0, n) && row >= n
    {
      var row', ran' := FixedWorker(n, row);
      ran := ran + ran';
      row := row';
      i := i + 1;
    }
    forall k ensures k in ran <==> nthreads > 0 && 0 <= k < n {
      RangeMembers(0, n, k);
    }
  }

  // ---------------------------------------------------------------------------
  // ThreadproolScheduler

  /** `ThreadproolScheduler.Schedule`: enqueues Job(i) for i from 0 while i != n;
      each work item runs its job and increments `jobsDone`, and the scheduling
      thread waits until jobsDone is no longer below n. Each wait here lets one
      queued item finish, the pool choosing any of them. Every index of [0, n) is
      enqueued once in ascending order and completed exactly once, and the wait
      ends with jobsDone == n. */
  method ThreadPoolSchedule(n: int) returns (queued: seq<int>, completed: seq<int>, jobsDone: int)
    requires n >= 0
    ensures queued == Range(0, n)
    ensures jobsDone == n && |completed| == n
    ensures forall i :: multiset(completed)[i] == if 0 <= i < n then 1 else 0
  {
    queued := [];
    var jobIndex := 0;
    while jobIndex != n
      invariant 0 <= jobIndex <= n
      invariant queued == Range(0, jobIndex)
    {
      queued := queued + [jobIndex];  // ThreadPool.QueueUserWorkItem
      jobIndex := jobIndex + 1;
    }
    jobsDone := 0;
    completed := [];
    var pending := queued;
    while jobsDone < n
      invariant 0 <= jobsDone <= n
      invariant |completed| == jobsDone && |pending| == n - jobsDone
      invariant multiset(completed) + multiset(pending) == multiset(queued)
    {
      var k :| 0 <= k < |pending|;
      assert pending == pending[..k] + [pending[k]] + pending[k + 1..];
      completed := completed + [pending[k]];  // planner.Job(i)(), then Interlocked.Increment
      pending := pending[..k] + pending[k + 1..];
      jobsDone := jobsDone + 1;
    }
    assert pending == [];
    forall i ensures multiset(completed)[i] == if 0 <= i < n then 1 else 0 {
      RangeMultiplicity(0, n, i);
    }
  }
}
