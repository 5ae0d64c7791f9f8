# Mandelbrot job planners and schedulers, in Dafny

This project models the work-decomposition core of a Mandelbrot renderer that
benchmarks decomposition granularities and scheduling strategies against each other.

- A **planner** (`src/Mandelbrot/Planner.cs`) holds a list of render targets
  (Mandelbrot images). It exposes a `JobCount` and a `Job(index)` that returns one
  unit of work. The four planners split work per pixel, per row, per whole image
  (frame), or as one monolithic job that computes every image in list order.
- A **scheduler** (`src/Mandelbrot/Schedulers.cs`) runs the jobs of a planner. The
  model covers the sequential loop, the shared-counter claim rule of the
  manual-threading scheduler, and the enqueue loop and completion wait of the
  thread-pool scheduler.

Files and modules:

- `int_math.dfy`, module `IntMath`: C#'s truncating `/` and `%` (`CsDiv`, `CsRem`).
  Also the uniqueness of quotient and remainder, and `Range(lo, hi)`, the ascending
  indices a `for` loop visits, with its lemmas.
- `planners.dfy`, module `Planners`: the planners as one datatype with four variants.
  A job is a descriptor (`Work`) of the render-target call its closure makes:
  `ComputeSingle(t, x, y)`, `ComputeRow(t, r)`, `ComputeAll(t)`, or `ComputeEach` for
  the monolith. `JobCount` and `Job` return a `Result`, because reading the first
  target of an empty list and dividing by a zero pixel or row count raise exceptions
  in the source.
- `schedulers.dfy`, module `Schedulers`: the schedulers as methods with loops. A
  scheduler sees the planner only through its job count `n`. Running `Job(i)` is
  recorded as the index `i`. The planners' lemmas then say which pixels those jobs
  write.

What is proved, in short:

- For every planner, the corrected index map `[0, JobCount) -> jobs` is a bijection
  onto the coordinate space: `JobThenIndexOf`, `IndexOfThenJob`, `JobInjective` and
  `JobSurjective`.
- Each pixel of each target is written by exactly one job: `EachPixelWrittenOnce`.
- The pixel mapping as written collapses every frame onto one pixel. It is not
  injective, and it leaves the image when there are more targets than pixels per frame.
- The sequential scheduler runs `0, ..., n - 1` in ascending order.
- The thread-pool scheduler enqueues and completes every index exactly once.
- The manual-threading scheduler as written runs exactly `1, ..., n - 1`, so index 0
  is never run. The corrected claim rule runs `0, ..., n - 1`.

Notes on the code as modelled:

- `Job` never checks its index: an out-of-range index yields a job whose target or
  coordinates lie outside the image, which fails only when run. `Job` therefore
  accepts any `int` and follows C#'s truncating division.
- The claim rule checks `jobIndex >= JobCount` before calling `Job`, so no index at
  or above `JobCount` is run (`ManualThreadingSchedule`); the defect is only that
  index 0 is skipped.
- `Job` of the pixel planner uses the corrected mapping (remainder modulo the pixel
  count). The mapping as written is `AsWrittenPixelJob` (see Findings). Every lemma
  stated with `Job` is therefore about the corrected pixel planner.

## Model

| member | source | states |
|---|---|---|
| `IntMath.CsDiv` | src/Mandelbrot/Planner.cs:40-43 | C#'s `/` on int truncates toward zero: for a non-negative dividend the quotient times the divisor is at most the dividend and within one divisor below it; for a negative dividend the quotient is not positive and the quotient times the divisor is at least the dividend and within one divisor above it |
| `IntMath.CsRem` | src/Mandelbrot/Planner.cs:62-64 | C#'s `%`: dividend = quotient * divisor + remainder, and the remainder lies in [0, b) for a non-negative dividend and in (-b, 0] for a negative one |
| `Planners.JobCount` | src/Mandelbrot/Planner.cs:33-96 | the count fails exactly for the pixel and row planners on an empty list (they read `mandelbrots[0]`); otherwise it is never negative; the monolith count is 1 whatever the list |
| `Planners.AsWrittenPixelJob` | src/Mandelbrot/Planner.cs:35-46 | the pixel job as written fails (division by zero) exactly when the first target has no pixels; otherwise it is a single-pixel job |
| `Planners.PixelJob` | src/Mandelbrot/Planner.cs:35-46 | the corrected pixel job fails exactly when the first target has no pixels; otherwise it is a single-pixel job |
| `Planners.Job` | src/Mandelbrot/Planner.cs:35-105 | `Job(index)` fails exactly when a pixel or row planner has no jobs (empty list, or zero pixel or row count); frame and monolith jobs never fail |
| `Planners.Calls` | src/Mandelbrot/Planner.cs:98-105 | the monolith job makes one call per target of the list; every other job makes exactly its own one call |
| `Planners.PixelForward` | src/Mandelbrot/Planner.cs:37-43 | for 0 <= i < Height * Width * Count, the corrected pixel job has target < Count, x < Width and y < Height, and target * pixelCount + y * Width + x == i |
| `Planners.PixelBackward` | src/Mandelbrot/Planner.cs:37-43 | every (t, x, y) inside the extent is the corrected pixel job of index t * pixelCount + y * Width + x, and that index is below JobCount |
| `Planners.JobThenIndexOf` | src/Mandelbrot/Planner.cs:33-105 | for every planner and 0 <= i < JobCount, `Job(i)` succeeds, its job lies in the coordinate space (target < Count, pixel or row in the extent), and `IndexOf` maps the job back to i (pixel planner: corrected mapping) |
| `Planners.IndexOfThenJob` | src/Mandelbrot/Planner.cs:33-105 | every job of the coordinate space has an index in [0, JobCount) whose `Job` is exactly that job (e.g. row r of target t is index t * Height + r) (pixel planner: corrected mapping) |
| `Planners.JobInjective` | src/Mandelbrot/Planner.cs:35-105 | two indices in [0, JobCount) with the same job are equal (pixel planner: corrected mapping) |
| `Planners.JobSurjective` | src/Mandelbrot/Planner.cs:35-105 | every job of the coordinate space is handed out for some index in [0, JobCount) (pixel planner: corrected mapping) |
| `Planners.EachPixelWrittenOnce` | src/Mandelbrot/Planner.cs:33-105 | every pixel of every target is written by the job of one index in [0, JobCount), and by no other index in that range: the jobs write disjoint regions that cover all targets (pixel planner: corrected mapping) |
| `Planners.MonolithComputesEveryTargetInOrder` | src/Mandelbrot/Planner.cs:96-105 | the monolith count is 1, its job ignores the index and computes every target once in list order, the same calls as frame jobs 0, ..., Count - 1 |
| `Planners.TwoTargetScenario` | src/Mandelbrot/Planner.cs:58-66 | with two 4 x 3 targets: 6 row jobs, index 3 is row 0 and index 5 row 2 of target 1; 2 frame jobs; 1 monolith job; 24 pixel jobs, index 17 is pixel (1, 1) of target 1 |
| `Planners.ValidJobInsideItsTarget` | src/Mandelbrot/Planner.cs:37-38 | when all targets share the first target's size, a job of the coordinate space lies inside its own target's extent |
| `Planners.AsWrittenPixelTargetInBounds` | src/Mandelbrot/Planner.cs:37-40 | as written, the target index `index / pixelCount` of every index in [0, JobCount) lies in [0, Count) |
| `Planners.AsWrittenPixelCollapse` | src/Mandelbrot/Planner.cs:40-43 | as written, every index of frame t (t * pixelCount <= i < (t + 1) * pixelCount) computes the same pixel (t % Width, t / Width) of target t |
| `Planners.AsWrittenPixelNotInjective` | src/Mandelbrot/Planner.cs:40-43 | as written, whenever a frame has more than one pixel, indices 0 and 1 are both in range and both compute pixel (0, 0) of target 0 |
| `Planners.AsWrittenPixelValidIff` | src/Mandelbrot/Planner.cs:40-43 | as written, the job of an in-range index lies in the image exactly when its target index is below the pixel count of one frame |
| `Planners.AsWrittenPixelLeavesFrame` | src/Mandelbrot/Planner.cs:40-43 | as written, when Count > pixelCount, index pixelCount * pixelCount is in range and computes pixel (0, Height) of target pixelCount, one row past the image |
| `Schedulers.SingleThreadSchedule` | src/Mandelbrot/Schedulers.cs:21-27 | the loop `i != JobCount` runs exactly 0, 1, ..., n - 1, in ascending order, each once; nothing when n is 0; it terminates because n >= 0 |
| `Schedulers.SingleThreadWritesEachPixelOnce` | src/Mandelbrot/Schedulers.cs:23-26 | running the sequential scheduler's indices through any planner writes each pixel of each target through exactly one of the jobs run (pixel planner: corrected mapping) |
| `Schedulers.Worker` | src/Mandelbrot/Schedulers.cs:42-52 | one worker's claims via `Interlocked.Increment` are consecutive values starting one past the counter; it runs exactly the claims below n and stops at the first claim at or above n |
| `Schedulers.ManualThreadingSchedule` | src/Mandelbrot/Schedulers.cs:32-63 | with a counter starting at 0, the claims are 1, 2, ..., each value once; the number of claims is max(n - 1, 0) plus one failing claim per worker; with at least one worker the indices run are exactly [1, n) |
| `Schedulers.ManualThreadingSkipsFirstJob` | src/Mandelbrot/Schedulers.cs:36-51 | the indices [1, JobCount) that the claim rule runs never write pixel (0, 0) of target 0, under every planner modelled by `Job`: index 0, its only writer, is skipped (pixel planner: corrected mapping) |
| `Schedulers.FixedWorker` | src/Mandelbrot/Schedulers.cs:42-52 | with the claim rule "take the current value, then increment", a worker runs exactly the counter's value up to n - 1 |
| `Schedulers.FixedManualThreadingSchedule` | src/Mandelbrot/Schedulers.cs:32-63 | with the corrected claim rule and at least one worker, the indices run are exactly [0, n), each once |
| `Schedulers.ThreadPoolSchedule` | src/Mandelbrot/Schedulers.cs:106-135 | every index of [0, n) is enqueued once, in ascending order, and completed exactly once, whatever order the pool runs items in; the wait loop ends with jobsDone == n |

## Findings

| source | as written | input that shows it | evidently intended | confidence | as-written member | corrected member |
|---|---|---|---|---|---|---|
| src/Mandelbrot/Planner.cs:41 | `pixelIndex = index / pixelCount`, the same value as the target index | one 2 x 1 target: indices 0 and 1 both compute pixel (0, 0) of target 0, and pixel (1, 0) is never computed | `pixelIndex = index % pixelCount`, making the map a bijection onto targets x width x height | high (not executed) | `Planners.AsWrittenPixelNotInjective` | `Planners.JobInjective` |
| src/Mandelbrot/Schedulers.cs:36-44 | counter `row` starts at 0 and each worker uses the value after `Interlocked.Increment` | JobCount 1 (for instance the monolith planner) and one worker: the first claim is 1, so no job runs at all | claim the value before the increment, so the indices run are [0, JobCount) | high (not executed) | `Schedulers.ManualThreadingSkipsFirstJob` | `Schedulers.FixedManualThreadingSchedule` |

## Left out

- Render-target operations (`ComputeSingle`, `ComputeRow`, `ComputeAll`) and the fractal
  numerics behind them. They are floating-point work in the `Mandelbrot` class, which
  is not part of this model. A job is described by the call it makes, not by its effect.
- 32-bit overflow of `Height * Width * Count` and of the job index: the model uses
  unbounded integers.
- Real threading: thread creation, `Join`, the atomicity of `Interlocked.Increment`,
  `lock` and `Monitor.Wait/Pulse`, and memory ordering. The manual-threading workers
  run one after another, which is one of the interleavings. The thread pool completes
  queued items in any order, chosen nondeterministically, one per wait.
- ThreadPoolSchedule: the check of `jobsDone` in the wait loop happens outside the lock. A
  pulse sent between that check and `Monitor.Wait` is lost, so the real scheduler can
  block forever. The model assumes each wait is woken by one completion.
- `ParallelScheduler`, `EnumerableScheduler` and `TaskScheduler` wrap library
  parallel engines (`Parallel.For`, PLINQ, `Task.WhenAll`) whose behaviour cannot be
  seen. `TaskScheduler` constructs its tasks without starting them, so its wait never
  completes when JobCount > 0; that is a run-time scheduling matter and is not modelled.
- Exceptions raised by a job while it runs, and their propagation out of the
  schedulers, are not modelled. The schedulers take the job count `n` rather than the
  planner, so the exception `JobCount` raises on an empty list is modelled only in
  `Planners.JobCount`.
- `Environment.ProcessorCount` is the `nthreads` parameter.
- Render-target sizes are assumed non-negative (`Dims` holds `nat` width and height):
  the `Mandelbrot` class that reports them is not part of this model.
- Targets of differing sizes: the planners read only the first target's width and
  height. The coordinate space is stated against the first target, and
  `ValidJobInsideItsTarget` relates it to each target's own size when all sizes agree.
