/** The four planners of the Mandelbrot renderer. A planner turns a list of render
    targets into a job count and a map from a zero-based job index to one unit of
    work: one pixel, one row, one whole target, or every target in list order. */
module Planners {
  import opened IntMath

  /** What a planner reads of a render target (a Mandelbrot image): its size. */
  datatype Dims = Dims(width: nat, height: nat)

  /** A planner over its list of render targets. The source holds the list by
      reference and never changes it while jobs are handed out, so a value of the
      list stands for it. */
  datatype Planner =
    | PixelPlanner(targets: seq<Dims>)
    | RowPlanner(targets: seq<Dims>)
    | FramePlanner(targets: seq<Dims>)
    | MonolithPlanner(targets: seq<Dims>)

  /** The closure a planner returns, described by the render-target call it makes
      when it is run. The target operations themselves are not modelled. */
  datatype Work =
    | ComputeSingle(target: int, x: int, y: int)
    | ComputeRow(target: int, row: int)
    | ComputeAll(target: int)
    | ComputeEach  // ComputeAll on every target of the list, in list order

  /** The exceptions the planner code itself raises. */
  datatype Error =
    | IndexOutOfRange  // `mandelbrots[0]` on an empty list
    | DivideByZero     // a pixel count or row count of zero used as divisor

  datatype Result<T> = Ok(value: T) | Err(error: Error)

  /** Whether all targets have the first target's size; the planners read only the
      first target's width and height. */
  predicate Uniform(ts: seq<Dims>) {
    forall t :: 0 <= t < |ts| ==> ts[t] == ts[0]
  }

  /** The `JobCount` property of each planner. Pixel and row planners read the
      first target, so they fail on an empty list; no count is ever negative. */
  function JobCount(p: Planner): (r: Result<int>)
    ensures r.Err? <==> (p.PixelPlanner? || p.RowPlanner?) && |p.targets| == 0
    ensures r.Ok? ==> r.value >= 0
    ensures p.MonolithPlanner? ==> r == Ok(1)
  {
    match p
    case PixelPlanner(ts) =>
      if |ts| == 0 then Err(IndexOutOfRange) else Ok(ts[0].height * ts[0].width * |ts|)
    case RowPlanner(ts) =>
      if |ts| == 0 then Err(IndexOutOfRange) else Ok(ts[0].height * |ts|)
    case FramePlanner(ts) => Ok(|ts|)
    case MonolithPlanner(_) => Ok(1)
  }

  /** `PixelPlanner.Job` as written: the pixel offset is computed with the same
      division as the target index. */
  function AsWrittenPixelJob(d: Dims, index: int): (r: Result<Work>)
    ensures r.Err? <==> d.width * d.height == 0
    ensures r.Ok? ==> r.value.ComputeSingle?
  {
    var pixelCount := d.width * d.height;
    if pixelCount == 0 then Err(DivideByZero)
    else
      var mandelbrotIndex := CsDiv(index, pixelCount);
      var pixelIndex := CsDiv(index, pixelCount);
      Ok(ComputeSingle(mandelbrotIndex, CsRem(pixelIndex, d.width), CsDiv(pixelIndex, d.width)))
  }

  /** `PixelPlanner.Job` with the pixel offset taken as the remainder modulo the
      pixel count, as the decomposition intends. */
  function PixelJob(d: Dims, index: int): (r: Result<Work>)
    ensures r.Err? <==> d.width * d.height == 0
    ensures r.Ok? ==> r.value.ComputeSingle?
  {
    var pixelCount := d.width * d.height;
    if pixelCount == 0 then Err(DivideByZero)
    else
      var mandelbrotIndex := CsDiv(index, pixelCount);
      var pixelIndex := CsRem(index, pixelCount);
      Ok(ComputeSingle(mandelbrotIndex, CsRem(pixelIndex, d.width), CsDiv(pixelIndex, d.width)))
  }

  /** The `Job(index)` method of each planner (with the corrected pixel mapping).
      It fails exactly when the planner has no jobs to hand out: an empty list for
      the pixel and row planners, or a zero pixel or row count. */
  function Job(p: Planner, index: int): (r: Result<Work>)
    ensures r.Err? <==>
      (p.PixelPlanner? || p.RowPlanner?) && (JobCount(p).Err? || JobCount(p).value == 0)
  {
    match p
    case PixelPlanner(ts) =>
      if |ts| == 0 then Err(IndexOutOfRange) else PixelJob(ts[0], index)
    case RowPlanner(ts) =>
      if |ts| == 0 then Err(IndexOutOfRange)
      else if ts[0].height == 0 then Err(DivideByZero)
      else Ok(ComputeRow(CsDiv(index, ts[0].height), CsRem(index, ts[0].height)))
    case FramePlanner(_) => Ok(ComputeAll(index))
    case MonolithPlanner(_) => Ok(ComputeEach)
  }

  /** The coordinate space of a planner: the jobs that name an existing target and
      a pixel or row inside the first target's extent. */
  predicate ValidJob(p: Planner, j: Work) {
    match p
    case PixelPlanner(ts) =>
      j.ComputeSingle? && 0 <= j.target < |ts| && 0 <= j.x < ts[0].width && 0 <= j.y < ts[0].height
    case RowPlanner(ts) =>
      j.ComputeRow? && 0 <= j.target < |ts| && 0 <= j.row < ts[0].height
    case FramePlanner(ts) =>
      j.ComputeAll? && 0 <= j.target < |ts|
    case MonolithPlanner(_) =>
      j.ComputeEach?
  }

  /** The job index that a planner maps to a given job: the inverse of `Job`. */
  function IndexOf(p: Planner, j: Work): (i: int)
    requires ValidJob(p, j)
  {
    match p
    case PixelPlanner(ts) =>
      j.target * (ts[0].width * ts[0].height) + (j.y * ts[0].width + j.x)
    case RowPlanner(ts) => j.target * ts[0].height + j.row
    case FramePlanner(_) => j.target
    case MonolithPlanner(_) => 0
  }

  /** The pixel (t, x, y) is written when job j runs. */
  predicate Covers(p: Planner, j: Work, t: int, x: int, y: int) {
    match j
    case ComputeSingle(t', x', y') => t == t' && x == x' && y == y'
    case ComputeRow(t', r) => t == t' && y == r
    case ComputeAll(t') => t == t'
    case ComputeEach => 0 <= t < |p.targets|
  }

  /** Pixel (t, x, y) of the render targets: an existing target, inside the first
      target's extent. */
  predicate IsPixel(p: Planner, t: int, x: int, y: int) {
    0 <= t < |p.targets| && 0 <= x < p.targets[0].width && 0 <= y < p.targets[0].height
  }

  /** The render-target calls a job makes when it runs, in order. */
  function Calls(p: Planner, j: Work): (cs: seq<Work>)
    ensures j.ComputeEach? ==> |cs| == |p.targets|
    ensures j.ComputeEach? ==> forall t :: 0 <= t < |cs| ==> cs[t] == ComputeAll(t)
    ensures !j.ComputeEach? ==> cs == [j]
  {
    if j.ComputeEach? then seq(|p.targets|, t => ComputeAll(t)) else [j]
  }

  // ---------------------------------------------------------------------------
  // The corrected mapping is a bijection from [0, JobCount) onto the coordinate
  // space, for every planner.

  lemma PixelForward(d: Dims, n: int, i: int)
    requires 0 <= i < d.height * d.width * n
    ensures PixelJob(d, i).Ok?
    ensures var j := PixelJob(d, i).value;
      0 <= j.target < n && 0 <= j.x < d.width && 0 <= j.y < d.height &&
      j.target * (d.width * d.height) + (j.y * d.width + j.x) == i
  {
    var pc := d.width * d.height;
    DivBelow(i, pc, n);
    var r := i % pc;
    DivBelow(r, d.width, d.height);
  }

  lemma PixelBackward(d: Dims, n: int, t: int, x: int, y: int)
    requires 0 <= t < n && 0 <= x < d.width && 0 <= y < d.height
    ensures var i := t * (d.width * d.height) + (y * d.width + x);
      0 <= i < d.height * d.width * n && PixelJob(d, i) == Ok(ComputeSingle(t, x, y))
  {
    var pc := d.width * d.height;
    var r := y * d.width + x;
    BlockBelow(y, x, d.width, d.height);
    BlockBelow(t, r, pc, n);
    var i := t * pc + r;
    DivModUnique(i, pc, t, r);
    DivModUnique(r, d.width, y, x);
  }

  /** Every index in [0, JobCount) maps to a job of the coordinate space, and the
      job maps back to the index. */
  lemma JobThenIndexOf(p: Planner, i: int)
    requires JobCount(p).Ok? && 0 <= i < JobCount(p).value
    ensures Job(p, i).Ok? && ValidJob(p, Job(p, i).value)
    ensures IndexOf(p, Job(p, i).value) == i
  {
    match p
    case PixelPlanner(ts) => PixelForward(ts[0], |ts|, i);
    case RowPlanner(ts) => DivBelow(i, ts[0].height, |ts|);
    case FramePlanner(_) =>
    case MonolithPlanner(_) =>
  }

  /** Every job of the coordinate space is the job of exactly the index IndexOf
      gives it, and that index lies in [0, JobCount). */
  lemma IndexOfThenJob(p: Planner, j: Work)
    requires ValidJob(p, j)
    ensures JobCount(p).Ok? && 0 <= IndexOf(p, j) < JobCount(p).value
    ensures Job(p, IndexOf(p, j)) == Ok(j)
  {
    match p
    case PixelPlanner(ts) => PixelBackward(ts[0], |ts|, j.target, j.x, j.y);
    case RowPlanner(ts) =>
      BlockBelow(j.target, j.row, ts[0].height, |ts|);
      DivModUnique(IndexOf(p, j), ts[0].height, j.target, j.row);
    case FramePlanner(_) =>
    case MonolithPlanner(_) =>
  }

  /** Two indices in [0, JobCount) with the same job are the same index. */
  lemma JobInjective(p: Planner, i: int, k: int)
    requires JobCount(p).Ok? && 0 <= i < JobCount(p).value && 0 <= k < JobCount(p).value
    requires Job(p, i) == Job(p, k)
    ensures i == k
  {
    JobThenIndexOf(p, i);
    JobThenIndexOf(p, k);
  }

  /** Every job of the coordinate space is handed out for some index. */
  lemma JobSurjective(p: Planner, j: Work)
    requires ValidJob(p, j)
    ensures exists i :: 0 <= i < JobCount(p).value && Job(p, i) == Ok(j)
  {
    IndexOfThenJob(p, j);
  }

  /** The index whose job writes pixel (t, x, y). */
  function Owner(p: Planner, t: int, x: int, y: int): (i: int)
    requires IsPixel(p, t, x, y)
  {
    match p
    case PixelPlanner(ts) => IndexOf(p, ComputeSingle(t, x, y))
    case RowPlanner(ts) => IndexOf(p, ComputeRow(t, y))
    case FramePlanner(_) => t
    case MonolithPlanner(_) => 0
  }

  /** Each pixel of each target is written by the job of exactly one index in
      [0, JobCount): jobs write disjoint regions that together cover every target. */
  lemma EachPixelWrittenOnce(p: Planner, t: int, x: int, y: int, i: int)
    requires IsPixel(p, t, x, y)
    ensures JobCount(p).Ok? && 0 <= Owner(p, t, x, y) < JobCount(p).value
    ensures Covers(p, Job(p, Owner(p, t, x, y)).value, t, x, y)
    ensures 0 <= i < JobCount(p).value && Covers(p, Job(p, i).value, t, x, y) ==>
      i == Owner(p, t, x, y)
  {
    match p
    case PixelPlanner(_) => IndexOfThenJob(p, ComputeSingle(t, x, y));
    case RowPlanner(_) => IndexOfThenJob(p, ComputeRow(t, y));
    case FramePlanner(_) =>
    case MonolithPlanner(_) =>
    if 0 <= i < JobCount(p).value {
      JobThenIndexOf(p, i);
    }
  }

  /** The monolith's one job, whatever its index, computes every target once, in
      list order: the same calls as the frame planner's jobs 0, 1, ..., Count - 1. */
  lemma MonolithComputesEveryTargetInOrder(ts: seq<Dims>, index: int)
    ensures JobCount(MonolithPlanner(ts)) == Ok(1) && Job(MonolithPlanner(ts), index).Ok?
    ensures var cs := Calls(MonolithPlanner(ts), Job(MonolithPlanner(ts), index).value);
      |cs| == JobCount(FramePlanner(ts)).value &&
      forall k :: 0 <= k < |cs| ==> Job(FramePlanner(ts), Range(0, |ts|)[k]) == Ok(cs[k])
  {
    forall k | 0 <= k < |ts| ensures Range(0, |ts|)[k] == k {
      RangeAt(0, |ts|, k);
    }
  }

  /** Two targets of 4 x 3 pixels: six row jobs, index 3 is row 0 of target 1 and
      index 5 row 2 of target 1; two frame jobs; one monolith job. */
  lemma TwoTargetScenario()
    ensures var ts := [Dims(4, 3), Dims(4, 3)];
      JobCount(RowPlanner(ts)) == Ok(6) &&
      Job(RowPlanner(ts), 0) == Ok(ComputeRow(0, 0)) &&
      Job(RowPlanner(ts), 3) == Ok(ComputeRow(1, 0)) &&
      Job(RowPlanner(ts), 5) == Ok(ComputeRow(1, 2)) &&
      JobCount(FramePlanner(ts)) == Ok(2) &&
      Job(FramePlanner(ts), 1) == Ok(ComputeAll(1)) &&
      JobCount(MonolithPlanner(ts)) == Ok(1) &&
      JobCount(PixelPlanner(ts)) == Ok(24) &&
      Job(PixelPlanner(ts), 17) == Ok(ComputeSingle(1, 1, 1))
  {
  }

  /** When all targets have one size, a job of the coordinate space writes inside
      its own target's extent. */
  lemma ValidJobInsideItsTarget(p: Planner, j: Work)
    requires Uniform(p.targets) && ValidJob(p, j)
    ensures !j.ComputeEach? ==> 0 <= j.target < |p.targets|
    ensures j.ComputeSingle? ==>
      j.x < p.targets[j.target].width && j.y < p.targets[j.target].height
    ensures j.ComputeRow? ==> j.row < p.targets[j.target].height
  {
  }

  // ---------------------------------------------------------------------------
  // The pixel mapping as written.

  /** The target index of an in-range index is in bounds even as written. */
  lemma AsWrittenPixelTargetInBounds(ts: seq<Dims>, i: int)
    requires |ts| > 0 && 0 <= i < JobCount(PixelPlanner(ts)).value
    ensures AsWrittenPixelJob(ts[0], i).Ok?
    ensures 0 <= AsWrittenPixelJob(ts[0], i).value.target < |ts|
  {
    DivBelow(i, ts[0].width * ts[0].height, |ts|);
  }

  /** As written, every index of frame t names the same pixel: the one at offset t. */
  lemma AsWrittenPixelCollapse(d: Dims, t: int, i: int)
    requires d.width * d.height > 0 && t >= 0
    requires t * (d.width * d.height) <= i < t * (d.width * d.height) + d.width * d.height
    ensures AsWrittenPixelJob(d, i) == Ok(ComputeSingle(t, t % d.width, t / d.width))
  {
    var pc := d.width * d.height;
    DivModUnique(i, pc, t, i - t * pc);
  }

  /** As written, indices 0 and 1 both compute pixel (0, 0) of target 0, so the map
      is not injective whenever a frame has more than one pixel. */
  lemma AsWrittenPixelNotInjective(ts: seq<Dims>)
    requires |ts| > 0 && ts[0].width * ts[0].height > 1
    ensures 1 < JobCount(PixelPlanner(ts)).value
    ensures AsWrittenPixelJob(ts[0], 0) == AsWrittenPixelJob(ts[0], 1) == Ok(ComputeSingle(0, 0, 0))
  {
    var d := ts[0];
    MulMonotone(1, |ts|, d.width * d.height);
    AsWrittenPixelCollapse(d, 0, 0);
    AsWrittenPixelCollapse(d, 0, 1);
  }

  /** As written, the job of an in-range index lies in the coordinate space exactly
      when its target index is below the pixel count of one frame. */
  lemma AsWrittenPixelValidIff(ts: seq<Dims>, i: int)
    requires |ts| > 0 && 0 <= i < JobCount(PixelPlanner(ts)).value
    ensures AsWrittenPixelJob(ts[0], i).Ok?
    ensures ValidJob(PixelPlanner(ts), AsWrittenPixelJob(ts[0], i).value) <==>
      i / (ts[0].width * ts[0].height) < ts[0].width * ts[0].height
  {
    var d := ts[0];
    var pc := d.width * d.height;
    DivBelow(i, pc, |ts|);
    DivBelowIff(i / pc, d.width, d.height);
  }

  /** As written, with more targets than pixels per frame, index pc * pc (pc the
      pixel count) is in range and its job computes row `height`, one past the last. */
  lemma AsWrittenPixelLeavesFrame(ts: seq<Dims>)
    requires |ts| > 0 && 0 < ts[0].width * ts[0].height < |ts|
    ensures var pc := ts[0].width * ts[0].height;
      pc * pc < JobCount(PixelPlanner(ts)).value &&
      AsWrittenPixelJob(ts[0], pc * pc) == Ok(ComputeSingle(pc, 0, ts[0].height)) &&
      !ValidJob(PixelPlanner(ts), ComputeSingle(pc, 0, ts[0].height))
  {
    var d := ts[0];
    var pc := d.width * d.height;
    BlockBelow(pc, 0, pc, |ts|);
    AsWrittenPixelCollapse(d, pc, pc * pc);
    DivModUnique(pc, d.width, d.height, 0);
  }
}
