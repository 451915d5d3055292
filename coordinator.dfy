/** `VideoProcessor.detect_max_variation`: probe the video, split its frames
    into `num_threads` ranges, scan every range, and pick the window of the
    first partition with the largest variation. */
module Coordinator {
  import opened Wrappers
  import opened Frames
  import opened WindowScan
  import opened Partition

  /** The probing capture: whether it opened, and its frame count and fps. */
  datatype Probe = Probe(isOpen: bool, frameCount: int, fps: int)

  /** A worker's own capture: whether it opened, and the frames it yields
      after seeking to the start of the worker's range. */
  datatype WorkerCapture = WorkerCapture(isOpen: bool, frames: seq<Frame>)

  /** The value `detect_max_variation` returns. */
  datatype ScanResult = ScanResult(windowStart: int, frameCount: int)

  predicate WellShaped(workers: seq<WorkerCapture>)
  {
    forall i :: 0 <= i < |workers| ==> SameShape(workers[i].frames)
  }

  /** What each worker reports: worker `i` scans `[b[i], b[i+1])`. */
  function WorkerOutcome(workers: seq<WorkerCapture>, b: seq<int>, w: int, i: int): Outcome<Window>
    requires WellShaped(workers) && |b| == |workers| + 1 && 0 <= i < |workers|
  {
    RangeScan(workers[i].isOpen, workers[i].frames, b[i], b[i + 1], w)
  }

  function Outcomes(workers: seq<WorkerCapture>, b: seq<int>, w: int): (outs: seq<Outcome<Window>>)
    requires WellShaped(workers) && |b| == |workers| + 1
    ensures |outs| == |workers|
    ensures forall i :: 0 <= i < |workers| ==> outs[i] == WorkerOutcome(workers, b, w, i)
  {
    seq(|workers|, i requires 0 <= i < |workers| => WorkerOutcome(workers, b, w, i))
  }

  /** The first exception among the outcomes, in partition order. */
  function FirstRaised(outs: seq<Outcome<Window>>): (e: Option<Exception>)
    ensures e.None? <==> forall i :: 0 <= i < |outs| ==> outs[i].Returned?
    ensures e.Some? ==> exists i :: 0 <= i < |outs| && outs[i] == Raised(e.value)
  {
    if |outs| == 0 then None
    else if outs[0].Raised? then Some(outs[0].error)
    else
      var e := FirstRaised(outs[1..]);
      assert forall i :: 1 <= i < |outs| ==> outs[i] == outs[1..][i - 1];
      e
  }

  /** The variations the workers report, slot by slot. */
  function ReportedVariations(outs: seq<Outcome<Window>>): (vars: seq<int>)
    requires forall i :: 0 <= i < |outs| ==> outs[i].Returned?
    ensures |vars| == |outs|
    ensures forall i :: 0 <= i < |outs| ==> vars[i] == outs[i].value.variation
  {
    seq(|outs|, i requires 0 <= i < |outs| => outs[i].value.variation)
  }

  /** Lines 114-119: a worker that raised makes `future.result()` re-raise;
      otherwise the index reported by the first partition with the largest
      variation is returned with the frame count. */
  function Aggregate(outs: seq<Outcome<Window>>, frameCount: int): (r: Outcome<ScanResult>)
    requires |outs| > 0
    ensures r.Raised? <==> exists i :: 0 <= i < |outs| && outs[i].Raised?
    ensures r.Raised? ==> exists i :: 0 <= i < |outs| && outs[i] == Raised(r.error)
    ensures r.Returned? ==>
      && r.value.frameCount == frameCount
      && (forall j :: 0 <= j < |outs| ==> outs[j].Returned?)
      && exists i :: 0 <= i < |outs|
           && r.value.windowStart == outs[i].value.index
           && (forall j :: 0 <= j < |outs| ==> outs[j].value.variation <= outs[i].value.variation)
           && (forall j :: 0 <= j < i ==> outs[j].value.variation < outs[i].value.variation)
  {
    match FirstRaised(outs)
    case Some(e) => Raised(e)
    case None =>
      var k := FirstArgMax(ReportedVariations(outs));
      Returned(ScanResult(outs[k].value.index, frameCount))
  }

  /** What `detect_max_variation` returns or raises. With `num_threads <= 0`,
      `np.linspace` (for fewer than -1) or `np.argmax` of an empty list raises. */
  function DetectResult(probe: Probe, numThreads: int, windowSize: int, workers: seq<WorkerCapture>)
    : (r: Outcome<ScanResult>)
    requires WellShaped(workers) && |workers| == if numThreads > 0 then numThreads else 0
    ensures !probe.isOpen ==> r == Returned(ScanResult(0, 0))
    ensures probe.isOpen && numThreads <= 0 ==> r == Raised(ValueError)
    ensures probe.isOpen && r.Returned? ==> r.value.frameCount == probe.frameCount
  {
    if !probe.isOpen then Returned(ScanResult(0, 0))
    else if numThreads <= 0 then Raised(ValueError)
    else
      var b := Boundaries(probe.frameCount, numThreads);
      Aggregate(Outcomes(workers, b, probe.fps * windowSize), probe.frameCount)
  }

  /** `order` lists every worker exactly once: the order in which
      `as_completed` hands their futures back. */
  predicate CompletionOrder(order: seq<nat>, n: nat)
  {
    |order| == n && (forall k :: 0 <= k < |order| ==> order[k] < n)
      && forall i :: 0 <= i < n ==> i in order
  }

  /** `detect_max_variation`, with each worker's result written to its own
      slot in whatever order the workers complete. */
  method DetectMaxVariation(probe: Probe, numThreads: int, windowSize: int,
                            workers: seq<WorkerCapture>, order: seq<nat>)
    returns (r: Outcome<ScanResult>)
    requires WellShaped(workers) && |workers| == if numThreads > 0 then numThreads else 0
    requires CompletionOrder(order, |workers|)
    ensures r == DetectResult(probe, numThreads, windowSize, workers)
  {
    if !probe.isOpen {
      return Returned(ScanResult(0, 0));
    }
    var frameCount := probe.frameCount;
    var fps := probe.fps;
    if numThreads <= 0 {
      return Raised(ValueError);
    }
    var frameRanges := Boundaries(frameCount, numThreads);
    ghost var outs := Outcomes(workers, frameRanges, fps * windowSize);
    var maxVariations := seq(numThreads, _ => 0);
    var maxVariationIndices := seq(numThreads, _ => 0);
    var k := 0;
    while k < |order|
      invariant 0 <= k <= |order|
      invariant |maxVariations| == |maxVariationIndices| == numThreads
      invariant forall j :: 0 <= j < k ==>
        (outs[order[j]].Returned?
         && maxVariations[order[j]] == outs[order[j]].value.variation
         && maxVariationIndices[order[j]] == outs[order[j]].value.index)
    {
      var i := order[k];
      var progress := new ProgressRecord();
      var result := ProcessFrameRange(workers[i].isOpen, workers[i].frames,
                                      frameRanges[i], frameRanges[i + 1], fps, windowSize, progress);
      match result {
        case Raised(e) =>
          // `future.result()` re-raises; every failing worker raises alike
          assert outs[i] == Raised(e);
          WorkersRaiseAlike(workers, frameRanges, fps * windowSize);
          FirstRaisedIs(outs, i, e);
          return Raised(e);
        case Returned(window) =>
          maxVariations := maxVariations[i := window.variation];
          maxVariationIndices := maxVariationIndices[i := window.index];
      }
      k := k + 1;
    }
    AllSlotsWritten(order, outs, maxVariations, maxVariationIndices);
    return Returned(ScanResult(maxVariationIndices[FirstArgMax(maxVariations)], frameCount));
  }

  /** All workers that raise raise the exception fixed by `w`. */
  lemma WorkersRaiseAlike(workers: seq<WorkerCapture>, b: seq<int>, w: int)
    requires WellShaped(workers) && |b| == |workers| + 1
    ensures forall j :: 0 <= j < |workers| && WorkerOutcome(workers, b, w, j).Raised? ==>
      WorkerOutcome(workers, b, w, j).error == if w < 0 then ValueError else IndexError
  {
  }

  /** If worker `i` raised `e` and every raising worker raised `e`, the first
      exception in partition order is `e`. */
  lemma {:induction false} FirstRaisedIs(outs: seq<Outcome<Window>>, i: nat, e: Exception)
    requires i < |outs| && outs[i] == Raised(e)
    requires forall j :: 0 <= j < |outs| && outs[j].Raised? ==> outs[j].error == e
    ensures FirstRaised(outs) == Some(e)
  {
    if !outs[0].Raised? {
      FirstRaisedIs(outs[1..], i - 1, e);
    }
  }

  /** Once every worker in the completion order has written its slot, the
      slots hold every worker's result, whatever that order was. */
  lemma AllSlotsWritten(order: seq<nat>, outs: seq<Outcome<Window>>, vars: seq<int>, indices: seq<int>)
    requires CompletionOrder(order, |outs|) && |vars| == |indices| == |outs|
    requires forall j :: 0 <= j < |order| ==>
      (outs[order[j]].Returned?
       && vars[order[j]] == outs[order[j]].value.variation
       && indices[order[j]] == outs[order[j]].value.index)
    ensures forall i :: 0 <= i < |outs| ==> outs[i].Returned? && indices[i] == outs[i].value.index
    ensures vars == ReportedVariations(outs)
  {
    forall i | 0 <= i < |outs| ensures outs[i].Returned? && vars[i] == outs[i].value.variation
      && indices[i] == outs[i].value.index
    {
      assert i in order;
      var j :| 0 <= j < |order| && order[j] == i;
    }
  }

  /** When any worker raises, the whole detection raises, with the exception
      fixed by the window length (`ValueError` for a negative window, else
      `IndexError`). */
  lemma DetectRaisesWhenAWorkerRaises(probe: Probe, numThreads: int, windowSize: int,
                                      workers: seq<WorkerCapture>, i: nat)
    requires WellShaped(workers) && |workers| == if numThreads > 0 then numThreads else 0
    requires probe.isOpen && i < |workers|
    requires WorkerOutcome(workers, Boundaries(probe.frameCount, numThreads), probe.fps * windowSize, i).Raised?
    ensures DetectResult(probe, numThreads, windowSize, workers)
      == Raised(if probe.fps * windowSize < 0 then ValueError else IndexError)
  {
    var b := Boundaries(probe.frameCount, numThreads);
    var w := probe.fps * windowSize;
    var outs := Outcomes(workers, b, w);
    WorkersRaiseAlike(workers, b, w);
    FirstRaisedIs(outs, i, if w < 0 then ValueError else IndexError);
  }

  /** When every worker returns, the result carries the probed frame count and
      the window start of the first partition whose variation is largest. */
  lemma DetectPicksFirstLargest(probe: Probe, numThreads: int, windowSize: int, workers: seq<WorkerCapture>)
    requires WellShaped(workers) && |workers| == if numThreads > 0 then numThreads else 0
    requires probe.isOpen && numThreads > 0
    requires forall i :: 0 <= i < numThreads ==>
      WorkerOutcome(workers, Boundaries(probe.frameCount, numThreads), probe.fps * windowSize, i).Returned?
    ensures var r := DetectResult(probe, numThreads, windowSize, workers);
      var outs := Outcomes(workers, Boundaries(probe.frameCount, numThreads), probe.fps * windowSize);
      && r.Returned? && r.value.frameCount == probe.frameCount
      && exists i :: 0 <= i < numThreads
           && r.value.windowStart == outs[i].value.index
           && (forall j :: 0 <= j < numThreads ==> outs[j].value.variation <= outs[i].value.variation)
           && (forall j :: 0 <= j < i ==> outs[j].value.variation < outs[i].value.variation)
  {
    var outs := Outcomes(workers, Boundaries(probe.frameCount, numThreads), probe.fps * windowSize);
    var k := FirstArgMax(ReportedVariations(outs));
    assert DetectResult(probe, numThreads, windowSize, workers).value.windowStart == outs[k].value.index;
  }

  /** A video whose every partition is still (all frames a worker reads are
      equal) yields window start 0: every worker reports `(0, start)`, so the
      first one wins, and the first partition starts at frame 0. */
  lemma DetectStillVideoGivesZero(probe: Probe, numThreads: int, windowSize: int, workers: seq<WorkerCapture>)
    requires WellShaped(workers) && |workers| == if numThreads > 0 then numThreads else 0
    requires probe.isOpen && numThreads > 0 && probe.fps * windowSize >= 1
    requires forall i :: 0 <= i < numThreads ==> workers[i].isOpen
    requires forall i, f :: 0 <= i < numThreads && 0 <= f < |workers[i].frames| ==>
      workers[i].frames[f] == workers[i].frames[0]
    ensures DetectResult(probe, numThreads, windowSize, workers) == Returned(ScanResult(0, probe.frameCount))
  {
    var b := Boundaries(probe.frameCount, numThreads);
    var w := probe.fps * windowSize;
    var outs := Outcomes(workers, b, w);
    forall i | 0 <= i < numThreads ensures outs[i] == Returned(Window(0, b[i])) {
      StillVideoGivesStart(workers[i].frames, b[i], b[i + 1], w);
    }
    BoundariesEnds(probe.frameCount, numThreads);
    assert FirstArgMax(ReportedVariations(outs)) == 0;
  }

  predicate ReportsZero(o: Outcome<Window>)
  {
    o.Returned? && o.value.variation == 0
  }

  /** With every worker reporting variation 0, the first partition wins. */
  lemma AggregateAllZero(outs: seq<Outcome<Window>>, frameCount: int)
    requires |outs| > 0 && forall i :: 0 <= i < |outs| ==> ReportsZero(outs[i])
    ensures ReportsZero(outs[0]) && Aggregate(outs, frameCount) == Returned(ScanResult(outs[0].value.index, frameCount))
  {
    var k := FirstArgMax(ReportedVariations(outs));
    assert ReportsZero(outs[0]) && ReportsZero(outs[k]);
  }

  /** When every partition reports variation 0, the window start is 0: the
      first partition wins the tie, and it starts at frame 0 (a worker that
      reports 0 reports its own start, or `(0, 0)` when its capture failed). */
  lemma DetectAllZeroGivesZero(probe: Probe, numThreads: int, windowSize: int, workers: seq<WorkerCapture>)
    requires WellShaped(workers) && |workers| == if numThreads > 0 then numThreads else 0
    requires probe.isOpen && numThreads > 0
    requires forall i :: 0 <= i < numThreads ==>
      ReportsZero(WorkerOutcome(workers, Boundaries(probe.frameCount, numThreads), probe.fps * windowSize, i))
    ensures DetectResult(probe, numThreads, windowSize, workers) == Returned(ScanResult(0, probe.frameCount))
  {
    var b := Boundaries(probe.frameCount, numThreads);
    var w := probe.fps * windowSize;
    var outs := Outcomes(workers, b, w);
    AggregateAllZero(outs, probe.frameCount);
    BoundariesEnds(probe.frameCount, numThreads);
  }
}
