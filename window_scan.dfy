/** The per-partition scan of `VideoProcessor.process_frame_range`: a moving
    sum of consecutive-frame variations kept with a bounded deque, and the best
    running sum seen together with the frame where its window starts. */
module WindowScan {
  import opened Wrappers
  import opened Frames

  /** What a worker reports: its best running sum and the window start. */
  datatype Window = Window(variation: int, index: int)

  function Sum(s: seq<int>): int
  {
    if |s| == 0 then 0 else Sum(s[..|s| - 1]) + s[|s| - 1]
  }

  lemma {:induction false} SumFront(s: seq<int>)
    requires |s| > 0
    ensures Sum(s) == s[0] + Sum(s[1..])
  {
    if |s| > 1 {
      SumFront(s[..|s| - 1]);
      assert s[..|s| - 1][1..] == s[1..][..|s| - 2];
    }
  }

  lemma {:induction false} SumNonNegative(s: seq<int>)
    requires forall k :: 0 <= k < |s| ==> s[k] >= 0
    ensures Sum(s) >= 0
  {
    if |s| > 0 {
      SumNonNegative(s[..|s| - 1]);
    }
  }

  lemma {:induction false} SumOfZeros(s: seq<int>)
    requires forall k :: 0 <= k < |s| ==> s[k] == 0
    ensures Sum(s) == 0
  {
    if |s| > 0 {
      SumOfZeros(s[..|s| - 1]);
    }
  }

  /** The last `k` entries of `s` (all of `s` if it is shorter). */
  function Last(s: seq<int>, k: nat): seq<int>
  {
    if |s| <= k then s else s[|s| - k..]
  }

  /** `deque(maxlen=maxlen).append(x)`: a full deque drops its oldest entry,
      and a deque of length 0 stays empty. */
  function DequeAppend(dq: seq<int>, maxlen: nat, x: int): (r: seq<int>)
    requires |dq| <= maxlen
    ensures |r| <= maxlen
    ensures r == Last(dq + [x], maxlen)
  {
    if maxlen == 0 then dq
    else if |dq| == maxlen then dq[1..] + [x]
    else dq + [x]
  }

  lemma LastAppend(s: seq<int>, k: nat, x: int)
    ensures Last(Last(s, k) + [x], k) == Last(s + [x], k)
  {
    if |s| > k && k > 0 {
      assert (s[|s| - k..] + [x])[1..] == (s + [x])[|s| + 1 - k..];
    }
  }

  /** How many of the latest variations the running sum of lines 63-68 holds
      after `n` of them: all while the deque (capacity `w`) is not full, and the
      last `w - 1` once it is, because line 66 subtracts the head of the deque
      after the new value was appended. */
  function Span(n: nat, w: int): (r: nat)
    requires w >= 1
    ensures r <= n && r <= w - 1
    ensures r == n || r == w - 1
  {
    if n < w then n else w - 1
  }

  /** The running sum `window_variation` after the variations `vs`. */
  function WindowSum(vs: seq<int>, w: int): (r: int)
    requires w >= 1
    ensures |vs| < w ==> r == Sum(vs)
    ensures w == 1 ==> r == 0
  {
    assert |vs| < w ==> vs[|vs| - Span(|vs|, w)..] == vs;
    Sum(vs[|vs| - Span(|vs|, w)..])
  }

  /** Non-negative variations give a non-negative running sum. */
  lemma WindowSumNonNegative(vs: seq<int>, w: int)
    requires w >= 1 && forall k :: 0 <= k < |vs| ==> vs[k] >= 0
    ensures WindowSum(vs, w) >= 0
  {
    SumNonNegative(vs[|vs| - Span(|vs|, w)..]);
  }

  /** One step of the running sum: add the new variation and, once the deque
      is full, subtract the entry at its head. */
  lemma WindowSumStep(vs: seq<int>, x: int, w: int)
    requires w >= 1
    ensures WindowSum(vs + [x], w)
         == WindowSum(vs, w) + x - (if |vs| + 1 >= w then (vs + [x])[|vs| + 1 - w] else 0)
  {
    var n := |vs|;
    var vs' := vs + [x];
    if n + 1 < w {
      assert vs'[n + 1 - Span(n + 1, w)..] == vs' && vs[n - Span(n, w)..] == vs;
      assert vs'[..n] == vs;
    } else if w == 1 {
    } else {
      var tail := vs[n - w + 1..];
      assert vs'[n + 1 - Span(n + 1, w)..] == vs[n - w + 2..] + [x];
      assert (vs[n - w + 2..] + [x])[..w - 2] == vs[n - w + 2..];
      SumFront(tail);
      assert tail[1..] == vs[n - w + 2..];
    }
  }

  /** The running sums after each variation of `vs`: entry `j` is the value
      of `window_variation` once the first `j + 1` variations were added. */
  function RunningSums(vs: seq<int>, w: int): (sums: seq<int>)
    requires w >= 1
    ensures |sums| == |vs|
  {
    if |vs| == 0 then [] else RunningSums(vs[..|vs| - 1], w) + [WindowSum(vs, w)]
  }

  lemma RunningSumsAt(vs: seq<int>, w: int, j: nat)
    requires w >= 1 && j < |vs|
    ensures RunningSums(vs, w)[j] == WindowSum(vs[..j + 1], w)
  {
    if j < |vs| - 1 {
      var init := vs[..|vs| - 1];
      RunningSumsAt(init, w, j);
      assert init[..j + 1] == vs[..j + 1];
    } else {
      assert vs[..j + 1] == vs;
    }
  }

  /** The code's choice among the running sums: a strictly larger sum replaces
      the best so far (`max_variation` starts at 0, the index at `start`), and
      the start reported for the sum after variation `j` (counted from 0) is
      the frame index at that step, `start + j + 1`, minus `w - 1`. */
  function Best(sums: seq<int>, w: int, start: int): Window
  {
    if |sums| == 0 then Window(0, start)
    else
      var prev := Best(sums[..|sums| - 1], w, start);
      var s := sums[|sums| - 1];
      if s > prev.variation then Window(s, start + |sums| - w + 1) else prev
  }

  /** Sum number `j` is the first to reach the value `m`. */
  predicate FirstReaches(sums: seq<int>, j: int, m: int)
  {
    0 <= j < |sums| && sums[j] == m && forall k :: 0 <= k < j ==> sums[k] < m
  }

  /** The best window is the earliest largest positive running sum, or
      `(0, start)` when no running sum is positive. */
  lemma {:induction false} BestIsFirstMaximum(sums: seq<int>, w: int, start: int)
    ensures Best(sums, w, start).variation >= 0
    ensures forall j :: 0 <= j < |sums| ==> sums[j] <= Best(sums, w, start).variation
    ensures Best(sums, w, start).variation == 0 ==> Best(sums, w, start).index == start
    ensures Best(sums, w, start).variation > 0 ==>
      exists j :: FirstReaches(sums, j, Best(sums, w, start).variation)
        && Best(sums, w, start).index == start + j - w + 2
  {
    if |sums| > 0 {
      var init := sums[..|sums| - 1];
      BestIsFirstMaximum(init, w, start);
      var prev := Best(init, w, start);
      var last := sums[|sums| - 1];
      assert forall j :: 0 <= j < |init| ==> init[j] == sums[j];
      if last > prev.variation {
        assert FirstReaches(sums, |sums| - 1, last);
      } else if prev.variation > 0 {
        var j :| FirstReaches(init, j, prev.variation) && prev.index == start + j - w + 2;
        assert FirstReaches(sums, j, prev.variation);
      }
    }
  }

  /** If no running sum is positive the best window is `(0, start)`. */
  lemma NoPositiveSum(sums: seq<int>, w: int, start: int)
    requires forall j :: 0 <= j < |sums| ==> sums[j] <= 0
    ensures Best(sums, w, start) == Window(0, start)
  {
    BestIsFirstMaximum(sums, w, start);
  }

  /** The running sum after the variation into local frame `j` is the total
      change across the frames it spans: the `w` frames ending at frame `j` once
      that many were read, and otherwise every frame read so far. */
  lemma RunningSumCoversWindow(frames: seq<Frame>, j: nat, w: int)
    requires SameShape(frames)
    requires w >= 1 && 1 <= j < |frames|
    ensures j >= w - 1 ==>
      SameShape(frames[j - w + 1..j + 1])
      && WindowSum(Variations(frames)[..j], w) == Sum(Variations(frames[j - w + 1..j + 1]))
    ensures j < w - 1 ==>
      SameShape(frames[..j + 1])
      && WindowSum(Variations(frames)[..j], w) == Sum(Variations(frames[..j + 1]))
  {
    if j >= w - 1 {
      SumOfSlice(frames, j - w + 1, j, w);
    } else {
      SumOfSlice(frames, 0, j, w);
      assert frames[0..j + 1] == frames[..j + 1];
    }
  }

  /** The running sum after the variation into local frame `j` is the sum of
      the variations among frames `a..j`, when that run is the one it spans. */
  lemma SumOfSlice(frames: seq<Frame>, a: nat, j: nat, w: int)
    requires SameShape(frames)
    requires w >= 1 && a <= j < |frames|
    requires a == j - Span(j, w)
    ensures SameShape(frames[a..j + 1])
    ensures WindowSum(Variations(frames)[..j], w) == Sum(Variations(frames[a..j + 1]))
  {
    var vs := Variations(frames);
    VariationsOfSlice(frames, a, j + 1);
    assert vs[..j][a..] == vs[a..j];
  }

  /** Number of frames `cap.read()` delivers: the loop stops at `end` or when
      the decoder runs out of frames. */
  function FramesRead(frames: seq<Frame>, start: int, end: int): (n: nat)
    ensures n <= |frames| && n <= if end > start then end - start else 0
    ensures n < (if end > start then end - start else 0) ==> n == |frames|
  {
    if end - start <= 0 then 0
    else if |frames| < end - start then |frames|
    else end - start
  }

  /** What `process_frame_range` returns or raises, for a capture that opened
      (or not), the frames it yields from `start` on, and `w = fps * window_size`.
      A negative `w` makes `deque(maxlen=w)` raise; `w == 0` leaves the deque
      empty, so `variations[0]` raises as soon as a second frame is read. */
  function RangeScan(isOpen: bool, frames: seq<Frame>, start: int, end: int, w: int): (r: Outcome<Window>)
    requires SameShape(frames)
    ensures r.Raised? <==> isOpen && (w < 0 || (w == 0 && FramesRead(frames, start, end) >= 2))
    ensures r.Returned? ==> r.value.variation >= 0
    ensures r.Returned? && r.value.variation == 0 ==> r.value.index == if isOpen then start else 0
  {
    var n := FramesRead(frames, start, end);
    if !isOpen then Returned(Window(0, 0))
    else if w < 0 then Raised(ValueError)
    else if w == 0 then (if n >= 2 then Raised(IndexError) else Returned(Window(0, start)))
    else
      BestIsFirstMaximum(ScanSums(frames, start, end, w), w, start);
      Returned(Best(ScanSums(frames, start, end, w), w, start))
  }

  /** How many times `progress_dict["completed"]` is incremented: once per
      frame read when the scan returns, never when the capture or the deque
      fails, and once, for the first frame, before the `IndexError`. */
  function FramesCompleted(isOpen: bool, frames: seq<Frame>, start: int, end: int, w: int): (n: nat)
    requires SameShape(frames)
    ensures n <= FramesRead(frames, start, end)
    ensures isOpen && RangeScan(isOpen, frames, start, end, w).Returned? ==> n == FramesRead(frames, start, end)
    ensures !isOpen || w < 0 ==> n == 0
    ensures RangeScan(isOpen, frames, start, end, w).Raised? ==> n <= 1
  {
    var n := FramesRead(frames, start, end);
    if !isOpen || w < 0 then 0
    else if w == 0 && n >= 2 then 1
    else n
  }

  lemma SameShapePrefix(frames: seq<Frame>, k: nat)
    requires SameShape(frames) && k <= |frames|
    ensures SameShape(frames[..k])
  {
    assert forall i :: 0 <= i < k ==> frames[..k][i] == frames[i];
  }

  /** The scan's state after `c` frames were read, for a window of `w >= 1`
      frames: the deque holds the last `w` variations, `window_variation` is
      their running sum, and the best window is that of the running sums so
      far. */
  ghost predicate ScanState(frames: seq<Frame>, c: nat, w: int, start: int,
                            dq: seq<int>, wv: int, best: Window)
    requires SameShape(frames) && c <= |frames| && w >= 1
    ensures ScanState(frames, c, w, start, dq, wv, best) ==> |dq| <= w
  {
    SameShapePrefix(frames, c);
    var vs := Variations(frames[..c]);
    dq == Last(vs, w) && wv == WindowSum(vs, w) && best == Best(RunningSums(vs, w), w, start)
  }

  /** Reading frame `c` (after at least one earlier frame) performs lines
      62-72 and keeps the scan state. */
  lemma ScanStep(frames: seq<Frame>, c: nat, w: int, start: int,
                 dq: seq<int>, wv: int, best: Window, dq': seq<int>, wv': int, best': Window)
    requires SameShape(frames) && 1 <= c < |frames| && w >= 1
    requires ScanState(frames, c, w, start, dq, wv, best)
    requires dq' == DequeAppend(dq, w, Variation(frames[c - 1], frames[c]))
    requires wv' == (if |dq'| == w then wv - dq'[0] else wv) + Variation(frames[c - 1], frames[c])
    requires best' == if wv' > best.variation then Window(wv', start + c - w + 1) else best
    ensures ScanState(frames, c + 1, w, start, dq', wv', best')
  {
    SameShapePrefix(frames, c);
    StepVariations(frames, c);
    var vs := Variations(frames[..c]);
    var x := Variation(frames[c - 1], frames[c]);
    DequeStep(vs, dq, w, x);
    SumStep(vs, dq', wv, w, x);
    BestStep(vs, w, start, x);
  }

  /** The variations of the first `c + 1` frames extend those of the first `c`. */
  lemma StepVariations(frames: seq<Frame>, c: nat)
    requires SameShape(frames) && 1 <= c < |frames|
    ensures SameShape(frames[..c]) && SameShape(frames[..c + 1])
    ensures Variations(frames[..c + 1]) == Variations(frames[..c]) + [Variation(frames[c - 1], frames[c])]
  {
    SameShapePrefix(frames, c);
    SameShapePrefix(frames, c + 1);
    assert frames[..c + 1][..c] == frames[..c];
  }

  lemma DequeStep(vs: seq<int>, dq: seq<int>, w: int, x: int)
    requires w >= 1 && dq == Last(vs, w)
    ensures |dq| <= w && DequeAppend(dq, w, x) == Last(vs + [x], w)
  {
    LastAppend(vs, w, x);
  }

  lemma SumStep(vs: seq<int>, dq': seq<int>, wv: int, w: int, x: int)
    requires w >= 1 && dq' == Last(vs + [x], w) && wv == WindowSum(vs, w)
    ensures WindowSum(vs + [x], w) == (if |dq'| == w then wv - dq'[0] else wv) + x
  {
    WindowSumStep(vs, x, w);
  }

  lemma BestStep(vs: seq<int>, w: int, start: int, x: int)
    requires w >= 1
    ensures RunningSums(vs + [x], w) == RunningSums(vs, w) + [WindowSum(vs + [x], w)]
    ensures var prev := Best(RunningSums(vs, w), w, start);
      var s := WindowSum(vs + [x], w);
      Best(RunningSums(vs + [x], w), w, start)
        == if s > prev.variation then Window(s, start + |vs| + 1 - w + 1) else prev
  {
    assert (vs + [x])[..|vs|] == vs;
    var sums := RunningSums(vs + [x], w);
    assert sums[..|sums| - 1] == RunningSums(vs, w);
  }

  /** The state before any frame was read, and after the first one: reading
      the first frame only sets `prev_frame`. */
  lemma ScanStart(frames: seq<Frame>, w: int, start: int)
    requires SameShape(frames) && w >= 1
    ensures ScanState(frames, 0, w, start, [], 0, Window(0, start))
    ensures |frames| >= 1 ==> ScanState(frames, 1, w, start, [], 0, Window(0, start))
  {
    SameShapePrefix(frames, 0);
    if |frames| >= 1 {
      SameShapePrefix(frames, 1);
    }
  }

  /** Once every frame the loop takes was read, its best window is the scan's result. */
  lemma ScanFinish(frames: seq<Frame>, start: int, end: int, w: int, dq: seq<int>, wv: int, best: Window)
    requires SameShape(frames) && w >= 1
    requires ScanState(frames, FramesRead(frames, start, end), w, start, dq, wv, best)
    ensures RangeScan(true, frames, start, end, w) == Returned(best)
  {
    SameShapePrefix(frames, FramesRead(frames, start, end));
  }

  /** The running sums of the frames a worker reads. */
  function ScanSums(frames: seq<Frame>, start: int, end: int, w: int): (sums: seq<int>)
    requires SameShape(frames) && w >= 1
    ensures |sums| == if FramesRead(frames, start, end) < 2 then 0 else FramesRead(frames, start, end) - 1
  {
    var n := FramesRead(frames, start, end);
    SameShapePrefix(frames, n);
    RunningSums(Variations(frames[..n]), w)
  }

  /** Stated on the frames: the reported window is the earliest largest
      positive running sum, or `(0, start)` if there is none. */
  lemma ScanReportsFirstMaximum(frames: seq<Frame>, start: int, end: int, w: int)
    requires SameShape(frames) && w >= 1
    ensures
      var sums := ScanSums(frames, start, end, w);
      var r := RangeScan(true, frames, start, end, w);
      && r.Returned? && r.value.variation >= 0
      && (forall j :: 0 <= j < |sums| ==> sums[j] <= r.value.variation)
      && (r.value.variation == 0 ==> r.value.index == start)
      && (r.value.variation > 0 ==>
            exists j :: FirstReaches(sums, j, r.value.variation) && r.value.index == start + j - w + 2)
  {
    BestIsFirstMaximum(ScanSums(frames, start, end, w), w, start);
  }

  /** A reported window starts at `frame_index - w + 1` for a frame index in
      `[start + 1, end - 1]`, so within `[start - w + 2, end - w]`: it can lie
      before the partition and, in the first partition, below 0. */
  lemma {:induction false} ScanIndexRange(frames: seq<Frame>, start: int, end: int, w: int)
    requires SameShape(frames) && w >= 1
    requires RangeScan(true, frames, start, end, w).value.variation > 0
    ensures start - w + 2 <= RangeScan(true, frames, start, end, w).value.index <= end - w
  {
    var sums := ScanSums(frames, start, end, w);
    BestIsFirstMaximum(sums, w, start);
    var j :| FirstReaches(sums, j, Best(sums, w, start).variation)
      && Best(sums, w, start).index == start + j - w + 2;
  }

  /** Two frames that differ, one variation of 5, a window of 3 frames: the
      reported start is -1. */
  lemma ScanCanReportNegativeIndex()
    ensures RangeScan(true, [[0], [5], [5]], 0, 3, 3) == Returned(Window(5, -1))
  {
    var frames: seq<Frame> := [[0], [5], [5]];
    assert frames[..3] == frames;
    assert Variations(frames) == [5, 0];
    assert [5, 0][..1] == [5];
    assert WindowSum([5], 3) == 5;
    assert WindowSum([5, 0], 3) == 5 by {
      assert [5, 0][..1] == [5];
    }
    assert RunningSums([5, 0], 3) == [5, 5];
    assert [5, 5][..1] == [5];
  }

  /** When no running sum is positive the scan returns `(0, start)`. */
  lemma NoPositiveSumGivesStart(frames: seq<Frame>, start: int, end: int, w: int)
    requires SameShape(frames) && w >= 1
    requires forall j :: 0 <= j < |ScanSums(frames, start, end, w)| ==> ScanSums(frames, start, end, w)[j] <= 0
    ensures RangeScan(true, frames, start, end, w) == Returned(Window(0, start))
  {
    ScanReportsFirstMaximum(frames, start, end, w);
  }

  /** Fewer than two frames read (a range of at most one frame, or a decoder
      that gives out): no variation, so `(0, start)`. */
  lemma FewFramesGiveStart(frames: seq<Frame>, start: int, end: int, w: int)
    requires SameShape(frames) && w >= 0
    requires FramesRead(frames, start, end) < 2
    ensures RangeScan(true, frames, start, end, w) == Returned(Window(0, start))
  {
    if w >= 1 {
      SameShapePrefix(frames, FramesRead(frames, start, end));
    }
  }

  /** A one-frame window (`w == 1`) keeps the running sum at 0, so `(0, start)`. */
  lemma SingleFrameWindowGivesStart(frames: seq<Frame>, start: int, end: int)
    requires SameShape(frames)
    ensures RangeScan(true, frames, start, end, 1) == Returned(Window(0, start))
  {
    var n := FramesRead(frames, start, end);
    SameShapePrefix(frames, n);
    var vs := Variations(frames[..n]);
    var sums := ScanSums(frames, start, end, 1);
    forall j | 0 <= j < |sums| ensures sums[j] <= 0 {
      RunningSumsAt(vs, 1, j);
    }
    NoPositiveSumGivesStart(frames, start, end, 1);
  }

  /** A still video (all frames equal) gives `(0, start)`. */
  lemma StillVideoGivesStart(frames: seq<Frame>, start: int, end: int, w: int)
    requires SameShape(frames) && w >= 1
    requires forall i :: 0 <= i < |frames| ==> frames[i] == frames[0]
    ensures RangeScan(true, frames, start, end, w) == Returned(Window(0, start))
  {
    var n := FramesRead(frames, start, end);
    SameShapePrefix(frames, n);
    var prefix := frames[..n];
    StillFramesHaveZeroVariations(prefix);
    var vs := Variations(prefix);
    var sums := ScanSums(frames, start, end, w);
    forall j | 0 <= j < |sums| ensures sums[j] <= 0 {
      RunningSumsAt(vs, w, j);
      var part := vs[..j + 1];
      SumOfZeros(part[|part| - Span(|part|, w)..]);
    }
    NoPositiveSumGivesStart(frames, start, end, w);
  }

  /** Every worker with the same `w` that raises raises the same exception, so
      which failing worker is noticed first does not change the outcome. */
  lemma RaisedKindDependsOnlyOnWindow(o1: bool, f1: seq<Frame>, s1: int, e1: int,
                                      o2: bool, f2: seq<Frame>, s2: int, e2: int, w: int)
    requires SameShape(f1) && SameShape(f2)
    requires RangeScan(o1, f1, s1, e1, w).Raised? && RangeScan(o2, f2, s2, e2, w).Raised?
    ensures RangeScan(o1, f1, s1, e1, w) == RangeScan(o2, f2, s2, e2, w)
    ensures RangeScan(o1, f1, s1, e1, w).error == if w < 0 then ValueError else IndexError
  {
  }

  /** A capture that does not open returns `(0, 0)` and reads nothing. */
  lemma FailedOpenGivesOrigin(frames: seq<Frame>, start: int, end: int, w: int)
    requires SameShape(frames)
    ensures RangeScan(false, frames, start, end, w) == Returned(Window(0, 0))
    ensures FramesCompleted(false, frames, start, end, w) == 0
  {
  }

  /** The per-worker progress dictionary `{"completed": n}`. */
  class ProgressRecord {
    var completed: int

    constructor ()
      ensures completed == 0
    {
      completed := 0;
    }
  }

  /** `process_frame_range`: the decoder is the sequence `frames` it would
      yield after seeking to `startFrame`; `isOpen` is `cap.isOpened()`. */
  method ProcessFrameRange(isOpen: bool, frames: seq<Frame>, startFrame: int, endFrame: int,
                           fps: int, windowSize: int, progress: ProgressRecord)
    returns (r: Outcome<Window>)
    requires SameShape(frames)
    modifies progress
    ensures r == RangeScan(isOpen, frames, startFrame, endFrame, fps * windowSize)
    ensures progress.completed
         == old(progress.completed) + FramesCompleted(isOpen, frames, startFrame, endFrame, fps * windowSize)
  {
    if !isOpen {
      return Returned(Window(0, 0));
    }
    var windowFrames := fps * windowSize;
    if windowFrames < 0 {
      return Raised(ValueError);
    }
    var prevFrame: Option<Frame> := None;
    var maxVariation := 0;
    var maxIndex := startFrame;
    var frameIndex := startFrame;
    var windowVariation := 0;
    var variations: seq<int> := [];
    var cursor := 0;  // frames taken from the decoder so far
    ghost var n := FramesRead(frames, startFrame, endFrame);
    if windowFrames >= 1 {
      ScanStart(frames, windowFrames, startFrame);
    }
    while frameIndex < endFrame
      invariant 0 <= cursor <= n
      invariant frameIndex == startFrame + cursor
      invariant prevFrame == if cursor == 0 then None else Some(frames[cursor - 1])
      invariant progress.completed == old(progress.completed) + cursor
      invariant windowFrames == 0 ==>
        cursor <= 1 && variations == [] && maxVariation == 0 && maxIndex == startFrame
      invariant windowFrames >= 1 ==>
        ScanState(frames, cursor, windowFrames, startFrame, variations, windowVariation,
                  Window(maxVariation, maxIndex))
      decreases endFrame - frameIndex
    {
      if cursor == |frames| {
        break;  // cap.read() reports failure
      }
      var frame := frames[cursor];
      if prevFrame.Some? {
        ghost var dq, wv, best := variations, windowVariation, Window(maxVariation, maxIndex);
        var variation := Variation(prevFrame.value, frame);
        variations := DequeAppend(variations, windowFrames, variation);
        if |variations| == windowFrames {
          if |variations| == 0 {
            // `variations[0]` on the empty deque of `maxlen=0`
            assert windowFrames == 0 && cursor == 1 && n >= 2;
            return Raised(IndexError);
          }
          windowVariation := windowVariation - variations[0];
        }
        windowVariation := windowVariation + variation;
        if windowVariation > maxVariation {
          maxVariation := windowVariation;
          maxIndex := frameIndex - windowFrames + 1;
        }
        if windowFrames >= 1 {
          ScanStep(frames, cursor, windowFrames, startFrame, dq, wv, best,
                   variations, windowVariation, Window(maxVariation, maxIndex));
        }
      }
      prevFrame := Some(frame);
      frameIndex := frameIndex + 1;
      cursor := cursor + 1;
      progress.completed := progress.completed + 1;
    }
    assert cursor == n;
    if windowFrames >= 1 {
      ScanFinish(frames, startFrame, endFrame, windowFrames, variations, windowVariation,
                 Window(maxVariation, maxIndex));
    }
    return Returned(Window(maxVariation, maxIndex));
  }
}
