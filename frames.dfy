/** The variation metric of `VideoProcessor.calculate_variation`: the sum of the
    absolute differences of two frames, sample by sample, after widening the
    samples to (unbounded) integers. */
module Frames {

  /** A decoded frame, flattened into its samples. */
  type Frame = seq<int>

  function Abs(x: int): (r: int)
    ensures r >= 0 && (r == x || r == -x)
  {
    if x < 0 then -x else x
  }

  /** All frames of one video have the same shape. */
  predicate SameShape(frames: seq<Frame>)
  {
    forall i :: 0 <= i < |frames| ==> |frames[i]| == |frames[0]|
  }

  /** The L1 distance between two frames of the same shape. */
  function Variation(a: Frame, b: Frame): (d: int)
    requires |a| == |b|
    ensures d >= 0
  {
    if |a| == 0 then 0 else Abs(a[0] - b[0]) + Variation(a[1..], b[1..])
  }

  lemma {:induction false} VariationSymmetric(a: Frame, b: Frame)
    requires |a| == |b|
    ensures Variation(a, b) == Variation(b, a)
  {
    if |a| > 0 {
      VariationSymmetric(a[1..], b[1..]);
    }
  }

  /** The distance is zero exactly when the two frames are equal. */
  lemma {:induction false} VariationZeroIffEqual(a: Frame, b: Frame)
    requires |a| == |b|
    ensures Variation(a, b) == 0 <==> a == b
  {
    if |a| > 0 {
      VariationZeroIffEqual(a[1..], b[1..]);
      if Variation(a, b) == 0 {
        assert a == [a[0]] + a[1..] && b == [b[0]] + b[1..];
      }
    }
  }

  /** The variations between consecutive frames, in frame order: entry k is the
      change from frame k to frame k + 1. */
  function Variations(frames: seq<Frame>): (vs: seq<int>)
    requires SameShape(frames)
    ensures |vs| == if |frames| < 2 then 0 else |frames| - 1
    ensures forall k :: 0 <= k < |vs| ==> vs[k] == Variation(frames[k], frames[k + 1])
  {
    if |frames| < 2 then []
    else
      var init := frames[..|frames| - 1];
      assert SameShape(init) by {
        forall i | 0 <= i < |init| ensures |init[i]| == |init[0]| {
          assert init[i] == frames[i];
        }
      }
      Variations(init) + [Variation(frames[|frames| - 2], frames[|frames| - 1])]
  }

  /** The variations of a run of frames are the matching run of variations. */
  lemma VariationsOfSlice(frames: seq<Frame>, a: nat, b: nat)
    requires SameShape(frames)
    requires a < b <= |frames|
    ensures SameShape(frames[a..b])
    ensures Variations(frames[a..b]) == Variations(frames)[a..b - 1]
  {
    var sub := frames[a..b];
    assert SameShape(sub) by {
      forall i | 0 <= i < |sub| ensures |sub[i]| == |sub[0]| {
        assert sub[i] == frames[a + i] && sub[0] == frames[a];
      }
    }
    var lhs, rhs := Variations(sub), Variations(frames)[a..b - 1];
    assert |lhs| == |rhs|;
    forall k | 0 <= k < |lhs| ensures lhs[k] == rhs[k] {
      assert sub[k] == frames[a + k] && sub[k + 1] == frames[a + k + 1];
    }
  }

  /** Every variation is non-negative. */
  lemma VariationsNonNegative(frames: seq<Frame>)
    requires SameShape(frames)
    ensures forall k :: 0 <= k < |Variations(frames)| ==> Variations(frames)[k] >= 0
  {
  }

  /** A still picture (all frames equal) has no variation at all. */
  lemma StillFramesHaveZeroVariations(frames: seq<Frame>)
    requires SameShape(frames)
    requires forall i :: 0 <= i < |frames| ==> frames[i] == frames[0]
    ensures forall k :: 0 <= k < |Variations(frames)| ==> Variations(frames)[k] == 0
  {
    var vs := Variations(frames);
    forall k | 0 <= k < |vs| ensures vs[k] == 0 {
      VariationZeroIffEqual(frames[k], frames[k + 1]);
    }
  }
}
