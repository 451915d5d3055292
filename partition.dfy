/** The partitioning and aggregation arithmetic of
    `VideoProcessor.detect_max_variation`: the frame boundaries of
    `np.linspace(0, frame_count, n + 1).astype(int)`, and `np.argmax`. */
module Partition {

  /** Integer division truncated toward zero, as `astype(int)` truncates:
      the quotient of a non-negative value rounds down, that of a negative
      value rounds up. */
  function TruncDiv(a: int, n: int): (q: int)
    requires n > 0
    ensures a >= 0 ==> 0 <= q && q * n <= a < q * n + n
    ensures a < 0 ==> q <= 0 && q * n - n < a <= q * n
    ensures a >= 0 ==> q == a / n
  {
    if a >= 0 then
      DivBounds(a, n);
      a / n
    else
      DivBounds(-a, n);
      -((-a) / n)
  }

  /** The quotient and remainder bounds of division by a positive divisor. */
  lemma DivBounds(a: int, n: int)
    requires a >= 0 && n > 0
    ensures 0 <= a / n && (a / n) * n <= a < (a / n) * n + n
  {
    var q, r := a / n, a % n;
    assert a == q * n + r && 0 <= r < n;
  }

  /** Truncation differs from Dafny's Euclidean division on negative values. */
  lemma TruncDivRoundsTowardZero()
    ensures TruncDiv(-5, 3) == -1 && -5 / 3 == -2
  {
  }

  /** Boundary `i` of `n` partitions of `frameCount` frames, computed exactly
      (the floating-point rounding of `linspace` is not modelled). */
  function Boundary(i: int, frameCount: int, n: int): int
    requires n >= 1
  {
    TruncDiv(i * frameCount, n)
  }

  /** `frame_ranges`: the `n + 1` partition boundaries. */
  function Boundaries(frameCount: int, n: int): (b: seq<int>)
    requires n >= 1
    ensures |b| == n + 1
  {
    seq(n + 1, i => Boundary(i, frameCount, n))
  }

  lemma MulMonotone(a: int, b: int, c: int)
    requires c >= 0
    ensures a <= b ==> a * c <= b * c
  {
    if a <= b {
      assert b * c - a * c == (b - a) * c;
    }
  }

  lemma DivMonotone(a: int, b: int, n: int)
    requires n > 0 && a <= b
    ensures a / n <= b / n
  {
    var qa, qb := a / n, b / n;
    assert qa * n <= a;
    assert b < (qb + 1) * n;
    MulMonotone(qb + 1, qa, n);
  }

  lemma MulDivCancel(x: int, n: int)
    requires n > 0 && x >= 0
    ensures (n * x) / n == x
  {
    var q, r := (n * x) / n, (n * x) % n;
    assert n * x == n * q + r && 0 <= r < n;
    assert n * (x - q) == r;
    MulMonotone(1, x - q, n);
    MulMonotone(x - q, -1, n);
  }

  /** The first boundary is 0 and the last is `frameCount`. */
  lemma BoundariesEnds(frameCount: int, n: int)
    requires n >= 1
    ensures Boundaries(frameCount, n)[0] == 0
    ensures Boundaries(frameCount, n)[n] == frameCount
  {
    if frameCount >= 0 {
      MulDivCancel(frameCount, n);
    } else {
      MulDivCancel(-frameCount, n);
      assert -(n * frameCount) == n * (-frameCount);
    }
  }

  /** For a non-negative frame count the boundaries never decrease and stay
      within `[0, frameCount]`. */
  lemma BoundariesMonotone(frameCount: int, n: int, i: int, j: int)
    requires n >= 1 && frameCount >= 0 && 0 <= i <= j <= n
    ensures 0 <= Boundaries(frameCount, n)[i] <= Boundaries(frameCount, n)[j] <= frameCount
  {
    MulMonotone(0, i, frameCount);
    MulMonotone(i, j, frameCount);
    MulMonotone(j, n, frameCount);
    assert n * frameCount == frameCount * n;
    DivMonotone(i * frameCount, j * frameCount, n);
    DivMonotone(j * frameCount, n * frameCount, n);
    MulDivCancel(frameCount, n);
  }

  predicate NonDecreasing(b: seq<int>)
  {
    forall i, j :: 0 <= i <= j < |b| ==> b[i] <= b[j]
  }

  lemma BoundariesNonDecreasing(frameCount: int, n: int)
    requires n >= 1 && frameCount >= 0
    ensures NonDecreasing(Boundaries(frameCount, n))
  {
    forall i, j | 0 <= i <= j < n + 1
      ensures Boundaries(frameCount, n)[i] <= Boundaries(frameCount, n)[j]
    {
      BoundariesMonotone(frameCount, n, i, j);
    }
  }

  lemma {:induction false} FindPartition(b: seq<int>, f: int, k: nat)
    requires 0 < k < |b| && b[0] <= f < b[k]
    ensures exists i :: 0 <= i < k && b[i] <= f < b[i + 1]
  {
    if b[k - 1] > f {
      FindPartition(b, f, k - 1);
    }
  }

  /** In a non-decreasing sequence of boundaries, a value between the first
      and the last lies in exactly one range `[b[i], b[i+1])`. */
  lemma InExactlyOneRange(b: seq<int>, f: int)
    requires |b| >= 2 && NonDecreasing(b) && b[0] <= f < b[|b| - 1]
    ensures exists i :: 0 <= i < |b| - 1 && b[i] <= f < b[i + 1]
    ensures forall i, j ::
      (0 <= i < |b| - 1 && 0 <= j < |b| - 1 && b[i] <= f < b[i + 1] && b[j] <= f < b[j + 1]) ==> i == j
  {
    FindPartition(b, f, |b| - 1);
  }

  /** The ranges `[b[i], b[i+1])` cover `[0, frameCount)`: every frame lies in
      exactly one of them. */
  lemma PartitionsCover(frameCount: int, n: int, f: int)
    requires n >= 1 && 0 <= f < frameCount
    ensures exists i :: 0 <= i < n && Boundaries(frameCount, n)[i] <= f < Boundaries(frameCount, n)[i + 1]
    ensures forall i, j ::
      (0 <= i < n && 0 <= j < n
       && Boundaries(frameCount, n)[i] <= f < Boundaries(frameCount, n)[i + 1]
       && Boundaries(frameCount, n)[j] <= f < Boundaries(frameCount, n)[j + 1]) ==> i == j
  {
    BoundariesEnds(frameCount, n);
    BoundariesNonDecreasing(frameCount, n);
    InExactlyOneRange(Boundaries(frameCount, n), f);
  }

  lemma {:induction false} StrictStepsGrow(b: seq<int>, k: nat)
    requires k < |b|
    requires forall i :: 0 <= i < k ==> b[i] < b[i + 1]
    ensures b[k] >= b[0] + k
  {
    if k > 0 {
      StrictStepsGrow(b, k - 1);
    }
  }

  /** With fewer frames than partitions some partition is empty. */
  lemma EmptyPartitionWhenFewFrames(frameCount: int, n: int)
    requires n >= 1 && 0 <= frameCount < n
    ensures exists i :: 0 <= i < n && Boundaries(frameCount, n)[i] == Boundaries(frameCount, n)[i + 1]
  {
    var b := Boundaries(frameCount, n);
    BoundariesEnds(frameCount, n);
    if forall i :: 0 <= i < n ==> b[i] != b[i + 1] {
      forall i | 0 <= i < n ensures b[i] < b[i + 1] {
        BoundariesMonotone(frameCount, n, i, i + 1);
      }
      StrictStepsGrow(b, n);
    }
  }

  /** 2400 frames over 4 workers. */
  lemma FourWorkersExample()
    ensures Boundaries(2400, 4) == [0, 600, 1200, 1800, 2400]
  {
  }

  /** `np.argmax`: the first index holding the largest value. */
  function FirstArgMax(xs: seq<int>): (k: nat)
    requires |xs| > 0
    ensures k < |xs|
    ensures forall j :: 0 <= j < |xs| ==> xs[j] <= xs[k]
    ensures forall j :: 0 <= j < k ==> xs[j] < xs[k]
  {
    if |xs| == 1 then 0
    else
      var k := FirstArgMax(xs[..|xs| - 1]);
      if xs[|xs| - 1] > xs[k] then |xs| - 1 else k
  }
}
