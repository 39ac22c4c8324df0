/**
  Pairwise violation counting, social_distance.py:11 and 76-94: every pair
  `i < j` of centres whose Euclidean distance is strictly below 180 pixels
  is one violation.

  Distances are compared squared, over `real`: for the distance `d >= 0`,
  `d < 180` holds exactly when `d * d < 180 * 180` (`DistanceClassification`).
 */
module Proximity {
  import opened Poses
  import Pairs

  /** `THRESHOLD_PX`: pixel distance below which two people are too close. */
  const ThresholdPx: nat := 180

  /** The square of the Euclidean distance between `a` and `b`. */
  function SqDist(a: Point, b: Point): (d: real)
    ensures d >= 0.0
    ensures a == b ==> d == 0.0
  {
    var dx := a.x - b.x;
    var dy := a.y - b.y;
    assert dx * dx >= 0.0 && dy * dy >= 0.0;
    dx * dx + dy * dy
  }

  /** The pair violates: its distance is strictly below the threshold. */
  predicate TooClose(a: Point, b: Point): (r: bool)
    ensures a == b ==> r
  {
    SqDist(a, b) < (ThresholdPx * ThresholdPx) as real
  }

  /**
    The source's test `d < THRESHOLD_PX` on the distance `d` (the non-negative
    square root of the squared distance) agrees with `TooClose`.
   */
  lemma DistanceClassification(a: Point, b: Point, d: real)
    requires d >= 0.0 && d * d == SqDist(a, b)
    ensures TooClose(a, b) <==> d < ThresholdPx as real
  {
    SquareAgainstThreshold(d);
  }

  /**
    A non-negative number is below the threshold exactly when its square is
    below the threshold's square. The body multiplies by the literal 180 so
    that each step is linear in `d * d`.
   */
  lemma SquareAgainstThreshold(d: real)
    requires d >= 0.0
    ensures d < ThresholdPx as real ==> d * d < (ThresholdPx * ThresholdPx) as real
    ensures d >= ThresholdPx as real ==> d * d >= (ThresholdPx * ThresholdPx) as real
  {
    if d < 180.0 {
      assert d * d <= d * 180.0;
    } else {
      assert d * d >= d * 180.0;
    }
  }

  /** Being too close does not depend on the order of the pair. */
  lemma TooCloseSymmetric(a: Point, b: Point)
    ensures TooClose(a, b) <==> TooClose(b, a)
  {
  }

  /** The number of pairs `i < j` of centres that are too close. */
  function Violations(cs: seq<Point>): (n: nat)
    ensures 2 * n <= |cs| * (|cs| - 1)
  {
    Pairs.CountPairsBound(TooClose, cs);
    Pairs.CountPairs(TooClose, cs)
  }

  /** The violating pairs themselves, as index pairs `(i, j)` with `i < j`. */
  function ClosePairs(cs: seq<Point>): set<(nat, nat)>
  {
    Pairs.PairSet(TooClose, cs)
  }

  /**
    `Violations` counts each violating index pair exactly once, and so is at
    most `n * (n - 1) / 2` for `n` centres and zero for one or no centre.
   */
  lemma ViolationsCountPairs(cs: seq<Point>)
    ensures Violations(cs) == |ClosePairs(cs)|
    ensures 2 * Violations(cs) <= |cs| * (|cs| - 1)
    ensures |cs| <= 1 ==> Violations(cs) == 0
  {
    Pairs.CountPairsIsPairSet(TooClose, cs);
    Pairs.CountPairsBound(TooClose, cs);
  }

  /** Two equal centres are at distance 0 and so always a violation, whatever follows them. */
  lemma DuplicateFrontViolates(m: Point, ys: seq<Point>)
    ensures Violations([m, m] + ys) >= 1 + Violations(ys)
  {
    assert TooClose(m, m);
    Pairs.RelatedFrontPair(TooClose, m, m, ys);
  }

  /** Two equal centres are exactly one violation. */
  lemma TwinViolation(m: Point)
    ensures Violations([m, m]) == 1
  {
    DuplicateFrontViolates(m, []);
    assert [m, m] + [] == [m, m];
    ViolationsCountPairs([m, m]);
  }

  /** Centres placed in front of a list never lower its violation count. */
  lemma ViolationsDropFront(xs: seq<Point>, ys: seq<Point>)
    ensures Violations(xs + ys) >= Violations(ys)
  {
    Pairs.CountPairsDropFront(TooClose, xs, ys);
  }

  /** Two centres exactly at the threshold distance are not a violation. */
  lemma BoundaryPairNotCounted(a: Point, b: Point)
    requires SqDist(a, b) == (ThresholdPx * ThresholdPx) as real
    ensures !TooClose(a, b)
    ensures Violations([a, b]) == 0
  {
    assert [a, b][1..] == [b];
    assert [b][1..] == [] && [b][..0] == [];
    assert Pairs.CountFrom(TooClose, a, [b]) == 0;
    assert Pairs.CountPairs(TooClose, [b]) == 0;
    assert Violations([a, b]) == Pairs.CountFrom(TooClose, a, [b]) + Pairs.CountPairs(TooClose, [b]);
  }

  /** Three centres at (0,0), (100,0), (0,300): only the first pair is too close. */
  lemma ThreeCentreScenario()
    ensures Violations([Point(0.0, 0.0), Point(100.0, 0.0), Point(0.0, 300.0)]) == 1
  {
  }

  /** The nested loop of social_distance.py:76-94. */
  method CountViolations(centers: seq<Point>) returns (viol: nat)
    ensures viol == Violations(centers)
    ensures viol == |ClosePairs(centers)|
    ensures 2 * viol <= |centers| * (|centers| - 1)
    ensures |centers| <= 1 ==> viol == 0
  {
    viol := 0;
    assert centers[0..] == centers;
    for i := 0 to |centers|
      invariant viol + Violations(centers[i..]) == Violations(centers)
    {
      var a := centers[i];
      ghost var before := viol;
      for j := i + 1 to |centers|
        invariant viol == before + Pairs.CountFrom(TooClose, a, centers[i + 1..j])
      {
        var b := centers[j];
        var dx := a.x - b.x;
        var dy := a.y - b.y;
        var sq := dx * dx + dy * dy;
        var bad := sq < (ThresholdPx * ThresholdPx) as real;
        assert bad == TooClose(a, b) by {
          assert sq == SqDist(a, b);
        }
        if bad {
          viol := viol + 1;
        }
        Pairs.CountFromExtend(TooClose, a, centers, i + 1, j);
      }
      assert centers[i + 1..|centers|] == centers[i + 1..];
      Pairs.CountPairsSuffix(TooClose, centers, i);
    }
    ViolationsCountPairs(centers);
  }
}
