/**
  Reference points ("centres") of the people in one frame, as the loop at
  social_distance.py:58-73 builds them: the hip midpoint, with the shoulder
  midpoint as a fallback.

  The loop appends the hip midpoint, skips the shoulder lookup because both
  hips were found, and then appends the same midpoint a second time because
  `L` and `R` still hold the hips. `PoseCenters` states that net effect;
  `BuildCenters` follows the loop statement by statement and is proved to
  produce it. `IntendedPoseCenters` is the one-centre-per-person rule the
  fallback comment describes.
 */
module Centers {
  import opened Poses

  /** Both hip lookups succeed. */
  predicate HipsFound(p: Pose) {
    KptXy(p, LeftHip).Some? && KptXy(p, RightHip).Some?
  }

  /** Both shoulder lookups succeed. */
  predicate ShouldersFound(p: Pose) {
    KptXy(p, LeftShoulder).Some? && KptXy(p, RightShoulder).Some?
  }

  function HipCenter(p: Pose): Point
    requires HipsFound(p)
  {
    Midpoint(KptXy(p, LeftHip).value, KptXy(p, RightHip).value)
  }

  function ShoulderCenter(p: Pose): Point
    requires ShouldersFound(p)
  {
    Midpoint(KptXy(p, LeftShoulder).value, KptXy(p, RightShoulder).value)
  }

  /** The centres one pose contributes, by case: two equal hip centres, one shoulder centre, or none. */
  function PoseCenters(p: Pose): (cs: seq<Point>)
    ensures |cs| <= 2
    ensures |cs| == 2 <==> HipsFound(p)
    ensures |cs| == 2 ==> cs[0] == cs[1]
    ensures |cs| == 0 <==> !HipsFound(p) && !ShouldersFound(p)
  {
    if HipsFound(p) then [HipCenter(p), HipCenter(p)]
    else if ShouldersFound(p) then [ShoulderCenter(p)]
    else []
  }

  /** The centres of a frame: each pose's centres, in pose order. */
  function FrameCenters(poses: seq<Pose>): (cs: seq<Point>)
    ensures |cs| <= 2 * |poses|
  {
    if poses == [] then [] else PoseCenters(poses[0]) + FrameCenters(poses[1..])
  }

  /** Number of poses with both hips found. */
  function HipPoseCount(poses: seq<Pose>): nat
  {
    if poses == [] then 0
    else (if HipsFound(poses[0]) then 1 else 0) + HipPoseCount(poses[1..])
  }

  /** Number of poses whose hips are incomplete but whose shoulders are both found. */
  function ShoulderPoseCount(poses: seq<Pose>): nat
  {
    if poses == [] then 0
    else (if !HipsFound(poses[0]) && ShouldersFound(poses[0]) then 1 else 0) + ShoulderPoseCount(poses[1..])
  }

  /** A pose with both hips yields exactly two centres, each the hip midpoint. */
  lemma HipPoseTwoCenters(p: Pose)
    requires HipsFound(p)
    ensures |PoseCenters(p)| == 2
    ensures PoseCenters(p)[0] == PoseCenters(p)[1]
    ensures PoseCenters(p)[0].x == (p.keypoints[LeftHip].x + p.keypoints[RightHip].x) * 0.5
    ensures PoseCenters(p)[0].y == (p.keypoints[LeftHip].y + p.keypoints[RightHip].y) * 0.5
  {
  }

  /**
    A pose with an incomplete hip pair yields one centre, the shoulder
    midpoint, when both shoulders are found, and nothing otherwise.
   */
  lemma FallbackPoseCenters(p: Pose)
    requires !HipsFound(p)
    ensures ShouldersFound(p) ==>
              && |PoseCenters(p)| == 1
              && PoseCenters(p)[0].x == (p.keypoints[LeftShoulder].x + p.keypoints[RightShoulder].x) * 0.5
              && PoseCenters(p)[0].y == (p.keypoints[LeftShoulder].y + p.keypoints[RightShoulder].y) * 0.5
    ensures !ShouldersFound(p) ==> PoseCenters(p) == []
  {
  }

  /** The centres of two runs of poses, one after the other, are those of the first run followed by those of the second. */
  lemma {:induction false} FrameCentersConcat(a: seq<Pose>, b: seq<Pose>)
    ensures FrameCenters(a + b) == FrameCenters(a) + FrameCenters(b)
  {
    if a == [] {
      assert a + b == b;
    } else {
      assert (a + b)[1..] == a[1..] + b;
      FrameCentersConcat(a[1..], b);
    }
  }

  /** Centres appear in pose order: pose `k`'s centres follow those of the poses before it and precede those after it. */
  lemma {:induction false} CentersInPoseOrder(poses: seq<Pose>, k: nat)
    requires k < |poses|
    ensures FrameCenters(poses) == FrameCenters(poses[..k]) + PoseCenters(poses[k]) + FrameCenters(poses[k + 1..])
  {
    var pre, p, post := poses[..k], poses[k], poses[k + 1..];
    assert poses == pre + [p] + post;
    FrameCentersConcat(pre + [p], post);
    FrameCentersConcat(pre, [p]);
    SingleFrameCenters(p);
  }

  /** A frame of one pose has exactly that pose's centres. */
  lemma SingleFrameCenters(p: Pose)
    ensures FrameCenters([p]) == PoseCenters(p)
  {
    assert [p][1..] == [];
  }

  /** Exactly two centres per pose with both hips and one per pose that falls back to its shoulders. */
  lemma {:induction false} FrameCentersLength(poses: seq<Pose>)
    ensures |FrameCenters(poses)| == 2 * HipPoseCount(poses) + ShoulderPoseCount(poses)
  {
    if poses != [] {
      FrameCentersLength(poses[1..]);
    }
  }

  /** The loop of social_distance.py:58-73, with `l` and `r` reassigned mid-iteration as there. */
  method BuildCenters(poses: seq<Pose>) returns (centers: seq<Point>)
    ensures centers == FrameCenters(poses)
  {
    centers := [];
    for k := 0 to |poses|
      invariant centers == FrameCenters(poses[..k])
    {
      var p := poses[k];
      var l := KptXy(p, LeftHip);
      var r := KptXy(p, RightHip);
      if l.Some? && r.Some? {
        centers := centers + [Midpoint(l.value, r.value)];
      }
      if !(l.Some? && r.Some?) {
        l := KptXy(p, LeftShoulder);
        r := KptXy(p, RightShoulder);
      }
      if l.Some? && r.Some? {
        centers := centers + [Midpoint(l.value, r.value)];
      }
      assert poses[..k + 1] == poses[..k] + [p];
      FrameCentersConcat(poses[..k], [p]);
    }
    assert poses[..|poses|] == poses;
  }

  /** The evidently intended rule: hips if both are found, else shoulders if both are found, else nothing. */
  function IntendedPoseCenters(p: Pose): seq<Point>
  {
    if HipsFound(p) then [HipCenter(p)]
    else if ShouldersFound(p) then [ShoulderCenter(p)]
    else []
  }

  function IntendedFrameCenters(poses: seq<Pose>): seq<Point>
  {
    if poses == [] then [] else IntendedPoseCenters(poses[0]) + IntendedFrameCenters(poses[1..])
  }

  /** Number of poses with either a complete hip pair or a complete shoulder pair. */
  function PeopleFound(poses: seq<Pose>): (n: nat)
    ensures n <= |poses|
  {
    if poses == [] then 0
    else (if HipsFound(poses[0]) || ShouldersFound(poses[0]) then 1 else 0) + PeopleFound(poses[1..])
  }

  /**
    Under the intended rule there is exactly one centre per person found, and
    the program as written reports one extra centre for every pose with both hips.
   */
  lemma {:induction false} IntendedOneCenterPerPerson(poses: seq<Pose>)
    ensures |IntendedFrameCenters(poses)| == PeopleFound(poses)
    ensures |FrameCenters(poses)| == |IntendedFrameCenters(poses)| + HipPoseCount(poses)
  {
    if poses != [] {
      IntendedOneCenterPerPerson(poses[1..]);
    }
  }
}
