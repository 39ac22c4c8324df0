/** The result of a lookup that may find nothing (Python's `None`). */
module Optional {
  datatype Option<+T> = None | Some(value: T)
}

/**
  What the pose estimator hands to the proximity evaluator, and the
  key-point lookup `kpt_xy` of social_distance.py.
 */
module Poses {
  import opened Optional

  /** One key point as the estimator reports it; a negative `id` marks it absent. */
  datatype Keypoint = Keypoint(id: int, x: real, y: real)

  /** One detected person: its key points in the order the estimator lists them. */
  datatype Pose = Pose(keypoints: seq<Keypoint>)

  /** A position in pixel space. */
  datatype Point = Point(x: real, y: real)

  /** The key-point positions the evaluator reads (body-model part numbers). */
  const LeftShoulder: nat := 5
  const RightShoulder: nat := 6
  const LeftHip: nat := 11
  const RightHip: nat := 12

  /**
    The coordinates of the key point at POSITION `idx` of the pose, if there
    is one and its id is non-negative. The lookup is by position in the list,
    not by searching for a key point whose id is `idx`.
   */
  function KptXy(pose: Pose, idx: nat): (r: Option<Point>)
    ensures r.Some? <==> idx < |pose.keypoints| && pose.keypoints[idx].id >= 0
    ensures r.Some? ==> r.value.x == pose.keypoints[idx].x && r.value.y == pose.keypoints[idx].y
  {
    if idx < |pose.keypoints| then
      var kp := pose.keypoints[idx];
      if kp.id >= 0 then Some(Point(kp.x, kp.y)) else None
    else
      None
  }

  /**
    The lookup reads only the entry at position `idx`: replacing any other
    entry, whatever its id, leaves the answer alone.
   */
  lemma KptXyByPosition(pose: Pose, idx: nat, other: nat, kp: Keypoint)
    requires other < |pose.keypoints| && other != idx
    ensures KptXy(Pose(pose.keypoints[other := kp]), idx) == KptXy(pose, idx)
  {
  }

  /**
    The point halfway between `a` and `b`, as `(a + b) * 0.5` per coordinate:
    it lies as far from `a` as from `b` along each axis.
   */
  function Midpoint(a: Point, b: Point): (m: Point)
    ensures m.x - a.x == b.x - m.x && m.y - a.y == b.y - m.y
  {
    Point((a.x + b.x) * 0.5, (a.y + b.y) * 0.5)
  }
}
