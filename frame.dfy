/**
  One pass of the main loop body of social_distance.py (lines 55-112) once
  the pose estimator has produced `poses`: centres, violation count, HUD
  text and, when the log file is open, the log line. Drawing, display and
  the file write itself are not modelled; the timestamp is a parameter.
 */
module Frame {
  import opened Optional
  import opened Poses
  import opened Centers
  import opened Proximity
  import opened Report

  /**
    Every pose with both hips contributes at least one violation: its two
    identical centres are at distance 0.
   */
  lemma {:induction false} HipPosesForceViolations(poses: seq<Pose>)
    ensures Violations(FrameCenters(poses)) >= HipPoseCount(poses)
  {
    if poses != [] {
      var p, rest := poses[0], poses[1..];
      HipPosesForceViolations(rest);
      if HipsFound(p) {
        DuplicateFrontViolates(HipCenter(p), FrameCenters(rest));
      } else {
        ViolationsDropFront(PoseCenters(p), FrameCenters(rest));
      }
    }
  }

  /**
    The reported counts, HUD and log line for the centres of one frame,
    social_distance.py:76-112.
   */
  method ReportFrame(centers: seq<Point>, ts: string, logOpen: bool)
    returns (people: nat, viol: nat, hud: string, logLine: Option<string>)
    ensures people == |centers|
    ensures viol == |ClosePairs(centers)|
    ensures 2 * viol <= people * (people - 1)
    ensures hud == Hud(people, viol)
    ensures logLine == if logOpen then Some(LogLine(ts, people, viol)) else None
  {
    viol := CountViolations(centers);
    people := |centers|;
    hud := Hud(people, viol);
    logLine := if logOpen then Some(LogLine(ts, people, viol)) else None;
  }

  /** One frame of the program as written, from the estimator's poses to the HUD and the log line. */
  method ProcessFrame(poses: seq<Pose>, ts: string, logOpen: bool)
    returns (people: nat, viol: nat, hud: string, logLine: Option<string>)
    ensures people == |FrameCenters(poses)| == 2 * HipPoseCount(poses) + ShoulderPoseCount(poses)
    ensures people <= 2 * |poses|
    ensures viol == |ClosePairs(FrameCenters(poses))|
    ensures HipPoseCount(poses) <= viol
    ensures hud == Hud(people, viol)
    ensures logLine == if logOpen then Some(LogLine(ts, people, viol)) else None
  {
    var centers := BuildCenters(poses);
    people, viol, hud, logLine := ReportFrame(centers, ts, logOpen);
    FrameCentersLength(poses);
    HipPosesForceViolations(poses);
    ViolationsCountPairs(centers);
  }

  /**
    The program as written counts one person seen with both hips as two
    people and one violation, and raises the alert.
   */
  lemma SinglePersonWithHipsAlerts(p: Pose)
    requires HipsFound(p)
    ensures |FrameCenters([p])| == 2
    ensures Violations(FrameCenters([p])) == 1
    ensures Hud(|FrameCenters([p])|, Violations(FrameCenters([p]))) == "ALERT!  people=2  viol=1  thr=180px"
  {
    var m := HipCenter(p);
    SingleFrameCenters(p);
    TwinViolation(m);
    AlertHud(|FrameCenters([p])|, Violations(FrameCenters([p])));
  }

  /**
    Under the intended rule a single person is one centre and never a
    violation, whichever of its pairs is found.
   */
  lemma SinglePersonIntended(p: Pose)
    ensures |IntendedFrameCenters([p])| == (if HipsFound(p) || ShouldersFound(p) then 1 else 0)
    ensures Violations(IntendedFrameCenters([p])) == 0
  {
  }

  /** One frame under the intended rule: one centre per person found. */
  method ProcessFrameIntended(poses: seq<Pose>, ts: string, logOpen: bool)
    returns (people: nat, viol: nat, hud: string, logLine: Option<string>)
    ensures people == PeopleFound(poses) <= |poses|
    ensures viol == |ClosePairs(IntendedFrameCenters(poses))|
    ensures hud == Hud(people, viol)
    ensures logLine == if logOpen then Some(LogLine(ts, people, viol)) else None
  {
    IntendedOneCenterPerPerson(poses);
    people, viol, hud, logLine := ReportFrame(IntendedFrameCenters(poses), ts, logOpen);
  }
}
