# Social-distance monitor: the per-frame proximity evaluator

`social_distance.py` reads camera frames and runs a pose estimator on each one.
For every detected person it derives zero, one or two reference points,
"centres" (lines 58-73):

- both hips found: the hip midpoint, added twice;
- otherwise both shoulders found: the shoulder midpoint, once;
- otherwise: nothing.

The doubled hip centre is the code as written; see the paragraph before
"## Model" and "## Findings". It then counts the pairs of centres closer than
180 pixels as violations. It builds a HUD string
(`people=N  viol=M  thr=180px`, with an `ALERT!  ` prefix when there is a
violation), but never shows it: the overlay call at line 104 is commented
out, and the window status at line 107 is a fixed title. When the log file is
open, it writes one log line per frame (`TS,people=N,viol=M`).

This project models that evaluator in Dafny and proves properties of it. The
pose estimator's output is a sequence of `Pose` values. Each `Pose` holds a
list of key points `(id, x, y)`, and a negative `id` means the key point is
absent. Coordinates are `real`.

- `poses.dfy`: module `Optional` (the `Option` type) and module `Poses`,
  which holds the data model, the key-point lookup `kpt_xy` (`KptXy`) and the
  midpoint.
- `centers.dfy`: module `Centers`, the centre-building loop.
  - `BuildCenters` is a method whose loop follows the source statement by
    statement, including the reassignment of `L`/`R`.
  - It is proved equal to `FrameCenters`, which states the net effect for each
    pose.
- `pairs.dfy`: module `Pairs`, which counts the pairs `i < j` that satisfy a
  relation, both row by row and as a set of index pairs. It is generic in the
  relation so that the counting proofs do not involve real arithmetic.
- `proximity.dfy`: module `Proximity`, which holds the threshold, the squared
  distance and the nested pair loop `CountViolations`. That method is proved
  against `Violations` and against the set of violating index pairs.
- `report.dfy`: module `Report`, which builds the HUD string and the log line
  from Python's decimal rendering of integers. Each string has a parser, and
  round-trip lemmas connect the two.
- `frame.dfy`: module `Frame`. It puts one frame together, from the poses to
  the HUD and the log line. It also holds the consequences of the duplicated
  hip centre.

Distances are compared squared: `dx*dx + dy*dy < 180*180`. The source takes
`(dx**2 + dy**2) ** 0.5` and compares that with 180. `DistanceClassification`
proves the two tests agree for every non-negative `d` with `d*d` equal to the
squared distance, which is exactly the square root.

The model follows the code where the code and the stated intent differ. A
person with both hips gets two identical centres, not one, and so always
produces at least one violation. See "## Findings".

## Model

| member | source | states |
|---|---|---|
| `Poses.KptXy` | social_distance.py:16-21 | returns a point exactly when `idx` is within the key-point list and the entry at that position has a non-negative id, and that point carries the entry's own x and y; otherwise `None` |
| `Poses.KptXyByPosition` | social_distance.py:16-21 | the lookup reads only the entry at position `idx`: replacing any other entry, whatever its id, leaves the answer unchanged (the lookup is by position, not by id) |
| `Poses.Midpoint` | social_distance.py:71-72 | the centre of two points is equally far from both along each axis |
| `Centers.BuildCenters` | social_distance.py:58-73 | the loop with its mid-iteration reassignment of `L`/`R` produces exactly `FrameCenters(poses)` |
| `Centers.PoseCenters` | social_distance.py:60-73 | one pose's contribution is at most two centres; it is two exactly when both hips are found, and then they are equal; it is none exactly when neither pair is complete (`HipPoseTwoCenters` and `FallbackPoseCenters` give the coordinates) |
| `Centers.FrameCenters` | social_distance.py:58-73 | a frame has at most two centres per pose |
| `Centers.HipPoseTwoCenters` | social_distance.py:60-73 | a pose with both hips found gets exactly two centres, both equal to `((Lx+Rx)*0.5, (Ly+Ry)*0.5)` of the hip key points |
| `Centers.FallbackPoseCenters` | social_distance.py:65-73 | a pose with an incomplete hip pair gets exactly one centre, the shoulder midpoint, when both shoulders are found, and none otherwise |
| `Centers.CentersInPoseOrder` | social_distance.py:58-73 | pose `k`'s centres come after those of the earlier poses and before those of the later ones |
| `Centers.FrameCentersLength` | social_distance.py:58-73 | the number of centres is twice the number of poses with both hips, plus the number of poses that fall back to their shoulders |
| `Centers.IntendedOneCenterPerPerson` | social_distance.py:65-73 | under the hips-else-shoulders rule there is exactly one centre per person with either pair; the code as written has one extra centre for each pose with both hips |
| `Proximity.TooClose` | social_distance.py:83-87 | a pair violates exactly when its squared distance is below `180*180`, the squared form of `d < THRESHOLD_PX` (see `DistanceClassification`); two equal points always violate |
| `Proximity.Violations` | social_distance.py:76-94 | the reference count of violations: the pairs `i < j` that are too close, at most `n*(n-1)/2` of them (`ViolationsCountPairs` equates it with the set of such index pairs) |
| `Proximity.SqDist` | social_distance.py:83-85 | the squared distance is non-negative and zero between equal points |
| `Proximity.DistanceClassification` | social_distance.py:85-87 | for the non-negative distance `d`, `d < 180` holds exactly when the squared distance is below `180*180` |
| `Proximity.TooCloseSymmetric` | social_distance.py:83-87 | whether a pair violates does not depend on the order of the two points |
| `Proximity.CountViolations` | social_distance.py:76-94 | the nested loop returns the number of index pairs `i < j` within the threshold, which is the size of the set of such pairs, at most `n*(n-1)/2`, and zero when `n <= 1` |
| `Proximity.ViolationsCountPairs` | social_distance.py:76-94 | the row-by-row count equals the number of violating index pairs `i < j`, is at most `n*(n-1)/2`, and is zero for `n <= 1` |
| `Proximity.BoundaryPairNotCounted` | social_distance.py:87 | any two centres exactly 180 pixels apart (squared distance `180*180`) are not too close, and as the only two centres they give zero violations |
| `Proximity.ThreeCentreScenario` | social_distance.py:76-94 | centres (0,0), (100,0), (0,300) give exactly one violation |
| `Proximity.DuplicateFrontViolates` | social_distance.py:85-94 | two equal centres form a violating pair and add at least one to the count of the centres after them |
| `Proximity.ViolationsDropFront` | social_distance.py:77-94 | centres placed in front never lower the count |
| `Pairs.CountPairsIsPairSet` | social_distance.py:77-80 | counting row by row gives the number of index pairs `i < j` in the relation |
| `Pairs.CountPairsBound` | social_distance.py:77-80 | among `n` points there are at most `n*(n-1)/2` counted pairs, and none when `n <= 1` |
| `Report.NatToString` | social_distance.py:101 | an integer is rendered as a non-empty run of decimal digits with no leading zero: a rendering starting with `0` is exactly `"0"`, for `n = 0` |
| `Report.NatToStringValue` | social_distance.py:101 | the digits rendered for `n` denote `n` |
| `Report.Hud` | social_distance.py:101-103 | the HUD starts with `ALERT!  ` exactly when the violation count is positive |
| `Report.HudRoundTrip` | social_distance.py:101-103 | the HUD can be parsed back into the alert marker (present iff `viol > 0`), the people count, the violation count and the threshold 180 |
| `Report.LogLine` | social_distance.py:112 | a log line ends with a line break |
| `Report.LogLineSingleLine` | social_distance.py:112 | for a timestamp with no line break, the final line break is the only one in the log line |
| `Report.LogLineRoundTrip` | social_distance.py:112 | for a timestamp with no comma, the log line parses back into exactly that timestamp, the people count and the violation count |
| `Frame.HipPosesForceViolations` | social_distance.py:62-73 | the violation count is at least the number of poses with both hips |
| `Frame.ReportFrame` | social_distance.py:76-112 | from a list of centres: people is the number of centres, viol is the number of violating pairs (at most `n*(n-1)/2`), the HUD is built from both counts, and a log line is produced only when the log is open |
| `Frame.ProcessFrame` | social_distance.py:55-112 | one frame as written: the people count is `2*hips + shoulder-fallbacks` and at most `2*|poses|`; viol is the number of violating pairs and at least the number of poses with both hips; the HUD and an optional log line are built from these counts |
| `Frame.SinglePersonWithHipsAlerts` | social_distance.py:62-73 | as written, a single person with both hips is reported as `people=2`, `viol=1`, with the alert |
| `Frame.SinglePersonIntended` | social_distance.py:65-73 | under the intended rule, a single person gives at most one centre and no violation |
| `Frame.ProcessFrameIntended` | social_distance.py:65-73 | one frame under the intended rule: the people count is the number of persons with a hip or shoulder pair, at most `|poses|` |

## Left out

- Camera selection `open_camera` (`/dev/video0` with `/dev/video1` as fallback), frame capture and the skip on a missing frame: device I/O.
- `poseNet` construction and `net.Process`: model inference. Its result is the input `poses`.
- Display and drawing (`videoOutput`, `IsStreaming`, `Render`, `SetStatus`, `cudaDrawLine`, `cudaDrawCircle`, the disabled overlay calls), including the line colour, the `int(...)` truncations and the unused `mx`/`my`: these only feed drawing.
- Opening, writing and closing the log file, the `START`/`END` markers, and `time.strftime`. The timestamp is a parameter, `logOpen` stands for `logf` being set, and only the text of the per-frame line is modelled.
- The outer `while display.IsStreaming()` loop: it is driven by the display.
- Floating point: coordinates are `real` and `** 0.5` is not computed. The classification is stated on squared distances, and `DistanceClassification` shows this matches the square-root test.
- KptXy: the index is a `nat`. Python's negative indexing is not modelled, because the code only passes 5, 6, 11 and 12.
- Which anatomical part sits at each position of `Keypoints` is up to the pose library. The model, like the code, trusts that position 11 is the left hip and so on. The library is not part of this model.

## Findings

| source | as written | input that shows it | evidently intended | confidence | as-written member | corrected member |
|---|---|---|---|---|---|---|
| social_distance.py:62-73 | when both hips are found, the hip midpoint is appended at line 63; `L`/`R` still hold the hips, so line 73 appends it again | one pose with both hips found: `people=2  viol=1`, with the `ALERT!` prefix, for a single person | hips if both are found, else shoulders, else nothing: one centre per person (the comment at line 65 calls the shoulders a fallback) | high, not executed | `Frame.SinglePersonWithHipsAlerts` | `Frame.SinglePersonIntended` |

`Centers.BuildCenters`, `Frame.ProcessFrame` and the lemmas about them model
the code as written. This is the program's real behaviour, and
`Frame.HipPosesForceViolations` states what it costs. The corrected rule is
`Centers.IntendedPoseCenters`. `Centers.IntendedOneCenterPerPerson` proves
one centre per person under that rule. `Frame.ProcessFrameIntended` runs the
same counting, HUD and log-line code on the corrected centres.
