# PeopleDetection visit timer — a verified Dafny model

The repository measures how long people stay in front of a camera. A HOG
people detector proposes boxes every `detect_interval` frames. A per-person
visual tracker follows each admitted box from frame to frame. A
`VisitLogger` records an entry time when an identity is created and an exit
time when its tracker has been lost for more than `max_lost` consecutive
frames. At shutdown every visit still open is closed, and the report gives
the average stay, or "No visitors recorded" when there is nothing to
average.

The engine appears twice: in `PeopleDetection.py`, and in an earlier copy,
`CreateGraph.py`. Their `iou`, `VisitLogger` and frame loop are the same
code. They differ in:
- default settings (`detect_interval` 30 vs 10, `iou_thresh` 0.2 vs 0.3);
- the OpenCV tracker kind;
- the CSV export, present only in `PeopleDetection.py`;
- how the report measures a stay: `total_seconds()` in `PeopleDetection.py`, the `.seconds` field in `CreateGraph.py`.

One model serves both files. The two stay measures are two instances of the
same `Report.Summarize`.

Modules:

- `Geometry` (geometry.dfy): the `iou` of two integer `(x, y, w, h)` boxes,
  with an exact `real` result.
- `Ledger` (ledger.dfy): the `VisitLogger` class.
  - Its insertion-ordered `active` dictionary becomes a map from id to entry time (`active`) plus the insertion order of the ids (`order`).
  - `records` is its append-only list of completed visits.
  - The value-level lemmas its invariants rest on live in the same module.
- `Report` (report.dfy): the conclusion of `print_report`.
- `FrameSpec` (frame_spec.dfy): one iteration of the frame loop of `PeopleTimer.run` as pure functions over a snapshot of the engine, and what it guarantees.
- `Timer` (timer.dfy): the `PeopleTimer` class.
  - `Step` runs one frame in place, with the same three loops as the source, and is proved to compute exactly `FrameSpec.FrameStep`.
  - `Shutdown` is the cleanup after the loop.

The outside world becomes inputs:
- A frame's tracker results are a map from id to `Option<Box>`. An id the map does not mention counts as a failed update.
- The detector's output is a sequence of boxes.
- `datetime.now()` becomes an integer clock reading. All events of one frame share one reading `now`, and finalization takes one reading per open visit. The source reads the clock one call after another, so `Step` and `Shutdown` require readings that do not decrease; the ghost field `clock` holds the latest one.

Two new boxes that are near each other, but near no live tracker, do not
both get identities when they overlap by more than `iou_thresh`. Each box
is tested against `self.trackers` (PeopleDetection.py:113,
CreateGraph.py:127), and that already holds the trackers created for
earlier boxes of the same frame, so the second box is skipped
(`FrameSpec.SameFrameOverlapSuppressed`). Boxes that overlap each other by
at most the threshold do both get new identities
(`FrameSpec.SeparateBoxesBothAdmitted`).

## Model

| member | source | states |
|---|---|---|
| `Geometry.IoU` | PeopleDetection.py:63-69 | A zero union gives 0 instead of a division by zero. Otherwise the result times the union equals the shared area, i.e. it is exactly their ratio. |
| `Geometry.IoUSymmetric` | CreateGraph.py:75-80 | The score does not depend on argument order. |
| `Geometry.IoUSelf` | PeopleDetection.py:65-69 | A box with positive width and height scores exactly 1 against itself. |
| `Geometry.IoUDegenerate` | CreateGraph.py:78-80 | A box with a non-positive width or height scores 0 against any box. |
| `Geometry.OverlapWithin` | PeopleDetection.py:65-67 | For boxes with non-negative sides, the shared area is between 0 and each box's area. |
| `Geometry.IoUBounds` | PeopleDetection.py:64-69 | For every pair of boxes the score lies in [0, 1]. |
| `Geometry.MatchByCrossMultiplication` | PeopleDetection.py:113 | With a positive union, `iou > t` holds exactly when the shared area exceeds `t` times the union. |
| `Ledger.Remove` | PeopleDetection.py:18 | Popping an id from the ordered ids removes exactly that id. An absent id leaves the order unchanged. `Ledger.RemoveAt` states that the other ids keep their order. |
| `Ledger.RemoveAt` | PeopleDetection.py:18 | Popping the id at any position of a duplicate-free order leaves the ids before it followed by the ids after it, each group in its old order. |
| `Ledger.RemoveKeepsLists` | CreateGraph.py:29 | After a pop, the order still lists each remaining open id exactly once. |
| `Ledger.AppendKeepsLists` | PeopleDetection.py:15 | Inserting a new key at the end keeps every open id listed exactly once. |
| `Ledger.RemoveFirst` | PeopleDetection.py:24-25 | Popping the oldest open id drops the head of the order. |
| `Ledger.CloseOut` | PeopleDetection.py:23-25 | Finalization appends one record per id open at the time. |
| `Ledger.CloseOutAt` | PeopleDetection.py:23-25 | The k-th record that finalization appends is the k-th open id in insertion order, with its stored entry time and the k-th clock reading. |
| `Ledger.CloseOutNext` | CreateGraph.py:35-36 | Closing one more open id, in insertion order, appends exactly its record (id, stored entry, reading) to those of the ids before it. |
| `Ledger.EnterNext` | PeopleDetection.py:119-122 | `next_id` is not an open id. Opening it and advancing `next_id` keeps every id handed out open or closed exactly once. |
| `Ledger.ExitOpen` | CreateGraph.py:28-31 | Closing an open visit with one record keeps every id handed out open or closed exactly once. |
| `Ledger.CloseOutAccounts` | CreateGraph.py:33-36 | After finalization, no visit is open and every id handed out has exactly one record. |
| `Ledger.CloseOutChronological` | PeopleDetection.py:23-25 | With finalization readings not earlier than any entry, every record ends no earlier than it began. |
| `Ledger.AppendOrdered` | PeopleDetection.py:20-21 | Appending a record that exits at the current reading keeps the records in order of exit time, none after that reading. |
| `Ledger.CloseOutExits` | PeopleDetection.py:24-25 | The k-th record finalization appends exits at the k-th clock reading. |
| `Ledger.CloseOutOrdered` | PeopleDetection.py:23-25 | With readings taken one after another, none earlier than the clock, finalization keeps the records in order of exit time, none after the last reading. |
| `Ledger.OneRecordPerId` | PeopleDetection.py:133 | With no open visit, there are exactly as many records as ids handed out. |
| `Ledger.VisitLogger.constructor` | PeopleDetection.py:9-12 | The ledger starts with no open visit and no record. |
| `Ledger.VisitLogger.PersonEntered` | PeopleDetection.py:14-15 | The id maps to `now`. A new id goes to the end of the order; an existing one keeps its place. Records are unchanged. |
| `Ledger.VisitLogger.PersonExited` | PeopleDetection.py:17-21 | An absent id changes nothing. A present id is removed from the open visits and the order, and exactly one record (id, stored entry, now) is appended. |
| `Ledger.VisitLogger.ExitFirst` | PeopleDetection.py:24-25 | Closing the oldest open visit removes its id from the head of the order and from the open visits, and appends its one record. |
| `Ledger.VisitLogger.FinalizeOpenVisits` | PeopleDetection.py:23-25 | No visit stays open. One record per previously open id is appended, in insertion order. With readings that never go back, the appended records are in exit order. With nothing open, the records are unchanged, so a second call changes nothing. |
| `Report.Stay` | PeopleDetection.py:43 | A stay, in seconds, is not negative exactly when the exit is no earlier than the entry. |
| `Report.SecondsField` | CreateGraph.py:47 | `.seconds` lies in [0, 86400) and differs from the full stay by a whole number of days. It equals the full stay whenever that is between 0 and a day. |
| `Report.Summarize` | CreateGraph.py:38-48 | "No visitors" exactly when there are no records, so the mean never divides by zero. Otherwise it gives the record count and a mean whose product with the count is the total. |
| `Report.MeanWithinStays` | PeopleDetection.py:43 | The average of `total_seconds()` stays lies between the shortest and the longest stay. |
| `Report.MeanNotNegative` | PeopleDetection.py:43 | When no visit ends before it began, the average stay is not negative. |
| `Report.SecondsFieldWithinADay` | CreateGraph.py:47 | For stays shorter than a day, the `.seconds` report and the `total_seconds()` report agree. |
| `Report.SecondsFieldDropsWholeDays` | CreateGraph.py:47 | A single stay of exactly one day averages 0 seconds with `.seconds`, against 86400 with `total_seconds()`. |
| `Report.FinalReport` | PeopleDetection.py:35-43 | Closing every open visit of a consistent ledger leaves each id handed out with exactly one record and nothing open, so there are `next_id` records, none ending before it began. The report says "no visitors" exactly when `next_id` is 0; otherwise it counts `next_id` visitors with a mean that is not negative. |
| `FrameSpec.Tick` | PeopleDetection.py:92-99 | A successful update stores the new box with miss count 0. A failed one keeps the box and adds one miss. |
| `FrameSpec.TrackPhase` | PeopleDetection.py:90-99 | Every tracker, and no other, is ticked with its own update result. The order, `next_id`, open visits and records are unchanged. |
| `FrameSpec.Evictions` | PeopleDetection.py:100-101 | `gone` is no longer than the tracker order, and lists only live trackers whose update failed. |
| `FrameSpec.EvictionsNext` | CreateGraph.py:112-115 | Visiting one more tracker appends its id to `gone` exactly when its failed update pushes the miss count above `max_lost`. |
| `FrameSpec.Exit` | PeopleDetection.py:105-106 | The id has neither tracker nor open visit afterwards, and `next_id` is unchanged. An open id gains exactly one record (id, entry, now); an id not open changes neither the records nor the open visits. |
| `FrameSpec.EvictPhase` | PeopleDetection.py:104-106 | `next_id` is unchanged. The old records stay as a prefix, followed by at most one new record per id in `gone`. |
| `FrameSpec.Suppressed` | PeopleDetection.py:113 | With no live tracker, no box is skipped. |
| `FrameSpec.Admit` | PeopleDetection.py:111-122 | One box leaves the records unchanged and raises `next_id` by 0 or 1. When `next_id` does not move, nothing changes at all. |
| `FrameSpec.DetectPhase` | CreateGraph.py:125-136 | The detection pass leaves the records unchanged and hands out at most one new id per detected box. |
| `FrameSpec.DetectionFrame` | PeopleDetection.py:109 | The first frame, index 0, is always a detection frame. |
| `FrameSpec.FrameStep` | PeopleDetection.py:88-122 | A frame hands out at most one id per detected box, and none outside detection frames. It keeps the old records as a prefix and appends at most one record per tracker it started with. |
| `FrameSpec.TrackPhaseConsistent` | PeopleDetection.py:90-101 | Updating the trackers keeps the engine's invariant. |
| `FrameSpec.ExitConsistent` | PeopleDetection.py:105-106 | Logging an exit, then deleting the tracker, keeps trackers and open visits in lockstep, every id accounted for, and the records in exit order. |
| `FrameSpec.EvictPhaseConsistent` | CreateGraph.py:117-119 | The whole eviction pass keeps the invariant. |
| `FrameSpec.AdmitConsistent` | PeopleDetection.py:119-122 | Admitting one box keeps the invariant. |
| `FrameSpec.DetectPhaseConsistent` | CreateGraph.py:125-136 | The whole detection pass keeps the invariant. |
| `FrameSpec.FrameStepConsistent` | PeopleDetection.py:88-122 | A frame step keeps the invariant, given a clock that does not go back: `trackers` and `logger.active` have the same keys, listed once in one order, and `next_id` is not negative. Every id below `next_id` is open or closed by exactly one record. No visit ends before it began. The records are in order of exit time, none later than the current reading. |
| `FrameSpec.EvictionsExactly` | PeopleDetection.py:98-101 | An id is in `gone` exactly when it is a live tracker whose update failed and pushed its miss count above `max_lost`. |
| `FrameSpec.EvictPhaseEffect` | PeopleDetection.py:104-106 | The eviction pass deletes exactly the trackers in `gone`. It leaves the others and `next_id` unchanged. |
| `FrameSpec.DetectPhaseEffect` | CreateGraph.py:133-136 | The detection pass keeps existing trackers as they were and never lowers `next_id`. Every tracker it adds has an id between the old and the new `next_id`. |
| `FrameSpec.AdmitDecision` | PeopleDetection.py:113-122 | A box is skipped exactly when some live tracker has IoU strictly above the threshold. Otherwise it gets `next_id`, which was not already a key, plus a tracker with miss count 0 at the end of the order and an open visit at `now`. `next_id` grows by one and the records are unchanged. |
| `FrameSpec.ThresholdIsStrict` | PeopleDetection.py:113 | A box whose IoU with every live tracker is at most the threshold, including exactly equal, gets a new id. |
| `FrameSpec.SeparateBoxesBothAdmitted` | PeopleDetection.py:111-122 | Two boxes that overlap no live tracker, and each other by at most the threshold, get ids `next_id` and `next_id + 1` in the same frame. |
| `FrameSpec.SameFrameOverlapSuppressed` | CreateGraph.py:125-129 | A second box that overlaps a box admitted earlier in the same frame above the threshold is skipped. |
| `FrameSpec.FrameStepTracks` | PeopleDetection.py:90-106 | A live tracker survives a frame exactly when it is not evicted by that frame's update. A survivor carries the updated box and miss count. |
| `FrameSpec.FrameStepIdsFresh` | CreateGraph.py:133-136 | Every tracker a frame creates has an id never handed out before: not below the old `next_id`, not open, and on no record. |
| `FrameSpec.SingleDetection` | PeopleDetection.py:103-122 | Eviction comes before creation. On a detection frame, a detected box gets a new id exactly when no tracker surviving this frame overlaps its updated box above the threshold, so a tracker evicted in this frame never suppresses it. |
| `FrameSpec.MissesCount` | CreateGraph.py:113 | After k consecutive failed updates, the miss count has grown by k. |
| `FrameSpec.EvictedOnMissNumber` | CreateGraph.py:112-115 | From a count of 0, the k-th consecutive failed update evicts exactly when k > `max_lost`: the tracker survives misses 1 to `max_lost` and is evicted on miss `max_lost + 1`. |
| `FrameSpec.SuccessResets` | PeopleDetection.py:92-94 | A successful update stores the new box and resets the count to 0, and it never evicts. |
| `Timer.PeopleTimer.constructor` | PeopleDetection.py:46-62 | The timer keeps the given settings and starts with no tracker, `next_id` 0, frame 0 and an empty ledger. |
| `Timer.PeopleTimer.Overlaps` | PeopleDetection.py:113 | The scan over the trackers in insertion order returns true exactly when some live tracker has IoU strictly above the threshold. |
| `Timer.PeopleTimer.TrackExisting` | PeopleDetection.py:89-101 | Every tracker is updated in place, as `FrameSpec.TrackPhase`. The returned `gone` list is `FrameSpec.Evictions` of the old trackers, in insertion order. |
| `Timer.PeopleTimer.UpdateEach` | PeopleDetection.py:90-101 | The loop over the ids, in order, changes no key. Each tracker becomes `FrameSpec.Tick` of its old value and update result, and `gone` is `FrameSpec.Evictions` of the old trackers. |
| `Timer.PeopleTimer.RemoveLost` | CreateGraph.py:116-119 | Each id of `gone` has its exit logged, then its tracker deleted, as `FrameSpec.EvictPhase`. Trackers and open visits stay in lockstep. |
| `Timer.PeopleTimer.AdmitOne` | CreateGraph.py:127-136 | One detected box is handled in place exactly as `FrameSpec.Admit`, and lockstep is kept. |
| `Timer.PeopleTimer.DetectNew` | CreateGraph.py:125-136 | Each box is tested against the live trackers and, when free, gets `next_id`, as `FrameSpec.DetectPhase`. Lockstep is kept. |
| `Timer.PeopleTimer.Step` | PeopleDetection.py:88-126 | The new state is exactly `FrameSpec.FrameStep` of the old one. The frame counter grows by one and the invariant holds again. |
| `Timer.PeopleTimer.Shutdown` | PeopleDetection.py:133-134 | After finalization, no visit is open and every id ever handed out has exactly one record. Records have distinct ids, each ends no earlier than it began, and they are in order of exit time. The report says "no visitors" exactly when no id was handed out; otherwise it counts `next_id` visitors with a non-negative mean. |

## Left out

- Camera capture, resizing, the HOG detector and the CSRT/MOSSE trackers (OpenCV calls). Their results are the inputs of `Step`.
- Drawing, `imshow`, `waitKey` and the FPS overlay, which are display-only. So are the `while True` loop that ends on a failed capture or a key press, and the `IOError` when the camera cannot be opened.
- `flush_to_csv` and the `strftime` and `print` formatting of the report (file and console output). The model keeps the report's conclusion (`Report.Summary`), not its text.
- SendMail.py and tempCodeRunnerFile.py (mail delivery and environment loading) are not part of this model.
- Tracker boxes are integer `(x, y, w, h)` and the score is an exact rational. The source's boxes may hold floats, and its division is floating point.
- Clock readings are whole seconds. `datetime.now()` is read once per event in the source; the model uses one reading per frame, and one reading per visit closed at shutdown.
- `Timer.PeopleTimer.constructor`: requires a non-zero `detect_interval`. With 0, the source fails with a division by zero on the first frame. A negative interval selects the same frames in Python and in the model.
- `Timer.PeopleTimer.Step`: assumes clock readings that do not decrease from frame to frame. Without that, no visit could be shown to end after it began.
- `Geometry.IoUSelf`: requires a positive width and a positive height, not just a positive area. A box with both sides negative has a positive `w * h` but scores 0 against itself (`Geometry.IoUDegenerate`).

## Findings

| source | as written | input that shows it | evidently intended | confidence | as-written member | corrected member |
|---|---|---|---|---|---|---|
| CreateGraph.py:47 | The average stay sums `(end - start).seconds`, which is the remainder of the stay modulo one day. | One visit from entry 0 to exit 86400: the report says 0.0 s. | The average of the full stay in seconds, as `total_seconds()` in PeopleDetection.py:43. | medium, not executed | `Report.SecondsFieldDropsWholeDays` | `Report.MeanWithinStays` |
