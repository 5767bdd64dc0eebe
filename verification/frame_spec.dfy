/**
 * One iteration of `PeopleTimer.run` (PeopleDetection.py lines 88-122,
 * CreateGraph.py lines 100-136) as pure functions over a value snapshot of
 * the engine, with the external tracker and detector reduced to inputs:
 *
 *   1. every live tracker is updated (success resets its miss counter,
 *      failure increments it) and the ones whose counter now exceeds
 *      `maxLost` are collected, in insertion order;
 *   2. each collected tracker has its exit logged and is deleted;
 *   3. on detection frames, each detected box that no live tracker overlaps
 *      with IoU strictly above the threshold gets the next id, a tracker and
 *      an open visit.
 *
 * The `Timer` module runs these steps imperatively and proves it computes
 * exactly `FrameStep`; the lemmas here state what `FrameStep` guarantees.
 */
module FrameSpec {
  import opened Geometry
  import opened Ledger

  datatype Option<T> = None | Some(value: T)

  /** A live tracker: its last known box and its number of consecutive failed updates. */
  datatype Track = Track(bbox: Box, lost: nat)

  /** The tuning of the engine (constructor arguments `detect_interval`, `iou_thresh`, `max_lost`). */
  datatype Config = Config(detectInterval: int, iouThresh: real, maxLost: int)

  /**
   * A snapshot of the engine: the trackers with their insertion order, the
   * next id to hand out, and the ledger's open visits and completed records.
   * One `order` serves the trackers and the open visits, which the engine
   * keeps in the same order.
   */
  datatype Engine = Engine(
    tracks: map<int, Track>,
    order: seq<int>,
    nextId: int,
    active: map<int, int>,
    records: seq<Visit>)

  /** What the external tracker reported for `pid` this frame; a pid it does not mention failed. */
  function Outcome(updates: map<int, Option<Box>>, pid: int): Option<Box> {
    if pid in updates then updates[pid] else None
  }

  /** A tracker after one update: a new box and a fresh count, or one more miss. */
  function Tick(t: Track, u: Option<Box>): (r: Track)
    ensures u.Some? ==> r == Track(u.value, 0)
    ensures u.None? ==> r.bbox == t.bbox && r.lost == t.lost + 1
  {
    match u
    case Some(b) => Track(b, 0)
    case None => Track(t.bbox, t.lost + 1)
  }

  /** The update failed and pushed the miss count past `maxLost`. */
  predicate EvictedBy(t: Track, u: Option<Box>, maxLost: int) {
    u.None? && Tick(t, u).lost > maxLost
  }

  /** Step 1: update every tracker. */
  function TrackPhase(e: Engine, updates: map<int, Option<Box>>): (r: Engine)
    ensures r.tracks.Keys == e.tracks.Keys
    ensures forall pid :: pid in r.tracks ==> r.tracks[pid] == Tick(e.tracks[pid], Outcome(updates, pid))
    ensures r.order == e.order && r.nextId == e.nextId && r.active == e.active && r.records == e.records
  {
    e.(tracks := map pid | pid in e.tracks :: Tick(e.tracks[pid], Outcome(updates, pid)))
  }

  /** Step 1, the `gone` list: the trackers in `order` that this frame evicts, in that order. */
  function Evictions(order: seq<int>, tracks: map<int, Track>, updates: map<int, Option<Box>>, maxLost: int): (r: seq<int>)
    requires forall k :: 0 <= k < |order| ==> order[k] in tracks
    ensures |r| <= |order|
    ensures forall k :: 0 <= k < |r| ==> r[k] in tracks && Outcome(updates, r[k]).None?
  {
    if order == [] then []
    else
      var n := |order| - 1;
      var pid := order[n];
      Evictions(order[..n], tracks, updates, maxLost)
        + (if EvictedBy(tracks[pid], Outcome(updates, pid), maxLost) then [pid] else [])
  }

  /** Scanning one more tracker appends it to `gone` exactly when its update evicts it. */
  lemma EvictionsNext(order: seq<int>, i: int, tracks: map<int, Track>, updates: map<int, Option<Box>>, maxLost: int)
    requires forall k :: 0 <= k < |order| ==> order[k] in tracks
    requires 0 <= i < |order|
    ensures Evictions(order[..i + 1], tracks, updates, maxLost)
         == Evictions(order[..i], tracks, updates, maxLost)
            + (if EvictedBy(tracks[order[i]], Outcome(updates, order[i]), maxLost) then [order[i]] else [])
  {
    assert order[..i + 1][..i] == order[..i];
  }

  /** Step 2 for one id: log the exit (only an open visit is closed), then delete the tracker. */
  function Exit(e: Engine, pid: int, now: int): (r: Engine)
    ensures pid !in r.tracks && pid !in r.active && r.nextId == e.nextId
    ensures pid in e.active ==> r.records == e.records + [Visit(pid, e.active[pid], now)]
    ensures pid !in e.active ==> r.records == e.records && r.active == e.active
  {
    var open := pid in e.active;
    Engine(
      e.tracks - {pid},
      Remove(e.order, pid),
      e.nextId,
      if open then e.active - {pid} else e.active,
      if open then e.records + [Visit(pid, e.active[pid], now)] else e.records)
  }

  /** Step 2: apply `Exit` to every id of `gone`, in order. */
  function EvictPhase(e: Engine, gone: seq<int>, now: int): (r: Engine)
    ensures r.nextId == e.nextId
    ensures |e.records| <= |r.records| <= |e.records| + |gone|
    ensures r.records[..|e.records|] == e.records
  {
    if gone == [] then e
    else
      var n := |gone| - 1;
      Exit(EvictPhase(e, gone[..n], now), gone[n], now)
  }

  /** Some live tracker overlaps `box` with IoU strictly above `thresh`. */
  predicate Suppressed(box: Box, tracks: map<int, Track>, thresh: real)
    ensures tracks == map[] ==> !Suppressed(box, tracks, thresh)
  {
    exists pid :: pid in tracks && IoU(box, tracks[pid].bbox) > thresh
  }

  /**
   * Step 3 for one box: skip it when a live tracker overlaps it; otherwise
   * give it id `nextId` (a new key goes to the end of the order), open its
   * visit at `now` and advance `nextId`.
   */
  function Admit(e: Engine, box: Box, thresh: real, now: int): (r: Engine)
    ensures r.records == e.records
    ensures r.nextId == e.nextId || r.nextId == e.nextId + 1
    ensures r.nextId == e.nextId ==> r == e
  {
    if Suppressed(box, e.tracks, thresh) then e
    else
      var pid := e.nextId;
      Engine(
        e.tracks[pid := Track(box, 0)],
        if pid in e.tracks then e.order else e.order + [pid],
        pid + 1,
        e.active[pid := now],
        e.records)
  }

  /** Step 3: apply `Admit` to every detected box, in order. */
  function DetectPhase(e: Engine, boxes: seq<Box>, thresh: real, now: int): (r: Engine)
    ensures r.records == e.records
    ensures e.nextId <= r.nextId <= e.nextId + |boxes|
  {
    if boxes == [] then e
    else
      var n := |boxes| - 1;
      Admit(DetectPhase(e, boxes[..n], thresh, now), boxes[n], thresh, now)
  }

  /** A frame is a detection frame when its index is a multiple of the interval. */
  predicate DetectionFrame(cfg: Config, frameIdx: nat)
    requires cfg.detectInterval != 0
    ensures frameIdx == 0 ==> DetectionFrame(cfg, frameIdx)
  {
    frameIdx % cfg.detectInterval == 0
  }

  /** One whole frame: update, evict, then (on detection frames) admit. */
  function FrameStep(e: Engine, updates: map<int, Option<Box>>, boxes: seq<Box>, now: int, cfg: Config, frameIdx: nat): (r: Engine)
    requires cfg.detectInterval != 0
    requires forall k :: 0 <= k < |e.order| ==> e.order[k] in e.tracks
    ensures e.nextId <= r.nextId <= e.nextId + |boxes|
    ensures !DetectionFrame(cfg, frameIdx) ==> r.nextId == e.nextId
    ensures |e.records| <= |r.records| <= |e.records| + |e.order|
    ensures r.records[..|e.records|] == e.records
  {
    var gone := Evictions(e.order, e.tracks, updates, cfg.maxLost);
    var kept := EvictPhase(TrackPhase(e, updates), gone, now);
    if DetectionFrame(cfg, frameIdx) then DetectPhase(kept, boxes, cfg.iouThresh, now) else kept
  }

  /**
   * The engine's invariant: the open visits and the trackers have the same
   * ids, listed once each in `order`; every id handed out so far is either
   * open or closed by exactly one record; entry times are not later than
   * `clock` and no visit ends before it began; the records are in order of
   * exit time, none after `clock`.
   */
  ghost predicate Consistent(e: Engine, clock: int) {
    && Lists(e.order, e.active)
    && e.tracks.Keys == e.active.Keys
    && 0 <= e.nextId
    && AccountedFor(e.active, e.records, e.nextId)
    && Chronological(e.active, e.records, clock)
    && ExitsOrdered(e.records, clock)
  }

  // ---------------------------------------------------------------------
  // The invariant is preserved by every phase.

  lemma TrackPhaseConsistent(e: Engine, updates: map<int, Option<Box>>, clock: int, now: int)
    requires Consistent(e, clock) && clock <= now
    ensures Consistent(TrackPhase(e, updates), now)
  {
  }

  lemma ExitConsistent(e: Engine, pid: int, now: int)
    requires Consistent(e, now)
    ensures Consistent(Exit(e, pid, now), now)
  {
    if pid in e.active {
      RemoveKeepsLists(e.order, e.active, pid);
      ExitOpen(e.active, e.records, e.nextId, pid, now);
      AppendOrdered(e.records, now, Visit(pid, e.active[pid], now));
    } else {
      ElemsMember(e.order, pid);
      assert pid !in Elems(e.order);
      assert e.tracks - {pid} == e.tracks;
    }
  }

  lemma {:induction false} EvictPhaseConsistent(e: Engine, gone: seq<int>, now: int)
    requires Consistent(e, now)
    ensures Consistent(EvictPhase(e, gone, now), now)
  {
    if gone != [] {
      var n := |gone| - 1;
      EvictPhaseConsistent(e, gone[..n], now);
      ExitConsistent(EvictPhase(e, gone[..n], now), gone[n], now);
    }
  }

  lemma AdmitConsistent(e: Engine, box: Box, thresh: real, now: int)
    requires Consistent(e, now)
    ensures Consistent(Admit(e, box, thresh, now), now)
  {
    if !Suppressed(box, e.tracks, thresh) {
      EnterNext(e.active, e.records, e.nextId, now);
      AppendKeepsLists(e.order, e.active, e.nextId, now);
    }
  }

  lemma {:induction false} DetectPhaseConsistent(e: Engine, boxes: seq<Box>, thresh: real, now: int)
    requires Consistent(e, now)
    ensures Consistent(DetectPhase(e, boxes, thresh, now), now)
  {
    if boxes != [] {
      var n := |boxes| - 1;
      DetectPhaseConsistent(e, boxes[..n], thresh, now);
      AdmitConsistent(DetectPhase(e, boxes[..n], thresh, now), boxes[n], thresh, now);
    }
  }

  /**
   * A frame step at a clock reading no earlier than the last one keeps the
   * trackers and the open visits in lockstep, keeps ids unique and every id
   * accounted for, and keeps visits chronological and records in exit
   * order.
   */
  lemma FrameStepConsistent(e: Engine, updates: map<int, Option<Box>>, boxes: seq<Box>, clock: int, now: int, cfg: Config, frameIdx: nat)
    requires Consistent(e, clock) && clock <= now
    requires cfg.detectInterval != 0
    ensures forall k :: 0 <= k < |e.order| ==> e.order[k] in e.tracks
    ensures Consistent(FrameStep(e, updates, boxes, now, cfg, frameIdx), now)
  {
    var gone := Evictions(e.order, e.tracks, updates, cfg.maxLost);
    TrackPhaseConsistent(e, updates, clock, now);
    EvictPhaseConsistent(TrackPhase(e, updates), gone, now);
    DetectPhaseConsistent(EvictPhase(TrackPhase(e, updates), gone, now), boxes, cfg.iouThresh, now);
  }

  // ---------------------------------------------------------------------
  // What each phase does to the trackers.

  /** The evicted trackers are exactly those whose update failed and pushed their count past `maxLost`. */
  lemma {:induction false} EvictionsExactly(order: seq<int>, tracks: map<int, Track>, updates: map<int, Option<Box>>, maxLost: int, pid: int)
    requires forall k :: 0 <= k < |order| ==> order[k] in tracks
    ensures pid in Evictions(order, tracks, updates, maxLost)
        <==> pid in order && EvictedBy(tracks[pid], Outcome(updates, pid), maxLost)
  {
    if order != [] {
      var n := |order| - 1;
      EvictionsExactly(order[..n], tracks, updates, maxLost, pid);
      assert order == order[..n] + [order[n]];
    }
  }

  /** Step 2 deletes exactly the trackers in `gone` and leaves the others and `nextId` as they were. */
  lemma {:induction false} EvictPhaseEffect(e: Engine, gone: seq<int>, now: int)
    ensures EvictPhase(e, gone, now).nextId == e.nextId
    ensures forall pid :: pid in EvictPhase(e, gone, now).tracks <==> pid in e.tracks && pid !in gone
    ensures forall pid :: pid in EvictPhase(e, gone, now).tracks ==> EvictPhase(e, gone, now).tracks[pid] == e.tracks[pid]
  {
    if gone != [] {
      var n := |gone| - 1;
      EvictPhaseEffect(e, gone[..n], now);
      assert gone == gone[..n] + [gone[n]];
    }
  }

  /**
   * Step 3 keeps every existing tracker as it was, never lowers `nextId`,
   * and every tracker it adds has an id from `e.nextId` up to the new
   * `nextId`, so (with existing ids below `e.nextId`) no id is reused.
   */
  lemma {:induction false} DetectPhaseEffect(e: Engine, boxes: seq<Box>, thresh: real, now: int)
    requires forall pid :: pid in e.tracks ==> pid < e.nextId
    ensures var r := DetectPhase(e, boxes, thresh, now);
      && e.nextId <= r.nextId
      && r.records == e.records
      && (forall pid :: pid in e.tracks ==> pid in r.tracks && r.tracks[pid] == e.tracks[pid])
      && (forall pid :: pid in r.tracks && pid !in e.tracks ==> e.nextId <= pid < r.nextId)
      && (forall pid :: pid in r.tracks ==> pid < r.nextId)
  {
    if boxes != [] {
      var n := |boxes| - 1;
      DetectPhaseEffect(e, boxes[..n], thresh, now);
    }
  }

  /**
   * A box is skipped exactly when a live tracker overlaps it with IoU
   * strictly above the threshold; otherwise it receives the unused id
   * `nextId` with a fresh tracker and an open visit starting at `now`.
   */
  lemma AdmitDecision(e: Engine, box: Box, thresh: real, now: int)
    requires forall pid :: pid in e.tracks ==> pid < e.nextId
    ensures var r := Admit(e, box, thresh, now);
      && (Suppressed(box, e.tracks, thresh) ==> r == e)
      && (!Suppressed(box, e.tracks, thresh) ==>
            && e.nextId !in e.tracks
            && r.nextId == e.nextId + 1
            && r.tracks == e.tracks[e.nextId := Track(box, 0)]
            && r.order == e.order + [e.nextId]
            && r.active == e.active[e.nextId := now]
            && r.records == e.records)
  {
  }

  /**
   * The threshold test is strict: a box whose IoU with every live tracker is
   * at most the threshold (in particular, exactly equal to it) gets a new id.
   */
  lemma ThresholdIsStrict(e: Engine, box: Box, thresh: real, now: int)
    requires forall pid :: pid in e.tracks ==> IoU(box, e.tracks[pid].bbox) <= thresh
    ensures Admit(e, box, thresh, now).nextId == e.nextId + 1
    ensures e.nextId in Admit(e, box, thresh, now).tracks
  {
  }

  /**
   * Two detections that overlap no live tracker and each other by at most
   * the threshold both get new, distinct ids in the same frame.
   */
  lemma SeparateBoxesBothAdmitted(e: Engine, b1: Box, b2: Box, thresh: real, now: int)
    requires forall pid :: pid in e.tracks ==> pid < e.nextId
    requires !Suppressed(b1, e.tracks, thresh) && !Suppressed(b2, e.tracks, thresh)
    requires IoU(b1, b2) <= thresh
    ensures var r := DetectPhase(e, [b1, b2], thresh, now);
      && r.nextId == e.nextId + 2
      && e.nextId in r.tracks && e.nextId + 1 in r.tracks
      && r.tracks[e.nextId] == Track(b1, 0)
      && r.tracks[e.nextId + 1] == Track(b2, 0)
  {
    assert [b1, b2][..1] == [b1];
    assert [b1][..0] == [];
    var e1 := Admit(e, b1, thresh, now);
    assert e1 == DetectPhase(e, [b1], thresh, now);
    assert e1.tracks == e.tracks[e.nextId := Track(b1, 0)];
    forall pid | pid in e1.tracks
      ensures IoU(b2, e1.tracks[pid].bbox) <= thresh
    {
      if pid == e.nextId {
        IoUSymmetric(b1, b2);
      }
    }
    assert !Suppressed(b2, e1.tracks, thresh);
    var e2 := Admit(e1, b2, thresh, now);
    assert e2 == DetectPhase(e, [b1, b2], thresh, now);
    assert e2.tracks == e1.tracks[e.nextId + 1 := Track(b2, 0)];
  }

  /**
   * A tracker created earlier in the same frame takes part in the overlap
   * test: a second detection overlapping the first by more than the
   * threshold is skipped.
   */
  lemma SameFrameOverlapSuppressed(e: Engine, b1: Box, b2: Box, thresh: real, now: int)
    requires forall pid :: pid in e.tracks ==> pid < e.nextId
    requires !Suppressed(b1, e.tracks, thresh)
    requires IoU(b2, b1) > thresh
    ensures DetectPhase(e, [b1, b2], thresh, now).nextId == e.nextId + 1
  {
    assert [b1, b2][..1] == [b1];
    assert [b1][..0] == [];
    var e1 := Admit(e, b1, thresh, now);
    assert e1 == DetectPhase(e, [b1, b2][..1], thresh, now);
    assert e1.tracks[e.nextId].bbox == b1;
    assert Suppressed(b2, e1.tracks, thresh);
  }

  // ---------------------------------------------------------------------
  // What a whole frame does to the trackers.

  /**
   * A tracker alive before the frame survives it exactly when it is not
   * evicted by this frame's update, and a survivor carries the updated box
   * and miss count.
   */
  lemma FrameStepTracks(e: Engine, updates: map<int, Option<Box>>, boxes: seq<Box>, clock: int, now: int, cfg: Config, frameIdx: nat, pid: int)
    requires Consistent(e, clock)
    requires cfg.detectInterval != 0
    requires pid in e.tracks
    ensures forall k :: 0 <= k < |e.order| ==> e.order[k] in e.tracks
    ensures var r := FrameStep(e, updates, boxes, now, cfg, frameIdx);
      && (pid in r.tracks <==> !EvictedBy(e.tracks[pid], Outcome(updates, pid), cfg.maxLost))
      && (pid in r.tracks ==> r.tracks[pid] == Tick(e.tracks[pid], Outcome(updates, pid)))
  {
    var gone := Evictions(e.order, e.tracks, updates, cfg.maxLost);
    var ticked := TrackPhase(e, updates);
    var kept := EvictPhase(ticked, gone, now);
    EvictionsExactly(e.order, e.tracks, updates, cfg.maxLost, pid);
    ElemsMember(e.order, pid);
    EvictPhaseEffect(ticked, gone, now);
    if DetectionFrame(cfg, frameIdx) {
      DetectPhaseEffect(kept, boxes, cfg.iouThresh, now);
    }
  }

  /**
   * Every tracker a frame creates has an id that was never handed out
   * before: at least the old `nextId`, neither open nor closed by any record.
   */
  lemma FrameStepIdsFresh(e: Engine, updates: map<int, Option<Box>>, boxes: seq<Box>, clock: int, now: int, cfg: Config, frameIdx: nat)
    requires Consistent(e, clock)
    requires cfg.detectInterval != 0
    ensures forall k :: 0 <= k < |e.order| ==> e.order[k] in e.tracks
    ensures var r := FrameStep(e, updates, boxes, now, cfg, frameIdx);
      && e.nextId <= r.nextId
      && forall pid :: pid in r.tracks && pid !in e.tracks ==>
           e.nextId <= pid && pid !in e.active && !HasRecord(e.records, pid)
  {
    var gone := Evictions(e.order, e.tracks, updates, cfg.maxLost);
    var ticked := TrackPhase(e, updates);
    var kept := EvictPhase(ticked, gone, now);
    EvictPhaseEffect(ticked, gone, now);
    if DetectionFrame(cfg, frameIdx) {
      DetectPhaseEffect(kept, boxes, cfg.iouThresh, now);
    }
  }

  /**
   * Eviction comes before creation: on a detection frame, a single detected
   * box gets a new id exactly when no tracker that survives this frame's
   * update overlaps its updated box with IoU above the threshold. A tracker
   * evicted in this frame never suppresses a detection.
   */
  lemma SingleDetection(e: Engine, updates: map<int, Option<Box>>, box: Box, clock: int, now: int, cfg: Config, frameIdx: nat)
    requires Consistent(e, clock)
    requires cfg.detectInterval != 0 && DetectionFrame(cfg, frameIdx)
    ensures forall k :: 0 <= k < |e.order| ==> e.order[k] in e.tracks
    ensures FrameStep(e, updates, [box], now, cfg, frameIdx).nextId == e.nextId + 1
        <==> forall pid :: pid in e.tracks && !EvictedBy(e.tracks[pid], Outcome(updates, pid), cfg.maxLost) ==>
               IoU(box, Tick(e.tracks[pid], Outcome(updates, pid)).bbox) <= cfg.iouThresh
  {
    var gone := Evictions(e.order, e.tracks, updates, cfg.maxLost);
    var ticked := TrackPhase(e, updates);
    var kept := EvictPhase(ticked, gone, now);
    EvictPhaseEffect(ticked, gone, now);
    assert [box][..0] == [];
    assert DetectPhase(kept, [box], cfg.iouThresh, now) == Admit(kept, box, cfg.iouThresh, now);
    forall pid | pid in e.tracks
      ensures pid in kept.tracks <==> !EvictedBy(e.tracks[pid], Outcome(updates, pid), cfg.maxLost)
    {
      EvictionsExactly(e.order, e.tracks, updates, cfg.maxLost, pid);
      ElemsMember(e.order, pid);
    }
  }

  // ---------------------------------------------------------------------
  // The miss counter over consecutive frames.

  /** A tracker after `k` consecutive failed updates. */
  function Misses(t: Track, k: nat): Track {
    if k == 0 then t else Tick(Misses(t, k - 1), None)
  }

  lemma {:induction false} MissesCount(t: Track, k: nat)
    ensures Misses(t, k) == Track(t.bbox, t.lost + k)
  {
    if k > 0 {
      MissesCount(t, k - 1);
    }
  }

  /**
   * Starting from a count of 0 (a new tracker, or one whose last update
   * succeeded), the k-th consecutive failed update evicts the tracker
   * exactly when k > maxLost: it survives misses 1..maxLost and is
   * evicted on miss number maxLost + 1.
   */
  lemma EvictedOnMissNumber(t: Track, maxLost: int, k: nat)
    requires t.lost == 0 && k >= 1
    ensures EvictedBy(Misses(t, k - 1), None, maxLost) <==> k > maxLost
  {
    MissesCount(t, k - 1);
  }

  /** A successful update resets the count, whatever it was. */
  lemma SuccessResets(t: Track, b: Box, maxLost: int)
    ensures Tick(t, Some(b)) == Track(b, 0)
    ensures !EvictedBy(t, Some(b), maxLost)
  {
  }
}
