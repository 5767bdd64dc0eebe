/**
 * The `PeopleTimer` object: its trackers (an insertion-ordered map from id
 * to box and miss count), the next id to hand out, the frame counter and
 * its `VisitLogger`. `Step` is one iteration of the frame loop of `run`,
 * with the tracker updates and the detector's boxes for that frame and the
 * current clock reading passed in; `Shutdown` is the cleanup after the loop.
 */
module Timer {
  import opened Geometry
  import opened Ledger
  import opened Report
  import opened FrameSpec

  class PeopleTimer {
    const detectInterval: int
    const iouThresh: real
    const maxLost: int
    const logger: VisitLogger

    /** The trackers' boxes and miss counts by id, and their insertion order. */
    var trackers: map<int, Track>
    var trackOrder: seq<int>
    var nextId: int
    var frameIdx: nat

    /** The clock reading of the latest frame. */
    ghost var clock: int

    function Settings(): Config {
      Config(detectInterval, iouThresh, maxLost)
    }

    /** The engine's state as a value. */
    ghost function State(): Engine
      reads this, logger
    {
      Engine(trackers, trackOrder, nextId, logger.active, logger.records)
    }

    ghost predicate Valid()
      reads this, logger
    {
      && detectInterval != 0
      && logger.Valid()
      && trackOrder == logger.order
      && Consistent(State(), clock)
    }

    /** A timer with no trackers and an empty ledger, whose clock starts at `start`. */
    constructor (detectInterval: int, iouThresh: real, maxLost: int, ghost start: int)
      requires detectInterval != 0
      ensures Valid() && fresh(logger)
      ensures Settings() == Config(detectInterval, iouThresh, maxLost)
      ensures trackers == map[] && trackOrder == [] && nextId == 0 && frameIdx == 0 && clock == start
      ensures logger.active == map[] && logger.records == []
    {
      this.detectInterval := detectInterval;
      this.iouThresh := iouThresh;
      this.maxLost := maxLost;
      logger := new VisitLogger();
      trackers := map[];
      trackOrder := [];
      nextId := 0;
      frameIdx := 0;
      clock := start;
    }

    /**
     * Whether some live tracker overlaps `box` with IoU strictly above the
     * threshold, scanning the trackers in insertion order and stopping at
     * the first hit.
     */
    method Overlaps(box: Box) returns (hit: bool)
      requires forall k :: 0 <= k < |trackOrder| ==> trackOrder[k] in trackers
      requires forall pid :: pid in trackers ==> pid in Elems(trackOrder)
      ensures hit <==> Suppressed(box, trackers, iouThresh)
    {
      hit := false;
      var i := 0;
      while i < |trackOrder| && !hit
        invariant 0 <= i <= |trackOrder|
        invariant !hit ==> forall k :: 0 <= k < i ==> IoU(box, trackers[trackOrder[k]].bbox) <= iouThresh
        invariant hit ==> Suppressed(box, trackers, iouThresh)
      {
        var pid := trackOrder[i];
        if IoU(box, trackers[pid].bbox) > iouThresh {
          hit := true;
        }
        i := i + 1;
      }
      if !hit {
        forall pid | pid in trackers
          ensures IoU(box, trackers[pid].bbox) <= iouThresh
        {
          ElemsMember(trackOrder, pid);
        }
      }
    }

    /**
     * The trackers and the open visits have the same ids, listed once each,
     * in the same order.
     */
    ghost predicate Lockstep()
      reads this, logger
    {
      && logger.Valid()
      && trackOrder == logger.order
      && trackers.Keys == logger.active.Keys
    }

    /**
     * Update every tracker with what its update reported (a missing id
     * failed) and return, in insertion order, the ones lost for too long.
     */
    method TrackExisting(updates: map<int, Option<Box>>) returns (gone: seq<int>)
      requires Lockstep()
      modifies this`trackers
      ensures Lockstep()
      ensures State() == TrackPhase(old(State()), updates)
      ensures gone == Evictions(trackOrder, old(trackers), updates, maxLost)
    {
      ghost var s0 := State();
      gone := UpdateEach(trackOrder, updates);
      assert trackers == TrackPhase(s0, updates).tracks;
    }

    /** The loop of `TrackExisting` over the ids `pids`, which list the trackers once each. */
    method UpdateEach(pids: seq<int>, updates: map<int, Option<Box>>) returns (gone: seq<int>)
      requires Distinct(pids)
      requires forall k :: 0 <= k < |pids| ==> pids[k] in trackers
      requires forall pid :: pid in trackers ==> pid in Elems(pids)
      modifies this`trackers
      ensures trackers.Keys == old(trackers).Keys
      ensures forall pid :: pid in trackers ==> trackers[pid] == Tick(old(trackers)[pid], Outcome(updates, pid))
      ensures gone == Evictions(pids, old(trackers), updates, maxLost)
    {
      ghost var tracks0 := trackers;
      gone := [];
      var i := 0;
      while i < |pids|
        invariant 0 <= i <= |pids|
        invariant trackers.Keys == tracks0.Keys
        invariant forall k :: 0 <= k < i ==> trackers[pids[k]] == Tick(tracks0[pids[k]], Outcome(updates, pids[k]))
        invariant forall k :: i <= k < |pids| ==> trackers[pids[k]] == tracks0[pids[k]]
        invariant gone == Evictions(pids[..i], tracks0, updates, maxLost)
      {
        var pid := pids[i];
        var data := trackers[pid];
        assert data == tracks0[pid];
        EvictionsNext(pids, i, tracks0, updates, maxLost);
        match Outcome(updates, pid) {
          case Some(box) =>
            trackers := trackers[pid := Track(box, 0)];
          case None =>
            trackers := trackers[pid := Track(data.bbox, data.lost + 1)];
            if data.lost + 1 > maxLost {
              gone := gone + [pid];
            }
        }
        forall k | 0 <= k < |pids| && k != i
          ensures pids[k] != pid
        {
          if k < i { DistinctAt(pids, k, i); } else { DistinctAt(pids, i, k); }
        }
        i := i + 1;
      }
      assert pids[..i] == pids;
      forall pid | pid in tracks0
        ensures trackers[pid] == Tick(tracks0[pid], Outcome(updates, pid))
      {
        ElemsMember(pids, pid);
      }
    }

    /** Log the exit of every id in `gone` at `now` and delete its tracker, in order. */
    method RemoveLost(gone: seq<int>, now: int)
      requires Lockstep()
      modifies this`trackers, this`trackOrder, logger
      ensures Lockstep()
      ensures State() == EvictPhase(old(State()), gone, now)
    {
      ghost var s := State();
      var j := 0;
      while j < |gone|
        invariant 0 <= j <= |gone|
        invariant Lockstep()
        invariant State() == EvictPhase(s, gone[..j], now)
      {
        var pid := gone[j];
        if pid !in logger.active {
          ElemsMember(trackOrder, pid);
        }
        logger.PersonExited(pid, now);
        trackers := trackers - {pid};
        trackOrder := Remove(trackOrder, pid);
        assert gone[..j + 1][..j] == gone[..j];
        j := j + 1;
      }
      assert gone[..j] == gone;
    }

    /**
     * One detected box: unless a live tracker overlaps it, give it the next
     * id, a tracker and an open visit starting at `now`.
     */
    method AdmitOne(box: Box, now: int)
      requires Lockstep()
      modifies this`trackers, this`trackOrder, this`nextId, logger
      ensures Lockstep()
      ensures State() == Admit(old(State()), box, iouThresh, now)
    {
      var hit := Overlaps(box);
      if !hit {
        var pid := nextId;
        if pid !in trackers {
          trackOrder := trackOrder + [pid];
        }
        trackers := trackers[pid := Track(box, 0)];
        logger.PersonEntered(pid, now);
        nextId := nextId + 1;
      }
    }

    /**
     * Give every detected box that no live tracker overlaps the next id, a
     * tracker and an open visit starting at `now`, in order.
     */
    method DetectNew(detections: seq<Box>, now: int)
      requires Lockstep()
      modifies this`trackers, this`trackOrder, this`nextId, logger
      ensures Lockstep()
      ensures State() == DetectPhase(old(State()), detections, iouThresh, now)
    {
      ghost var s := State();
      var k := 0;
      while k < |detections|
        invariant 0 <= k <= |detections|
        invariant Lockstep()
        invariant State() == DetectPhase(s, detections[..k], iouThresh, now)
      {
        AdmitOne(detections[k], now);
        assert detections[..k + 1][..k] == detections[..k];
        k := k + 1;
      }
      assert detections[..k] == detections;
    }

    /**
     * One frame at clock reading `now`: `updates` holds what each tracker's
     * update reported (a missing id failed) and `detections` the boxes the
     * detector returns, consulted on detection frames only.
     */
    method Step(updates: map<int, Option<Box>>, detections: seq<Box>, now: int)
      requires Valid() && clock <= now
      modifies this, logger
      ensures Valid() && clock == now
      ensures frameIdx == old(frameIdx) + 1
      ensures State() == FrameStep(old(State()), updates, detections, now, Settings(), old(frameIdx))
    {
      FrameStepConsistent(State(), updates, detections, clock, now, Settings(), frameIdx);
      var gone := TrackExisting(updates);
      RemoveLost(gone, now);
      if frameIdx % detectInterval == 0 {
        DetectNew(detections, now);
      }
      frameIdx := frameIdx + 1;
      clock := now;
    }

    /**
     * The cleanup after the frame loop: close every open visit (one clock
     * reading per open visit, read one after another and none earlier than
     * the last frame) and report. Afterwards every id ever handed out has
     * exactly one record, every record ends no earlier than it began, the
     * records are in exit order, and the report says "no
     * visitors" exactly when no id was ever handed out.
     */
    method Shutdown(stamps: seq<int>) returns (summary: Summary)
      requires Valid()
      requires |stamps| == |logger.order|
      requires forall k :: 0 <= k < |stamps| ==> clock <= stamps[k]
      requires NonDecreasing(stamps)
      modifies logger
      ensures logger.active == map[] && logger.order == []
      ensures logger.records == old(logger.records) + CloseOut(old(logger.order), old(logger.active), stamps)
      ensures AccountedFor(map[], logger.records, nextId)
      ensures Chronological(map[], logger.records, clock)
      ensures |logger.records| == nextId
      ensures ExitsOrdered(logger.records, Latest(clock, stamps))
      ensures summary == Summarize(logger.records, Stay)
      ensures summary.NoVisitors? <==> nextId == 0
      ensures summary.Average? ==> summary.count == nextId && summary.mean >= 0.0
    {
      FinalReport(logger.active, logger.records, nextId, logger.order, stamps, clock);
      CloseOutOrdered(logger.active, logger.records, clock, logger.order, stamps);
      logger.FinalizeOpenVisits(stamps);
      summary := Summarize(logger.records, Stay);
    }
  }
}
