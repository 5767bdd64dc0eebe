/**
 * The visit ledger (`VisitLogger` in PeopleDetection.py and CreateGraph.py):
 * an insertion-ordered map of open visits, id to entry time, and an
 * append-only list of completed visits.
 *
 * Timestamps are integers read from an explicit clock argument instead of
 * `datetime.now()`.
 */
module Ledger {

  /** A completed visit: the identity, when it entered and when it left. */
  datatype Visit = Visit(id: int, entry: int, exit: int)

  /** No id occurs twice. */
  predicate Distinct(s: seq<int>) {
    s == [] || (s[0] !in Elems(s[1..]) && Distinct(s[1..]))
  }

  /** Two positions of a duplicate-free list hold different ids. */
  lemma {:induction false} DistinctAt(s: seq<int>, i: int, j: int)
    requires Distinct(s) && 0 <= i < j < |s|
    ensures s[i] != s[j]
  {
    if i == 0 {
      ElemsMember(s[1..], s[j]);
    } else {
      DistinctAt(s[1..], i - 1, j - 1);
    }
  }

  /** Appending an id that is not listed keeps the list duplicate-free. */
  lemma {:induction false} DistinctAppend(s: seq<int>, x: int)
    requires Distinct(s) && x !in Elems(s)
    ensures Distinct(s + [x])
  {
    if s != [] {
      assert (s + [x])[1..] == s[1..] + [x];
      DistinctAppend(s[1..], x);
      ElemsAppend(s[1..], x);
    }
  }

  /** The set of ids that `s` lists. */
  function Elems(s: seq<int>): set<int> {
    if s == [] then {} else {s[0]} + Elems(s[1..])
  }

  lemma {:induction false} ElemsMember(s: seq<int>, x: int)
    ensures x in Elems(s) <==> x in s
  {
    if s != [] {
      ElemsMember(s[1..], x);
      assert s == [s[0]] + s[1..];
    }
  }

  /** `order` lists exactly the keys of `active`, each once. */
  predicate Lists(order: seq<int>, active: map<int, int>) {
    && Distinct(order)
    && (forall k :: 0 <= k < |order| ==> order[k] in active)
    && (forall pid :: pid in active ==> pid in Elems(order))
  }

  /** `s` without `x`: what deleting a key does to an insertion order. */
  function Remove(s: seq<int>, x: int): (r: seq<int>)
    ensures Elems(r) == Elems(s) - {x}
    ensures x !in Elems(s) ==> r == s
  {
    if s == [] then []
    else
      var rest := Remove(s[1..], x);
      if s[0] == x then rest
      else
        var r := [s[0]] + rest;
        assert r[1..] == rest;
        r
  }

  lemma {:induction false} RemoveDistinct(s: seq<int>, x: int)
    requires Distinct(s)
    ensures Distinct(Remove(s, x))
  {
    if s != [] {
      RemoveDistinct(s[1..], x);
      var rest := Remove(s[1..], x);
      if s[0] != x {
        var r := [s[0]] + rest;
        assert r[0] == s[0] && r[1..] == rest;
        assert s[0] !in Elems(rest);
      }
    }
  }

  /** Deleting a key from both the map and its insertion order keeps them in step. */
  lemma RemoveKeepsLists(order: seq<int>, active: map<int, int>, pid: int)
    requires Lists(order, active)
    ensures Lists(Remove(order, pid), active - {pid})
  {
    var r := Remove(order, pid);
    RemoveDistinct(order, pid);
    forall k | 0 <= k < |r| ensures r[k] in active - {pid} {
      ElemsMember(r, r[k]);
      ElemsMember(order, r[k]);
    }
  }

  /** Deleting the first key of a duplicate-free order leaves the others, in order. */
  lemma RemoveFirst(s: seq<int>)
    requires s != [] && Distinct(s)
    ensures Remove(s, s[0]) == s[1..]
  {
  }

  /**
   * Deleting any key of a duplicate-free order leaves the keys before it
   * and the keys after it, each in their old order.
   */
  lemma {:induction false} RemoveAt(s: seq<int>, k: int)
    requires Distinct(s) && 0 <= k < |s|
    ensures Remove(s, s[k]) == s[..k] + s[k + 1..]
  {
    if k == 0 {
      RemoveFirst(s);
    } else {
      var t := s[1..];
      DistinctAt(s, 0, k);
      assert t[k - 1] == s[k];
      RemoveAt(t, k - 1);
      SpliceAfterFirst(s, k);
    }
  }

  /** Cutting position `k` out of `s` is keeping `s[0]` and cutting `k - 1` out of the rest. */
  lemma SpliceAfterFirst(s: seq<int>, k: int)
    requires 0 < k < |s|
    ensures [s[0]] + (s[1..][..k - 1] + s[1..][k..]) == s[..k] + s[k + 1..]
  {
    assert s[1..][..k - 1] == s[1..k];
    assert s[1..][k..] == s[k + 1..];
  }

  /** Appending a new key to both the map and its insertion order keeps them in step. */
  lemma AppendKeepsLists(order: seq<int>, active: map<int, int>, pid: int, now: int)
    requires Lists(order, active) && pid !in active
    ensures Lists(order + [pid], active[pid := now])
  {
    ElemsMember(order, pid);
    ElemsAppend(order, pid);
    DistinctAppend(order, pid);
  }

  lemma {:induction false} ElemsAppend(s: seq<int>, x: int)
    ensures Elems(s + [x]) == Elems(s) + {x}
  {
    if s != [] {
      assert (s + [x])[1..] == s[1..] + [x];
      ElemsAppend(s[1..], x);
    }
  }

  /**
   * The records that closing the visits `pids`, one after another, appends:
   * the k-th uses the stored entry time of `pids[k]` and the k-th clock reading.
   */
  function CloseOut(pids: seq<int>, active: map<int, int>, stamps: seq<int>): (r: seq<Visit>)
    requires |stamps| == |pids|
    requires forall k :: 0 <= k < |pids| ==> pids[k] in active
    ensures |r| == |pids|
  {
    if pids == [] then []
    else
      var n := |pids| - 1;
      CloseOut(pids[..n], active, stamps[..n]) + [Visit(pids[n], active[pids[n]], stamps[n])]
  }

  /** Closing `pids` yields one record per id, at the same position. */
  lemma {:induction false} CloseOutAt(pids: seq<int>, active: map<int, int>, stamps: seq<int>, k: int)
    requires |stamps| == |pids|
    requires forall k :: 0 <= k < |pids| ==> pids[k] in active
    requires 0 <= k < |pids|
    ensures |CloseOut(pids, active, stamps)| == |pids|
    ensures CloseOut(pids, active, stamps)[k] == Visit(pids[k], active[pids[k]], stamps[k])
  {
    var n := |pids| - 1;
    if k < n {
      CloseOutAt(pids[..n], active, stamps[..n], k);
    }
  }

  /** Closing one more id extends the records of the ids before it by one. */
  lemma CloseOutNext(pids: seq<int>, active: map<int, int>, stamps: seq<int>, i: int)
    requires |stamps| == |pids| && 0 <= i < |pids|
    requires forall k :: 0 <= k < |pids| ==> pids[k] in active
    ensures CloseOut(pids[..i + 1], active, stamps[..i + 1])
      == CloseOut(pids[..i], active, stamps[..i]) + [Visit(pids[i], active[pids[i]], stamps[i])]
  {
    assert pids[..i + 1][..i] == pids[..i];
    assert stamps[..i + 1][..i] == stamps[..i];
  }

  /**
   * Every identity below `n` (the ids handed out so far) is accounted for
   * exactly once: either its visit is still open, or exactly one completed
   * record carries it. No other id appears.
   */
  ghost predicate AccountedFor(active: map<int, int>, records: seq<Visit>, n: int) {
    && (forall i, j :: 0 <= i < j < |records| ==> records[i].id != records[j].id)
    && (forall i :: 0 <= i < |records| ==> 0 <= records[i].id < n && records[i].id !in active)
    && (forall pid :: pid in active ==> 0 <= pid < n)
    && (forall id :: 0 <= id < n && id !in active ==> HasRecord(records, id))
  }

  /** Some completed record carries `id`. */
  ghost predicate HasRecord(records: seq<Visit>, id: int) {
    exists i :: 0 <= i < |records| && records[i].id == id
  }

  /** Entry times are not later than `clock`, and every visit ends no earlier than it began. */
  ghost predicate Chronological(active: map<int, int>, records: seq<Visit>, clock: int) {
    && (forall pid :: pid in active ==> active[pid] <= clock)
    && (forall i :: 0 <= i < |records| ==> records[i].entry <= records[i].exit)
  }

  /**
   * Completed records are in order of exit time, and none exits after
   * `clock`: the list is only ever appended to, at the current reading.
   */
  ghost predicate ExitsOrdered(records: seq<Visit>, clock: int) {
    && (forall i, j :: 0 <= i < j < |records| ==> records[i].exit <= records[j].exit)
    && (forall i :: 0 <= i < |records| ==> records[i].exit <= clock)
  }

  /** Clock readings taken one after another never go back. */
  predicate NonDecreasing(stamps: seq<int>) {
    forall i, j :: 0 <= i < j < |stamps| ==> stamps[i] <= stamps[j]
  }

  /** The latest clock reading once `stamps` have been read after `clock`. */
  function Latest(clock: int, stamps: seq<int>): int {
    if stamps == [] then clock else stamps[|stamps| - 1]
  }

  /** Appending a record that exits at `now`, no earlier than `clock`, keeps the records in exit order. */
  lemma AppendOrdered(records: seq<Visit>, clock: int, v: Visit)
    requires ExitsOrdered(records, clock) && clock <= v.exit
    ensures ExitsOrdered(records + [v], v.exit)
  {
    var r := records + [v];
    forall i, j | 0 <= i < j < |r| ensures r[i].exit <= r[j].exit {
      if j == |records| {
        assert r[i] == records[i];
      } else {
        assert r[i] == records[i] && r[j] == records[j];
      }
    }
  }

  /** Opening a visit for the next unused id `n` keeps every id accounted for. */
  lemma EnterNext(active: map<int, int>, records: seq<Visit>, n: int, now: int)
    requires AccountedFor(active, records, n)
    requires 0 <= n
    ensures n !in active
    ensures AccountedFor(active[n := now], records, n + 1)
  {
    var active' := active[n := now];
    forall i | 0 <= i < |records| ensures 0 <= records[i].id < n + 1 && records[i].id !in active' {
      assert records[i].id < n;
    }
    forall id | 0 <= id < n + 1 && id !in active'
      ensures HasRecord(records, id)
    {
      assert id < n && id !in active;
    }
  }

  /** Closing an open visit moves its id from `active` to exactly one new record. */
  lemma ExitOpen(active: map<int, int>, records: seq<Visit>, n: int, pid: int, now: int)
    requires AccountedFor(active, records, n)
    requires pid in active
    ensures AccountedFor(active - {pid}, records + [Visit(pid, active[pid], now)], n)
  {
    var records' := records + [Visit(pid, active[pid], now)];
    forall id | 0 <= id < n && id !in active - {pid}
      ensures HasRecord(records', id)
    {
      if id == pid {
        assert records'[|records|].id == id;
      } else {
        var i :| 0 <= i < |records| && records[i].id == id;
        assert records'[i].id == id;
      }
    }
  }

  /**
   * Closing every open visit (in the ledger's insertion order) leaves no id
   * open and every id below `n` carried by exactly one record.
   */
  lemma CloseOutAccounts(active: map<int, int>, records: seq<Visit>, n: int, order: seq<int>, stamps: seq<int>)
    requires AccountedFor(active, records, n)
    requires Lists(order, active)
    requires |stamps| == |order|
    ensures AccountedFor(map[], records + CloseOut(order, active, stamps), n)
  {
    var closed := CloseOut(order, active, stamps);
    forall k | 0 <= k < |order|
      ensures closed[k].id == order[k]
    {
      CloseOutAt(order, active, stamps, k);
    }
    ClosedIdsInRange(active, records, n, order, closed);
    ClosedIdsDistinct(active, records, n, order, closed);
    ClosedIdsCover(active, records, n, order, closed);
  }

  lemma ClosedIdsInRange(active: map<int, int>, records: seq<Visit>, n: int, order: seq<int>, closed: seq<Visit>)
    requires AccountedFor(active, records, n)
    requires forall k :: 0 <= k < |order| ==> order[k] in active
    requires |closed| == |order| && forall k :: 0 <= k < |order| ==> closed[k].id == order[k]
    ensures forall i :: 0 <= i < |records + closed| ==> 0 <= (records + closed)[i].id < n
  {
    var records' := records + closed;
    forall i | 0 <= i < |records'| ensures 0 <= records'[i].id < n {
      if i >= |records| {
        assert records'[i].id == order[i - |records|];
      }
    }
  }

  lemma ClosedIdsDistinct(active: map<int, int>, records: seq<Visit>, n: int, order: seq<int>, closed: seq<Visit>)
    requires AccountedFor(active, records, n)
    requires Lists(order, active)
    requires |closed| == |order| && forall k :: 0 <= k < |order| ==> closed[k].id == order[k]
    ensures forall i, j :: 0 <= i < j < |records + closed| ==> (records + closed)[i].id != (records + closed)[j].id
  {
    var records' := records + closed;
    forall i, j | 0 <= i < j < |records'| ensures records'[i].id != records'[j].id {
      if j >= |records| && i < |records| {
        assert records'[j].id == order[j - |records|];
      } else if i >= |records| {
        assert records'[i].id == order[i - |records|];
        assert records'[j].id == order[j - |records|];
        DistinctAt(order, i - |records|, j - |records|);
      }
    }
  }

  lemma ClosedIdsCover(active: map<int, int>, records: seq<Visit>, n: int, order: seq<int>, closed: seq<Visit>)
    requires AccountedFor(active, records, n)
    requires Lists(order, active)
    requires |closed| == |order| && forall k :: 0 <= k < |order| ==> closed[k].id == order[k]
    ensures forall id :: 0 <= id < n ==> HasRecord(records + closed, id)
  {
    var records' := records + closed;
    forall id | 0 <= id < n ensures HasRecord(records', id) {
      if id in active {
        ElemsMember(order, id);
        var k :| 0 <= k < |order| && order[k] == id;
        assert records'[|records| + k].id == id;
      } else {
        assert HasRecord(records, id);
        var i :| 0 <= i < |records| && records[i].id == id;
        assert records'[i].id == id;
      }
    }
  }

  /** With clock readings no earlier than every entry time, closed visits end no earlier than they began. */
  lemma CloseOutChronological(active: map<int, int>, records: seq<Visit>, clock: int, order: seq<int>, stamps: seq<int>)
    requires Chronological(active, records, clock)
    requires forall k :: 0 <= k < |order| ==> order[k] in active
    requires |stamps| == |order|
    requires forall k :: 0 <= k < |stamps| ==> clock <= stamps[k]
    ensures Chronological(map[], records + CloseOut(order, active, stamps), clock)
  {
    var closed := CloseOut(order, active, stamps);
    forall k | 0 <= k < |order| ensures closed[k].entry <= closed[k].exit {
      CloseOutAt(order, active, stamps, k);
    }
  }

  /** The k-th record finalization appends exits at the k-th reading. */
  lemma CloseOutExits(order: seq<int>, active: map<int, int>, stamps: seq<int>)
    requires forall k :: 0 <= k < |order| ==> order[k] in active
    requires |stamps| == |order|
    ensures forall k :: 0 <= k < |order| ==> CloseOut(order, active, stamps)[k].exit == stamps[k]
  {
    forall k | 0 <= k < |order| ensures CloseOut(order, active, stamps)[k].exit == stamps[k] {
      CloseOutAt(order, active, stamps, k);
    }
  }

  /**
   * Closing the open visits with readings taken one after another, none
   * earlier than `clock`, keeps the records in exit order.
   */
  lemma CloseOutOrdered(active: map<int, int>, records: seq<Visit>, clock: int, order: seq<int>, stamps: seq<int>)
    requires ExitsOrdered(records, clock)
    requires forall k :: 0 <= k < |order| ==> order[k] in active
    requires |stamps| == |order|
    requires forall k :: 0 <= k < |stamps| ==> clock <= stamps[k]
    requires NonDecreasing(stamps)
    ensures ExitsOrdered(records + CloseOut(order, active, stamps), Latest(clock, stamps))
  {
    var closed := CloseOut(order, active, stamps);
    CloseOutExits(order, active, stamps);
    var r := records + closed;
    var m := |records|;
    forall i, j | 0 <= i < j < |r| ensures r[i].exit <= r[j].exit {
      if j < m {
        assert r[i] == records[i] && r[j] == records[j];
      } else if i < m {
        assert r[i] == records[i] && r[j] == closed[j - m];
      } else {
        assert r[i] == closed[i - m] && r[j] == closed[j - m];
      }
    }
    forall i | 0 <= i < |r| ensures r[i].exit <= Latest(clock, stamps) {
      if i < m {
        assert r[i] == records[i];
      } else {
        assert r[i] == closed[i - m];
      }
    }
  }

  /** The ids carried by the records. */
  function RecordIds(records: seq<Visit>): set<int> {
    if records == [] then {}
    else RecordIds(records[..|records| - 1]) + {records[|records| - 1].id}
  }

  lemma {:induction false} RecordIdsMember(records: seq<Visit>, id: int)
    ensures id in RecordIds(records) <==> HasRecord(records, id)
  {
    if records != [] {
      var n := |records| - 1;
      RecordIdsMember(records[..n], id);
      if HasRecord(records, id) && id != records[n].id {
        var i :| 0 <= i < |records| && records[i].id == id;
        assert HasRecord(records[..n], id) by { assert records[..n][i].id == id; }
      }
    }
  }

  /** Records with pairwise distinct ids carry as many ids as there are records. */
  lemma {:induction false} DistinctRecordIds(records: seq<Visit>)
    requires forall i, j :: 0 <= i < j < |records| ==> records[i].id != records[j].id
    ensures |RecordIds(records)| == |records|
  {
    if records != [] {
      var n := |records| - 1;
      DistinctRecordIds(records[..n]);
      RecordIdsMember(records[..n], records[n].id);
    }
  }

  /** The ids 0 .. n-1. */
  function IdRange(n: nat): set<int> {
    if n == 0 then {} else IdRange(n - 1) + {n - 1}
  }

  lemma {:induction false} IdRangeSize(n: nat)
    ensures |IdRange(n)| == n
    ensures forall id :: id in IdRange(n) <==> 0 <= id < n
  {
    if n > 0 {
      IdRangeSize(n - 1);
    }
  }

  /**
   * Once no visit is open, every id handed out is closed by exactly one
   * record, so there are exactly as many records as ids handed out.
   */
  lemma OneRecordPerId(records: seq<Visit>, n: nat)
    requires AccountedFor(map[], records, n)
    ensures |records| == n
  {
    IdRangeSize(n);
    forall id ensures id in RecordIds(records) <==> id in IdRange(n) {
      RecordIdsMember(records, id);
      if HasRecord(records, id) {
        var i :| 0 <= i < |records| && records[i].id == id;
      }
    }
    assert RecordIds(records) == IdRange(n);
    DistinctRecordIds(records);
  }

  /**
   * The ledger object. `active` maps each open visit's id to its entry time
   * and `order` lists those ids in insertion order (together, the source's
   * OrderedDict); `records` is the append-only list of completed visits.
   */
  class VisitLogger {
    var active: map<int, int>
    var order: seq<int>
    var records: seq<Visit>

    ghost predicate Valid()
      reads this
    {
      Lists(order, active)
    }

    constructor ()
      ensures Valid()
      ensures active == map[] && order == [] && records == []
    {
      active, order, records := map[], [], [];
    }

    /**
     * Record that `pid` entered at `now`. A new key goes to the end of the
     * insertion order; an existing key keeps its place and gets the new time.
     */
    method PersonEntered(pid: int, now: int)
      requires Valid()
      modifies this
      ensures Valid()
      ensures active == old(active)[pid := now]
      ensures order == if pid in old(active) then old(order) else old(order) + [pid]
      ensures records == old(records)
    {
      if pid !in active {
        AppendKeepsLists(order, active, pid, now);
        order := order + [pid];
      } else {
        assert Lists(order, active[pid := now]);
      }
      active := active[pid := now];
    }

    /**
     * Close the visit of `pid` at `now`: when it is open, drop it from the
     * open visits and append exactly one record with its stored entry time;
     * when it is not, change nothing.
     */
    method PersonExited(pid: int, now: int)
      requires Valid()
      modifies this
      ensures Valid()
      ensures pid !in old(active) ==>
        active == old(active) && order == old(order) && records == old(records)
      ensures pid in old(active) ==>
        && active == old(active) - {pid}
        && order == Remove(old(order), pid)
        && records == old(records) + [Visit(pid, old(active)[pid], now)]
    {
      if pid in active {
        RemoveKeepsLists(order, active, pid);
        var entry := active[pid];
        active := active - {pid};
        order := Remove(order, pid);
        records := records + [Visit(pid, entry, now)];
      }
    }

    /** Close the earliest open visit at `now`. */
    method ExitFirst(now: int)
      requires Valid() && order != []
      modifies this
      ensures Valid()
      ensures active == old(active) - {old(order)[0]}
      ensures order == old(order)[1..]
      ensures records == old(records) + [Visit(old(order)[0], old(active)[old(order)[0]], now)]
    {
      RemoveFirst(order);
      PersonExited(order[0], now);
    }

    /**
     * Close every open visit, in insertion order; the k-th close reads the
     * k-th clock value of `stamps`, and the readings, taken one after
     * another, never go back, so the appended records are in exit order.
     * Afterwards nothing is open, and a second call (with no open visits
     * and no stamps) changes nothing.
     */
    method FinalizeOpenVisits(stamps: seq<int>)
      requires Valid()
      requires |stamps| == |order|
      requires NonDecreasing(stamps)
      modifies this
      ensures Valid()
      ensures active == map[] && order == []
      ensures records == old(records) + CloseOut(old(order), old(active), stamps)
      ensures forall i, j :: |old(records)| <= i < j < |records| ==> records[i].exit <= records[j].exit
      ensures old(order) == [] ==> records == old(records)
    {
      var pids := order;
      ghost var active0 := active;
      var i := 0;
      while i < |pids|
        invariant 0 <= i <= |pids| == |stamps|
        invariant Valid()
        invariant order == pids[i..]
        invariant forall k :: i <= k < |pids| ==> pids[k] in active0 && active[pids[k]] == active0[pids[k]]
        invariant records == old(records) + CloseOut(pids[..i], active0, stamps[..i])
      {
        assert pids[i..][1..] == pids[i + 1..];
        ExitFirst(stamps[i]);
        CloseOutNext(pids, active0, stamps, i);
        i := i + 1;
      }
      assert pids[..i] == pids && stamps[..i] == stamps;
      CloseOutExits(pids, active0, stamps);
      assert forall pid :: pid !in active;
    }
  }
}
