/**
 * The summary at the end of `VisitLogger.print_report`: an explicit
 * "no visitors recorded" outcome for an empty ledger, otherwise the mean
 * stay over all completed visits and the number of visitors.
 *
 * PeopleDetection.py measures each stay with `total_seconds()`; the older
 * CreateGraph.py uses the `.seconds` field of the time difference, which
 * drops whole days. Both are instances of `Summarize` with a different
 * per-visit measure.
 */
module Report {
  import opened Ledger

  /** What the report concludes. */
  datatype Summary = NoVisitors | Average(mean: real, count: nat)

  const SecondsPerDay: int := 86400

  /** Length of a stay in seconds, for a clock that counts whole seconds. */
  function Stay(v: Visit): (r: int)
    ensures r >= 0 <==> v.entry <= v.exit
  {
    v.exit - v.entry
  }

  /**
   * The `.seconds` field of a time difference of whole seconds: its
   * remainder modulo one day (a non-negative number below 86400, also for a
   * negative difference, whose whole days are counted negative).
   */
  function SecondsField(v: Visit): (r: int)
    ensures 0 <= r < SecondsPerDay
    ensures 0 <= Stay(v) < SecondsPerDay ==> r == Stay(v)
    ensures (Stay(v) - r) % SecondsPerDay == 0
  {
    Stay(v) % SecondsPerDay
  }

  /** Sum of `measure` over the records. */
  function Total(records: seq<Visit>, measure: Visit -> int): int {
    if records == [] then 0
    else Total(records[..|records| - 1], measure) + measure(records[|records| - 1])
  }

  /**
   * The report's conclusion: "no visitors" exactly when there are no
   * records (so the mean never divides by zero), otherwise the arithmetic
   * mean of `measure` over all records and their number.
   */
  function Summarize(records: seq<Visit>, measure: Visit -> int): (s: Summary)
    ensures s.NoVisitors? <==> records == []
    ensures s.Average? ==>
      s.count == |records| && s.mean * |records| as real == Total(records, measure) as real
  {
    if records == [] then NoVisitors
    else Average(Total(records, measure) as real / |records| as real, |records|)
  }

  /** A sum of values that are each at least `lo` is at least |records| * lo. */
  lemma {:induction false} TotalAtLeast(records: seq<Visit>, measure: Visit -> int, lo: int)
    requires forall i :: 0 <= i < |records| ==> lo <= measure(records[i])
    ensures |records| * lo <= Total(records, measure)
  {
    if records != [] {
      var n := |records| - 1;
      TotalAtLeast(records[..n], measure, lo);
      assert lo <= measure(records[n]);
    }
  }

  /** A sum of values that are each at most `hi` is at most |records| * hi. */
  lemma {:induction false} TotalAtMost(records: seq<Visit>, measure: Visit -> int, hi: int)
    requires forall i :: 0 <= i < |records| ==> measure(records[i]) <= hi
    ensures Total(records, measure) <= |records| * hi
  {
    if records != [] {
      var n := |records| - 1;
      TotalAtMost(records[..n], measure, hi);
      assert measure(records[n]) <= hi;
    }
  }

  /** The mean stay lies between the shortest and the longest stay. */
  lemma MeanWithinStays(records: seq<Visit>, lo: int, hi: int)
    requires records != []
    requires forall i :: 0 <= i < |records| ==> lo <= Stay(records[i]) <= hi
    ensures Summarize(records, Stay).Average?
    ensures lo as real <= Summarize(records, Stay).mean <= hi as real
  {
    TotalAtLeast(records, Stay, lo);
    TotalAtMost(records, Stay, hi);
    var n := |records| as real;
    var t := Total(records, Stay) as real;
    assert n * lo as real <= t <= n * hi as real;
    DivideBounds(t, n, lo as real, hi as real);
  }

  /** When no visit ends before it began, the mean stay is not negative. */
  lemma MeanNotNegative(records: seq<Visit>)
    requires records != []
    requires forall i :: 0 <= i < |records| ==> records[i].entry <= records[i].exit
    ensures Summarize(records, Stay).mean >= 0.0
  {
    TotalAtLeast(records, Stay, 0);
    DivideBounds(Total(records, Stay) as real, |records| as real, 0.0, Total(records, Stay) as real);
  }

  lemma DivideBounds(t: real, n: real, lo: real, hi: real)
    requires n > 0.0 && n * lo <= t <= n * hi
    ensures lo <= t / n <= hi
  {
  }

  /**
   * Closing every open visit of a consistent ledger leaves every id below
   * `n` with exactly one record and no open visit, so there are `n`
   * records, none ending before it began; the report then says "no
   * visitors" exactly when `n` is 0, and otherwise counts `n` visitors with
   * a mean stay that is not negative.
   */
  lemma FinalReport(active: map<int, int>, records: seq<Visit>, n: int, order: seq<int>, stamps: seq<int>, clock: int)
    requires 0 <= n
    requires AccountedFor(active, records, n) && Lists(order, active) && Chronological(active, records, clock)
    requires |stamps| == |order| && forall k :: 0 <= k < |stamps| ==> clock <= stamps[k]
    ensures var closed := records + CloseOut(order, active, stamps);
      && AccountedFor(map[], closed, n)
      && Chronological(map[], closed, clock)
      && |closed| == n
      && (Summarize(closed, Stay).NoVisitors? <==> n == 0)
      && (Summarize(closed, Stay).Average? ==> Summarize(closed, Stay).count == n && Summarize(closed, Stay).mean >= 0.0)
  {
    var closed := records + CloseOut(order, active, stamps);
    CloseOutAccounts(active, records, n, order, stamps);
    CloseOutChronological(active, records, clock, order, stamps);
    OneRecordPerId(closed, n);
    if closed != [] {
      MeanNotNegative(closed);
    }
  }

  /** For stays shorter than a day and not negative, `.seconds` and `total_seconds()` agree. */
  lemma {:induction false} SecondsFieldWithinADay(records: seq<Visit>)
    requires forall i :: 0 <= i < |records| ==> 0 <= Stay(records[i]) < SecondsPerDay
    ensures Total(records, SecondsField) == Total(records, Stay)
    ensures Summarize(records, SecondsField) == Summarize(records, Stay)
  {
    if records != [] {
      var n := |records| - 1;
      SecondsFieldWithinADay(records[..n]);
      assert SecondsField(records[n]) == Stay(records[n]);
    }
  }

  /**
   * A single visit of exactly one day: the CreateGraph.py report averages
   * 0 seconds, where the stay lasted 86400 seconds.
   */
  lemma SecondsFieldDropsWholeDays()
    ensures Summarize([Visit(0, 0, SecondsPerDay)], SecondsField) == Average(0.0, 1)
    ensures Summarize([Visit(0, 0, SecondsPerDay)], Stay) == Average(86400.0, 1)
  {
    var rs := [Visit(0, 0, SecondsPerDay)];
    assert rs[..0] == [];
    assert Total(rs, SecondsField) == 0;
    assert Total(rs, Stay) == 86400;
  }
}
