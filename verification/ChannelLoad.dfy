/** The running channel load and its trigger (spectral/spectral_daemon_eacs.c:3-53). */
module ChannelLoad {

  import opened Arithmetic

  /** global_cload_timeout */
  const TIMEOUT: int := 10000000

  /** avg_chan_load before any report */
  const START_AVERAGE: int := 30

  datatype Report = Report(load: int, tstamp: int)

  /** avg_chan_load, num_scan_reports and tstamp_start_higher_load */
  datatype State = State(average: int, count: nat, start: int)

  const INITIAL: State := State(START_AVERAGE, 0, 0)

  // ----- The calls -----

  function Demands(s: State, r: Report): bool {
    r.load > s.average && s.start > 0 && r.tstamp - s.start > TIMEOUT
  }

  /** The average of n reports with one more. */
  function Blend(average: int, n: nat, load: int): int {
    TruncDiv(average * n + load, n + 1)
  }

  function Next(s: State, r: Report): State {
    if Demands(s, r) then s
    else State(
      Blend(s.average, s.count, r.load),
      s.count + 1,
      if r.load <= s.average then 0 else if s.start == 0 then r.tstamp else s.start)
  }

  class Monitor {
    var avgChanLoad: int
    var numScanReports: nat
    var tstampStartHigherLoad: int

    ghost function Now(): State reads this {
      State(avgChanLoad, numScanReports, tstampStartHigherLoad)
    }

    constructor ()
      ensures Now() == INITIAL
    {
      avgChanLoad, numScanReports, tstampStartHigherLoad := START_AVERAGE, 0, 0;
    }

    /** start_eacs_monitor_scan */
    method StartMonitorScan()
      modifies this
      ensures Now() == INITIAL
    {
      avgChanLoad, numScanReports, tstampStartHigherLoad := START_AVERAGE, 0, 0;
    }

    /** is_dynamic_chan_change_reqd */
    method IsDynamicChanChangeReqd(chanLoad: int, tstamp: int) returns (change: bool)
      modifies this
      ensures change == Demands(old(Now()), Report(chanLoad, tstamp))
      ensures Now() == Next(old(Now()), Report(chanLoad, tstamp))
    {
      if chanLoad > avgChanLoad {
        if tstampStartHigherLoad > 0 {
          if tstamp - tstampStartHigherLoad > TIMEOUT {
            return true;
          }
        }
        if tstampStartHigherLoad == 0 {
          tstampStartHigherLoad := tstamp;
        }
      } else {
        tstampStartHigherLoad := 0;
      }
      if avgChanLoad != 0 {
        avgChanLoad := avgChanLoad * numScanReports;
      }
      avgChanLoad := avgChanLoad + chanLoad;
      numScanReports := numScanReports + 1;
      avgChanLoad := TruncDiv(avgChanLoad, numScanReports);
      return false;
    }
  }

  // ----- Whole scans -----

  function After(reports: seq<Report>): State {
    if reports == [] then INITIAL
    else Next(After(reports[..|reports| - 1]), reports[|reports| - 1])
  }

  /** The loads that went into the average: those of the reports without a demand. */
  function Counted(reports: seq<Report>): (loads: seq<int>) {
    if reports == [] then []
    else
      var before, r := reports[..|reports| - 1], reports[|reports| - 1];
      Counted(before) + if Demands(After(before), r) then [] else [r.load]
  }

  function Sum(loads: seq<int>): int {
    if loads == [] then 0 else Sum(loads[..|loads| - 1]) + loads[|loads| - 1]
  }

  predicate Within(loads: seq<int>, lo: int, hi: int) {
    forall i :: 0 <= i < |loads| ==> lo <= loads[i] <= hi
  }

  /** mean - (n-1)/2 <= average <= mean, multiplied by 2n. */
  predicate NearMean(average: int, n: nat, sum: int) {
    2 * sum - n * (n - 1) <= 2 * (average * n) <= 2 * sum
  }

  /** The arithmetic of a step, with p, q, t and u for the products. */
  lemma StepBounds(p: int, q: int, t: int, u: int, n: int, load: int, sum: int)
    requires 2 * sum - t <= 2 * p <= 2 * sum && u == t + 2 * n
    requires q <= p + load < q + n + 1
    ensures 2 * (sum + load) - u <= 2 * q <= 2 * (sum + load)
  {
  }

  lemma Triangle(n: int)
    ensures (n + 1) * (n + 1 - 1) == n * (n - 1) + 2 * n
  {
  }

  lemma NoNegative(a: nat, b: nat)
    ensures a * b >= 0
  {
  }

  /** One truncated step of the average: what it keeps of the sum, and of the range. */
  lemma AverageStep(average: nat, n: nat, load: nat, sum: int)
    requires NearMean(average, n, sum)
    ensures Blend(average, n, load) >= 0
    ensures NearMean(Blend(average, n, load), n + 1, sum + load)
  {
    NoNegative(average, n);
    var p := average * n;
    var next := TruncDiv(p + load, n + 1);
    Triangle(n);
    StepBounds(p, next * (n + 1), n * (n - 1), (n + 1) * (n + 1 - 1), n, load, sum);
  }

  lemma TotalBetween(average: nat, n: nat, load: nat, lo: nat, hi: nat)
    requires lo <= load <= hi && (n > 0 ==> lo <= average <= hi)
    ensures lo * (n + 1) <= average * n + load < (hi + 1) * (n + 1)
  {
    if n > 0 {
      Multiply(lo, average, n);
      Multiply(average, hi, n);
    }
    Distribute(lo, n);
    Distribute(hi, n);
  }

  lemma QuotientBetween(q: int, total: int, b: nat, lo: int, hi: int)
    requires q * b <= total < (q + 1) * b && lo * b <= total < (hi + 1) * b
    ensures lo <= q <= hi
  {
    Divide(lo, q + 1, b);
    Divide(q, hi + 1, b);
  }

  lemma RangeStep(average: nat, n: nat, load: nat, lo: nat, hi: nat)
    requires lo <= load <= hi && (n > 0 ==> lo <= average <= hi)
    ensures lo <= Blend(average, n, load) <= hi
  {
    NoNegative(average, n);
    var total := average * n + load;
    var next := TruncDiv(total, n + 1);
    TotalBetween(average, n, load, lo, hi);
    Distribute(next, n);
    QuotientBetween(next, total, n + 1, lo, hi);
  }

  /** The average lies between mean - (n-1)/2 and mean of n loads, and within their range. */
  predicate Bounded(s: State, loads: seq<int>, lo: int, hi: int) {
    && s.count == |loads| && s.average >= 0
    && NearMean(s.average, s.count, Sum(loads))
    && (s.count > 0 ==> lo <= s.average <= hi)
  }

  lemma BoundsStep(s: State, loads: seq<int>, r: Report, lo: nat, hi: nat)
    requires Bounded(s, loads, lo, hi) && lo <= r.load <= hi && !Demands(s, r)
    ensures Bounded(Next(s, r), loads + [r.load], lo, hi)
  {
    hide Blend, NearMean, Sum, Demands;
    SumAppend(loads, r.load);
    AverageStep(s.average, s.count, r.load, Sum(loads));
    RangeStep(s.average, s.count, r.load, lo, hi);
  }

  lemma WithinParts(loads: seq<int>, load: int, lo: int, hi: int)
    requires Within(loads + [load], lo, hi)
    ensures Within(loads, lo, hi) && lo <= load <= hi
  {
    var all := loads + [load];
    assert all[|loads|] == load;
    assert forall i :: 0 <= i < |loads| ==> all[i] == loads[i];
  }

  /** After n counted reports the average lies between mean - (n-1)/2 and mean, and within the
      range of the counted loads. */
  lemma {:induction false} AverageBounds(reports: seq<Report>, lo: nat, hi: nat)
    requires Within(Counted(reports), lo, hi)
    ensures Bounded(After(reports), Counted(reports), lo, hi)
  {
    if reports == [] {
      return;
    }
    hide Bounded, Within, Next, Demands;
    var before, r := reports[..|reports| - 1], reports[|reports| - 1];
    var s, loads := After(before), Counted(before);
    if Demands(s, r) {
      assert Counted(reports) == loads;
      DemandKeeps(s, r);
      AverageBounds(before, lo, hi);
    } else {
      WithinParts(loads, r.load, lo, hi);
      AverageBounds(before, lo, hi);
      BoundsStep(s, loads, r, lo, hi);
    }
  }

  lemma DemandKeeps(s: State, r: Report)
    requires Demands(s, r)
    ensures Next(s, r) == s
  {
  }

  lemma SumAppend(loads: seq<int>, load: int)
    ensures Sum(loads + [load]) == Sum(loads) + load
  {
    assert (loads + [load])[..|loads|] == loads;
  }

  /** The average with one more load is the integer part of the exact one; before any report the load
      is compared with 30, and the first report replaces that. */
  lemma AverageIs(average: nat, n: nat, load: nat)
    ensures Blend(average, n, load) * (n + 1) <= average * n + load < (Blend(average, n, load) + 1) * (n + 1)
  {
    NoNegative(average, n);
    Distribute(Blend(average, n, load), n);
  }

  lemma FirstReport(r: Report)
    requires r.load >= 0
    ensures High([r], 0) <==> r.load > 30
    ensures !Demands(INITIAL, r) && Next(INITIAL, r).average == r.load
  {
    assert [r][..0] == [];
  }

  // ----- When a change is demanded -----

  /** A report above the average of its moment. */
  predicate High(reports: seq<Report>, j: nat)
    requires j < |reports|
  {
    reports[j].load > After(reports[..j]).average
  }

  /** Where the unbroken run of high reports at the end begins. */
  function StreakStart(reports: seq<Report>): (i: nat)
    ensures i <= |reports|
  {
    if reports == [] || !High(reports, |reports| - 1) then |reports|
    else StreakStart(reports[..|reports| - 1])
  }

  lemma {:induction false} StreakIs(reports: seq<Report>)
    ensures var i := StreakStart(reports);
            && (forall j :: i <= j < |reports| ==> High(reports, j))
            && (i > 0 ==> !High(reports, i - 1))
  {
    if reports != [] && High(reports, |reports| - 1) {
      var before := reports[..|reports| - 1];
      StreakIs(before);
      forall j | 0 <= j < |before| ensures High(before, j) == High(reports, j) {
        assert before[..j] == reports[..j];
      }
    }
  }

  predicate Positive(reports: seq<Report>) {
    forall i :: 0 <= i < |reports| ==> reports[i].tstamp > 0
  }

  /** The start stamp is the one of the first report of the streak, and 0 without a streak. */
  lemma {:induction false} StartIsStreak(reports: seq<Report>)
    requires Positive(reports)
    ensures var i := StreakStart(reports);
            After(reports).start == if i == |reports| then 0 else reports[i].tstamp
  {
    if reports != [] {
      var before := reports[..|reports| - 1];
      StartIsStreak(before);
    }
  }

  /** A change is demanded exactly when the report is high, and so was every one before it since a
      report more than the timeout earlier; the span counts from the first of the streak. */
  lemma DemandedExactlyWhen(reports: seq<Report>, r: Report)
    requires Positive(reports)
    ensures Demands(After(reports), r) <==>
            var i, all := StreakStart(reports + [r]), reports + [r];
            i < |all| && r.tstamp - all[i].tstamp > 10_000_000
  {
    var all := reports + [r];
    assert all[..|reports|] == reports;
    StartIsStreak(reports);
  }

  /** In time order it is enough that some high streak, not only the longest, spans the timeout. */
  lemma DemandedByAnyStreak(reports: seq<Report>, r: Report)
    requires Positive(reports)
    requires forall i, j :: 0 <= i <= j < |reports| ==> reports[i].tstamp <= reports[j].tstamp
    ensures Demands(After(reports), r) <==>
            exists i :: 0 <= i <= |reports| && r.tstamp - (reports + [r])[i].tstamp > 10_000_000
                        && forall j :: i <= j <= |reports| ==> High(reports + [r], j)
  {
    hide Demands, After, StreakStart, High;
    var all := reports + [r];
    DemandedExactlyWhen(reports, r);
    StreakIs(all);
    if i :| 0 <= i <= |reports| && r.tstamp - all[i].tstamp > TIMEOUT
            && forall j :: i <= j <= |reports| ==> High(all, j)
    {
      assert StreakStart(all) <= i;
    }
  }
}
