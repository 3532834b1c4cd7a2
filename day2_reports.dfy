/** Day 2: safety of reactor reports. A report is a list of levels; it is
    safe when the levels move steadily in one direction by 1 to 3 per step.
    The reports are taken already parsed; reading the file is not modelled. */
module Reports {
  import opened Numbers

  /** `[report[x+1] - report[x] for x in range(len(report)-1)]`. */
  function Differences(report: seq<int>): (d: seq<int>)
    ensures |d| == if |report| == 0 then 0 else |report| - 1
    ensures forall i :: 0 <= i < |d| ==> d[i] == report[i + 1] - report[i]
  {
    if |report| == 0 then []
    else seq(|report| - 1, i requires 0 <= i < |report| - 1 => report[i + 1] - report[i])
  }

  /** `{report_diff > 0 for report_diff in report_diffs}`. */
  function Signs(d: seq<int>): set<bool> {
    set i | 0 <= i < |d| :: d[i] > 0
  }

  /** `is_report_safe(report)` without tolerance: every difference is 1 to 3
      in size and the set of their signs has exactly one member. */
  predicate PureSafe(report: seq<int>) {
    var d := Differences(report);
    (forall i :: 0 <= i < |d| ==> 1 <= Abs(d[i]) <= 3) && |Signs(d)| == 1
  }

  /** Every step of the report is 1 to 3 levels in size. */
  predicate GentleSteps(report: seq<int>) {
    forall i :: 0 <= i < |report| - 1 ==> 1 <= Abs(report[i + 1] - report[i]) <= 3
  }

  predicate Increasing(report: seq<int>) {
    forall i :: 0 <= i < |report| - 1 ==> report[i] < report[i + 1]
  }

  predicate Decreasing(report: seq<int>) {
    forall i :: 0 <= i < |report| - 1 ==> report[i] > report[i + 1]
  }

  /** The sign set has exactly one member when there is at least one
      difference and the differences are all positive or all non-positive. */
  lemma SignsSingleton(d: seq<int>)
    ensures |Signs(d)| == 1 <==>
      |d| > 0 && ((forall i :: 0 <= i < |d| ==> d[i] > 0) || (forall i :: 0 <= i < |d| ==> d[i] <= 0))
  {
    if |d| == 0 {
      assert Signs(d) == {};
    } else if forall i :: 0 <= i < |d| ==> d[i] > 0 {
      assert d[0] > 0;
      assert Signs(d) == {true};
    } else if forall i :: 0 <= i < |d| ==> d[i] <= 0 {
      assert d[0] <= 0;
      assert Signs(d) == {false};
    } else {
      var i :| 0 <= i < |d| && d[i] <= 0;
      var j :| 0 <= j < |d| && d[j] > 0;
      assert false in Signs(d) && true in Signs(d);
      assert Signs(d) == {true, false};
    }
  }

  /** A report is safe exactly when it has at least two levels, every step is
      1 to 3 in size, and the levels all rise or all fall. A report with fewer
      than two levels has no differences, so its sign set is empty and it is
      unsafe. */
  lemma PureSafeCharacterization(report: seq<int>)
    ensures PureSafe(report) <==>
      |report| >= 2 && GentleSteps(report) && (Increasing(report) || Decreasing(report))
  {
    var d := Differences(report);
    SignsSingleton(d);
    DifferencesSteps(report);
    if GentleSteps(report) {
      DifferencesDirection(report);
    }
  }

  /** The steps of a report are its differences. */
  lemma DifferencesSteps(report: seq<int>)
    ensures var d := Differences(report);
      && (GentleSteps(report) <==> forall i :: 0 <= i < |d| ==> 1 <= Abs(d[i]) <= 3)
      && (Increasing(report) <==> forall i :: 0 <= i < |d| ==> d[i] > 0)
  {
    var d := Differences(report);
    assert |d| == |report| - 1 || |report| == |d| == 0;
    if GentleSteps(report) {
      forall i | 0 <= i < |d| ensures 1 <= Abs(d[i]) <= 3 {
        assert 1 <= Abs(report[i + 1] - report[i]) <= 3;
      }
    }
    if forall i :: 0 <= i < |d| ==> 1 <= Abs(d[i]) <= 3 {
      forall i | 0 <= i < |report| - 1 ensures 1 <= Abs(report[i + 1] - report[i]) <= 3 {
        assert 1 <= Abs(d[i]) <= 3;
      }
    }
    if Increasing(report) {
      forall i | 0 <= i < |d| ensures d[i] > 0 {
        assert report[i] < report[i + 1];
      }
    }
    if forall i :: 0 <= i < |d| ==> d[i] > 0 {
      forall i | 0 <= i < |report| - 1 ensures report[i] < report[i + 1] {
        assert d[i] > 0;
      }
    }
  }

  /** Among gentle steps, a non-positive difference is a fall. */
  lemma DifferencesDirection(report: seq<int>)
    requires GentleSteps(report)
    ensures var d := Differences(report);
      Decreasing(report) <==> forall i :: 0 <= i < |d| ==> d[i] <= 0
  {
    var d := Differences(report);
    forall i | 0 <= i < |d| ensures (d[i] <= 0) == (report[i] > report[i + 1]) {
      assert 1 <= Abs(report[i + 1] - report[i]);
    }
  }

  /** `report.copy()` followed by `del report_copy[i]`. */
  function Without(report: seq<int>, i: nat): (r: seq<int>)
    requires i < |report|
    ensures |r| == |report| - 1
  {
    report[..i] + report[i + 1..]
  }

  /** Removing level `i` keeps the levels before it in place and moves those
      after it down by one. */
  lemma WithoutLevels(report: seq<int>, i: nat)
    requires i < |report|
    ensures var r := Without(report, i);
      forall k :: 0 <= k < |r| ==> r[k] == if k < i then report[k] else report[k + 1]
  {
  }

  /** Specification of the tolerant check: safe as it is, or safe once some
      single level is removed. */
  predicate TolerantSafe(report: seq<int>) {
    PureSafe(report) || exists i :: 0 <= i < |report| && PureSafe(Without(report, i))
  }

  /** What `is_report_safe(report, tolerate_1)` decides. */
  predicate ReportSafe(report: seq<int>, tolerate: bool) {
    if tolerate then TolerantSafe(report) else PureSafe(report)
  }

  /** is_report_safe: the plain check, and in tolerant mode the retry with
      one level removed. */
  method IsReportSafe(report: seq<int>, tolerate: bool) returns (safe: bool)
    ensures safe == ReportSafe(report, tolerate)
    decreases tolerate, 1
  {
    var pureSafe := PureSafe(report);
    if pureSafe {
      return true;
    } else if !tolerate {
      return pureSafe;
    }
    safe := RetryWithoutOneLevel(report);
  }

  /** The tolerant branch of is_report_safe: a loop that deletes each level of
      a copy in turn and re-checks the copy without tolerance, returning as
      soon as one copy is safe. */
  method RetryWithoutOneLevel(report: seq<int>) returns (found: bool)
    ensures found == exists i :: 0 <= i < |report| && PureSafe(Without(report, i))
    decreases true, 0
  {
    var i := 0;
    while i < |report|
      invariant 0 <= i <= |report|
      invariant forall j :: 0 <= j < i ==> !PureSafe(Without(report, j))
    {
      var copy := report;
      copy := copy[..i] + copy[i + 1..];
      assert copy == Without(report, i);
      var copySafe := IsReportSafe(copy, false);
      if copySafe {
        return true;
      }
      i := i + 1;
    }
    return false;
  }

  lemma RemovalMakesSafe(report: seq<int>, i: nat)
    requires i < |report| && PureSafe(Without(report, i))
    ensures ReportSafe(report, true)
  {
  }

  lemma NoRemovalMakesSafe(report: seq<int>)
    requires !PureSafe(report)
    requires forall j :: 0 <= j < |report| ==> !PureSafe(Without(report, j))
    ensures !ReportSafe(report, true)
  {
  }

  /** Any safe report is also safe in tolerant mode. */
  lemma SafeIsTolerantSafe(report: seq<int>)
    requires PureSafe(report)
    ensures ReportSafe(report, true)
  {
  }

  /** Removing the first level of a safe report of three or more levels leaves
      a safe report, so for such reports the tolerant check is exactly "some
      single removal is safe". */
  lemma TolerantIsSomeRemoval(report: seq<int>)
    requires |report| >= 3
    ensures TolerantSafe(report) <==> exists i :: 0 <= i < |report| && PureSafe(Without(report, i))
  {
    if PureSafe(report) {
      PureSafeDropFirst(report);
    }
  }

  lemma PureSafeDropFirst(report: seq<int>)
    requires |report| >= 3 && PureSafe(report)
    ensures PureSafe(Without(report, 0))
  {
    PureSafeCharacterization(report);
    var r := Without(report, 0);
    assert r == report[1..];
    ShapeDropFirst(report);
    PureSafeCharacterization(r);
  }

  lemma ShapeDropFirst(report: seq<int>)
    requires |report| >= 3 && GentleSteps(report) && (Increasing(report) || Decreasing(report))
    ensures GentleSteps(report[1..]) && (Increasing(report[1..]) || Decreasing(report[1..]))
  {
    var r := report[1..];
    assert forall k :: 0 <= k < |r| ==> r[k] == report[k + 1];
  }

  // ---------------------------------------------------------------------
  // calculate_safety_of_reports and calculate_tolerant_safety_of_reports

  /** `[is_report_safe(report, tolerate) for report in reports]`. */
  function Safeties(reports: seq<seq<int>>, tolerate: bool): (r: seq<bool>)
    ensures |r| == |reports|
    ensures forall k :: 0 <= k < |r| ==> r[k] == ReportSafe(reports[k], tolerate)
  {
    if reports == [] then []
    else [ReportSafe(reports[0], tolerate)] + Safeties(reports[1..], tolerate)
  }

  /** `safeties.count(True)`. */
  function CountTrue(s: seq<bool>): nat {
    if s == [] then 0 else (if s[0] then 1 else 0) + CountTrue(s[1..])
  }

  /** The number of safe reports (tolerant or not) among the loaded reports. */
  function SafeReportCount(reports: seq<seq<int>>, tolerate: bool): nat {
    CountTrue(Safeties(reports, tolerate))
  }

  /** The count lies between zero and the number of reports, and tolerance
      never lowers it. */
  lemma {:induction false} SafeReportCountBounds(reports: seq<seq<int>>)
    ensures SafeReportCount(reports, false) <= SafeReportCount(reports, true) <= |reports|
  {
    if reports != [] {
      SafeReportCountBounds(reports[1..]);
      assert Safeties(reports, false)[1..] == Safeties(reports[1..], false);
      assert Safeties(reports, true)[1..] == Safeties(reports[1..], true);
    }
  }

  /** Adding one report raises the count by one exactly when it is safe. */
  lemma SafeReportCountCons(report: seq<int>, reports: seq<seq<int>>, tolerate: bool)
    ensures SafeReportCount([report] + reports, tolerate)
         == (if ReportSafe(report, tolerate) then 1 else 0) + SafeReportCount(reports, tolerate)
  {
    assert ([report] + reports)[1..] == reports;
    assert Safeties([report] + reports, tolerate)[1..] == Safeties(reports, tolerate);
  }
}
