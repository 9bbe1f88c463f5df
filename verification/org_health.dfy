/** scripts/org_health_check.py: the 0-100 org health score and its bands. */
module OrgHealth {
  import opened Wrappers
  import opened Strings

  /** One entry of the org's limit list; each field may be missing. */
  datatype LimitEntry = LimitEntry(name: Option<string>, max: Option<int>, remaining: Option<int>)

  /** The `summary` of the test run: org-wide coverage (already read as a percentage) and the
      number of failing tests, each possibly missing. */
  datatype TestSummary = TestSummary(coverage: Option<real>, failing: Option<int>)

  /** A non-empty test-results dict, with or without its `summary`. An empty or absent dict is `None`
      at the call site. */
  datatype TestResults = TestResults(summary: Option<TestSummary>)

  /** A non-empty metadata-count dict. */
  datatype MetadataCounts = MetadataCounts(apexClass: Option<int>, apexTrigger: Option<int>)

  /** The issues the score reports, one per deduction. */
  datatype HealthIssue =
    | ApiCritical(pct: real)
    | ApiHigh(pct: real)
    | StorageCritical(pct: real)
    | StorageHigh(pct: real)
    | CoverageBelow75(coverage: real)
    | CoverageLow(coverage: real)
    | TestsFailing(failures: int)
    | HighApexClassCount(count: int)
    | HighTriggerCount(count: int)

  const ApiLimitName: string := "DailyApiRequests"
  const StorageLimitName: string := "DataStorageMB"
  const StartScore: int := 100

  /** The points an issue costs. */
  function Deduction(issue: HealthIssue): int {
    match issue
    case ApiCritical(_) => 20
    case ApiHigh(_) => 10
    case StorageCritical(_) => 15
    case StorageHigh(_) => 7
    case CoverageBelow75(_) => 30
    case CoverageLow(_) => 15
    case TestsFailing(n) => if n * 5 < 15 then n * 5 else 15
    case HighApexClassCount(_) => 10
    case HighTriggerCount(_) => 5
  }

  /** Every issue the score can raise costs a positive number of points. */
  predicate Raisable(issue: HealthIssue) {
    issue.TestsFailing? ==> issue.failures > 0
  }

  /** Total points deducted for a list of issues. */
  function TotalDeduction(issues: seq<HealthIssue>): int
    decreases |issues|
  {
    if |issues| == 0 then 0 else TotalDeduction(issues[..|issues| - 1]) + Deduction(issues[|issues| - 1])
  }

  lemma {:induction false} TotalDeductionPositive(issues: seq<HealthIssue>)
    requires forall x :: x in issues ==> Raisable(x)
    ensures TotalDeduction(issues) >= 5 * |issues|
    decreases |issues|
  {
    if |issues| > 0 {
      TotalDeductionPositive(issues[..|issues| - 1]);
      assert issues[|issues| - 1] in issues;
    }
  }

  lemma {:induction false} TotalDeductionAppend(a: seq<HealthIssue>, b: seq<HealthIssue>)
    ensures TotalDeduction(a + b) == TotalDeduction(a) + TotalDeduction(b)
    decreases |b|
  {
    if |b| == 0 {
      assert a + b == a;
    } else {
      assert (a + b)[..|a + b| - 1] == a + b[..|b| - 1];
      TotalDeductionAppend(a, b[..|b| - 1]);
    }
  }

  /** `((max_val - remaining) / max_val) * 100`, with `max` defaulting to 1 and `remaining` to max;
      a maximum of 0 is a division by zero. */
  function UsedPct(e: LimitEntry): (r: Result<real, string>)
    ensures r.Failure? <==> e.max.GetOr(1) == 0
    ensures r.Success? && e.remaining.None? ==> r.value == 0.0
  {
    var max := e.max.GetOr(1);
    var remaining := e.remaining.GetOr(max);
    if max == 0 then Failure("division by zero")
    else Success(((max - remaining) as real / max as real) * 100.0)
  }

  /** Issues for one band check: strictly above 90, else strictly above 75. */
  function BandIssue(pct: real, critical: HealthIssue, high: HealthIssue): (r: seq<HealthIssue>)
    ensures pct > 90.0 ==> r == [critical]
    ensures 75.0 < pct <= 90.0 ==> r == [high]
    ensures pct <= 75.0 <==> r == []
  {
    if pct > 90.0 then [critical] else if pct > 75.0 then [high] else []
  }

  /** The issues one limit entry raises: the API check, then the storage check. */
  function LimitIssues(e: LimitEntry): (r: Result<seq<HealthIssue>, string>)
    ensures r.Failure? <==> e.max.GetOr(1) == 0
                            && (Contains(e.name.GetOr(""), ApiLimitName) || Contains(e.name.GetOr(""), StorageLimitName))
    ensures r.Success? ==> |r.value| <= 2
    ensures r.Success? && !Contains(e.name.GetOr(""), ApiLimitName) && !Contains(e.name.GetOr(""), StorageLimitName)
            ==> r.value == []
    ensures r.Success? ==> forall x :: x in r.value ==>
              || ((x.ApiCritical? || x.ApiHigh?) && Contains(e.name.GetOr(""), ApiLimitName))
              || ((x.StorageCritical? || x.StorageHigh?) && Contains(e.name.GetOr(""), StorageLimitName))
    ensures r.Success? && |r.value| > 0 ==> UsedPct(e).Success? && forall x :: x in r.value ==> x.pct == UsedPct(e).value
    ensures r.Success? && Contains(e.name.GetOr(""), ApiLimitName) ==>
              && UsedPct(e).Success?
              && (ApiCritical(UsedPct(e).value) in r.value <==> UsedPct(e).value > 90.0)
              && (ApiHigh(UsedPct(e).value) in r.value <==> 75.0 < UsedPct(e).value <= 90.0)
    ensures r.Success? && Contains(e.name.GetOr(""), StorageLimitName) ==>
              && UsedPct(e).Success?
              && (StorageCritical(UsedPct(e).value) in r.value <==> UsedPct(e).value > 90.0)
              && (StorageHigh(UsedPct(e).value) in r.value <==> 75.0 < UsedPct(e).value <= 90.0)
    ensures r.Success? ==> |r.value| == (if Contains(e.name.GetOr(""), ApiLimitName) && UsedPct(e).Success? && UsedPct(e).value > 75.0 then 1 else 0)
                                        + (if Contains(e.name.GetOr(""), StorageLimitName) && UsedPct(e).Success? && UsedPct(e).value > 75.0 then 1 else 0)
    ensures r.Success? && |r.value| == 2 ==> (r.value[0].ApiCritical? || r.value[0].ApiHigh?)
                                             && (r.value[1].StorageCritical? || r.value[1].StorageHigh?)
  {
    var name := e.name.GetOr("");
    var api :- if Contains(name, ApiLimitName) then
      var pct :- UsedPct(e);
      Success(BandIssue(pct, ApiCritical(pct), ApiHigh(pct)))
    else Success([]);
    var storage :- if Contains(name, StorageLimitName) then
      var pct :- UsedPct(e);
      Success(BandIssue(pct, StorageCritical(pct), StorageHigh(pct)))
    else Success([]);
    Success(api + storage)
  }

  /** The coverage and failing-test issues of a non-empty test-results dict. */
  function TestIssues(t: TestResults): (r: seq<HealthIssue>)
    ensures |r| <= 2
    ensures forall x :: x in r ==> Raisable(x)
    ensures CoverageBelow75(Coverage(t)) in r <==> Coverage(t) < 75.0
    ensures CoverageLow(Coverage(t)) in r <==> 75.0 <= Coverage(t) < 80.0
    ensures TestsFailing(Failing(t)) in r <==> Failing(t) > 0
    ensures forall x :: x in r ==> x == CoverageBelow75(Coverage(t)) || x == CoverageLow(Coverage(t)) || x == TestsFailing(Failing(t))
    ensures |r| == (if Coverage(t) < 80.0 then 1 else 0) + (if Failing(t) > 0 then 1 else 0)
    ensures Failing(t) > 0 ==> r[|r| - 1] == TestsFailing(Failing(t))
  {
    var coverage := Coverage(t);
    var failures := Failing(t);
    var cov := if coverage < 75.0 then [CoverageBelow75(coverage)]
               else if coverage < 80.0 then [CoverageLow(coverage)]
               else [];
    cov + (if failures > 0 then [TestsFailing(failures)] else [])
  }

  /** `summary.get('orgWideCoverage', '0%')`, read as a number. */
  function Coverage(t: TestResults): real {
    t.summary.GetOr(TestSummary(None, None)).coverage.GetOr(0.0)
  }

  /** `summary.get('failing', 0)` */
  function Failing(t: TestResults): int {
    t.summary.GetOr(TestSummary(None, None)).failing.GetOr(0)
  }

  /** The class-count issue, then the trigger-count issue, each only above its threshold. */
  function MetadataIssues(m: MetadataCounts): (r: seq<HealthIssue>)
    ensures |r| <= 2
    ensures HighApexClassCount(m.apexClass.GetOr(0)) in r <==> m.apexClass.GetOr(0) > 1000
    ensures HighTriggerCount(m.apexTrigger.GetOr(0)) in r <==> m.apexTrigger.GetOr(0) > 100
    ensures forall x :: x in r ==> x == HighApexClassCount(m.apexClass.GetOr(0)) || x == HighTriggerCount(m.apexTrigger.GetOr(0))
    ensures |r| == (if m.apexClass.GetOr(0) > 1000 then 1 else 0) + (if m.apexTrigger.GetOr(0) > 100 then 1 else 0)
    ensures m.apexClass.GetOr(0) > 1000 ==> r[0] == HighApexClassCount(m.apexClass.GetOr(0))
  {
    var apex := m.apexClass.GetOr(0);
    var triggers := m.apexTrigger.GetOr(0);
    (if apex > 1000 then [HighApexClassCount(apex)] else [])
      + (if triggers > 100 then [HighTriggerCount(triggers)] else [])
  }

  /** Reference definition: the issues of all limits, in order; the first failing limit fails. */
  function AllLimitIssues(limits: seq<LimitEntry>): (r: Result<seq<HealthIssue>, string>)
    ensures r.Failure? <==> exists e :: e in limits && LimitIssues(e).Failure?
    decreases |limits|
  {
    if |limits| == 0 then Success([])
    else
      var prefix := limits[..|limits| - 1];
      var last := limits[|limits| - 1];
      assert forall e :: e in limits <==> e in prefix || e == last;
      var before :- AllLimitIssues(prefix);
      var here :- LimitIssues(last);
      Success(before + here)
  }

  /** Reference definition of the issue list `calculate_health_score` builds. */
  function HealthIssues(limits: seq<LimitEntry>, tests: Option<TestResults>, counts: Option<MetadataCounts>)
    : (r: Result<seq<HealthIssue>, string>)
  {
    var fromLimits :- AllLimitIssues(limits);
    var fromTests := if tests.Some? then TestIssues(tests.value) else [];
    var fromCounts := if counts.Some? then MetadataIssues(counts.value) else [];
    Success(fromLimits + fromTests + fromCounts)
  }

  /** No limits, no test results and no metadata counts: nothing is deducted. */
  lemma NoInputNoIssue()
    ensures HealthIssues([], None, None) == Success([])
  {
    assert AllLimitIssues([]) == Success([]);
    var none: seq<HealthIssue> := [];
    assert none + none + none == none;
  }

  /** A non-empty test-results dict without a summary reads coverage "0%": it costs 30 points. */
  lemma MissingSummaryCostsCoverage()
    ensures HealthIssues([], Some(TestResults(None)), None) == Success([CoverageBelow75(0.0)])
  {
    assert AllLimitIssues([]) == Success([]);
    assert TestIssues(TestResults(None)) == [CoverageBelow75(0.0)];
    var none: seq<HealthIssue> := [];
    assert none + [CoverageBelow75(0.0)] + none == [CoverageBelow75(0.0)];
  }

  /** `calculate_health_score(limits, test_results, metadata_counts)`: start at 100, deduct per
      issue, clamp at 0. */
  method CalculateHealthScore(limits: seq<LimitEntry>, tests: Option<TestResults>, counts: Option<MetadataCounts>)
    returns (r: Result<(int, seq<HealthIssue>), string>)
    ensures r.Failure? <==> HealthIssues(limits, tests, counts).Failure?
    ensures r.Success? ==> r.value.1 == HealthIssues(limits, tests, counts).value
    ensures r.Success? ==> 0 <= r.value.0 <= StartScore
    ensures r.Success? ==> r.value.0 == (if StartScore - TotalDeduction(r.value.1) < 0 then 0
                                        else StartScore - TotalDeduction(r.value.1))
  {
    var score := StartScore;
    var issues: seq<HealthIssue> := [];
    var i := 0;
    while i < |limits|
      invariant i <= |limits|
      invariant AllLimitIssues(limits[..i]) == Success(issues)
      invariant score == StartScore - TotalDeduction(issues)
    {
      var here := LimitIssues(limits[i]);
      if here.Failure? {
        LimitFails(limits, i);
        return Failure(here.error);
      }
      LimitAppends(limits, i, issues, here.value);
      TotalDeductionAppend(issues, here.value);
      score := score - TotalDeduction(here.value);
      issues := issues + here.value;
      i := i + 1;
    }
    assert limits[..i] == limits;
    var rest := (if tests.Some? then TestIssues(tests.value) else [])
                + (if counts.Some? then MetadataIssues(counts.value) else []);
    OtherIssues(limits, tests, counts, issues);
    TotalDeductionAppend(issues, rest);
    score := score - TotalDeduction(rest);
    issues := issues + rest;
    r := Success((if score < 0 then 0 else score, issues));
  }

  /** A failing limit fails the whole list. */
  lemma LimitFails(limits: seq<LimitEntry>, i: nat)
    requires i < |limits| && LimitIssues(limits[i]).Failure?
    ensures AllLimitIssues(limits).Failure?
  {
    assert limits[i] in limits;
  }

  /** One more successful limit appends its issues. */
  lemma LimitAppends(limits: seq<LimitEntry>, i: nat, issues: seq<HealthIssue>, here: seq<HealthIssue>)
    requires i < |limits|
    requires AllLimitIssues(limits[..i]) == Success(issues)
    requires LimitIssues(limits[i]) == Success(here)
    ensures AllLimitIssues(limits[..i + 1]) == Success(issues + here)
  {
    var next := limits[..i + 1];
    assert next[..|next| - 1] == limits[..i];
    assert next[|next| - 1] == limits[i];
  }

  /** The test and metadata issues follow the limit issues, and every issue costs points. */
  lemma OtherIssues(limits: seq<LimitEntry>, tests: Option<TestResults>, counts: Option<MetadataCounts>,
                    issues: seq<HealthIssue>)
    requires AllLimitIssues(limits) == Success(issues)
    ensures var rest := (if tests.Some? then TestIssues(tests.value) else [])
                        + (if counts.Some? then MetadataIssues(counts.value) else []);
            HealthIssues(limits, tests, counts) == Success(issues + rest)
            && TotalDeduction(issues + rest) >= 0
  {
    var rest := (if tests.Some? then TestIssues(tests.value) else [])
                + (if counts.Some? then MetadataIssues(counts.value) else []);
    AllIssuesRaisable(limits, issues);
    assert issues + rest == issues + (if tests.Some? then TestIssues(tests.value) else [])
                            + (if counts.Some? then MetadataIssues(counts.value) else []);
    assert forall x :: x in issues + rest ==> Raisable(x);
    TotalDeductionPositive(issues + rest);
  }

  lemma {:induction false} AllIssuesRaisable(limits: seq<LimitEntry>, issues: seq<HealthIssue>)
    requires AllLimitIssues(limits) == Success(issues)
    ensures forall x :: x in issues ==> Raisable(x)
    decreases |limits|
  {
    if |limits| > 0 {
      var prefix := limits[..|limits| - 1];
      var before := AllLimitIssues(prefix).value;
      AllIssuesRaisable(prefix, before);
    }
  }

  datatype Band = Excellent | Good | Fair | Poor

  /** The position of a band from best (0) to worst (3). */
  function BandRank(b: Band): nat {
    match b
    case Excellent => 0
    case Good => 1
    case Fair => 2
    case Poor => 3
  }

  /** The status line of `format_report`. */
  function HealthBand(score: int): (b: Band)
    ensures b == Excellent <==> score >= 90
    ensures b == Good <==> 75 <= score < 90
    ensures b == Fair <==> 60 <= score < 75
    ensures b == Poor <==> score < 60
  {
    if score >= 90 then Excellent
    else if score >= 75 then Good
    else if score >= 60 then Fair
    else Poor
  }

  /** The band only improves as the score rises. */
  lemma BandMonotone(s: int, t: int)
    requires s <= t
    ensures HealthBand(t) == Excellent || HealthBand(s) != Excellent
    ensures HealthBand(s) == Poor || HealthBand(t) != Poor
    ensures BandRank(HealthBand(t)) <= BandRank(HealthBand(s))
  {
  }
}
