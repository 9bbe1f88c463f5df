/** scripts/run_tests.py: the outcome, per-test and coverage marks of the markdown report, the
    failure list, the coverage rows, and the exit status of `main`. */
module RunTests {
  import opened Wrappers
  import opened Ratios

  /** The three marks the report prints: a check, a warning sign, a cross. */
  datatype Mark = Check | Warn | Cross

  /** One entry of the `tests` list; each key may be missing. */
  datatype TestRecord = TestRecord(methodName: Option<string>, outcome: Option<string>, runTime: Option<int>,
                                   message: Option<string>, stackTrace: Option<string>)

  /** One entry of the `codecoverage` list. */
  datatype CoverageEntry = CoverageEntry(name: Option<string>, covered: Option<int>, uncovered: Option<int>)

  /** The decoded `sf apex test run` response. `runCoverage` is the already-parsed
      `testRunCoverage` percentage, `None` for "N/A". */
  datatype Response = Response(status: Option<int>, outcome: Option<string>, runCoverage: Option<real>,
                               tests: seq<TestRecord>, coverage: seq<CoverageEntry>)

  const UnknownText: string := "Unknown"

  /** The mark of an outcome that may be missing: a check for the passing word, a cross for the
      failing word, a warning sign for anything else, "Unknown" included. */
  function Marked(outcome: Option<string>, pass: string, fail: string): (m: Mark)
    requires pass != fail && pass != UnknownText && fail != UnknownText
    ensures m == Check <==> outcome == Some(pass)
    ensures m == Cross <==> outcome == Some(fail)
    ensures m == Warn <==> outcome != Some(pass) && outcome != Some(fail)
  {
    var o := outcome.GetOr(UnknownText);
    if o == pass then Check else if o == fail then Cross else Warn
  }

  /** The heading mark of the summary outcome. */
  function OutcomeMark(outcome: Option<string>): Mark {
    Marked(outcome, "Passed", "Failed")
  }

  /** The mark of one test of the details table: the per-test words are "Pass" and "Fail". */
  function TestMark(outcome: Option<string>): Mark {
    Marked(outcome, "Pass", "Fail")
  }

  /** The coverage band: at least 75 is good, at least 50 a warning, below 50 a failure. */
  function CoverageMark(pct: real): (m: Mark)
    ensures m == Check <==> pct >= 75.0
    ensures m == Warn <==> 50.0 <= pct < 75.0
    ensures m == Cross <==> pct < 50.0
  {
    if pct >= 75.0 then Check else if pct >= 50.0 then Warn else Cross
  }

  /** One row of the "Test Details" table. */
  datatype DetailRow = DetailRow(name: string, mark: Mark, outcome: string, runTime: int)

  function DetailOf(t: TestRecord): DetailRow {
    DetailRow(t.methodName.GetOr(UnknownText), TestMark(t.outcome), t.outcome.GetOr(UnknownText), t.runTime.GetOr(0))
  }

  /** The details table: one row per test, in input order. */
  function DetailRows(tests: seq<TestRecord>): (r: seq<DetailRow>)
    ensures |r| == |tests|
    ensures forall k :: 0 <= k < |r| ==> (r[k].mark == TestMark(tests[k].outcome)
                                         && r[k].name == tests[k].methodName.GetOr(UnknownText))
  {
    seq(|tests|, k requires 0 <= k < |tests| => DetailOf(tests[k]))
  }

  /** The failure test `t.get("Outcome") == "Fail"`. */
  predicate IsFailure(t: TestRecord) {
    t.outcome == Some("Fail")
  }

  /** The failing tests, in input order. */
  function FailingTests(tests: seq<TestRecord>): (r: seq<TestRecord>)
    ensures forall t :: t in r <==> t in tests && IsFailure(t)
    ensures |r| <= |tests|
    decreases |tests|
  {
    if |tests| == 0 then []
    else
      assert forall t :: t in tests <==> t == tests[0] || t in tests[1..];
      (if IsFailure(tests[0]) then [tests[0]] else []) + FailingTests(tests[1..])
  }

  /** One entry of the "Failures" section: its number, the method name, the message, and the stack
      trace when there is a non-empty one. */
  datatype FailureBlock = FailureBlock(number: nat, name: Option<string>, message: string, stackTrace: Option<string>)

  function BlockOf(number: nat, t: TestRecord): FailureBlock {
    var trace := t.stackTrace.GetOr("");
    FailureBlock(number, t.methodName, t.message.GetOr("No message"), if trace != "" then Some(trace) else None)
  }

  /** The "Failures" section, numbered from 1. */
  method Failures(tests: seq<TestRecord>) returns (blocks: seq<FailureBlock>)
    ensures |blocks| == |FailingTests(tests)|
    ensures forall k :: 0 <= k < |blocks| ==> blocks[k].number == k + 1
    ensures forall k :: 0 <= k < |blocks| ==> blocks[k] == BlockOf(k + 1, FailingTests(tests)[k])
  {
    blocks := [];
    var i := 0;
    while i < |tests|
      invariant i <= |tests|
      invariant |blocks| == |FailingTests(tests[..i])|
      invariant forall k :: 0 <= k < |blocks| ==> blocks[k] == BlockOf(k + 1, FailingTests(tests[..i])[k])
    {
      FailingSnoc(tests[..i], tests[i]);
      assert tests[..i + 1] == tests[..i] + [tests[i]];
      if tests[i].outcome == Some("Fail") {
        blocks := blocks + [BlockOf(|blocks| + 1, tests[i])];
      }
      i := i + 1;
    }
    assert tests[..i] == tests;
  }

  lemma FailingSnoc(tests: seq<TestRecord>, t: TestRecord)
    ensures FailingTests(tests + [t]) == FailingTests(tests) + (if IsFailure(t) then [t] else [])
  {
    FailingAppend(tests, [t]);
    assert FailingTests([t]) == (if IsFailure(t) then [t] else []) + FailingTests([]);
  }

  /** Failures keep input order: the failing tests of a concatenation are the concatenation of the
      failing tests. */
  lemma {:induction false} FailingAppend(a: seq<TestRecord>, b: seq<TestRecord>)
    ensures FailingTests(a + b) == FailingTests(a) + FailingTests(b)
    decreases |a|
  {
    if |a| > 0 {
      assert (a + b)[1..] == a[1..] + b;
      FailingAppend(a[1..], b);
    } else {
      assert a + b == b;
    }
  }

  /** The number of rows with mark `m`. */
  function MarkCount(rows: seq<DetailRow>, m: Mark): nat
    decreases |rows|
  {
    if |rows| == 0 then 0 else (if rows[0].mark == m then 1 else 0) + MarkCount(rows[1..], m)
  }

  /** The failures section has exactly as many entries as the details table has crossed rows. */
  lemma {:induction false} FailuresMatchCrossedRows(tests: seq<TestRecord>)
    ensures |FailingTests(tests)| == MarkCount(DetailRows(tests), Cross)
    decreases |tests|
  {
    if |tests| > 0 {
      FailuresMatchCrossedRows(tests[1..]);
      var rows := DetailRows(tests);
      assert rows[1..] == DetailRows(tests[1..]);
      assert rows[0].mark == TestMark(tests[0].outcome);
    }
  }

  /** `numLinesCovered + numLinesUncovered`, each defaulting to 0. */
  function TotalLines(e: CoverageEntry): int {
    e.covered.GetOr(0) + e.uncovered.GetOr(0)
  }

  /** One row of the "Code Coverage Details" table. */
  datatype CoverageRow = CoverageRow(name: string, mark: Mark, pct: real, covered: int, total: int)

  /** The row of an entry with lines; `(covered / total) * 100` with the same band as the summary. */
  function CoverageRowOf(e: CoverageEntry): (r: CoverageRow)
    requires TotalLines(e) > 0
    ensures r.total == TotalLines(e) && r.covered == e.covered.GetOr(0)
    ensures r.pct * r.total as real == r.covered as real * 100.0
  {
    var covered := e.covered.GetOr(0);
    var total := TotalLines(e);
    var pct := (covered as real / total as real) * 100.0;
    assert (covered as real / total as real) * total as real == covered as real;
    CoverageRow(e.name.GetOr(UnknownText), CoverageMark(pct), pct, covered, total)
  }

  /** The entries that get a row: those with a positive line total, in input order. */
  function WithLines(coverage: seq<CoverageEntry>): (r: seq<CoverageEntry>)
    ensures forall e :: e in r <==> e in coverage && TotalLines(e) > 0
    ensures |r| <= |coverage|
    decreases |coverage|
  {
    if |coverage| == 0 then []
    else
      assert forall e :: e in coverage <==> e == coverage[0] || e in coverage[1..];
      (if TotalLines(coverage[0]) > 0 then [coverage[0]] else []) + WithLines(coverage[1..])
  }

  /** The coverage details table. */
  function CoverageRows(coverage: seq<CoverageEntry>): (r: seq<CoverageRow>)
    ensures |r| == |WithLines(coverage)|
    ensures forall k :: 0 <= k < |r| ==> r[k].total > 0
    ensures forall k :: 0 <= k < |r| ==> r[k] == CoverageRowOf(WithLines(coverage)[k])
  {
    var with := WithLines(coverage);
    seq(|with|, k requires 0 <= k < |with| => assert with[k] in with; CoverageRowOf(with[k]))
  }

  /** An entry with no lines gets no row; an entry with lines gets its own row. */
  lemma CoverageRowIffLines(coverage: seq<CoverageEntry>, e: CoverageEntry)
    requires e in coverage
    ensures TotalLines(e) > 0 ==> CoverageRowOf(e) in CoverageRows(coverage)
    ensures TotalLines(e) <= 0 ==> e !in WithLines(coverage)
  {
    if TotalLines(e) > 0 {
      var with := WithLines(coverage);
      var k :| 0 <= k < |with| && with[k] == e;
      assert CoverageRows(coverage)[k] == CoverageRowOf(e);
    }
  }

  /** The coverage band restated on line counts: good iff 4 covered >= 3 total, failing iff
      2 covered < total. */
  lemma CoverageBandExact(e: CoverageEntry)
    requires TotalLines(e) > 0
    ensures var r := CoverageRowOf(e);
            (r.mark == Check <==> 4 * r.covered >= 3 * r.total)
            && (r.mark == Cross <==> 2 * r.covered < r.total)
  {
    var r := CoverageRowOf(e);
    var c, t := r.covered as real, r.total as real;
    PctBelow(c, t, 75.0);
    PctBelow(c, t, 50.0);
    assert r.pct == (c / t) * 100.0;
    assert 100.0 * c < 75.0 * t <==> 100 * r.covered < 75 * r.total;
    assert 100.0 * c < 50.0 * t <==> 100 * r.covered < 50 * r.total;
  }

  /** The formatted report, as data: heading mark, summary coverage mark (`None` prints "N/A"), the
      details table, the failures and the coverage table. */
  datatype Report = Report(heading: Mark, runCoverage: Option<Mark>, details: seq<DetailRow>,
                           failures: seq<FailureBlock>, coverageRows: seq<CoverageRow>)

  /** `format_results(data)`. */
  method FormatResults(resp: Response) returns (rep: Report)
    ensures rep.heading == Check <==> resp.outcome == Some("Passed")
    ensures rep.heading == Cross <==> resp.outcome == Some("Failed")
    ensures rep.runCoverage.Some? <==> resp.runCoverage.Some?
    ensures resp.runCoverage.Some? ==> (rep.runCoverage.value == Check <==> resp.runCoverage.value >= 75.0)
    ensures |rep.details| == |resp.tests|
    ensures |rep.failures| == MarkCount(rep.details, Cross)
    ensures forall k :: 0 <= k < |rep.failures| ==> rep.failures[k].number == k + 1
    ensures |rep.coverageRows| == |WithLines(resp.coverage)|
    ensures resp.runCoverage.Some? ==> rep.runCoverage == Some(CoverageMark(resp.runCoverage.value))
    ensures rep.details == DetailRows(resp.tests)
    ensures |rep.failures| == |FailingTests(resp.tests)|
    ensures forall k :: 0 <= k < |rep.failures| ==> rep.failures[k] == BlockOf(k + 1, FailingTests(resp.tests)[k])
    ensures rep.coverageRows == CoverageRows(resp.coverage)
  {
    var runCoverage := match resp.runCoverage
      case None => None
      case Some(pct) => Some(CoverageMark(pct));
    var failures := Failures(resp.tests);
    FailuresMatchCrossedRows(resp.tests);
    rep := Report(OutcomeMark(resp.outcome), runCoverage, DetailRows(resp.tests), failures, CoverageRows(resp.coverage));
  }

  /** What `main` does after the command-line check and the test run. */
  datatype Exit = Exit(formatted: bool, code: int)

  /** `main`: fewer than two arguments print the usage and exit 1; a missing or non-zero status
      exits 1 before formatting; otherwise the report is printed and the exit is 0 exactly when the
      outcome is "Passed". */
  function MainExit(argCount: nat, resp: Response): (r: Exit)
    ensures argCount < 3 ==> r == Exit(false, 1)
    ensures argCount >= 3 ==> (r.formatted <==> resp.status == Some(0))
    ensures r.code == 0 <==> argCount >= 3 && resp.status == Some(0) && resp.outcome == Some("Passed")
    ensures r.code == 0 || r.code == 1
  {
    if argCount < 3 then Exit(false, 1)
    else if resp.status.GetOr(1) != 0 then Exit(false, 1)
    else Exit(true, if resp.outcome.GetOr(UnknownText) == "Passed" then 0 else 1)
  }

  /** A printed report exits 0 exactly when its heading carries the check mark. */
  lemma ExitMatchesHeading(argCount: nat, resp: Response)
    requires MainExit(argCount, resp).formatted
    ensures MainExit(argCount, resp).code == 0 <==> OutcomeMark(resp.outcome) == Check
  {
  }
}
