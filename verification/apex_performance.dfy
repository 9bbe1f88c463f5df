/** scripts/analyze_apex_performance.py: the method-stack fold over a debug log, the attribution of
    SOQL and DML events, the last-wins limit readings, the status bands and the recommendations. */
module ApexPerformance {
  import opened Wrappers
  import opened Strings
  import opened Ratios

  /** The cumulative limits the log reports. */
  datatype LimitKind = SoqlQueries | CpuTime | HeapSize | DmlStatements

  /** `used` out of `limit`, as read from a LIMIT_USAGE line. */
  datatype Usage = Usage(used: int, limit: int)

  /** What the line patterns find in one log line; the regular expressions themselves are not
      modelled. `methodEntry` is the method a METHOD_ENTRY line names, `methodExit` whether the line
      is a METHOD_EXIT, `soql` the bracketed query text, `dmlOp` the DML operation, and `readings`
      the limit lines it matches. */
  datatype LogLine = LogLine(methodEntry: Option<string>, methodExit: bool, soql: Option<string>,
                             dmlOp: Option<string>, readings: map<LimitKind, Usage>)

  datatype SoqlEvent = SoqlEvent(query: string, owner: string)
  datatype DmlEvent = DmlEvent(operation: string, owner: string)

  /** The parser's state: the method stack, the current method, the events so far and the last
      reading of each limit. */
  datatype LogState = LogState(stack: seq<string>, current: Option<string>, soql: seq<SoqlEvent>,
                               dml: seq<DmlEvent>, limits: map<LimitKind, Usage>)

  const UnknownMethod: string := "Unknown"

  /** Stored query text is cut at this many characters. */
  const MaxQueryText: nat := 200

  /** The method an event is charged to: `current_method or 'Unknown'`. */
  function Owner(current: Option<string>): string {
    if current.Some? && current.value != "" then current.value else UnknownMethod
  }

  function Top(stack: seq<string>): Option<string> {
    if |stack| == 0 then None else Some(stack[|stack| - 1])
  }

  /** METHOD_ENTRY: push the method and make it current. */
  function Enter(st: LogState, line: LogLine): (r: LogState)
    ensures line.methodEntry.Some? ==> (r.stack == st.stack + [line.methodEntry.value]
                                       && r.current == Some(line.methodEntry.value))
    ensures line.methodEntry.None? ==> r == st
  {
    match line.methodEntry
    case None => st
    case Some(name) => st.(stack := st.stack + [name], current := Some(name))
  }

  /** METHOD_EXIT: pop only a non-empty stack; the new top, if any, becomes current. */
  function Exit(st: LogState, line: LogLine): (r: LogState)
    ensures line.methodExit ==> r.current == Top(r.stack)
    ensures line.methodExit && |st.stack| > 0 ==> r.stack == st.stack[..|st.stack| - 1]
    ensures line.methodExit && |st.stack| == 0 ==> r.stack == [] && r.current.None?
    ensures !line.methodExit ==> r == st
  {
    if !line.methodExit then st
    else
      var stack := if |st.stack| > 0 then st.stack[..|st.stack| - 1] else st.stack;
      st.(stack := stack, current := Top(stack))
  }

  /** The events and readings of one line, charged to the method current after its entry and exit. */
  function Record(st: LogState, line: LogLine): (r: LogState)
    ensures r.stack == st.stack && r.current == st.current
    ensures line.soql.None? ==> r.soql == st.soql
    ensures line.soql.Some? ==> |r.soql| == |st.soql| + 1 && r.soql[..|st.soql|] == st.soql
                                && r.soql[|st.soql|].owner == Owner(st.current)
                                && r.soql[|st.soql|].query == Take(line.soql.value, MaxQueryText)
    ensures line.dmlOp.None? ==> r.dml == st.dml
    ensures line.dmlOp.Some? ==> |r.dml| == |st.dml| + 1 && r.dml[..|st.dml|] == st.dml
                                 && r.dml[|st.dml|] == DmlEvent(line.dmlOp.value, Owner(st.current))
    ensures r.limits.Keys == st.limits.Keys + line.readings.Keys
    ensures forall k :: k in line.readings ==> r.limits[k] == line.readings[k]
    ensures forall k :: k in st.limits && k !in line.readings ==> r.limits[k] == st.limits[k]
  {
    var owner := Owner(st.current);
    var soql := if line.soql.Some? then st.soql + [SoqlEvent(Take(line.soql.value, MaxQueryText), owner)] else st.soql;
    var dml := if line.dmlOp.Some? then st.dml + [DmlEvent(line.dmlOp.value, owner)] else st.dml;
    st.(soql := soql, dml := dml, limits := st.limits + line.readings)
  }

  /** One iteration of the loop of `parse_debug_log`. */
  function Step(st: LogState, line: LogLine): LogState {
    Record(Exit(Enter(st, line), line), line)
  }

  const Initial: LogState := LogState([], None, [], [], map[])

  /** `parse_debug_log`: the state after every line, in order. */
  function Parse(lines: seq<LogLine>): LogState
    decreases |lines|
  {
    if |lines| == 0 then Initial else Step(Parse(lines[..|lines| - 1]), lines[|lines| - 1])
  }

  /** The current method is always the top of the stack. */
  lemma {:induction false} CurrentIsTop(lines: seq<LogLine>)
    ensures Parse(lines).current == Top(Parse(lines).stack)
    decreases |lines|
  {
    if |lines| > 0 {
      CurrentIsTop(lines[..|lines| - 1]);
    }
  }

  /** Every stacked method was named by some METHOD_ENTRY line. */
  lemma {:induction false} StackFromEntries(lines: seq<LogLine>)
    ensures forall m :: m in Parse(lines).stack ==> exists i :: 0 <= i < |lines| && lines[i].methodEntry == Some(m)
    decreases |lines|
  {
    if |lines| > 0 {
      var prefix := lines[..|lines| - 1];
      StackFromEntries(prefix);
      var before := Parse(prefix).stack;
      var entered := Enter(Parse(prefix), lines[|lines| - 1]).stack;
      assert forall m :: m in Parse(lines).stack ==> m in entered;
      forall m | m in entered
        ensures exists i :: 0 <= i < |lines| && lines[i].methodEntry == Some(m)
      {
        if m in before {
          var i :| 0 <= i < |prefix| && prefix[i].methodEntry == Some(m);
          assert lines[i] == prefix[i];
        } else {
          assert lines[|lines| - 1].methodEntry == Some(m);
        }
      }
    }
  }

  /** Events are charged to a method some METHOD_ENTRY line named, or to "Unknown"; stored query
      text is at most 200 characters and is a prefix of the matched text. */
  lemma {:induction false} Attribution(lines: seq<LogLine>)
    ensures forall e :: e in Parse(lines).soql ==>
              |e.query| <= MaxQueryText
              && (e.owner == UnknownMethod || exists i :: 0 <= i < |lines| && lines[i].methodEntry == Some(e.owner))
    ensures forall e :: e in Parse(lines).dml ==>
              e.owner == UnknownMethod || exists i :: 0 <= i < |lines| && lines[i].methodEntry == Some(e.owner)
    decreases |lines|
  {
    if |lines| > 0 {
      var prefix := lines[..|lines| - 1];
      var line := lines[|lines| - 1];
      Attribution(prefix);
      var mid := Exit(Enter(Parse(prefix), line), line);
      var owner := Owner(mid.current);
      assert owner == UnknownMethod || exists i :: 0 <= i < |lines| && lines[i].methodEntry == Some(owner) by {
        if owner != UnknownMethod {
          CurrentIsTop(prefix);
          StackFromEntries(lines);
          EnterExitStack(Parse(prefix), line);
          assert mid.stack == Parse(lines).stack;
          assert owner in mid.stack;
        }
      }
      assert forall i :: 0 <= i < |prefix| ==> lines[i] == prefix[i];
    }
  }

  /** The events of the last line are appended after those of the earlier lines, and each is charged
      to the method on top of the stack once that line's entry and exit are applied, or to "Unknown"
      when the stack is empty. A line without a match leaves both event lists unchanged. */
  lemma LastLineEvents(lines: seq<LogLine>)
    requires |lines| > 0
    ensures var line := lines[|lines| - 1];
            var before := Parse(lines[..|lines| - 1]);
            var owner := Owner(Top(Parse(lines).stack));
            && Parse(lines).soql == before.soql + (if line.soql.Some? then [SoqlEvent(Take(line.soql.value, MaxQueryText), owner)] else [])
            && Parse(lines).dml == before.dml + (if line.dmlOp.Some? then [DmlEvent(line.dmlOp.value, owner)] else [])
  {
    CurrentIsTop(lines);
  }

  /** After entry and exit the current method, if any, is on the stack. */
  lemma EnterExitStack(st: LogState, line: LogLine)
    requires st.current == Top(st.stack)
    ensures var mid := Exit(Enter(st, line), line);
            mid.current == Top(mid.stack) && (mid.current.Some? ==> mid.current.value in mid.stack)
  {
  }

  /** Events are recorded one per matching line, in line order. */
  function CountSoqlLines(lines: seq<LogLine>): nat
    decreases |lines|
  {
    if |lines| == 0 then 0 else CountSoqlLines(lines[..|lines| - 1]) + (if lines[|lines| - 1].soql.Some? then 1 else 0)
  }

  lemma {:induction false} SoqlCount(lines: seq<LogLine>)
    ensures |Parse(lines).soql| == CountSoqlLines(lines)
    decreases |lines|
  {
    if |lines| > 0 {
      SoqlCount(lines[..|lines| - 1]);
    }
  }

  /** For every limit, there is no reading exactly when no line reports one. */
  lemma {:induction false} NoReading(lines: seq<LogLine>, k: LimitKind)
    ensures k !in Parse(lines).limits <==> forall i :: 0 <= i < |lines| ==> k !in lines[i].readings
    decreases |lines|
  {
    if |lines| > 0 {
      var prefix := lines[..|lines| - 1];
      NoReading(prefix, k);
      LimitsStep(lines);
      assert forall i :: 0 <= i < |prefix| ==> lines[i] == prefix[i];
    }
  }

  /** Line `i` is the last line that reports limit `k`. */
  predicate LastReportedAt(lines: seq<LogLine>, k: LimitKind, i: int) {
    0 <= i < |lines| && k in lines[i].readings && forall j :: i < j < |lines| ==> k !in lines[j].readings
  }

  /** Each line's readings overwrite the earlier ones. */
  lemma LimitsStep(lines: seq<LogLine>)
    requires |lines| > 0
    ensures Parse(lines).limits == Parse(lines[..|lines| - 1]).limits + lines[|lines| - 1].readings
  {
    var st := Parse(lines[..|lines| - 1]);
    var line := lines[|lines| - 1];
    var mid := Exit(Enter(st, line), line);
    assert mid.limits == st.limits;
    assert Parse(lines) == Record(mid, line);
  }

  /** A line that does not report `k` keeps the last report of `k` where it was. */
  lemma LastReportedExtends(lines: seq<LogLine>, k: LimitKind, i: int)
    requires |lines| > 0 && k !in lines[|lines| - 1].readings
    requires LastReportedAt(lines[..|lines| - 1], k, i)
    ensures LastReportedAt(lines, k, i)
  {
    var prefix := lines[..|lines| - 1];
    assert lines[i] == prefix[i];
    forall j | i < j < |lines| ensures k !in lines[j].readings {
      if j < |prefix| {
        assert lines[j] == prefix[j];
      }
    }
  }

  /** The reading kept is the one on the last line that reports that limit. */
  lemma {:induction false} LastReadingWins(lines: seq<LogLine>, k: LimitKind)
    requires k in Parse(lines).limits
    ensures exists i :: LastReportedAt(lines, k, i) && Parse(lines).limits[k] == lines[i].readings[k]
    decreases |lines|
  {
    var prefix := lines[..|lines| - 1];
    var line := lines[|lines| - 1];
    LimitsStep(lines);
    if k in line.readings {
      assert LastReportedAt(lines, k, |lines| - 1);
    } else {
      LastReadingWins(prefix, k);
      var i :| LastReportedAt(prefix, k, i) && Parse(prefix).limits[k] == prefix[i].readings[k];
      LastReportedExtends(lines, k, i);
      assert lines[i] == prefix[i];
    }
  }

  /** The status mark of a governor limit. */
  datatype Status = Fine | Caution | Exceeded

  /** `(used / limit) * 100` against 50 and 80; a zero limit is a division by zero. */
  function LimitStatus(u: Usage): (r: Result<Status, string>)
    ensures r.Failure? <==> u.limit == 0
    ensures r.Success? ==> (r.value == Fine <==> (u.used as real / u.limit as real) * 100.0 < 50.0)
    ensures r.Success? ==> (r.value == Exceeded <==> (u.used as real / u.limit as real) * 100.0 >= 80.0)
  {
    if u.limit == 0 then Failure("division by zero")
    else
      var pct := (u.used as real / u.limit as real) * 100.0;
      Success(if pct < 50.0 then Fine else if pct < 80.0 then Caution else Exceeded)
  }

  /** With a positive limit the bands are integer comparisons: fine below half, exceeded from 80%. */
  lemma StatusByIntegers(u: Usage)
    requires u.limit > 0
    ensures LimitStatus(u) == Success(if 2 * u.used < u.limit then Fine
                                      else if 5 * u.used < 4 * u.limit then Caution
                                      else Exceeded)
  {
    var l := u.limit as real;
    var x := u.used as real;
    PctBelow(x, l, 50.0);
    PctBelow(x, l, 80.0);
  }

  datatype Recommendation = CpuHigh | HeapHigh | ManyQueries | ManyDml

  /** More events than this draws a recommendation. */
  const EventThreshold: nat := 50

  /** `used / limit > 0.5` for a reading, a missing reading reading as 0 out of 1. */
  function UsageAboveHalf(limits: map<LimitKind, Usage>, k: LimitKind): (r: Result<bool, string>)
    ensures r.Failure? <==> k in limits && limits[k].limit == 0
    ensures k !in limits ==> r == Success(false)
    ensures k in limits && limits[k].limit > 0 ==> (r == Success(true) <==> 2 * limits[k].used > limits[k].limit)
  {
    var u := if k in limits then limits[k] else Usage(0, 1);
    if u.limit == 0 then Failure("division by zero")
    else
      var ratio := u.used as real / u.limit as real;
      assert ratio * u.limit as real == u.used as real;
      assert u.limit > 0 ==> (ratio > 0.5 <==> 2 * u.used > u.limit) by {
        if u.limit > 0 {
          ScaleLess(0.5, ratio, u.limit as real);
        }
      }
      Success(ratio > 0.5)
  }

  /** The recommendations block of `format_analysis`, in its order. */
  function Recommendations(st: LogState): (r: Result<seq<Recommendation>, string>)
    ensures r.Failure? <==> (CpuTime in st.limits && st.limits[CpuTime].limit == 0)
                            || (HeapSize in st.limits && st.limits[HeapSize].limit == 0)
    ensures r.Success? ==> (ManyQueries in r.value <==> |st.soql| > EventThreshold)
    ensures r.Success? ==> (ManyDml in r.value <==> |st.dml| > EventThreshold)
    ensures r.Success? ==> (CpuHigh in r.value <==> UsageAboveHalf(st.limits, CpuTime) == Success(true))
    ensures r.Success? ==> (HeapHigh in r.value <==> UsageAboveHalf(st.limits, HeapSize) == Success(true))
  {
    var cpu :- UsageAboveHalf(st.limits, CpuTime);
    var heap :- UsageAboveHalf(st.limits, HeapSize);
    var a := if cpu then [CpuHigh] else [];
    var b := if heap then [HeapHigh] else [];
    var c := if |st.soql| > EventThreshold then [ManyQueries] else [];
    var d := if |st.dml| > EventThreshold then [ManyDml] else [];
    assert forall x :: x in a + b + c + d <==> x in a || x in b || x in c || x in d;
    Success(a + b + c + d)
  }

  /** A log with no CPU or heap reading never draws a CPU or heap recommendation. */
  lemma MissingReadingNoRecommendation(st: LogState)
    requires CpuTime !in st.limits && HeapSize !in st.limits
    ensures Recommendations(st).Success?
    ensures CpuHigh !in Recommendations(st).value && HeapHigh !in Recommendations(st).value
  {
  }
}
