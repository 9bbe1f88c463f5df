/** scripts/profile_soql.py: the query-structure rules, the indexed-field check, the performance and
    selectivity bands, and the recommendation list the report prints. */
module ProfileSoql {
  import opened Wrappers
  import opened Strings
  import opened Ratios

  /** The structure rules, in the order they are checked. */
  datatype Rule = MissingLimit | LeadingWildcard | SelectAll | DateFunctionInWhere | NotEquals | OrCondition | Subqueries

  const RuleOrder: seq<Rule> := [MissingLimit, LeadingWildcard, SelectAll, DateFunctionInWhere, NotEquals, OrCondition, Subqueries]

  /** The two case-insensitive regular-expression searches, whose outcome is taken as given:
      `LIKE\s+'%` and `WHERE.*?(YEAR|MONTH|DAY|HOUR)\(`. */
  datatype PatternHits = PatternHits(leadingWildcard: bool, dateFunction: bool)

  /** What the rules test, read off the query once. */
  datatype QueryFacts = QueryFacts(noLimit: bool, leadingWildcard: bool, selectAll: bool, dateFunction: bool,
                                   notEquals: bool, orCondition: bool, subqueries: bool)

  /** The tests of `analyze_query_structure`: the keyword tests run on the upper-cased query, the
      `!=`/`<>` test on the query as given. */
  function FactsOf(query: string, hits: PatternHits): QueryFacts {
    var upper := Upper(query);
    QueryFacts(!Contains(upper, "LIMIT"), hits.leadingWildcard,
               Contains(upper, "SELECT *") || Contains(upper, "FIELDS(ALL)"), hits.dateFunction,
               Contains(query, "!=") || Contains(query, "<>"), Contains(upper, " OR "),
               CountOccurrences(upper, "SELECT") > 1)
  }

  /** Whether a rule fires. */
  predicate Fires(f: QueryFacts, r: Rule) {
    match r
    case MissingLimit => f.noLimit
    case LeadingWildcard => f.leadingWildcard
    case SelectAll => f.selectAll
    case DateFunctionInWhere => f.dateFunction
    case NotEquals => f.notEquals
    case OrCondition => f.orCondition
    case Subqueries => f.subqueries
  }

  /** Every rule is checked. */
  lemma AllRulesListed()
    ensures forall x: Rule :: x in RuleOrder
  {
    forall x: Rule ensures x in RuleOrder {
      assert RuleOrder[RuleRank(x)] == x;
    }
  }

  /** One line of the "Structure Issues" list. */
  datatype StructureIssue = RuleIssue(rule: Rule) | LooksGood

  /** The rules of `rules` that fire, in order. */
  function FiredRules(f: QueryFacts, rules: seq<Rule>): (r: seq<Rule>)
    ensures forall x :: x in r <==> x in rules && Fires(f, x)
    ensures |r| <= |rules|
    decreases |rules|
  {
    if |rules| == 0 then []
    else
      assert forall x :: x in rules <==> x == rules[0] || x in rules[1..];
      (if Fires(f, rules[0]) then [rules[0]] else []) + FiredRules(f, rules[1..])
  }

  /** `analyze_query_structure(query)`: one issue and one recommendation per fired rule, in rule
      order; when none fires, the single "looks good" issue and no recommendation. */
  function AnalyzeQueryStructure(query: string, hits: PatternHits): (r: (seq<StructureIssue>, seq<Rule>))
  {
    AnalyzeFacts(FactsOf(query, hits))
  }

  function AnalyzeFacts(f: QueryFacts): (r: (seq<StructureIssue>, seq<Rule>))
    ensures |r.1| > 0 ==> |r.0| == |r.1| && forall k :: 0 <= k < |r.0| ==> r.0[k] == RuleIssue(r.1[k])
    ensures |r.1| == 0 <==> r.0 == [LooksGood]
  {
    var fired := FiredRules(f, RuleOrder);
    (IssuesFor(fired), fired)
  }

  /** The "Structure Issues" list for the fired rules. */
  function IssuesFor(fired: seq<Rule>): (r: seq<StructureIssue>)
    ensures |fired| > 0 ==> |r| == |fired| && forall k :: 0 <= k < |r| ==> r[k] == RuleIssue(fired[k])
    ensures |fired| == 0 <==> r == [LooksGood]
  {
    if |fired| == 0 then [LooksGood]
    else
      var r := seq(|fired|, k requires 0 <= k < |fired| => RuleIssue(fired[k]));
      assert r[0].RuleIssue?;
      r
  }

  /** Exactly the rules that fire are recommended. */
  lemma AnalyzeFactsSpec(f: QueryFacts)
    ensures forall x :: x in AnalyzeFacts(f).1 <==> Fires(f, x)
  {
    AllRulesListed();
  }

  function RuleRank(r: Rule): nat {
    match r
    case MissingLimit => 0
    case LeadingWildcard => 1
    case SelectAll => 2
    case DateFunctionInWhere => 3
    case NotEquals => 4
    case OrCondition => 5
    case Subqueries => 6
  }

  /** Ranks strictly increase along `rules`. */
  predicate RankSorted(rules: seq<Rule>) {
    forall i, j :: 0 <= i < j < |rules| ==> RuleRank(rules[i]) < RuleRank(rules[j])
  }

  /** The rule list is in rank order. */
  lemma RuleOrderSorted()
    ensures RankSorted(RuleOrder)
  {
    forall i, j | 0 <= i < j < |RuleOrder| ensures RuleRank(RuleOrder[i]) < RuleRank(RuleOrder[j]) {
      assert RuleRank(RuleOrder[i]) == i && RuleRank(RuleOrder[j]) == j;
    }
  }

  /** Fired rules keep the order of `rules`. */
  lemma {:induction false} FiredInOrder(f: QueryFacts, rules: seq<Rule>)
    requires RankSorted(rules)
    ensures RankSorted(FiredRules(f, rules))
    decreases |rules|
  {
    if |rules| > 0 {
      SortedTail(rules);
      FiredInOrder(f, rules[1..]);
      if Fires(f, rules[0]) {
        SortedCons(rules[0], FiredRules(f, rules[1..]));
      }
    }
  }

  lemma SortedTail(rules: seq<Rule>)
    requires |rules| > 0 && RankSorted(rules)
    ensures RankSorted(rules[1..])
    ensures forall x :: x in rules[1..] ==> RuleRank(rules[0]) < RuleRank(x)
  {
    forall x | x in rules[1..] ensures RuleRank(rules[0]) < RuleRank(x) {
      var j :| 0 <= j < |rules[1..]| && rules[1..][j] == x;
      assert rules[j + 1] == x;
    }
  }

  lemma SortedCons(a: Rule, rest: seq<Rule>)
    requires RankSorted(rest) && forall x :: x in rest ==> RuleRank(a) < RuleRank(x)
    ensures RankSorted([a] + rest)
  {
    var r := [a] + rest;
    forall i, j | 0 <= i < j < |r| ensures RuleRank(r[i]) < RuleRank(r[j]) {
      assert r[j] == rest[j - 1];
      if i > 0 {
        assert r[i] == rest[i - 1];
      }
    }
  }

  /** Issues appear in the fixed rule order. */
  lemma IssuesInRuleOrder(query: string, hits: PatternHits)
    ensures RankSorted(AnalyzeQueryStructure(query, hits).1)
  {
    RuleOrderSorted();
    var f := FactsOf(query, hits);
    FiredInOrder(f, RuleOrder);
    assert AnalyzeQueryStructure(query, hits).1 == FiredRules(f, RuleOrder);
  }

  /** The LIMIT rule fires iff the upper-cased query lacks "LIMIT"; the subquery rule iff "SELECT"
      occurs more than once in it. */
  lemma LimitAndSubqueryRules(query: string, hits: PatternHits)
    ensures MissingLimit in AnalyzeQueryStructure(query, hits).1 <==> !Contains(Upper(query), "LIMIT")
    ensures Subqueries in AnalyzeQueryStructure(query, hits).1 <==> CountOccurrences(Upper(query), "SELECT") > 1
  {
    var f := FactsOf(query, hits);
    assert AnalyzeQueryStructure(query, hits) == AnalyzeFacts(f);
    LimitAndSubqueryFacts(f);
  }

  lemma LimitAndSubqueryFacts(f: QueryFacts)
    ensures MissingLimit in AnalyzeFacts(f).1 <==> f.noLimit
    ensures Subqueries in AnalyzeFacts(f).1 <==> f.subqueries
  {
    AnalyzeFactsSpec(f);
    assert Fires(f, MissingLimit) == f.noLimit;
    assert Fires(f, Subqueries) == f.subqueries;
  }

  /** No rule firing leaves no recommendation. */
  lemma {:induction false} NoneFired(f: QueryFacts, rules: seq<Rule>)
    requires forall x :: x in rules ==> !Fires(f, x)
    ensures FiredRules(f, rules) == []
    decreases |rules|
  {
    if |rules| > 0 {
      assert rules[0] in rules;
      assert forall x :: x in rules[1..] ==> x in rules;
      NoneFired(f, rules[1..]);
    }
  }

  /** A query with a single SELECT, a LIMIT, no wildcard, no date function, no negation and no OR is
      reported as looking good. */
  lemma CleanQueryLooksGood(query: string, hits: PatternHits)
    requires !hits.leadingWildcard && !hits.dateFunction
    requires Contains(Upper(query), "LIMIT")
    requires !Contains(Upper(query), "SELECT *") && !Contains(Upper(query), "FIELDS(ALL)")
    requires !Contains(query, "!=") && !Contains(query, "<>") && !Contains(Upper(query), " OR ")
    requires CountOccurrences(Upper(query), "SELECT") <= 1
    ensures AnalyzeQueryStructure(query, hits) == ([LooksGood], [])
  {
    NoneFired(FactsOf(query, hits), RuleOrder);
  }

  /** The standard indexed fields, in the order they are listed. */
  const IndexedFields: seq<string> := ["Id", "Name", "RecordTypeId", "OwnerId", "CreatedDate", "SystemModstamp", "LastModifiedDate"]

  /** The fields of `fields` whose upper-cased name occurs in the WHERE text, in order. */
  function FieldsIn(where: string, fields: seq<string>): (r: seq<string>)
    ensures forall f :: f in r <==> f in fields && Contains(where, Upper(f))
    ensures |r| <= |fields|
    decreases |fields|
  {
    if |fields| == 0 then []
    else
      assert forall x :: x in fields <==> x == fields[0] || x in fields[1..];
      (if Contains(where, Upper(fields[0])) then [fields[0]] else []) + FieldsIn(where, fields[1..])
  }

  /** Indexed fields are reported in list order: the check of a concatenated list is the
      concatenation of the checks. */
  lemma {:induction false} FieldsInAppend(where: string, a: seq<string>, b: seq<string>)
    ensures FieldsIn(where, a + b) == FieldsIn(where, a) + FieldsIn(where, b)
    decreases |a|
  {
    if |a| > 0 {
      assert (a + b)[1..] == a[1..] + b;
      FieldsInAppend(where, a[1..], b);
    } else {
      assert a + b == b;
    }
  }

  /** `check_indexed_fields(query)`, given the WHERE text the regular expression captured from the
      upper-cased query (`None` when there is no WHERE). */
  function CheckIndexedFields(whereMatch: Option<string>): (r: (Option<string>, seq<string>))
    ensures whereMatch.None? ==> r == (None, [])
    ensures whereMatch.Some? ==> r.0 == whereMatch
                                 && forall f :: f in r.1 <==> f in IndexedFields && Contains(whereMatch.value, Upper(f))
  {
    match whereMatch
    case None => (None, [])
    case Some(w) => (Some(w), FieldsIn(w, IndexedFields))
  }

  datatype Performance = Good | Moderate | Slow

  /** The performance line of `main`. */
  function PerformanceBand(ms: int): (p: Performance)
    ensures p == Good <==> ms < 500
    ensures p == Moderate <==> 500 <= ms < 1000
    ensures p == Slow <==> ms >= 1000
  {
    if ms < 500 then Good else if ms < 1000 then Moderate else Slow
  }

  /** `estimate_selectivity`: a percentage only when the FROM object was found and its total count is
      positive. */
  function Selectivity(fromFound: bool, total: Option<int>, recordCount: int): (r: Option<real>)
    ensures r.Some? <==> fromFound && total.Some? && total.value > 0
    ensures r.Some? ==> r.value * total.value as real == recordCount as real * 100.0
  {
    if fromFound && total.Some? && total.value > 0 then
      var pct := (recordCount as real / total.value as real) * 100.0;
      assert (recordCount as real / total.value as real) * total.value as real == recordCount as real;
      Some(pct)
    else None
  }

  /** Not selective iff more than a tenth of the records come back. */
  lemma NonSelectiveIffTenth(total: int, recordCount: int)
    requires total > 0
    ensures Selectivity(true, Some(total), recordCount).value > 10.0 <==> 10 * recordCount > total
  {
    AboveTenth(Selectivity(true, Some(total), recordCount).value, total as real, recordCount as real);
  }

  /** A percentage `v` of `t` records, `r` of them returned, exceeds 10 iff `r` exceeds a tenth of `t`. */
  lemma AboveTenth(v: real, t: real, r: real)
    requires t > 0.0 && v * t == r * 100.0
    ensures v > 10.0 <==> 10.0 * r > t
  {
    ScaleLess(10.0, v, t);
  }

  /** The extra recommendations `format_recommendations` appends. */
  datatype Recommendation = FixRule(rule: Rule) | MoreSelective | UseIndexedFields

  /** The numbered recommendation list: the rule recommendations, then "more selective" for a
      non-selective query, then "indexed fields" when no indexed field is in the WHERE. */
  function FinalRecommendations(rules: seq<Rule>, selectivity: Option<real>, indexed: seq<string>): (r: seq<Recommendation>)
    ensures MoreSelective in r <==> selectivity.Some? && selectivity.value > 10.0
    ensures UseIndexedFields in r <==> |indexed| == 0
    ensures forall x :: FixRule(x) in r <==> x in rules
    ensures |r| == |rules| + (if selectivity.Some? && selectivity.value > 10.0 then 1 else 0) + (if |indexed| == 0 then 1 else 0)
  {
    var base := seq(|rules|, k requires 0 <= k < |rules| => FixRule(rules[k]));
    assert forall x :: x in base ==> x.FixRule?;
    assert forall x :: FixRule(x) in base <==> x in rules by {
      forall x ensures FixRule(x) in base <==> x in rules {
        if x in rules {
          var k :| 0 <= k < |rules| && rules[k] == x;
          assert base[k] == FixRule(x);
        }
      }
    }
    var sel: seq<Recommendation> := if selectivity.Some? && selectivity.value > 10.0 then [MoreSelective] else [];
    var idx: seq<Recommendation> := if |indexed| == 0 then [UseIndexedFields] else [];
    base + sel + idx
  }
}
