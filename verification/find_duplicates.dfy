/** scripts/find_duplicates.py: master selection within a duplicate group, the query clause builders,
    the summary arithmetic and the IsMaster column of the export. */
module FindDuplicates {
  import opened Wrappers
  import opened Strings
  import opened StrOrder
  import opened Dicts
  import opened Json

  /** One record of a duplicate group: its `Id`, its two dates (absent when the key is missing), and
      its remaining fields. */
  datatype DupRecord = DupRecord(id: string, created: Option<string>, modified: Option<string>, values: Dict<Value>)

  /** A duplicate group: the grouped field values and the records carrying them. */
  datatype DupGroup = DupGroup(matchValues: Dict<Value>, records: seq<DupRecord>)

  /** The sort key `(CreatedDate, LastModifiedDate)`, missing dates read as "". */
  function SortKey(r: DupRecord): (string, string) {
    (r.created.GetOr(""), r.modified.GetOr(""))
  }

  /** Python's tuple `<` on the sort key: the creation date decides, ties go to the modification date. */
  predicate KeyLess(a: (string, string), b: (string, string)) {
    Less(a.0, b.0) || (a.0 == b.0 && Less(a.1, b.1))
  }

  lemma KeyLessIrreflexive(a: (string, string))
    ensures !KeyLess(a, a)
  {
    LessIrreflexive(a.0);
    LessIrreflexive(a.1);
  }

  lemma KeyLessTransitive(a: (string, string), b: (string, string), c: (string, string))
    requires KeyLess(a, b) && KeyLess(b, c)
    ensures KeyLess(a, c)
  {
    if Less(a.0, b.0) && Less(b.0, c.0) {
      LessTransitive(a.0, b.0, c.0);
    } else if Less(a.1, b.1) && Less(b.1, c.1) {
      LessTransitive(a.1, b.1, c.1);
    }
  }

  lemma KeyLessTotal(a: (string, string), b: (string, string))
    ensures a == b || KeyLess(a, b) || KeyLess(b, a)
  {
    LessTotal(a.0, b.0);
    LessTotal(a.1, b.1);
  }

  /** The position a stable ascending sort moves to the front: among the first `n` records, the
      first one whose key is not beaten by any other. Records before it have strictly larger keys,
      none has a smaller one. */
  function FrontIndex(rs: seq<DupRecord>, n: nat): (m: nat)
    requires 1 <= n <= |rs|
    ensures m < n
    ensures forall j :: 0 <= j < n ==> !KeyLess(SortKey(rs[j]), SortKey(rs[m]))
    ensures forall j :: 0 <= j < m ==> KeyLess(SortKey(rs[m]), SortKey(rs[j]))
  {
    if n == 1 then KeyLessIrreflexive(SortKey(rs[0])); 0
    else
      var m := FrontIndex(rs, n - 1);
      var cand := SortKey(rs[n - 1]);
      if KeyLess(cand, SortKey(rs[m])) then
        FrontStep(rs, n, m);
        n - 1
      else m
  }

  /** A new strict minimum beats every record before it. */
  lemma FrontStep(rs: seq<DupRecord>, n: nat, m: nat)
    requires 1 < n <= |rs| && m < n - 1
    requires forall j :: 0 <= j < n - 1 ==> !KeyLess(SortKey(rs[j]), SortKey(rs[m]))
    requires KeyLess(SortKey(rs[n - 1]), SortKey(rs[m]))
    ensures forall j :: 0 <= j < n ==> !KeyLess(SortKey(rs[j]), SortKey(rs[n - 1]))
    ensures forall j :: 0 <= j < n - 1 ==> KeyLess(SortKey(rs[n - 1]), SortKey(rs[j]))
  {
    var c := SortKey(rs[n - 1]);
    forall j | 0 <= j < n - 1
      ensures KeyLess(c, SortKey(rs[j]))
    {
      var k := SortKey(rs[j]);
      KeyLessTotal(k, SortKey(rs[m]));
      if k != SortKey(rs[m]) {
        KeyLessTransitive(c, SortKey(rs[m]), k);
      }
    }
    forall j | 0 <= j < n
      ensures !KeyLess(SortKey(rs[j]), c)
    {
      if j < n - 1 {
        if KeyLess(SortKey(rs[j]), c) {
          KeyLessTransitive(c, SortKey(rs[j]), c);
          KeyLessIrreflexive(c);
        }
      } else {
        KeyLessIrreflexive(c);
      }
    }
  }

  /** The front of the stable sort is unique: at most one position satisfies its two conditions. */
  lemma FrontUnique(rs: seq<DupRecord>, m: nat, m': nat)
    requires m < |rs| && m' < |rs|
    requires forall j :: 0 <= j < |rs| ==> !KeyLess(SortKey(rs[j]), SortKey(rs[m]))
    requires forall j :: 0 <= j < m ==> KeyLess(SortKey(rs[m]), SortKey(rs[j]))
    requires forall j :: 0 <= j < |rs| ==> !KeyLess(SortKey(rs[j]), SortKey(rs[m']))
    requires forall j :: 0 <= j < m' ==> KeyLess(SortKey(rs[m']), SortKey(rs[j]))
    ensures m == m'
  {
    assert !KeyLess(SortKey(rs[m']), SortKey(rs[m]));
    assert !KeyLess(SortKey(rs[m]), SortKey(rs[m']));
  }

  /** `recommend_master_record(group)`: `None` for an empty group, else the `Id` of the record the
      ascending sort on (CreatedDate, LastModifiedDate) puts first. */
  function RecommendMaster(records: seq<DupRecord>): (r: Option<string>)
    ensures r.None? <==> |records| == 0
    ensures r.Some? ==> exists i :: 0 <= i < |records| && records[i].id == r.value
                                    && (forall j :: 0 <= j < |records| ==> !KeyLess(SortKey(records[j]), SortKey(records[i])))
                                    && (forall j :: 0 <= j < i ==> KeyLess(SortKey(records[i]), SortKey(records[j])))
  {
    if |records| == 0 then None
    else
      var m := FrontIndex(records, |records|);
      Some(records[m].id)
  }

  /** The oldest record wins whatever the order of the group. */
  lemma OldestIsMaster(records: seq<DupRecord>, i: nat)
    requires i < |records|
    requires forall j :: 0 <= j < |records| && j != i ==> Less(SortKey(records[i]).0, SortKey(records[j]).0)
    ensures RecommendMaster(records) == Some(records[i].id)
  {
    var m := FrontIndex(records, |records|);
    assert !KeyLess(SortKey(records[i]), SortKey(records[m]));
  }

  /** On a tie of creation dates, the earlier modification date wins: the sort is ascending on both
      keys, so the "newest modified" preference is not what it computes. */
  lemma TieGoesToOlderModification(a: DupRecord, b: DupRecord)
    requires a.created == b.created && a.modified.Some? && b.modified.Some?
    requires Less(a.modified.value, b.modified.value)
    ensures RecommendMaster([b, a]) == Some(a.id)
  {
    var m := FrontIndex([b, a], 2);
    assert !KeyLess(SortKey([b, a][1]), SortKey([b, a][m]));
  }

  /** `str(value).replace("'", "\\'")` */
  function Escape(s: string): (r: string)
    ensures |r| == |s| + CountChar(s, '\'')
    decreases |s|
  {
    if |s| == 0 then []
    else (if s[0] == '\'' then "\\'" else [s[0]]) + Escape(s[1..])
  }

  /** The inverse of `Escape` alone: each `\'` stands for a quote and every other character for itself.
      SOQL reads a literal differently, since a backslash escapes whatever follows it; `ReadLiteral`
      is that reading. */
  function Unescape(s: string): string
    decreases |s|
  {
    if |s| == 0 then []
    else if |s| >= 2 && s[0] == '\\' && s[1] == '\'' then "'" + Unescape(s[2..])
    else [s[0]] + Unescape(s[1..])
  }

  /** Escaping never leaves a quote at the front: every quote is preceded by a backslash. */
  lemma EscapeNoLeadingQuote(s: string)
    ensures |Escape(s)| > 0 ==> Escape(s)[0] != '\''
  {
  }

  /** `Unescape` undoes `Escape`. This is not SOQL's reading of the literal, under which a value
      ending in a backslash does not read back (see `TrailingBackslashUnclosed`). */
  lemma {:induction false} EscapeRoundTrip(s: string)
    ensures Unescape(Escape(s)) == s
    decreases |s|
  {
    if |s| > 0 {
      EscapeRoundTrip(s[1..]);
      var rest := Escape(s[1..]);
      if s[0] == '\'' {
        assert Escape(s) == "\\'" + rest;
        assert Escape(s)[2..] == rest;
      } else {
        EscapeNoLeadingQuote(s[1..]);
        assert Escape(s) == [s[0]] + rest;
        assert Escape(s)[1..] == rest;
      }
    }
  }

  /** Every quote of the escaped text directly follows a backslash. */
  lemma {:induction false} EscapedQuotesPreceded(s: string)
    ensures forall k :: 0 <= k < |Escape(s)| && Escape(s)[k] == '\'' ==> k > 0 && Escape(s)[k - 1] == '\\'
    decreases |s|
  {
    if |s| > 0 {
      EscapedQuotesPreceded(s[1..]);
      EscapeNoLeadingQuote(s[1..]);
      var head: string := if s[0] == '\'' then "\\'" else [s[0]];
      var rest := Escape(s[1..]);
      assert Escape(s) == head + rest;
      forall k | 0 <= k < |Escape(s)| && Escape(s)[k] == '\''
        ensures k > 0 && Escape(s)[k - 1] == '\\'
      {
        if k > |head| {
          assert rest[k - |head|] == '\'';
        }
      }
    }
  }

  /** SOQL's reading of a string literal, from just after its opening quote: `\'` stands for a quote
      and `\\` for a backslash, and the first unescaped quote closes the literal. The result is the
      literal's value and the text after the closing quote, or `None` when the literal never closes
      or holds an escape other than those two. */
  function ReadLiteral(s: string): (r: Option<(string, string)>)
    ensures r.Some? ==> |r.value.1| < |s|
    decreases |s|
  {
    if |s| == 0 then None
    else if s[0] == '\'' then Some(([], s[1..]))
    else if s[0] == '\\' then
      if |s| >= 2 && (s[1] == '\'' || s[1] == '\\') then
        match ReadLiteral(s[2..])
        case None => None
        case Some(p) => Some(([s[1]] + p.0, p.1))
      else None
    else
      match ReadLiteral(s[1..])
      case None => None
      case Some(p) => Some(([s[0]] + p.0, p.1))
  }

  /** A character written as `Escape` writes it reads back as itself when it is not a backslash. */
  lemma ReadAfterQuoteEscape(c: char, tail: string, v: string, rest: string)
    requires c != '\\' && ReadLiteral(tail) == Some((v, rest))
    ensures ReadLiteral(Escape([c]) + tail) == Some(([c] + v, rest))
  {
    var w := Escape([c]) + tail;
    if c == '\'' {
      assert Escape([c]) == "\\'" + Escape([]);
      assert w[0] == '\\' && w[1] == '\'' && w[2..] == tail;
    } else {
      assert Escape([c]) == [c] + Escape([]);
      assert w[0] == c && w[1..] == tail;
    }
  }

  /** Escaping quotes alone is right for values without a backslash: SOQL reads the value back and
      the condition resumes just after the closing quote. */
  lemma {:induction false} EscapeReadsBack(s: string, rest: string)
    requires forall k :: 0 <= k < |s| ==> s[k] != '\\'
    ensures ReadLiteral(Escape(s) + "'" + rest) == Some((s, rest))
    decreases |s|
  {
    var w := Escape(s) + "'" + rest;
    if |s| == 0 {
      assert w == "'" + rest;
      assert w[1..] == rest;
    } else {
      EscapeReadsBack(s[1..], rest);
      var tail := Escape(s[1..]) + "'" + rest;
      assert Escape(s) == Escape([s[0]]) + Escape(s[1..]);
      assert w == Escape([s[0]]) + tail;
      ReadAfterQuoteEscape(s[0], tail, s[1..], rest);
      assert s == [s[0]] + s[1..];
    }
  }

  /** A value ending in a backslash breaks the literal as written: the backslash and the closing
      quote read as one escaped quote, so the literal `'a\'` never closes. */
  lemma TrailingBackslashUnclosed()
    ensures ReadLiteral(Escape("a\\") + "'") == None
  {
    var a: string := "a\\";
    assert Escape(a[1..][1..]) == [];
    assert Escape(a[1..]) == "\\";
    assert Escape(a) == "a\\";
    var w: string := "a\\'";
    assert w[1..][2..] == [];
    assert ReadLiteral(w[1..]) == None;
  }

  /** How `EscapeSoql` writes one character. */
  function SoqlEscapeChar(c: char): string {
    if c == '\'' then "\\'" else if c == '\\' then "\\\\" else [c]
  }

  /** Escaping for a SOQL literal: each backslash and each single quote gets a backslash in front. */
  function EscapeSoql(s: string): (r: string)
    ensures |r| == |s| + CountChar(s, '\'') + CountChar(s, '\\')
    decreases |s|
  {
    if |s| == 0 then [] else SoqlEscapeChar(s[0]) + EscapeSoql(s[1..])
  }

  /** Every character written by `EscapeSoql` reads back as itself. */
  lemma ReadAfterSoqlEscape(c: char, tail: string, v: string, rest: string)
    requires ReadLiteral(tail) == Some((v, rest))
    ensures ReadLiteral(SoqlEscapeChar(c) + tail) == Some(([c] + v, rest))
  {
    var w := SoqlEscapeChar(c) + tail;
    if c == '\'' || c == '\\' {
      assert w[0] == '\\' && w[1] == c && w[2..] == tail;
    } else {
      assert w[0] == c && w[1..] == tail;
    }
  }

  /** Every value survives `EscapeSoql`: SOQL reads it back exactly, and the condition resumes just
      after the closing quote. */
  lemma {:induction false} EscapeSoqlReadsBack(s: string, rest: string)
    ensures ReadLiteral(EscapeSoql(s) + "'" + rest) == Some((s, rest))
    decreases |s|
  {
    var w := EscapeSoql(s) + "'" + rest;
    if |s| == 0 {
      assert w == "'" + rest;
      assert w[1..] == rest;
    } else {
      EscapeSoqlReadsBack(s[1..], rest);
      var tail := EscapeSoql(s[1..]) + "'" + rest;
      assert w == SoqlEscapeChar(s[0]) + tail;
      ReadAfterSoqlEscape(s[0], tail, s[1..], rest);
      assert s == [s[0]] + s[1..];
    }
  }

  /** One WHERE condition as the script writes it: `field = 'escaped'`, with only the quotes escaped.
      SOQL reads the value back when it holds no backslash. */
  function Condition(field: string, value: Value): (r: string)
    ensures |r| > |field| + 4
    ensures r[..|field| + 4] == field + " = '"
    ensures r[|field| + 4..] == Escape(PyStr(value)) + "'"
    ensures (forall k :: 0 <= k < |PyStr(value)| ==> PyStr(value)[k] != '\\')
            ==> ReadLiteral(r[|field| + 4..]) == Some((PyStr(value), ""))
  {
    var r := field + " = '" + Escape(PyStr(value)) + "'";
    assert r[|field| + 4..] == Escape(PyStr(value)) + "'";
    assert Escape(PyStr(value)) + "'" == Escape(PyStr(value)) + "'" + "";
    if forall k :: 0 <= k < |PyStr(value)| ==> PyStr(value)[k] != '\\' then
      EscapeReadsBack(PyStr(value), "");
      r
    else r
  }

  /** The corrected condition: the value escaped with `EscapeSoql`, so that SOQL reads every value
      back. */
  function ConditionSoql(field: string, value: Value): (r: string)
    ensures |r| > |field| + 4
    ensures r[..|field| + 4] == field + " = '"
    ensures ReadLiteral(r[|field| + 4..]) == Some((PyStr(value), ""))
  {
    var r := field + " = '" + EscapeSoql(PyStr(value)) + "'";
    assert r[|field| + 4..] == EscapeSoql(PyStr(value)) + "'" + "";
    EscapeSoqlReadsBack(PyStr(value), "");
    r
  }

  /** Reference definition: the fields whose group value is truthy, in field order. */
  function TruthyFields(fields: seq<string>, values: Dict<Value>): (r: seq<string>)
    ensures forall f :: f in r ==> f in fields && Get(values, f).Some? && Truthy(Get(values, f).value)
    decreases |fields|
  {
    if |fields| == 0 then []
    else
      var v := Get(values, fields[0]);
      (if v.Some? && Truthy(v.value) then [fields[0]] else []) + TruthyFields(fields[1..], values)
  }

  /** The conditions of the WHERE clause, one per field with a truthy value. */
  function Conditions(fields: seq<string>, values: Dict<Value>): seq<string>
    decreases |fields|
  {
    if |fields| == 0 then []
    else
      var v := Get(values, fields[0]);
      (if v.Some? && Truthy(v.value) then [Condition(fields[0], v.value)] else []) + Conditions(fields[1..], values)
  }

  /** Condition `k` is the condition of truthy field `k`, with that field's value. */
  predicate ConditionsMatch(cs: seq<string>, ts: seq<string>, values: Dict<Value>) {
    && |cs| == |ts|
    && forall k :: 0 <= k < |cs| ==> Get(values, ts[k]).Some? && cs[k] == Condition(ts[k], Get(values, ts[k]).value)
  }

  /** The conditions are exactly the truthy fields, in order, each with its escaped value. */
  lemma {:induction false} ConditionsOfTruthyFields(fields: seq<string>, values: Dict<Value>)
    ensures ConditionsMatch(Conditions(fields, values), TruthyFields(fields, values), values)
    decreases |fields|
  {
    if |fields| > 0 {
      ConditionsOfTruthyFields(fields[1..], values);
      ConditionsCons(fields, values);
    }
  }

  lemma ConditionsCons(fields: seq<string>, values: Dict<Value>)
    requires |fields| > 0
    requires ConditionsMatch(Conditions(fields[1..], values), TruthyFields(fields[1..], values), values)
    ensures ConditionsMatch(Conditions(fields, values), TruthyFields(fields, values), values)
  {
    var v := Get(values, fields[0]);
    var cs := Conditions(fields[1..], values);
    var ts := TruthyFields(fields[1..], values);
    if v.Some? && Truthy(v.value) {
      ConsMatch(Condition(fields[0], v.value), fields[0], cs, ts, values);
    } else {
      assert Conditions(fields, values) == cs;
    }
  }

  lemma ConsMatch(c: string, t: string, cs: seq<string>, ts: seq<string>, values: Dict<Value>)
    requires Get(values, t).Some? && c == Condition(t, Get(values, t).value)
    requires ConditionsMatch(cs, ts, values)
    ensures ConditionsMatch([c] + cs, [t] + ts, values)
  {
    var a := [c] + cs;
    var b := [t] + ts;
    forall k | 0 <= k < |a|
      ensures Get(values, b[k]).Some? && a[k] == Condition(b[k], Get(values, b[k]).value)
    {
      if k > 0 {
        assert a[k] == cs[k - 1] && b[k] == ts[k - 1];
      }
    }
  }

  /** The WHERE clause of `get_duplicate_records` for one group. */
  function WhereClause(fields: seq<string>, values: Dict<Value>): string {
    Join(" AND ", Conditions(fields, values))
  }

  /** Condition `k` of the WHERE clause names truthy field `k`, and SOQL reads that field's value
      back from it unless the value holds a backslash. */
  lemma ConditionReadsBack(fields: seq<string>, values: Dict<Value>, k: nat)
    requires k < |Conditions(fields, values)|
    ensures k < |TruthyFields(fields, values)|
    ensures var t := TruthyFields(fields, values)[k];
            var c := Conditions(fields, values)[k];
            && Get(values, t).Some? && |c| > |t| + 4 && c[..|t| + 4] == t + " = '"
            && ((forall i :: 0 <= i < |PyStr(Get(values, t).value)| ==> PyStr(Get(values, t).value)[i] != '\\')
                ==> ReadLiteral(c[|t| + 4..]) == Some((PyStr(Get(values, t).value), "")))
  {
    ConditionsOfTruthyFields(fields, values);
  }

  /** No truthy value, no condition: the clause is empty. */
  lemma {:induction false} EmptyWhere(fields: seq<string>, values: Dict<Value>)
    requires forall f :: f in fields ==> Get(values, f).None? || !Truthy(Get(values, f).value)
    ensures Conditions(fields, values) == []
    ensures WhereClause(fields, values) == ""
    decreases |fields|
  {
    if |fields| > 0 {
      assert fields[0] in fields;
      assert forall f :: f in fields[1..] ==> f in fields;
      EmptyWhere(fields[1..], values);
    }
  }

  /** The value of truthy field `k`. */
  function TruthyValue(fields: seq<string>, values: Dict<Value>, k: nat): Value
    requires k < |TruthyFields(fields, values)|
  {
    assert TruthyFields(fields, values)[k] in TruthyFields(fields, values);
    Get(values, TruthyFields(fields, values)[k]).value
  }

  /** The indentation of the triple-quoted query in `get_duplicate_records`. */
  const QueryIndent: string := "\n            "

  /** The query of `get_duplicate_records` before it is put on one line: the triple-quoted template,
      line breaks and indentation included. */
  function QueryTemplate(sobject: string, fields: seq<string>, values: Dict<Value>): string {
    QueryIndent + "SELECT Id, " + Join(", ", fields) + ", CreatedDate, LastModifiedDate"
    + QueryIndent + "FROM " + sobject
    + QueryIndent + "WHERE " + WhereClause(fields, values)
    + QueryIndent + "ORDER BY CreatedDate ASC" + "\n        "
  }

  /** The query `get_duplicate_records` sends, as written: `' '.join(query.split())` puts the template
      on one line by collapsing every whitespace run, those inside the quoted values included. */
  function SentQuery(sobject: string, fields: seq<string>, values: Dict<Value>): (r: string)
    ensures WellSpaced(r)
    ensures Words(r) == Words(QueryTemplate(sobject, fields, values))
  {
    CollapseWhitespace(QueryTemplate(sobject, fields, values))
  }

  /** SOQL reads a literal out of single-spaced text as a single-spaced value: an escape stands for a
      quote or a backslash, never for whitespace. */
  lemma {:induction false} ReadSingleSpaced(s: string)
    requires SingleSpaced(s) && ReadLiteral(s).Some?
    ensures SingleSpaced(ReadLiteral(s).value.0)
    ensures var v := ReadLiteral(s).value.0; |v| > 0 && IsSpace(v[0]) ==> v[0] == s[0]
    decreases |s|
  {
    if s[0] == '\'' {
    } else if s[0] == '\\' {
      SingleSpacedSuffix(s, 2);
      ReadSingleSpaced(s[2..]);
      SingleSpacedCons(s[1], ReadLiteral(s[2..]).value.0);
    } else {
      SingleSpacedSuffix(s, 1);
      ReadSingleSpaced(s[1..]);
      SingleSpacedCons(s[0], ReadLiteral(s[1..]).value.0);
    }
  }

  /** As written, a value holding a tab, a line break or a run of whitespace is read back at no
      position of the query sent: the collapse rewrites the quoted value too, so the group's own
      records do not match. */
  lemma SentQueryMissesValue(sobject: string, fields: seq<string>, values: Dict<Value>, k: nat)
    requires k < |TruthyFields(fields, values)|
    requires !SingleSpaced(PyStr(TruthyValue(fields, values, k)))
    ensures var q := SentQuery(sobject, fields, values);
            forall o :: 0 <= o <= |q| ==>
              ReadLiteral(q[o..]).None? || ReadLiteral(q[o..]).value.0 != PyStr(TruthyValue(fields, values, k))
  {
    var q := SentQuery(sobject, fields, values);
    forall o | 0 <= o <= |q|
      ensures ReadLiteral(q[o..]).None? || ReadLiteral(q[o..]).value.0 != PyStr(TruthyValue(fields, values, k))
    {
      SingleSpacedSuffix(q, o);
      if ReadLiteral(q[o..]).Some? {
        ReadSingleSpaced(q[o..]);
      }
    }
  }

  /** The corrected query: the template's text written on one line to begin with, so that the WHERE
      clause goes out exactly as built. */
  function OneLineQuery(sobject: string, fields: seq<string>, values: Dict<Value>): string {
    SelectWhere(sobject, fields) + WhereClause(fields, values) + OrderBy
  }

  function SelectWhere(sobject: string, fields: seq<string>): string {
    "SELECT Id, " + Join(", ", fields) + ", CreatedDate, LastModifiedDate FROM " + sobject + " WHERE "
  }

  const OrderBy: string := " ORDER BY CreatedDate ASC"

  /** In the one-line query SOQL reads back every truthy field's value that holds no backslash,
      whatever its whitespace, at the literal of the field's condition. */
  lemma OneLineQueryReadsBack(sobject: string, fields: seq<string>, values: Dict<Value>, k: nat)
    requires k < |TruthyFields(fields, values)|
    requires forall i :: 0 <= i < |PyStr(TruthyValue(fields, values, k))| ==> PyStr(TruthyValue(fields, values, k))[i] != '\\'
    ensures var q := OneLineQuery(sobject, fields, values);
            exists o :: 0 <= o <= |q| && ReadLiteral(q[o..]).Some?
                        && ReadLiteral(q[o..]).value.0 == PyStr(TruthyValue(fields, values, k))
                        && EndsWith(ReadLiteral(q[o..]).value.1, " ORDER BY CreatedDate ASC")
  {
    var t := TruthyFields(fields, values)[k];
    var v := PyStr(TruthyValue(fields, values, k));
    var before, after := ConditionAt(fields, values, k);
    var q := OneLineQuery(sobject, fields, values);
    Regroup(q, SelectWhere(sobject, fields), before, t + " = '", Escape(v) + "'", after, OrderBy);
    LiteralAt(q, SelectWhere(sobject, fields) + before + (t + " = '"), v, after + OrderBy, OrderBy);
  }

  /** Where condition `k` sits in the WHERE clause. */
  lemma ConditionAt(fields: seq<string>, values: Dict<Value>, k: nat) returns (before: string, after: string)
    requires k < |TruthyFields(fields, values)|
    ensures WhereClause(fields, values)
            == before + (TruthyFields(fields, values)[k] + " = '" + (Escape(PyStr(TruthyValue(fields, values, k))) + "'")) + after
  {
    ConditionsOfTruthyFields(fields, values);
    var cs := Conditions(fields, values);
    var t := TruthyFields(fields, values)[k];
    before, after := JoinAround(" AND ", cs, k);
    assert cs[k] == cs[k][..|t| + 4] + cs[k][|t| + 4..];
  }

  lemma Regroup(q: string, front: string, before: string, opening: string, literal: string, after: string, back: string)
    requires q == front + (before + (opening + literal) + after) + back
    ensures q == front + before + opening + (literal + (after + back))
  {
  }

  /** A value without a backslash, escaped and closed at offset `|head|` of `q`, reads back there. */
  lemma LiteralAt(q: string, head: string, v: string, tail: string, suffix: string)
    requires q == head + (Escape(v) + "'" + tail)
    requires forall i :: 0 <= i < |v| ==> v[i] != '\\'
    requires EndsWith(tail, suffix)
    ensures exists o :: 0 <= o <= |q| && ReadLiteral(q[o..]).Some? && ReadLiteral(q[o..]).value.0 == v
                        && EndsWith(ReadLiteral(q[o..]).value.1, suffix)
  {
    EscapeReadsBack(v, tail);
    assert q[|head|..] == Escape(v) + "'" + tail;
  }

  /** The HAVING-style guard of `find_duplicate_field_values`: `field != null` per field. */
  function NullGuard(fields: seq<string>): string {
    Join(" AND ", seq(|fields|, k requires 0 <= k < |fields| => fields[k] + " != null"))
  }

  /** One more field adds exactly one more condition at the end. */
  lemma NullGuardSnoc(fields: seq<string>, f: string)
    ensures NullGuard(fields + [f]) == if |fields| == 0 then f + " != null" else NullGuard(fields) + " AND " + f + " != null"
  {
    var parts := seq(|fields|, k requires 0 <= k < |fields| => fields[k] + " != null");
    var parts' := seq(|fields| + 1, k requires 0 <= k < |fields| + 1 => (fields + [f])[k] + " != null");
    assert parts' == parts + [f + " != null"];
    JoinSnoc(" AND ", parts, f + " != null");
  }

  lemma {:induction false} JoinSnoc(sep: string, parts: seq<string>, p: string)
    ensures Join(sep, parts + [p]) == if |parts| == 0 then p else Join(sep, parts) + sep + p
    decreases |parts|
  {
    if |parts| == 1 {
      assert parts + [p] == [parts[0], p];
    } else if |parts| > 1 {
      JoinSnoc(sep, parts[1..], p);
      assert (parts + [p])[1..] == parts[1..] + [p];
    }
  }

  /** Records affected, summed over groups. */
  function TotalRecords(groups: seq<DupGroup>): nat
    decreases |groups|
  {
    if |groups| == 0 then 0 else TotalRecords(groups[..|groups| - 1]) + |groups[|groups| - 1].records|
  }

  /** `total_records - len(duplicate_groups)`, the "Records to Merge/Delete" line. */
  function ToMerge(groups: seq<DupGroup>): int {
    TotalRecords(groups) - |groups|
  }

  /** A row of the export. */
  datatype ExportRow = ExportRow(group: nat, isMaster: bool, id: string, created: string, modified: string,
                                 matchFields: seq<Value>)

  function FieldCell(r: DupRecord, field: string): Value {
    Get(r.values, field).GetOr(Str(""))
  }

  /** The rows of one group, in record order. */
  function GroupRows(i: nat, fields: seq<string>, records: seq<DupRecord>, master: Option<string>): (rows: seq<ExportRow>)
    ensures |rows| == |records|
    ensures forall k :: 0 <= k < |rows| ==> rows[k].group == i && rows[k].id == records[k].id
                                             && (rows[k].isMaster <==> master == Some(records[k].id))
  {
    seq(|records|, k requires 0 <= k < |records| =>
      var r := records[k];
      ExportRow(i, master == Some(r.id), r.id, r.created.GetOr(""), r.modified.GetOr(""),
                seq(|fields|, f requires 0 <= f < |fields| => FieldCell(r, fields[f]))))
  }

  /** `export_to_csv`: every group's rows, groups numbered from 1. */
  function ExportRows(fields: seq<string>, groups: seq<DupGroup>): (rows: seq<ExportRow>)
    ensures |rows| == TotalRecords(groups)
    decreases |groups|
  {
    if |groups| == 0 then []
    else
      var last := groups[|groups| - 1];
      ExportRows(fields, groups[..|groups| - 1]) + GroupRows(|groups|, fields, last.records, RecommendMaster(last.records))
  }

  function CountMasters(rows: seq<ExportRow>): nat
    decreases |rows|
  {
    if |rows| == 0 then 0 else CountMasters(rows[..|rows| - 1]) + (if rows[|rows| - 1].isMaster then 1 else 0)
  }

  lemma {:induction false} CountMastersAppend(a: seq<ExportRow>, b: seq<ExportRow>)
    ensures CountMasters(a + b) == CountMasters(a) + CountMasters(b)
    decreases |b|
  {
    if |b| == 0 {
      assert a + b == a;
    } else {
      assert (a + b)[..|a + b| - 1] == a + b[..|b| - 1];
      CountMastersAppend(a, b[..|b| - 1]);
    }
  }

  predicate UniqueIds(records: seq<DupRecord>) {
    forall i, j :: 0 <= i < j < |records| ==> records[i].id != records[j].id
  }

  /** Rows marked as master among `rows`, counted by the positions whose record has the master's Id. */
  lemma {:induction false} MastersCountIds(rows: seq<ExportRow>, records: seq<DupRecord>, master: string, n: nat)
    requires n <= |rows| == |records|
    requires forall k :: 0 <= k < |rows| ==> (rows[k].isMaster <==> records[k].id == master)
    requires UniqueIds(records)
    ensures CountMasters(rows[..n]) == (if exists k :: 0 <= k < n && records[k].id == master then 1 else 0)
    decreases n
  {
    if n > 0 {
      MastersCountIds(rows, records, master, n - 1);
      assert rows[..n][..n - 1] == rows[..n - 1];
    }
  }

  /** With distinct Ids, a non-empty group has exactly one master row, an empty one none. */
  lemma OneMasterPerGroup(i: nat, fields: seq<string>, records: seq<DupRecord>)
    requires UniqueIds(records)
    ensures CountMasters(GroupRows(i, fields, records, RecommendMaster(records))) == if |records| == 0 then 0 else 1
  {
    var rows := GroupRows(i, fields, records, RecommendMaster(records));
    if |records| > 0 {
      var master := RecommendMaster(records).value;
      MastersCountIds(rows, records, master, |rows|);
      assert rows[..|rows|] == rows;
    }
  }

  function NonEmptyGroups(groups: seq<DupGroup>): nat
    decreases |groups|
  {
    if |groups| == 0 then 0
    else NonEmptyGroups(groups[..|groups| - 1]) + (if |groups[|groups| - 1].records| == 0 then 0 else 1)
  }

  /** With distinct Ids in each group, the export marks exactly one master per non-empty group, so
      the rows not marked master number `ToMerge` when no group is empty. */
  lemma {:induction false} MastersInExport(fields: seq<string>, groups: seq<DupGroup>)
    requires forall g :: g in groups ==> UniqueIds(g.records)
    ensures CountMasters(ExportRows(fields, groups)) == NonEmptyGroups(groups)
    ensures (forall g :: g in groups ==> |g.records| > 0)
            ==> |ExportRows(fields, groups)| - CountMasters(ExportRows(fields, groups)) == ToMerge(groups)
    decreases |groups|
  {
    if |groups| > 0 {
      var prefix := groups[..|groups| - 1];
      var last := groups[|groups| - 1];
      assert last in groups;
      assert forall g :: g in prefix ==> g in groups;
      MastersInExport(fields, prefix);
      CountMastersAppend(ExportRows(fields, prefix), GroupRows(|groups|, fields, last.records, RecommendMaster(last.records)));
      OneMasterPerGroup(|groups|, fields, last.records);
      if forall g :: g in groups ==> |g.records| > 0 {
        AllNonEmpty(groups);
      }
    }
  }

  lemma {:induction false} AllNonEmpty(groups: seq<DupGroup>)
    requires forall g :: g in groups ==> |g.records| > 0
    ensures NonEmptyGroups(groups) == |groups|
    decreases |groups|
  {
    if |groups| > 0 {
      assert groups[|groups| - 1] in groups;
      assert forall g :: g in groups[..|groups| - 1] ==> g in groups;
      AllNonEmpty(groups[..|groups| - 1]);
    }
  }
}
