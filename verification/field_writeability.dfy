/** scripts/validate_field_writeability.py: classifying assigned fields against the org's field
    metadata and collecting the resulting issues. */
module FieldWriteability {
  import opened Wrappers
  import opened Strings
  import opened StrOrder
  import opened Json

  /** The describe metadata of one field: `updateable`, `calculated` and `type`, each possibly missing. */
  datatype FieldMeta = FieldMeta(updateable: Option<Value>, calculated: Option<Value>, fieldType: Option<string>)

  /** The fields of one SObject by API name. */
  type SObjectMeta = map<string, FieldMeta>

  /** `is_writeable`: `metadata.get('updateable', False)`, so a missing flag means read-only. */
  predicate IsWriteable(m: FieldMeta) {
    m.updateable.Some? && Truthy(m.updateable.value)
  }

  /** `is_formula`: `metadata.get('calculated', False)` */
  predicate IsFormula(m: FieldMeta) {
    m.calculated.Some? && Truthy(m.calculated.value)
  }

  const ExternalMarker: string := "ExternalFieldDefinition"
  const SystemPrefix: string := "System."

  /** `is_external`: the type (default "") contains "ExternalFieldDefinition". */
  predicate IsExternal(m: FieldMeta) {
    Contains(m.fieldType.GetOr(""), ExternalMarker)
  }

  /** `is_system_field`: the type (default "") starts with "System.". */
  predicate IsSystemField(m: FieldMeta) {
    StartsWith(m.fieldType.GetOr(""), SystemPrefix)
  }

  /** `field_type`, defaulting to "Unknown". */
  function FieldType(m: FieldMeta): (t: string)
    ensures m.fieldType.None? ==> t == "Unknown"
    ensures m.fieldType.Some? ==> t == m.fieldType.value
  {
    m.fieldType.GetOr("Unknown")
  }

  const FormulaReason: string := "Formula field (calculated, not stored)"
  const ExternalReason: string := "External field (integration field)"
  const SystemReasonPrefix: string := "System field ("
  const ReadOnlyReasonPrefix: string := "Read-only field (type: "

  /** Why a field is not writeable, the first matching cause winning. */
  datatype Cause = Formula | External | SystemField | ReadOnly

  /** Reference definition of the checking order: formula, external, system, read-only. */
  function CauseOf(m: FieldMeta): (c: Cause)
    ensures c == Formula <==> IsFormula(m)
    ensures c == External <==> !IsFormula(m) && IsExternal(m)
    ensures c == SystemField <==> !IsFormula(m) && !IsExternal(m) && IsSystemField(m)
    ensures c == ReadOnly <==> !IsFormula(m) && !IsExternal(m) && !IsSystemField(m)
  {
    if IsFormula(m) then Formula
    else if IsExternal(m) then External
    else if IsSystemField(m) then SystemField
    else ReadOnly
  }

  /** `get_reason_not_writeable()` */
  function ReasonNotWriteable(m: FieldMeta): (r: string)
    ensures IsFormula(m) ==> r == FormulaReason
    ensures !IsFormula(m) && IsExternal(m) ==> r == ExternalReason
    ensures !IsFormula(m) && !IsExternal(m) && IsSystemField(m) ==> r == SystemReasonPrefix + FieldType(m) + ")"
    ensures !IsFormula(m) && !IsExternal(m) && !IsSystemField(m) ==> r == ReadOnlyReasonPrefix + FieldType(m) + ")"
  {
    if IsFormula(m) then FormulaReason
    else if IsExternal(m) then ExternalReason
    else if IsSystemField(m) then SystemReasonPrefix + FieldType(m) + ")"
    else ReadOnlyReasonPrefix + FieldType(m) + ")"
  }

  /** Reads the cause back from a reason message: the four messages open with different letters. */
  function CauseOfReason(r: string): Cause {
    if |r| == 0 then ReadOnly
    else if r[0] == 'F' then Formula
    else if r[0] == 'E' then External
    else if r[0] == 'S' then SystemField
    else ReadOnly
  }

  /** The reason message names the cause the checking order selects. */
  lemma ReasonNamesCause(m: FieldMeta)
    ensures CauseOfReason(ReasonNotWriteable(m)) == CauseOf(m)
  {
    var t := FieldType(m);
    var r := ReasonNotWriteable(m);
    match CauseOf(m)
    case Formula =>
      assert r[0] == 'F';
    case External =>
      assert r[0] == 'E';
    case SystemField =>
      assert r == SystemReasonPrefix + (t + ")");
      assert r[0] == 'S';
    case ReadOnly =>
      assert r == ReadOnlyReasonPrefix + (t + ")");
      assert r[0] == 'R';
  }

  /** The formula fixture of the unit tests. */
  lemma FormulaExample()
    ensures var m := FieldMeta(Some(Bool(false)), Some(Bool(true)), Some("String"));
            !IsWriteable(m) && IsFormula(m) && ReasonNotWriteable(m) == FormulaReason
  {
  }

  /** A field that is neither calculated nor updateable, whose type starts with "System." and does not
      name an external field definition, is reported as a system field. */
  lemma SystemTyped(t: string)
    requires StartsWith(t, SystemPrefix) && !Contains(t, ExternalMarker)
    ensures var m := FieldMeta(Some(Bool(false)), Some(Bool(false)), Some(t));
            !IsWriteable(m) && IsSystemField(m) && ReasonNotWriteable(m) == SystemReasonPrefix + t + ")"
  {
  }

  /** The external-field fixture of the unit tests. */
  lemma ExternalExample()
    ensures var m := FieldMeta(Some(Bool(false)), Some(Bool(false)), Some("ExternalFieldDefinition"));
            !IsWriteable(m) && IsExternal(m) && ReasonNotWriteable(m) == ExternalReason
  {
    var e: string := "ExternalFieldDefinition";
    assert e[0..0 + |ExternalMarker|] == ExternalMarker;
    ContainsAt(e, ExternalMarker, 0);
  }

  datatype Severity = Error | Warning

  /** One reported issue. */
  datatype Issue =
    | FieldNotFound(sobject: string, field: string)
    | FieldNotWriteable(sobject: string, field: string, fieldType: string, reason: string)
  {
    function Severity(): Severity {
      if FieldNotFound? then Warning else Error
    }
  }

  /** A field that gets an issue: absent from the metadata, or present and not writeable. */
  predicate Flagged(md: SObjectMeta, f: string) {
    f !in md || !IsWriteable(md[f])
  }

  /** The check of one field: at most one issue. */
  function FieldIssue(sobj: string, f: string, md: SObjectMeta): (r: seq<Issue>)
    ensures |r| <= 1
    ensures |r| == 1 <==> Flagged(md, f)
    ensures |r| == 1 ==> r[0].sobject == sobj && r[0].field == f
    ensures |r| == 1 ==> (r[0].FieldNotFound? <==> f !in md)
    ensures |r| == 1 && f in md ==> r[0] == FieldNotWriteable(sobj, f, FieldType(md[f]), ReasonNotWriteable(md[f]))
  {
    if f !in md then [FieldNotFound(sobj, f)]
    else if !IsWriteable(md[f]) then [FieldNotWriteable(sobj, f, FieldType(md[f]), ReasonNotWriteable(md[f]))]
    else []
  }

  /** The checks of `names`, in order. */
  function FieldsIssues(sobj: string, names: seq<string>, md: SObjectMeta): (r: seq<Issue>)
    ensures forall x :: x in r ==> x.sobject == sobj && x.field in names && Flagged(md, x.field)
    decreases |names|
  {
    if |names| == 0 then []
    else
      var r := FieldIssue(sobj, names[0], md) + FieldsIssues(sobj, names[1..], md);
      assert forall x :: x in r ==> x in FieldIssue(sobj, names[0], md) || x in FieldsIssues(sobj, names[1..], md);
      r
  }

  function IssueFields(issues: seq<Issue>): (fs: seq<string>)
    ensures |fs| == |issues|
    ensures forall i :: 0 <= i < |issues| ==> fs[i] == issues[i].field
  {
    seq(|issues|, i requires 0 <= i < |issues| => issues[i].field)
  }

  /** The flagged names, in order. */
  function FlaggedNames(names: seq<string>, md: SObjectMeta): (r: seq<string>)
    decreases |names|
  {
    if |names| == 0 then []
    else (if Flagged(md, names[0]) then [names[0]] else []) + FlaggedNames(names[1..], md)
  }

  lemma {:induction false} FieldsIssuesFields(sobj: string, names: seq<string>, md: SObjectMeta)
    ensures IssueFields(FieldsIssues(sobj, names, md)) == FlaggedNames(names, md)
    decreases |names|
  {
    if |names| > 0 {
      FieldsIssuesFields(sobj, names[1..], md);
      FieldsIssuesFieldsCons(sobj, names, md);
    }
  }

  lemma FieldsIssuesFieldsCons(sobj: string, names: seq<string>, md: SObjectMeta)
    requires |names| > 0
    requires IssueFields(FieldsIssues(sobj, names[1..], md)) == FlaggedNames(names[1..], md)
    ensures IssueFields(FieldsIssues(sobj, names, md)) == FlaggedNames(names, md)
  {
    var head := FieldIssue(sobj, names[0], md);
    var tail := FieldsIssues(sobj, names[1..], md);
    assert FieldsIssues(sobj, names, md) == head + tail;
    IssueFieldsAppend(head, tail);
    assert IssueFields(head) == if Flagged(md, names[0]) then [names[0]] else [];
  }

  lemma IssueFieldsAppend(a: seq<Issue>, b: seq<Issue>)
    ensures IssueFields(a + b) == IssueFields(a) + IssueFields(b)
  {
  }

  lemma {:induction false} FlaggedNamesSorted(names: seq<string>, md: SObjectMeta)
    requires StrictlySorted(names)
    ensures StrictlySorted(FlaggedNames(names, md))
    ensures forall f :: f in FlaggedNames(names, md) <==> f in names && Flagged(md, f)
    decreases |names|
  {
    if |names| > 0 {
      assert StrictlySorted(names[1..]);
      FlaggedNamesSorted(names[1..], md);
      assert forall f :: f in names <==> f == names[0] || f in names[1..];
      forall f | f in names[1..] ensures Less(names[0], f) {
        var j :| 0 <= j < |names[1..]| && names[1..][j] == f;
        assert names[j + 1] == f;
      }
    }
  }

  /** `_validate_sobject_fields` once the metadata is known: the fields in sorted order, one issue
      per flagged field. */
  function SObjectIssues(sobj: string, fields: set<string>, md: SObjectMeta): seq<Issue> {
    FieldsIssues(sobj, SortSet(fields), md)
  }

  /** The issues of one SObject name only its flagged fields, all of them, in strictly increasing order. */
  lemma SObjectIssuesSpec(sobj: string, fields: set<string>, md: SObjectMeta)
    ensures var r := SObjectIssues(sobj, fields, md);
            && (forall x :: x in r ==> x.sobject == sobj && x.field in fields && Flagged(md, x.field))
            && StrictlySorted(IssueFields(r))
            && (forall f :: f in IssueFields(r) <==> f in fields && Flagged(md, f))
  {
    var names := SortSet(fields);
    FieldsIssuesFields(sobj, names, md);
    FlaggedNamesSorted(names, md);
  }

  /** Exactly one issue per flagged field, and none for a writeable one: the issue fields are
      strictly increasing, so no field repeats. */
  lemma OneIssuePerFlaggedField(sobj: string, fields: set<string>, md: SObjectMeta, f: string)
    requires f in fields
    ensures Flagged(md, f) ==> exists i :: 0 <= i < |SObjectIssues(sobj, fields, md)|
                                 && SObjectIssues(sobj, fields, md)[i].field == f
    ensures forall i, j :: 0 <= i < j < |SObjectIssues(sobj, fields, md)|
              ==> SObjectIssues(sobj, fields, md)[i].field != SObjectIssues(sobj, fields, md)[j].field
    ensures !Flagged(md, f) ==> forall x :: x in SObjectIssues(sobj, fields, md) ==> x.field != f
  {
    var r := SObjectIssues(sobj, fields, md);
    var fs := IssueFields(r);
    SObjectIssuesSpec(sobj, fields, md);
    if Flagged(md, f) {
      assert f in fs;
    }
    forall i, j | 0 <= i < j < |r| ensures r[i].field != r[j].field {
      assert Less(fs[i], fs[j]);
      LessIrreflexive(fs[i]);
    }
  }

  /** Apex field assignments found in one source file: SObject variable name to field names. */
  type Assignments = map<string, set<string>>

  /** The position of the last `c` in `s`, if any (`str.rfind`). */
  function RFind(s: string, c: char): (r: Option<nat>)
    ensures r.Some? ==> r.value < |s| && s[r.value] == c && forall k :: r.value < k < |s| ==> s[k] != c
    ensures r.None? ==> c !in s
    decreases |s|
  {
    if |s| == 0 then None
    else if s[|s| - 1] == c then Some(|s| - 1)
    else RFind(s[..|s| - 1], c)
  }

  /** `Path(name).suffix`: from the last dot, unless that dot starts or ends the name. */
  function Suffix(name: string): (r: string)
    ensures r == "" || (r[0] == '.' && EndsWith(name, r) && |r| >= 2 && |r| < |name|)
  {
    match RFind(name, '.')
    case None => ""
    case Some(i) => if 0 < i < |name| - 1 then name[i..] else ""
  }

  /** A file counts as Apex iff its name ends in ".cls" after a non-empty stem. */
  lemma {:induction false} ApexSuffix(name: string)
    ensures Suffix(name) == ".cls" <==> EndsWith(name, ".cls") && |name| > 4
  {
    if EndsWith(name, ".cls") && |name| > 4 {
      var i := |name| - 4;
      assert name[i..] == ".cls";
      assert name[i] == '.';
      var r := RFind(name, '.');
      assert '.' in name;
      assert r.value >= i;
      assert r.value == i by {
        assert name[i + 1] == 'c' && name[i + 2] == 'l' && name[i + 3] == 's';
      }
    }
  }

  /** A name whose last dot follows a non-empty stem and precedes a non-empty extension has that suffix;
      a name whose only dot comes first has none. */
  lemma SuffixAfterStem(stem: string, ext: string)
    requires '.' !in ext && |ext| > 0
    ensures Suffix(stem + "." + ext) == if |stem| > 0 then "." + ext else ""
  {
    var name := stem + "." + ext;
    var i := |stem|;
    assert name[i] == '.';
    var r := RFind(name, '.');
    assert r == Some(i) by {
      assert r.Some?;
    }
    assert name[i..] == "." + ext;
  }

  /** A regex match of an assignment pattern: the SObject variable (group 1) and the field (last group). */
  type AssignmentMatch = (string, string)

  /** Matches grouped by SObject variable, case preserved. */
  function GroupMatches(matches: seq<AssignmentMatch>): (a: Assignments)
    ensures forall s, f :: s in a && f in a[s] <==> (s, f) in matches
  {
    map s | s in MatchedSObjects(matches) :: MatchedFields(matches, s)
  }

  function MatchedSObjects(matches: seq<AssignmentMatch>): set<string> {
    set m | m in matches :: m.0
  }

  function MatchedFields(matches: seq<AssignmentMatch>, s: string): set<string> {
    set m | m in matches && m.0 == s :: m.1
  }

  /** `_extract_assignments(file_path, content)`: the pattern matches count only for an Apex file. */
  function ExtractAssignments(fileName: string, matches: seq<AssignmentMatch>): (a: Assignments)
    ensures Suffix(fileName) != ".cls" ==> a == map[]
    ensures Suffix(fileName) == ".cls" ==> forall s, f :: s in a && f in a[s] <==> (s, f) in matches
  {
    if Suffix(fileName) == ".cls" then GroupMatches(matches) else map[]
  }

  /** `all_assignments[sobj].update(fields)` for every SObject of one file. */
  function MergeAssignments(all: Assignments, a: Assignments): (r: Assignments)
    ensures r.Keys == all.Keys + a.Keys
    ensures forall s, f :: s in r && f in r[s] <==> (s in all && f in all[s]) || (s in a && f in a[s])
  {
    map s | s in all.Keys + a.Keys :: (if s in all then all[s] else {}) + (if s in a then a[s] else {})
  }

  /** One source file: its name, and the assignment matches of its text, or `None` when the text
      is not valid UTF-8 and the file is skipped. */
  datatype SourceFile = SourceFile(name: string, matches: Option<seq<AssignmentMatch>>)

  /** One file assigns `f` on `s`: it is a decodable Apex file and a pattern matched the pair. */
  predicate FileAssigns(file: SourceFile, s: string, f: string) {
    Suffix(file.name) == ".cls" && file.matches.Some? && (s, f) in file.matches.value
  }

  /** Reference definition: an SObject-field pair is assigned iff some file assigns it. */
  predicate Assigned(files: seq<SourceFile>, s: string, f: string) {
    exists file :: file in files && FileAssigns(file, s, f)
  }

  /** The extraction loop of `validate`: per-file maps merged by set union. */
  function AllAssignments(files: seq<SourceFile>): (r: Assignments)
    ensures forall s, f :: s in r && f in r[s] <==> Assigned(files, s, f)
    decreases |files|
  {
    if |files| == 0 then map[]
    else
      var prefix := files[..|files| - 1];
      var last := files[|files| - 1];
      var before := AllAssignments(prefix);
      assert files == prefix + [last];
      assert forall s, f :: Assigned(files, s, f) <==> Assigned(prefix, s, f) || FileAssigns(last, s, f);
      match last.matches
      case None => before
      case Some(ms) => MergeAssignments(before, ExtractAssignments(last.name, ms))
  }

  /** SObject metadata as the org describes it; a missing key is an SObject the org does not know. */
  type OrgMeta = map<string, SObjectMeta>

  /** Metadata that `_validate_sobject_fields` accepts: present and not empty. */
  predicate Described(org: OrgMeta, sobj: string) {
    sobj in org && |org[sobj]| > 0
  }

  /** The metadata `_validate_sobject_fields` works with: the cached entry, else the org's
      description when it is present and not empty. */
  function MetadataFor(cache: OrgMeta, org: OrgMeta, s: string): Option<SObjectMeta> {
    if s in cache then Some(cache[s]) else if Described(org, s) then Some(org[s]) else None
  }

  /** Reference definition: the issues of the SObjects `sobjs`, in order; one without metadata adds none. */
  function IssuesOf(sobjs: seq<string>, all: Assignments, cache: OrgMeta, org: OrgMeta): (r: seq<Issue>)
    requires forall s :: s in sobjs ==> s in all
    decreases |sobjs|
  {
    if |sobjs| == 0 then []
    else
      var prefix := sobjs[..|sobjs| - 1];
      var s := sobjs[|sobjs| - 1];
      assert forall t :: t in prefix ==> t in sobjs;
      var md := MetadataFor(cache, org, s);
      IssuesOf(prefix, all, cache, org) + (if md.Some? then SObjectIssues(s, all[s], md.value) else [])
  }

  /** Issues name only SObjects that were checked and had metadata. */
  lemma {:induction false} IssuesOfSpec(sobjs: seq<string>, all: Assignments, cache: OrgMeta, org: OrgMeta)
    requires forall s :: s in sobjs ==> s in all
    ensures forall x :: x in IssuesOf(sobjs, all, cache, org)
              ==> (x.sobject in sobjs && MetadataFor(cache, org, x.sobject).Some?
                   && x.field in all[x.sobject])
    decreases |sobjs|
  {
    if |sobjs| > 0 {
      var prefix := sobjs[..|sobjs| - 1];
      assert forall t :: t in prefix ==> t in sobjs;
      IssuesOfSpec(prefix, all, cache, org);
      var s := sobjs[|sobjs| - 1];
      var md := MetadataFor(cache, org, s);
      if md.Some? {
        SObjectIssuesSpec(s, all[s], md.value);
      }
    }
  }

  lemma IssuesOfSnoc(sobjs: seq<string>, i: nat, all: Assignments, cache: OrgMeta, org: OrgMeta)
    requires i < |sobjs| && forall s :: s in sobjs ==> s in all
    ensures var s := sobjs[i];
            var md := MetadataFor(cache, org, s);
            IssuesOf(sobjs[..i + 1], all, cache, org)
            == IssuesOf(sobjs[..i], all, cache, org) + (if md.Some? then SObjectIssues(s, all[s], md.value) else [])
  {
    assert sobjs[..i + 1][..i] == sobjs[..i];
  }

  /** A `FieldValidator` between calls: its metadata cache and its accumulated issue list. */
  datatype ValidatorState = ValidatorState(cache: OrgMeta, issues: seq<Issue>)

  /** `FieldValidator(org_alias)` */
  const FreshValidator: ValidatorState := ValidatorState(map[], [])

  /** The cache after describing `sobjs` in turn: an SObject is added only when it was not cached
      and the org describes it with at least one field. */
  predicate CacheAfter(cache: OrgMeta, cache0: OrgMeta, org: OrgMeta, sobjs: seq<string>) {
    && (forall s :: s in cache ==> s in cache0 || (Described(org, s) && s in sobjs))
    && (forall s :: s in cache0 ==> s in cache)
    && (forall s :: s in sobjs && Described(org, s) ==> s in cache)
    && (forall s :: s in cache ==> cache[s] == if s in cache0 then cache0[s] else org[s])
  }

  /** The cache as the loop grows it. */
  function CacheOf(cache0: OrgMeta, org: OrgMeta, sobjs: seq<string>): (c: OrgMeta)
    decreases |sobjs|
  {
    if |sobjs| == 0 then cache0
    else
      var c := CacheOf(cache0, org, sobjs[..|sobjs| - 1]);
      var s := sobjs[|sobjs| - 1];
      if s !in c && Described(org, s) then c[s := org[s]] else c
  }

  /** Only described SObjects enter the cache, and a cached entry is never replaced. */
  lemma {:induction false} CacheOfSpec(cache0: OrgMeta, org: OrgMeta, sobjs: seq<string>)
    ensures CacheAfter(CacheOf(cache0, org, sobjs), cache0, org, sobjs)
    decreases |sobjs|
  {
    if |sobjs| > 0 {
      var prefix := sobjs[..|sobjs| - 1];
      CacheOfSpec(cache0, org, prefix);
      assert sobjs == prefix + [sobjs[|sobjs| - 1]];
      CacheAfterStep(CacheOf(cache0, org, prefix), cache0, org, prefix, sobjs[|sobjs| - 1]);
    }
  }

  /** One more SObject described: the cache invariant carries over. */
  lemma CacheAfterStep(c: OrgMeta, cache0: OrgMeta, org: OrgMeta, prefix: seq<string>, s: string)
    requires CacheAfter(c, cache0, org, prefix)
    ensures CacheAfter(if s !in c && Described(org, s) then c[s := org[s]] else c, cache0, org, prefix + [s])
  {
    assert forall t :: t in prefix + [s] <==> t in prefix || t == s;
  }

  /** The `for sobj_type, fields in sorted(...)` loop of `validate`. */
  method ValidateSObjects(st: ValidatorState, sobjs: seq<string>, all: Assignments, org: OrgMeta)
    returns (st': ValidatorState)
    requires Distinct(sobjs) && forall s :: s in sobjs ==> s in all
    ensures st'.issues == st.issues + IssuesOf(sobjs, all, st.cache, org)
    ensures st'.cache == CacheOf(st.cache, org, sobjs)
  {
    st' := st;
    var i := 0;
    while i < |sobjs|
      invariant i <= |sobjs|
      invariant st'.issues == st.issues + IssuesOf(sobjs[..i], all, st.cache, org)
      invariant st'.cache == CacheOf(st.cache, org, sobjs[..i])
    {
      st' := ValidateSObject(st, st', sobjs, i, all, org);
      i := i + 1;
    }
    assert sobjs[..i] == sobjs;
  }

  /** `_validate_sobject_fields(sobj_type, fields)` for the `i`-th SObject: look the metadata up in the
      cache, else describe the SObject and cache a non-empty answer, then check its fields. */
  method ValidateSObject(st0: ValidatorState, st: ValidatorState, sobjs: seq<string>, i: nat, all: Assignments, org: OrgMeta)
    returns (st': ValidatorState)
    requires Distinct(sobjs) && i < |sobjs| && forall s :: s in sobjs ==> s in all
    requires st.issues == st0.issues + IssuesOf(sobjs[..i], all, st0.cache, org)
    requires st.cache == CacheOf(st0.cache, org, sobjs[..i])
    ensures st'.issues == st0.issues + IssuesOf(sobjs[..i + 1], all, st0.cache, org)
    ensures st'.cache == CacheOf(st0.cache, org, sobjs[..i + 1])
  {
    var s := sobjs[i];
    var cache := st.cache;
    IssuesOfSnoc(sobjs, i, all, st0.cache, org);
    CacheOfSnoc(st0.cache, org, sobjs, i);
    UnseenMetadata(st0.cache, org, sobjs, i);
    if s !in cache {
      if s !in org || |org[s]| == 0 {
        return st;
      }
      cache := cache[s := org[s]];
    }
    var found := SObjectIssues(s, all[s], cache[s]);
    assert MetadataFor(st0.cache, org, s) == Some(cache[s]);
    assert st.issues + found == st0.issues + (IssuesOf(sobjs[..i], all, st0.cache, org) + found);
    st' := ValidatorState(cache, st.issues + found);
  }

  lemma CacheOfSnoc(cache0: OrgMeta, org: OrgMeta, sobjs: seq<string>, i: nat)
    requires i < |sobjs|
    ensures var c := CacheOf(cache0, org, sobjs[..i]);
            var s := sobjs[i];
            CacheOf(cache0, org, sobjs[..i + 1]) == if s !in c && Described(org, s) then c[s := org[s]] else c
  {
    assert sobjs[..i + 1][..i] == sobjs[..i];
  }

  /** SObjects are visited once each, so the one at hand reads the metadata the cache held at the start. */
  lemma UnseenMetadata(cache0: OrgMeta, org: OrgMeta, sobjs: seq<string>, i: nat)
    requires Distinct(sobjs) && i < |sobjs|
    ensures MetadataFor(CacheOf(cache0, org, sobjs[..i]), org, sobjs[i]) == MetadataFor(cache0, org, sobjs[i])
  {
    var s := sobjs[i];
    assert s !in sobjs[..i];
    CacheOfSpec(cache0, org, sobjs[..i]);
  }

  /** `FieldValidator.validate(source_dir)`: the issue list and exit code it returns, and the
      validator state it leaves. With no files, or no assignment in them, nothing is checked. */
  method Validate(st: ValidatorState, files: seq<SourceFile>, org: OrgMeta)
    returns (st': ValidatorState, issues: seq<Issue>, exitCode: int)
    ensures |files| == 0 || |AllAssignments(files)| == 0 ==> st' == st && issues == [] && exitCode == 0
    ensures |files| > 0 && |AllAssignments(files)| > 0 ==>
              var all := AllAssignments(files);
              && issues == st.issues + IssuesOf(SortSet(all.Keys), all, st.cache, org)
              && st'.issues == issues
              && st'.cache == CacheOf(st.cache, org, SortSet(all.Keys))
    ensures exitCode == 1 <==> |issues| > 0
    ensures exitCode == 0 <==> |issues| == 0
  {
    var all := AllAssignments(files);
    if |files| == 0 || |all| == 0 {
      return st, [], 0;
    }
    var sobjs := SortSet(all.Keys);
    SortedDistinct(sobjs);
    st' := ValidateSObjects(st, sobjs, all, org);
    issues := st'.issues;
    exitCode := if |issues| > 0 then 1 else 0;
  }

  /** The JSON `success` flag and the summary split: errors and warnings partition the issues. */
  function Errors(issues: seq<Issue>): (r: seq<Issue>)
    ensures forall x :: x in r <==> x in issues && x.Severity() == Error
    decreases |issues|
  {
    if |issues| == 0 then []
    else (if issues[0].Severity() == Error then [issues[0]] else []) + Errors(issues[1..])
  }

  function Warnings(issues: seq<Issue>): (r: seq<Issue>)
    ensures forall x :: x in r <==> x in issues && x.Severity() == Warning
    decreases |issues|
  {
    if |issues| == 0 then []
    else (if issues[0].Severity() == Warning then [issues[0]] else []) + Warnings(issues[1..])
  }

  lemma {:induction false} SeverityPartition(issues: seq<Issue>)
    ensures |Errors(issues)| + |Warnings(issues)| == |issues|
    decreases |issues|
  {
    if |issues| > 0 {
      SeverityPartition(issues[1..]);
    }
  }

  /** `if args.max_issues and len(issues) > args.max_issues: issues = issues[:args.max_issues]` */
  function TruncateIssues(issues: seq<Issue>, maxIssues: Option<int>): (r: seq<Issue>)
    ensures maxIssues.None? || maxIssues.value == 0 ==> r == issues
    ensures maxIssues.Some? && maxIssues.value > 0 && |issues| > maxIssues.value
            ==> |r| == maxIssues.value && r == issues[..maxIssues.value]
    ensures maxIssues.Some? && 0 < |issues| <= maxIssues.value ==> r == issues
    ensures |r| <= |issues| && r == issues[..|r|]
  {
    if maxIssues.Some? && maxIssues.value != 0 && |issues| > maxIssues.value
    then SlicePrefix(issues, maxIssues.value)
    else issues
  }
}
