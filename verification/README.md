# Salesforce skill scripts — a Dafny model

This project models the decision logic of the command-line scripts in the
salesforce-skill repository. The scripts query a Salesforce org through the `sf`
CLI and then check, score or reformat what comes back. The model has one Dafny
module per script:

- **QuerySoql**: flattens SOQL result records and renders them as a markdown table.
- **OrgLimits**: sorts org limits into critical, warning and ok buckets, and picks the monitor's exit code.
- **OrgHealth**: computes the org health score and its list of issues from limits, test results and metadata counts.
- **FieldWriteability**: collects the SObject field assignments found in Apex files and checks each field against describe metadata.
- **Visualforce**: finds unsupported attributes, deprecated tags, missing SLDS and possible XSS in Visualforce pages.
- **FindDuplicates**: builds the duplicate-finding queries, recommends a master record and produces the CSV export rows.
- **ExportData**: picks the exported fields and relationship columns, builds the export query, flattens records for CSV and chooses the export path.
- **ApexPerformance**: follows the method stack through an Apex debug log, attributes SOQL and DML to methods, reads limit lines and makes recommendations.
- **ProfileSoql**: lists query-structure issues, judges performance and selectivity, and finds indexed fields in the WHERE clause.
- **RunTests**: formats Apex test results and picks the exit code.

Shared modules:

- **Wrappers**: `Option` and `Result`.
- **Strings**: Python string operations (`in`, `startswith`, `split`, `strip`, `upper`, `replace`, `count`, slicing).
- **StrOrder**: Python's code-point order on strings, and `sorted` on a set of strings.
- **Dicts**: an insertion-ordered dictionary with Python's `d[k] = v` and `update` semantics.
- **Json**: decoded JSON values, Python truthiness and `str()`.
- **Ratios**: two facts that turn percentage comparisons into comparisons of integers.

Everything the scripts obtain from the outside world is a parameter of the model. That covers:

- what the CLI returns;
- the regular-expression matches on a file or a log line;
- the parsed XML tree;
- whether a path stays inside the source directory.

Percentages are exact `real`s.

## Model

| member | source | states |
|---|---|---|
| QuerySoql.FlattenRecord | scripts/query_soql.py:26-45 | the flattened record has unique keys and holds neither a subquery list nor a relationship object |
| QuerySoql.LeafPaths | scripts/query_soql.py:30-38 | reference definition: the dotted paths to the leaves kept by flattening, skipping `attributes` and lists at every depth |
| QuerySoql.FlattenKeys | scripts/query_soql.py:30-43 | a key is in the flattened record exactly when it is one of the dotted leaf paths |
| QuerySoql.LeafValues | scripts/query_soql.py:30-43 | reference definition: the value of each dotted leaf path, in the same order, so one value per path |
| Dicts.UpdateLast | scripts/query_soql.py:37 | after `d.update(e)`, a key of `e` reads the value of its last entry in `e`, and any other key reads as it did in `d` |
| QuerySoql.FlattenReads | scripts/query_soql.py:30-43 | every key of the flattened record reads the value of the last leaf with that dotted key: values are stored unchanged at every depth, a later leaf overwriting an earlier one |
| QuerySoql.FlattenValues | scripts/query_soql.py:30-43 | leaf `j` is stored under its dotted key with its own value (`Account.Name` holds the related account's name) unless a later leaf has the same dotted key |
| QuerySoql.NoAttributesKey | scripts/query_soql.py:31-32 | no flattened key ends in an `attributes` segment |
| QuerySoql.FlattenFlatRecord | scripts/query_soql.py:39-43 | a record without relationships flattens to itself minus `attributes` and list values; other values, including null, are kept unchanged in order |
| QuerySoql.FlattenAll | scripts/query_soql.py:53 | one flattened record per input record, in order |
| QuerySoql.FirstOccurrences | scripts/query_soql.py:56-60 | reference definition of the header list: no repeats, and exactly the keys of the flattened records |
| QuerySoql.Headers | scripts/query_soql.py:56-60 | the headers are the records' keys without repeats, in first-appearance order; a key is a header exactly when some record has it |
| QuerySoql.CollectHeadersIsFirstOccurrences | scripts/query_soql.py:56-60 | the header loop yields the keys in order of first appearance across the records |
| QuerySoql.Truncate | scripts/query_soql.py:73-76 | a cell is at most 50 characters; it is unchanged iff it had at most 50; otherwise it is its first 47 characters followed by `...` |
| QuerySoql.RowCells | scripts/query_soql.py:66-77 | one cell per header, none longer than 50, each the truncated text of that header's value |
| QuerySoql.TableGrid | scripts/query_soql.py:62-79 | the table has a header row, a separator row of `---`, and one row per record, each as wide as the header list; cell `j` of record `i` is that record's value under header `j`, shown as text and truncated |
| QuerySoql.TableLines | scripts/query_soql.py:62-79 | the rendered table has two lines more than there are records, and line `i` is row `i` of the grid in Markdown |
| QuerySoql.RecordLine | scripts/query_soql.py:62-79 | line `i + 2` of the table renders record `i`: its flattened values under the shared headers |
| QuerySoql.FormatTable | scripts/query_soql.py:47-79 | the output is "No results found." exactly when there are no records; otherwise it is the table's lines joined by newlines |
| OrgLimits.UsedPct | scripts/org_limits_monitor.py:68-69 | with a positive max, usage is at least 90% exactly when 10·used ≥ 9·max |
| OrgLimits.LevelOf | scripts/org_limits_monitor.py:79-84 | critical at 90% or more; warning from the threshold up to 90%; ok otherwise |
| OrgLimits.Info | scripts/org_limits_monitor.py:61-68 | no entry exactly when max (default 0) is 0; otherwise the defaults apply, used is max − remaining, and the percentage times max equals 100·used |
| OrgLimits.InfosCount | scripts/org_limits_monitor.py:65-66 | exactly the limits with a non-zero max produce an entry |
| OrgLimits.SkippedInNoBucket | scripts/org_limits_monitor.py:65-66 | every bucketed entry has a non-zero max and comes from one of the input limits |
| OrgLimits.AnalyzeLimits | scripts/org_limits_monitor.py:54-86 | each bucket is the input-order list of the entries at its level; the sizes add up to the number of non-zero-max limits |
| OrgLimits.AddLimit | scripts/org_limits_monitor.py:65-84 | one loop iteration appends the limit to exactly the bucket of its level, and to none when max is 0 |
| OrgLimits.PartitionSizes | scripts/org_limits_monitor.py:79-84 | every entry lands in exactly one bucket |
| OrgLimits.OfLevelAppend | scripts/org_limits_monitor.py:60-84 | bucketing keeps the input order across concatenation |
| OrgLimits.NonEmptyLevel | scripts/org_limits_monitor.py:79-84 | a bucket is non-empty exactly when some entry has that level |
| OrgLimits.ExitStatus | scripts/org_limits_monitor.py:167-173 | 2 iff there is a critical limit; 1 iff none is critical and one is a warning; 0 otherwise |
| OrgLimits.MonitorExit | scripts/org_limits_monitor.py:226-239 | exit 1 when no limit came back; otherwise the exit code stated directly in terms of the limits' percentages: 2 iff one is at or above 90%, else 1 iff one reaches the threshold, else 0 |
| OrgHealth.UsedPct | scripts/org_health_check.py:125-127 | the computation fails (division by zero) exactly when max, defaulting to 1, is 0; a missing remaining means 0% used |
| OrgHealth.BandIssue | scripts/org_health_check.py:129-134 | above 90% the critical issue, above 75% up to 90% the high issue, otherwise none |
| OrgHealth.LimitIssues | scripts/org_health_check.py:123-146 | a limit fails exactly when its max is 0 and its name contains DailyApiRequests or DataStorageMB. Otherwise, for a DailyApiRequests name the API critical issue appears iff usage is over 90% and the API high issue iff it is over 75% and at most 90%; the same holds for DataStorageMB with the storage issues. Each issue carries the usage percentage, there is one issue per name whose usage is over 75%, the API issue comes first, and nothing else appears |
| OrgHealth.AllLimitIssues | scripts/org_health_check.py:122-146 | the score computation fails exactly when some limit fails |
| OrgHealth.TestIssues | scripts/org_health_check.py:149-164 | coverage below 75 costs the below-75 issue, 75 up to 80 the low-coverage issue, and any failing test the failing-tests issue; no other issue appears, there is one issue per condition that holds, and the failing-tests issue comes last |
| OrgHealth.MetadataIssues | scripts/org_health_check.py:167-176 | more than 1000 Apex classes and more than 100 triggers are each one issue; no other issue appears, and the class-count issue comes first |
| OrgHealth.CalculateHealthScore | scripts/org_health_check.py:116-178 | the issues are those of the reference definition; the score is max(0, 100 − the sum of their deductions) and lies in [0, 100] |
| OrgHealth.TotalDeductionPositive | scripts/org_health_check.py:118-176 | every issue deducts at least 5 points |
| OrgHealth.NoInputNoIssue | scripts/org_health_check.py:116-178 | with no limits, no test results and no metadata counts there is no issue |
| OrgHealth.MissingSummaryCostsCoverage | scripts/org_health_check.py:150-155 | test results without a summary read as 0% coverage: one below-75 issue |
| OrgHealth.HealthBand | scripts/org_health_check.py:191-202 | excellent from 90, good from 75, fair from 60, poor below |
| OrgHealth.BandMonotone | scripts/org_health_check.py:191-202 | a higher score never has a worse band: the band's rank from Excellent to Poor never increases with the score |
| FieldWriteability.FieldType | scripts/validate_field_writeability.py:113-116 | the describe type, or "Unknown" when it is missing |
| FieldWriteability.CauseOf | scripts/validate_field_writeability.py:118-126 | the cause is formula, then external, then system field, then read-only: each holds iff its test passes and no earlier one does |
| FieldWriteability.ReasonNotWriteable | scripts/validate_field_writeability.py:118-126 | the message for each cause, with the field type in the system and read-only messages |
| FieldWriteability.ReasonNamesCause | scripts/validate_field_writeability.py:118-126 | the message determines the cause it was produced for |
| FieldWriteability.FormulaExample | scripts/validate_field_writeability.py:98-121 | a calculated, non-updateable field is reported as a formula field |
| FieldWriteability.ExternalExample | scripts/validate_field_writeability.py:103-123 | a non-updateable ExternalFieldDefinition field is reported as external |
| FieldWriteability.SystemTyped | scripts/validate_field_writeability.py:108-125 | a field that is neither calculated nor updateable, whose type starts with `System.` and does not name an external field definition, is reported as a system field naming that type |
| FieldWriteability.FieldIssue | scripts/validate_field_writeability.py:236-262 | one issue exactly when the field is missing or not writeable: a warning when missing, otherwise an error carrying the type and the reason |
| FieldWriteability.FieldsIssues | scripts/validate_field_writeability.py:234-262 | every issue names this SObject and one of the given fields that is missing or not writeable |
| FieldWriteability.FieldsIssuesFields | scripts/validate_field_writeability.py:234-262 | the issues' fields are exactly the flagged fields, in the order checked |
| FieldWriteability.FlaggedNamesSorted | scripts/validate_field_writeability.py:235 | the flagged fields of a sorted list stay strictly sorted |
| FieldWriteability.SObjectIssuesSpec | scripts/validate_field_writeability.py:232-262 | an SObject's issues come in strictly sorted field order, and exactly for its flagged fields |
| FieldWriteability.OneIssuePerFlaggedField | scripts/validate_field_writeability.py:234-262 | each flagged field has exactly one issue; an unflagged field has none |
| FieldWriteability.RFind | scripts/validate_field_writeability.py:195 | the position of the last occurrence of a character, or none |
| FieldWriteability.Suffix | scripts/validate_field_writeability.py:195 | a path suffix is empty or a dot-led proper ending of the name with at least one character after the dot |
| FieldWriteability.SuffixAfterStem | scripts/validate_field_writeability.py:195 | `stem.ext` has suffix `.ext` when the stem is non-empty, and none when the name starts with its only dot |
| FieldWriteability.ApexSuffix | scripts/validate_field_writeability.py:195-197 | a file is treated as Apex exactly when its name ends in `.cls` with something before it |
| FieldWriteability.GroupMatches | scripts/validate_field_writeability.py:208-218 | the grouped assignments hold exactly the matched (SObject, field) pairs, case preserved |
| FieldWriteability.ExtractAssignments | scripts/validate_field_writeability.py:191-220 | non-Apex files contribute nothing; an Apex file contributes exactly its matched pairs |
| FieldWriteability.MergeAssignments | scripts/validate_field_writeability.py:171-174 | merging unions the SObject keys and, per SObject, the field sets |
| FieldWriteability.AllAssignments | scripts/validate_field_writeability.py:159-174 | a pair is collected exactly when some readable Apex file assigns it |
| FieldWriteability.IssuesOfSpec | scripts/validate_field_writeability.py:186-187 | every issue is about a validated SObject with metadata and one of its assigned fields |
| FieldWriteability.CacheOfSpec | scripts/validate_field_writeability.py:225-230 | after validation the cache holds the old entries plus exactly the describable SObjects that were looked up |
| FieldWriteability.ValidateSObjects | scripts/validate_field_writeability.py:186-187 | the loop over sorted SObjects appends exactly the reference issues and leaves exactly the reference cache |
| FieldWriteability.ValidateSObject | scripts/validate_field_writeability.py:222-232 | one SObject step extends the issues and the cache by that SObject's share only |
| FieldWriteability.Validate | scripts/validate_field_writeability.py:138-189 | no files or no assignments: no issues and exit 0; otherwise the issues of the SObjects in sorted order; exit 1 iff there is an issue |
| FieldWriteability.Errors | scripts/validate_field_writeability.py:359 | exactly the issues of error severity |
| FieldWriteability.Warnings | scripts/validate_field_writeability.py:360 | exactly the issues of warning severity |
| FieldWriteability.SeverityPartition | scripts/validate_field_writeability.py:359-360 | every issue is either an error or a warning |
| FieldWriteability.TruncateIssues | scripts/validate_field_writeability.py:342-343 | a missing or zero limit keeps all issues; a positive limit below the count keeps that many leading issues; the result is always a prefix |
| Visualforce.Iter | scripts/validate_visualforce.py:230 | the element walk starts at the root, takes in every element of each child's walk, and holds nothing else |
| Visualforce.TagKey | scripts/validate_visualforce.py:234-243 | a tag without `}` is its own key |
| Visualforce.TagKeyNamespaced | scripts/validate_visualforce.py:235-243 | `{uri}name` gives the key `uri:name` |
| Visualforce.TagKeyFails | scripts/validate_visualforce.py:235-236 | splitting the tag fails exactly when it has two or more `}` |
| Visualforce.FixFor | scripts/validate_visualforce.py:250-252 | only `dir` has a suggested fix |
| Visualforce.RuleAppliesIsContains | scripts/validate_visualforce.py:247 | the "contains or ends with" test is the same as "contains" |
| Visualforce.AttrIssuesSpec | scripts/validate_visualforce.py:246-263 | an issue for exactly each listed attribute the element carries, naming the element, the attribute and its fix |
| Visualforce.AttrIssuesCount | scripts/validate_visualforce.py:248-263 | the number of issues is the number of listed attributes present |
| Visualforce.PageAttributes | scripts/validate_visualforce.py:108-111 | on `apex:page`, each of `dir`, `xml:lang` and `lang` it carries is one error, in table order |
| Visualforce.ElementUnsupported | scripts/validate_visualforce.py:228-267 | checking an element fails exactly when its tag cannot be split |
| Visualforce.ElementDeprecated | scripts/validate_visualforce.py:269-297 | one warning exactly when the key is in the deprecated table, with its replacement |
| Visualforce.NamespacedTagNotDeprecated | scripts/validate_visualforce.py:274-285 | a tag in an XML namespace of at least 12 characters never matches the deprecated table |
| Visualforce.CheckElements | scripts/validate_visualforce.py:228-297 | checking the elements fails exactly when some tag cannot be split |
| Visualforce.DeprecatedCount | scripts/validate_visualforce.py:284-297 | one deprecated-tag warning per deprecated element |
| Visualforce.CheckedElementsKinds | scripts/validate_visualforce.py:228-297 | the attribute pass yields only attribute errors and the tag pass only deprecated-tag warnings |
| Visualforce.CommonPatterns | scripts/validate_visualforce.py:299-329 | XSS warnings only in verbose mode; a missing-SLDS issue exactly when the page has `<apex:page` and no `slds` in any case |
| Visualforce.ValidateFile | scripts/validate_visualforce.py:164-226 | files outside the source directory give nothing; an oversized file gives only the size warning; an unparseable file gives one syntax error of bounded length; any other parser exception fails the run; a parsed page fails exactly when some element's tag cannot be split, and otherwise gives the attribute issues, then the deprecated-tag issues, then the pattern issues |
| Visualforce.ParsedPageIssues | scripts/validate_visualforce.py:220-226 | on a parsed page the attribute pass gives only unsupported-attribute errors, the tag pass one deprecated-tag warning per deprecated element, and the SLDS info appears exactly when the page lacks the design system |
| Visualforce.FallbackParse | scripts/validate_visualforce.py:78-93 | without defusedxml the parser raises on every call, whatever the text |
| Visualforce.FallbackEndsRun | scripts/validate_visualforce.py:78-93 | as written, without defusedxml every readable page fails its check and the run exits 2 |
| Visualforce.FixedFallbackChecksPage | scripts/validate_visualforce.py:78-93 | with a defined warning category, a parsed page fails only on a tag that cannot be split, and an unparseable page gives one syntax error |
| Visualforce.SyntaxErrorExits1 | scripts/validate_visualforce.py:204-217 | a readable file that does not parse gives exactly one syntax error, and the run exits 1 |
| Visualforce.ValidateAll | scripts/validate_visualforce.py:137-162 | the run fails exactly when some file's check fails |
| Visualforce.QuietHasNoXss | scripts/validate_visualforce.py:307-316 | without verbose no XSS warning is reported |
| Visualforce.ExitCode | scripts/validate_visualforce.py:352-392 | 2 on an uncaught failure; otherwise 1 iff there is an issue |
| Visualforce.OfSeverity | scripts/validate_visualforce.py:357-359 | exactly the issues of the given severity |
| Visualforce.SeverityPartition | scripts/validate_visualforce.py:357-359 | errors, warnings and infos together account for every issue |
| FindDuplicates.KeyLessTransitive | scripts/find_duplicates.py:167-171 | the (created, modified) sort order is transitive |
| FindDuplicates.KeyLessTotal | scripts/find_duplicates.py:167-171 | any two sort keys are equal or ordered |
| FindDuplicates.FrontIndex | scripts/find_duplicates.py:167-174 | the stable sort's first record has no smaller key and is strictly smaller than every record before it |
| FindDuplicates.FrontUnique | scripts/find_duplicates.py:167-174 | only one position has that property |
| FindDuplicates.RecommendMaster | scripts/find_duplicates.py:156-174 | no master iff the group is empty; otherwise the master is the id of the record the stable sort puts first: none sorts before it, and it sorts strictly before every record ahead of it |
| FindDuplicates.OldestIsMaster | scripts/find_duplicates.py:164-174 | the strictly earliest-created record is the master |
| FindDuplicates.TieGoesToOlderModification | scripts/find_duplicates.py:167-171 | on equal creation dates, the record modified earlier is the master |
| FindDuplicates.Escape | scripts/find_duplicates.py:113 | escaping adds one backslash per single quote |
| FindDuplicates.EscapeRoundTrip | scripts/find_duplicates.py:113 | removing the added backslashes again gives the value back (an inverse of the escape alone, not SOQL's reading) |
| FindDuplicates.EscapedQuotesPreceded | scripts/find_duplicates.py:113 | every quote in an escaped value follows a backslash |
| FindDuplicates.EscapeReadsBack | scripts/find_duplicates.py:113-114 | for a value without a backslash, SOQL reads the quoted literal back as the value and resumes after the closing quote |
| FindDuplicates.TrailingBackslashUnclosed | scripts/find_duplicates.py:113-114 | the value `a\` gives the literal `'a\'`, which SOQL never closes |
| FindDuplicates.EscapeSoql | scripts/find_duplicates.py:113 | escaping adds one backslash per single quote and per backslash |
| FindDuplicates.EscapeSoqlReadsBack | scripts/find_duplicates.py:113-114 | with backslashes escaped too, SOQL reads every value back exactly and resumes after the closing quote |
| FindDuplicates.Condition | scripts/find_duplicates.py:113-114 | a condition is the field, ` = '`, then the quote-escaped value and a closing quote; the literal in the condition string reads back as the value when it holds no backslash |
| FindDuplicates.ConditionSoql | scripts/find_duplicates.py:113-114 | the corrected condition: the field, ` = '`, then a literal that reads back as the value's text for every value |
| FindDuplicates.ConditionReadsBack | scripts/find_duplicates.py:108-116 | condition `k` of the WHERE clause string names truthy field `k`, and its literal reads back as that field's value unless the value holds a backslash |
| FindDuplicates.SentQuery | scripts/find_duplicates.py:119-126 | the query sent is single-spaced, and has the words of the multi-line template, the WHERE clause's included |
| FindDuplicates.ReadSingleSpaced | scripts/find_duplicates.py:113-126 | a literal read out of single-spaced text is single-spaced: escapes never stand for whitespace |
| FindDuplicates.SentQueryMissesValue | scripts/find_duplicates.py:113-126 | as written, a truthy value holding a tab, a line break or a run of whitespace is read back at no position of the query sent |
| FindDuplicates.OneLineQueryReadsBack | scripts/find_duplicates.py:108-126 | corrected: in a query written on one line without the collapse, every truthy value without a backslash reads back, whatever its whitespace, before the ORDER BY |
| FindDuplicates.TruthyFields | scripts/find_duplicates.py:108-111 | only match fields with a truthy value get a condition |
| FindDuplicates.ConditionsOfTruthyFields | scripts/find_duplicates.py:108-114 | there is one `field = 'escaped value'` condition for each truthy field, in field order |
| FindDuplicates.EmptyWhere | scripts/find_duplicates.py:108-116 | when no field has a truthy value, the WHERE clause is empty |
| FindDuplicates.NullGuardSnoc | scripts/find_duplicates.py:61 | the null guard joins one `field != null` per field with ` AND ` |
| Strings.CollapseWhitespace | scripts/find_duplicates.py:73 | the one-line query has single spaces between its words and none at the ends, and splits into the same words as the query |
| Strings.CollapseIdempotent | scripts/find_duplicates.py:73 | collapsing a collapsed query changes nothing |
| FindDuplicates.GroupRows | scripts/find_duplicates.py:236-249 | one row per record, in order, with the group number, the record id, and the master flag set iff the id is the master |
| FindDuplicates.ExportRows | scripts/find_duplicates.py:233-249 | one CSV row per record across all groups |
| FindDuplicates.OneMasterPerGroup | scripts/find_duplicates.py:236-242 | a non-empty group with distinct ids has exactly one master row |
| FindDuplicates.MastersInExport | scripts/find_duplicates.py:187-249 | master rows number the non-empty groups; with no empty group, the other rows number the reported records to merge |
| ExportData.QueryableNamesMembers | scripts/export_data.py:61-66 | a name is kept exactly when some field has it and is not an address, a location or a name ending in `Address` |
| ExportData.ObjectFields | scripts/export_data.py:61-68 | the first 50 kept names, or all of them when there are fewer |
| ExportData.CompoundNeverExported | scripts/export_data.py:61-68 | every exported field is a queryable field of the object |
| ExportData.WithRelationships | scripts/export_data.py:108-119 | the fields come first; each added column is `relationshipName.Name` of a relationship with a reference; every such column is present |
| ExportData.WithRelationshipsOrder | scripts/export_data.py:111-119 | the appended columns are not among the fields, each is produced by some relationship, and they come in the order of their first relationship in the list |
| ExportData.WithRelationshipsDistinct | scripts/export_data.py:114-119 | adding relationship columns never introduces a repeat |
| ExportData.IndexOf | scripts/export_data.py:122-123 | the first position of the value |
| ExportData.RemoveFirstSpec | scripts/export_data.py:122-123 | removal drops exactly the first occurrence of `Id` and keeps everything else in order |
| ExportData.BuildSoqlQuery | scripts/export_data.py:106-127 | the query starts with `SELECT Id, ` and ends with ` FROM ` and the object |
| ExportData.QueryColumns | scripts/export_data.py:106-127 | the middle of the query is the comma-joined columns without the first `Id` |
| ExportData.PutAll | scripts/export_data.py:216-224 | after the writes, a key is present exactly when it was before or was written |
| ExportData.FlattenCsv | scripts/export_data.py:212-226 | the flattened record has unique keys |
| ExportData.FlattenCsvSpec | scripts/export_data.py:212-226 | its keys are exactly the cell keys of the record, and its cells come from them |
| ExportData.CsvEntriesFrom | scripts/export_data.py:213-224 | every cell is a top-level scalar or a `key.subkey` of a nested object, never from `attributes` |
| ExportData.CsvEntriesCover | scripts/export_data.py:213-224 | every top-level scalar and every non-`attributes` sub-entry becomes a cell |
| ExportData.AllKeySet | scripts/export_data.py:229-231 | a key is collected exactly when some flattened record has it |
| ExportData.CsvHeaders | scripts/export_data.py:229-236 | the CSV header is strictly sorted and holds exactly the keys of the flattened records |
| ExportData.ParseObjects | scripts/export_data.py:286 | one object name per comma-separated piece: name `k` is the `k`-th piece with the whitespace around it removed, so it has no comma and no whitespace at either end |
| ExportData.ParseObjectsNoSpaces | scripts/export_data.py:286 | for a list without whitespace, parsing is splitting, and joining gives the input back |
| ExportData.ChooseExport | scripts/export_data.py:134-175 | skip without fields or with a zero or missing count; bulk above 10000 records; standard otherwise, including an undetermined count |
| ApexPerformance.Enter | scripts/analyze_apex_performance.py:46-50 | a method entry is pushed and becomes the current method |
| ApexPerformance.Exit | scripts/analyze_apex_performance.py:52-56 | a method exit pops (if there is anything to pop) and the current method becomes the new top |
| ApexPerformance.CurrentIsTop | scripts/analyze_apex_performance.py:41-56 | after any prefix of the log the current method is the top of the stack |
| ApexPerformance.StackFromEntries | scripts/analyze_apex_performance.py:46-56 | every method on the stack was entered on some line |
| ApexPerformance.Record | scripts/analyze_apex_performance.py:58-104 | a line's SOQL and DML matches each append one event owned by the current method, or `Unknown`, and change nothing else; its readings overwrite those limits |
| ApexPerformance.LastLineEvents | scripts/analyze_apex_performance.py:41-75 | the last line's events follow those of the earlier lines, each owned by the method on top of the stack after that line's entry and exit (`Unknown` when empty); a line without a match adds none |
| ApexPerformance.Attribution | scripts/analyze_apex_performance.py:58-75 | every SOQL and DML event is owned by `Unknown` or by an entered method; query text is at most 200 characters |
| ApexPerformance.SoqlCount | scripts/analyze_apex_performance.py:58-65 | one SOQL event per matching line |
| ApexPerformance.NoReading | scripts/analyze_apex_performance.py:76-104 | a limit is missing exactly when no line reports it |
| ApexPerformance.LastReadingWins | scripts/analyze_apex_performance.py:76-104 | a reported limit holds the reading of the last line that reports it |
| ApexPerformance.LimitStatus | scripts/analyze_apex_performance.py:119-141 | fails on a zero limit; fine below 50%, exceeded from 80% |
| ApexPerformance.StatusByIntegers | scripts/analyze_apex_performance.py:119-141 | the same bands as 2·used < limit and 5·used < 4·limit |
| ApexPerformance.UsageAboveHalf | scripts/analyze_apex_performance.py:187 | a missing limit is not high; a zero limit fails; otherwise high iff 2·used > limit |
| ApexPerformance.Recommendations | scripts/analyze_apex_performance.py:181-209 | each recommendation appears exactly when its condition holds; a zero CPU or heap limit fails |
| ApexPerformance.MissingReadingNoRecommendation | scripts/analyze_apex_performance.py:187-197 | a log without CPU and heap readings never gets the CPU or heap recommendation |
| ProfileSoql.FiredRules | scripts/profile_soql.py:83-124 | exactly the rules whose condition holds, in rule order |
| ProfileSoql.AnalyzeFactsSpec | scripts/profile_soql.py:83-124 | a rule is reported exactly when its condition holds |
| ProfileSoql.IssuesFor | scripts/profile_soql.py:123-127 | one issue per fired rule; "looks good" alone exactly when none fired |
| ProfileSoql.IssuesInRuleOrder | scripts/profile_soql.py:90-122 | issues come in the order the checks are written |
| ProfileSoql.LimitAndSubqueryRules | scripts/profile_soql.py:90-122 | missing LIMIT iff the upper-cased query lacks `LIMIT`; subqueries iff it has more than one `SELECT` |
| ProfileSoql.CleanQueryLooksGood | scripts/profile_soql.py:83-129 | a query that trips no check gets only "looks good" and no recommendation |
| ProfileSoql.FieldsIn | scripts/profile_soql.py:178-181 | exactly the listed fields whose upper-case name occurs in the WHERE text |
| ProfileSoql.FieldsInAppend | scripts/profile_soql.py:178-181 | field order follows the list order |
| ProfileSoql.CheckIndexedFields | scripts/profile_soql.py:163-186 | no WHERE clause gives nothing; otherwise exactly the indexed fields found in it |
| ProfileSoql.PerformanceBand | scripts/profile_soql.py:260-265 | good below 500 ms, moderate below 1000 ms, slow otherwise |
| ProfileSoql.Selectivity | scripts/profile_soql.py:132-160 | defined exactly when FROM was found and the total is positive; then it is the percentage of the total returned |
| ProfileSoql.NonSelectiveIffTenth | scripts/profile_soql.py:203-206 | not selective exactly when 10 × returned > total |
| ProfileSoql.FinalRecommendations | scripts/profile_soql.py:188-226 | one fix per fired rule, the selectivity advice iff above 10%, the indexed-field advice iff none was found |
| RunTests.Marked | scripts/run_tests.py:63-65 | a check exactly for the passing word ("Pass" per test, "Passed" for the run), a cross exactly for the failing word, a warning otherwise, including a missing outcome |
| RunTests.CoverageMark | scripts/run_tests.py:48 | check from 75%, warning from 50%, cross below |
| RunTests.DetailRows | scripts/run_tests.py:56-69 | one detail row per test, with its mark and name, or "Unknown" |
| RunTests.FailingTests | scripts/run_tests.py:72 | exactly the tests whose outcome is "Fail", in order |
| RunTests.Failures | scripts/run_tests.py:72-84 | one numbered block per failing test, numbered from 1 |
| RunTests.FailingAppend | scripts/run_tests.py:72 | filtering failures keeps order across concatenation |
| RunTests.FailuresMatchCrossedRows | scripts/run_tests.py:61-76 | the failure blocks number the crossed detail rows |
| RunTests.CoverageRowOf | scripts/run_tests.py:94-102 | total is covered plus uncovered, and the percentage times the total is 100·covered |
| RunTests.WithLines | scripts/run_tests.py:93-99 | exactly the coverage entries with at least one line |
| RunTests.CoverageRows | scripts/run_tests.py:86-102 | one row per entry with lines, in order, each with that entry's covered and total line counts, a positive total, and its percentage |
| RunTests.CoverageRowIffLines | scripts/run_tests.py:93-102 | an entry gets a row exactly when it has lines |
| RunTests.CoverageBandExact | scripts/run_tests.py:100-101 | check iff 4·covered ≥ 3·total; cross iff 2·covered < total |
| RunTests.FormatResults | scripts/run_tests.py:25-104 | the heading and coverage marks follow the outcome and the coverage; the detail rows are those of the tests, in order; failure block `k` is the `k`-th failing test, numbered from 1; the coverage rows are those of the entries with lines |
| RunTests.MainExit | scripts/run_tests.py:106-133 | exit 1 with fewer than two arguments or a non-zero status; otherwise format, and exit 0 iff the outcome is "Passed" |
| RunTests.ExitMatchesHeading | scripts/run_tests.py:128-133 | once results are formatted, exit 0 exactly when the heading shows a check |

## Left out

- The `sf` subprocess calls, their timeouts and JSON decoding: what the CLI returns is an input. A decoding failure is modelled where the script branches on it (for example the undetermined record count in the export).
- Regular expressions: each script's pattern matches on a file, a log line or a query are inputs (`AssignmentMatch`, `LogLine`, `PatternHits`, `XssMatches`). The model starts from what the match yields.
- XML parsing and its XXE hardening: a page is a parsed element tree, a parse-error message, or another parser exception. The last covers defusedxml refusing an entity declaration or an external reference: `fromstring` is called with its defaults, so a plain DOCTYPE parses. It ends the run with exit 2. Which of these a given text produces is not modelled.
- Reading files, globbing, file sizes, encodings and symlink resolution: each file arrives with its path, its size, whether its content decoded, and whether it resolves inside the source directory.
- Printing, colours, emoji and report layout. The exceptions are the query table, the failure blocks and the coverage rows of the test report. The per-method top-5 grouping in the Apex log report is display only and is left out.
- Floating point: percentages are exact reals, so rounding at the 75%, 80% and 90% boundaries is not modelled. `.1f` and `.2f` formatting is left out.
- Parsing `"85.3%"`-style coverage strings into numbers: the org-wide and run coverage arrive as numbers, or as missing.
- Strings.Upper: upper-cases ASCII letters only, because Python's full Unicode case mapping has no finite model here.
- Strings.Lower: lower-cases ASCII letters only, for the same reason.
- `str()` of a JSON value: numbers are integers and there is no `repr` escaping.
- The file and timestamp handling of the data export: bulk-export file renaming and the import-plan file.
- The emergency-rollback script (scripts/emergency_rollback.py) and the report ledger: both act on the org or the filesystem, outside the ten modelled scripts.
- The Visualforce `files_checked` counter, which feeds only the summary.
- The run_tests summary count lines (tests run, passed, failed, skipped) are printed verbatim and have no logic to model.
- The org-health test results input is `None` when the results are missing or an empty dict, since both are falsy and skip the coverage checks.
- FindDuplicates.Condition: readback is stated of the condition string within the WHERE clause. The query actually sent is collapsed by `' '.join(query.split())`, and FindDuplicates.SentQueryMissesValue shows that a value with a tab, a line break or a whitespace run does not read back from it (see Findings).
- FindDuplicates.OneLineQueryReadsBack: corrects only the collapse; it keeps the script's quote-only escaping, so a value holding a backslash is covered by the escaping finding instead.
- FindDuplicates.RecommendMaster: the code sorts both dates ascending. The comment promises "most recently modified" as the tie-breaker, but the model follows the code: on equal creation dates the record modified earlier is the master (see FindDuplicates.TieGoesToOlderModification).
- SOQL escape sequences other than `\'` and `\\` (`\n`, `\t` and the like): FindDuplicates.ReadLiteral treats them as unreadable; FindDuplicates.EscapeSoql never produces them.
- Behaviour that the repository's unit tests expect but the scripts do not implement is not modelled:
  - a normalisation of SObject names (tests/unit/test_validate_field_writeability.py:149-168); the script keeps names as written;
  - flagging a namespaced `apex:include` (tests/unit/test_validate_visualforce.py:153-156; the parser yields a `{uri}include` tag, which never matches the table: see Visualforce.NamespacedTagNotDeprecated).

## Findings

| source | as written | input that shows it | evidently intended | confidence | as-written member | corrected member |
|---|---|---|---|---|---|---|
| scripts/find_duplicates.py:113-114 | only single quotes are escaped before the value is put between quotes | the value `a\` gives the condition `Name = 'a\'`; SOQL reads `\'` as an escaped quote, so the literal never closes | escape each backslash as `\\` as well, so that every value's literal in the WHERE clause reads back as the value | medium, not executed | FindDuplicates.TrailingBackslashUnclosed | FindDuplicates.EscapeSoqlReadsBack |
| scripts/find_duplicates.py:126 | `' '.join(query.split())` puts the query on one line by collapsing every whitespace run, those inside the quoted values too | the value `Acme  Corp` (two spaces) is sent as `'Acme Corp'`, so the query does not match the records whose value it is | write the query on one line to begin with and leave the literals alone | medium, not executed | FindDuplicates.SentQueryMissesValue | FindDuplicates.OneLineQueryReadsBack |
| scripts/validate_visualforce.py:89-93 | without defusedxml, the fallback parser warns with the category `SecurityWarning`, which Python does not define | any readable page while defusedxml is not installed: the warning call raises NameError, and the run exits 2 | warn with a category that exists (`UserWarning`) and return ElementTree's parse | high, not executed | Visualforce.FallbackEndsRun | Visualforce.FixedFallbackChecksPage |
