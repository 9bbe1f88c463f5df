/** scripts/export_data.py: the queryable-field filter, SOQL construction, CSV flattening and headers,
    the object-list argument and the choice of export path. */
module ExportData {
  import opened Wrappers
  import opened Strings
  import opened StrOrder
  import opened Dicts
  import opened Json

  /** One entry of a describe result's `fields`: its name and its `type`, if present. */
  datatype FieldDescribe = FieldDescribe(name: string, fieldType: Option<string>)

  /** Compound fields cannot be queried directly. */
  predicate Queryable(f: FieldDescribe) {
    f.fieldType != Some("address") && f.fieldType != Some("location") && !EndsWith(f.name, "Address")
  }

  /** At most this many fields go into one export query. */
  const MaxExportFields: nat := 50

  /** Reference definition: the names of the queryable fields, in describe order. */
  function QueryableNames(fields: seq<FieldDescribe>): (r: seq<string>)
    ensures |r| <= |fields|
    decreases |fields|
  {
    if |fields| == 0 then []
    else QueryableNames(fields[..|fields| - 1])
         + (if Queryable(fields[|fields| - 1]) then [fields[|fields| - 1].name] else [])
  }

  /** A name is kept iff some queryable field carries it. */
  lemma {:induction false} QueryableNamesMembers(fields: seq<FieldDescribe>)
    ensures forall n :: n in QueryableNames(fields) <==> exists f :: f in fields && Queryable(f) && f.name == n
    decreases |fields|
  {
    if |fields| > 0 {
      var prefix := fields[..|fields| - 1];
      var last := fields[|fields| - 1];
      QueryableNamesMembers(prefix);
      assert forall f :: f in fields <==> f in prefix || f == last;
    }
  }

  /** The field list of `get_object_fields`: the queryable names, cut at 50. */
  function ObjectFields(fields: seq<FieldDescribe>): (r: seq<string>)
    ensures |r| <= MaxExportFields && |r| <= |QueryableNames(fields)|
    ensures r == QueryableNames(fields)[..|r|]
    ensures |r| == if |QueryableNames(fields)| < MaxExportFields then |QueryableNames(fields)| else MaxExportFields
  {
    Take(QueryableNames(fields), MaxExportFields)
  }

  /** An address or location field, or a name ending in "Address", is never exported. */
  lemma CompoundNeverExported(fields: seq<FieldDescribe>, n: string)
    requires n in ObjectFields(fields)
    ensures exists f :: f in fields && f.name == n && Queryable(f)
  {
    QueryableNamesMembers(fields);
    assert n in QueryableNames(fields);
  }

  /** A lookup or master-detail field of the describe result. */
  datatype Relationship = Relationship(field: string, relationshipName: string, referenceTo: seq<string>)

  /** The `.Name` column added for a relationship whose first target is non-empty. */
  function RelationshipColumn(rel: Relationship): Option<string> {
    if |rel.referenceTo| > 0 && rel.referenceTo[0] != "" then Some(rel.relationshipName + ".Name") else None
  }

  /** The field list after the relationship columns are appended, each at most once. */
  function WithRelationships(fields: seq<string>, rels: seq<Relationship>): (r: seq<string>)
    ensures |fields| <= |r| && r[..|fields|] == fields
    ensures forall x :: x in r ==> x in fields || exists rel :: rel in rels && RelationshipColumn(rel) == Some(x)
    ensures forall rel :: rel in rels && RelationshipColumn(rel).Some? ==> RelationshipColumn(rel).value in r
    decreases |rels|
  {
    if |rels| == 0 then fields
    else
      var prefix := rels[..|rels| - 1];
      var last := rels[|rels| - 1];
      assert forall rel :: rel in rels <==> rel in prefix || rel == last;
      var acc := WithRelationships(fields, prefix);
      var col := RelationshipColumn(last);
      if col.Some? && col.value !in acc then
        assert (acc + [col.value])[..|fields|] == acc[..|fields|];
        acc + [col.value]
      else acc
  }

  /** Position of the first relationship whose column is `x`; `|rels|` when there is none. */
  function FirstColumn(rels: seq<Relationship>, x: string): (i: nat)
    ensures i <= |rels|
    ensures i < |rels| ==> RelationshipColumn(rels[i]) == Some(x)
    ensures forall j :: 0 <= j < i ==> RelationshipColumn(rels[j]) != Some(x)
  {
    if |rels| == 0 then 0
    else if RelationshipColumn(rels[0]) == Some(x) then 0
    else 1 + FirstColumn(rels[1..], x)
  }

  lemma FirstColumnSnoc(prefix: seq<Relationship>, last: Relationship, x: string)
    requires FirstColumn(prefix, x) < |prefix| || RelationshipColumn(last) == Some(x)
    ensures FirstColumn(prefix + [last], x)
            == if FirstColumn(prefix, x) < |prefix| then FirstColumn(prefix, x) else |prefix|
  {
    var i := FirstColumn(prefix + [last], x);
    var rels := prefix + [last];
    if FirstColumn(prefix, x) < |prefix| {
      assert rels[FirstColumn(prefix, x)] == prefix[FirstColumn(prefix, x)];
      assert i <= FirstColumn(prefix, x);
      assert i < |prefix| ==> rels[i] == prefix[i];
    } else {
      assert rels[|prefix|] == last;
      forall j | 0 <= j < |prefix| ensures RelationshipColumn(rels[j]) != Some(x) {
        assert rels[j] == prefix[j];
      }
    }
  }

  /** The columns of `r` after the fields are new ones, in the order their first relationship comes
      in `rels`. */
  predicate AppendedInOrder(fields: seq<string>, rels: seq<Relationship>, r: seq<string>) {
    && (forall a :: |fields| <= a < |r| ==> r[a] !in fields && FirstColumn(rels, r[a]) < |rels|)
    && (forall a, b :: |fields| <= a < b < |r| ==> FirstColumn(rels, r[a]) < FirstColumn(rels, r[b]))
  }

  /** The columns appended after the fields are new ones, in the order their first relationship
      comes in `rels`. */
  lemma WithRelationshipsOrder(fields: seq<string>, rels: seq<Relationship>)
    ensures forall a :: |fields| <= a < |WithRelationships(fields, rels)| ==>
              WithRelationships(fields, rels)[a] !in fields
              && FirstColumn(rels, WithRelationships(fields, rels)[a]) < |rels|
    ensures forall a, b :: |fields| <= a < b < |WithRelationships(fields, rels)| ==>
              FirstColumn(rels, WithRelationships(fields, rels)[a]) < FirstColumn(rels, WithRelationships(fields, rels)[b])
  {
    AppendedOrder(fields, rels);
  }

  lemma {:induction false} AppendedOrder(fields: seq<string>, rels: seq<Relationship>)
    ensures AppendedInOrder(fields, rels, WithRelationships(fields, rels))
    decreases |rels|
  {
    if |rels| > 0 {
      var prefix := rels[..|rels| - 1];
      assert rels == prefix + [rels[|rels| - 1]];
      AppendedOrder(fields, prefix);
      AppendedOrderStep(fields, prefix, rels[|rels| - 1]);
    }
  }

  lemma AppendedOrderStep(fields: seq<string>, prefix: seq<Relationship>, last: Relationship)
    requires AppendedInOrder(fields, prefix, WithRelationships(fields, prefix))
    ensures AppendedInOrder(fields, prefix + [last], WithRelationships(fields, prefix + [last]))
  {
    var rels := prefix + [last];
    var acc := WithRelationships(fields, prefix);
    assert rels[..|rels| - 1] == prefix && rels[|rels| - 1] == last;
    EarlierColumnsKeepPlace(fields, prefix, last);
    var col := RelationshipColumn(last);
    if col.Some? && col.value !in acc {
      assert WithRelationships(fields, rels) == acc + [col.value];
      AppendedColumnOrder(fields, prefix, last);
      NewColumnInOrder(fields, rels, acc, col.value, |prefix|);
    } else {
      assert WithRelationships(fields, rels) == acc;
    }
  }

  /** Columns already appended for `prefix` keep the position of their first relationship. */
  lemma EarlierColumnsKeepPlace(fields: seq<string>, prefix: seq<Relationship>, last: Relationship)
    requires AppendedInOrder(fields, prefix, WithRelationships(fields, prefix))
    ensures AppendedInOrder(fields, prefix + [last], WithRelationships(fields, prefix))
    ensures forall a :: |fields| <= a < |WithRelationships(fields, prefix)| ==>
              FirstColumn(prefix + [last], WithRelationships(fields, prefix)[a]) < |prefix|
  {
    var acc := WithRelationships(fields, prefix);
    forall a | |fields| <= a < |acc| ensures FirstColumn(prefix + [last], acc[a]) == FirstColumn(prefix, acc[a]) {
      FirstColumnSnoc(prefix, last, acc[a]);
    }
  }

  lemma NewColumnInOrder(fields: seq<string>, rels: seq<Relationship>, acc: seq<string>, c: string, n: nat)
    requires AppendedInOrder(fields, rels, acc) && |fields| <= |acc|
    requires forall a :: |fields| <= a < |acc| ==> FirstColumn(rels, acc[a]) < n
    requires c !in fields && FirstColumn(rels, c) == n < |rels|
    ensures AppendedInOrder(fields, rels, acc + [c])
  {
    var r := acc + [c];
    assert forall a :: 0 <= a < |acc| ==> r[a] == acc[a];
  }

  /** The step that appends a new column: it comes after the columns of earlier relationships. */
  lemma AppendedColumnOrder(fields: seq<string>, prefix: seq<Relationship>, last: Relationship)
    requires RelationshipColumn(last).Some? && RelationshipColumn(last).value !in WithRelationships(fields, prefix)
    ensures |fields| <= |WithRelationships(fields, prefix)|
    ensures RelationshipColumn(last).value !in fields
    ensures FirstColumn(prefix + [last], RelationshipColumn(last).value) == |prefix|
  {
    var acc := WithRelationships(fields, prefix);
    var c := RelationshipColumn(last).value;
    assert forall m :: 0 <= m < |fields| ==> fields[m] == acc[m];
    assert FirstColumn(prefix, c) == |prefix| by {
      assert forall j :: 0 <= j < |prefix| ==> prefix[j] in prefix;
    }
    FirstColumnSnoc(prefix, last, c);
  }

  /** Appending relationship columns never repeats a column that was not already repeated. */
  lemma {:induction false} WithRelationshipsDistinct(fields: seq<string>, rels: seq<Relationship>)
    requires Distinct(fields)
    ensures Distinct(WithRelationships(fields, rels))
    decreases |rels|
  {
    if |rels| > 0 {
      WithRelationshipsDistinct(fields, rels[..|rels| - 1]);
    }
  }

  /** Position of the first occurrence of `x`, which must be present. */
  function IndexOf(xs: seq<string>, x: string): (i: nat)
    requires x in xs
    ensures i < |xs| && xs[i] == x && x !in xs[..i]
  {
    if xs[0] == x then 0
    else
      assert x in xs[1..];
      var j := IndexOf(xs[1..], x);
      assert xs[..j + 1] == [xs[0]] + xs[1..][..j];
      j + 1
  }

  /** `list.remove(x)` when `x` is present; an absent `x` leaves the list alone (the source guards
      the call with `in`). */
  function RemoveFirst(xs: seq<string>, x: string): (r: seq<string>)
    ensures x !in xs ==> r == xs
    ensures x in xs ==> |r| == |xs| - 1
  {
    if x in xs then
      var i := IndexOf(xs, x);
      xs[..i] + xs[i + 1..]
    else xs
  }

  /** Only the first occurrence goes: everything before it and everything after it stays in order,
      and one fewer copy of `x` remains while every other element keeps its count. */
  lemma RemoveFirstSpec(xs: seq<string>, x: string)
    requires x in xs
    ensures var i := IndexOf(xs, x);
            RemoveFirst(xs, x)[..i] == xs[..i] && RemoveFirst(xs, x)[i..] == xs[i + 1..]
    ensures multiset(RemoveFirst(xs, x))[x] == multiset(xs)[x] - 1
    ensures forall y :: y != x ==> multiset(RemoveFirst(xs, x))[y] == multiset(xs)[y]
  {
    var i := IndexOf(xs, x);
    assert xs == xs[..i] + [xs[i]] + xs[i + 1..];
    assert multiset(xs) == multiset(xs[..i]) + multiset{xs[i]} + multiset(xs[i + 1..]);
  }

  const SelectPrefix: string := "SELECT Id, "

  /** `build_soql_query(sobject, fields, relationship_fields)` */
  function BuildSoqlQuery(sobject: string, fields: seq<string>, rels: seq<Relationship>): (q: string)
    ensures StartsWith(q, SelectPrefix)
    ensures EndsWith(q, " FROM " + sobject)
  {
    var columns := RemoveFirst(WithRelationships(fields, rels), "Id");
    var q := SelectPrefix + Join(", ", columns) + " FROM " + sobject;
    assert q[..|SelectPrefix|] == SelectPrefix;
    assert q[|q| - |" FROM " + sobject|..] == " FROM " + sobject;
    q
  }

  /** The query's column list is the relationship-extended field list with its first `Id` removed:
      `Id` is written once up front and the remaining columns follow between the prefix and FROM. */
  lemma QueryColumns(sobject: string, fields: seq<string>, rels: seq<Relationship>)
    ensures var columns := RemoveFirst(WithRelationships(fields, rels), "Id");
            var q := BuildSoqlQuery(sobject, fields, rels);
            q[|SelectPrefix|..|q| - |" FROM " + sobject|] == Join(", ", columns)
  {
  }

  /** `write_csv`'s flattening of one record, as a reference list of entries: `attributes` dropped,
      a dict value expanded one level into `key.subkey` entries (its own `attributes` dropped),
      anything else kept under its key. */
  function CsvEntries(record: Dict<Value>): Dict<Value>
    decreases |record|
  {
    if |record| == 0 then [] else CsvEntries(record[..|record| - 1]) + EntryCells(record[|record| - 1])
  }

  function EntryCells(entry: (string, Value)): Dict<Value> {
    if entry.0 == "attributes" then []
    else if entry.1.Obj? then SubCells(entry.0, entry.1.fields)
    else [entry]
  }

  function SubCells(key: string, subs: Dict<Value>): Dict<Value>
    decreases |subs|
  {
    if |subs| == 0 then []
    else
      var last := subs[|subs| - 1];
      SubCells(key, subs[..|subs| - 1]) + (if last.0 != "attributes" then [(key + "." + last.0, last.1)] else [])
  }

  /** Storing the entries one by one into a fresh dict, a later key overwriting an earlier one. */
  function PutAll(acc: Dict<Value>, entries: Dict<Value>): (r: Dict<Value>)
    ensures forall k :: HasKey(r, k) <==> HasKey(acc, k) || k in Keys(entries)
    ensures UniqueKeys(acc) ==> UniqueKeys(r)
    ensures forall x :: x in r ==> x in acc || x in entries
    decreases |entries|
  {
    if |entries| == 0 then acc
    else
      var prefix := entries[..|entries| - 1];
      var last := entries[|entries| - 1];
      var before := PutAll(acc, prefix);
      PutUnique(before, last.0, last.1);
      assert Keys(entries) == Keys(prefix) + [last.0];
      Put(before, last.0, last.1)
  }

  /** The flattened record `write_csv` builds. */
  function FlattenCsv(record: Dict<Value>): (r: Dict<Value>)
    ensures UniqueKeys(r)
  {
    PutAll([], CsvEntries(record))
  }

  /** Its columns are exactly the reference entries' keys, and every cell is a reference entry. */
  lemma FlattenCsvSpec(record: Dict<Value>)
    ensures forall k :: HasKey(FlattenCsv(record), k) <==> k in Keys(CsvEntries(record))
    ensures forall x :: x in FlattenCsv(record) ==> x in CsvEntries(record)
  {
  }

  /** Every flattened cell comes from a non-`attributes` entry: a scalar kept as it is, or one level
      of a dict under `key.subkey` with the sub-entry's own `attributes` dropped. */
  lemma {:induction false} CsvEntriesFrom(record: Dict<Value>)
    ensures forall x :: x in CsvEntries(record) ==>
              exists e :: e in record && e.0 != "attributes" && CellOf(e, x)
    decreases |record|
  {
    if |record| > 0 {
      var prefix := record[..|record| - 1];
      var last := record[|record| - 1];
      CsvEntriesFrom(prefix);
      assert forall e :: e in prefix ==> e in record;
      if last.0 != "attributes" && last.1.Obj? {
        SubCellsFrom(last.0, last.1.fields);
      }
    }
  }

  /** `x` is a cell `e` flattens to. */
  predicate CellOf(e: (string, Value), x: (string, Value)) {
    if e.1.Obj? then exists s :: s in e.1.fields && s.0 != "attributes" && x == (e.0 + "." + s.0, s.1)
    else x == e
  }

  lemma {:induction false} SubCellsFrom(key: string, subs: Dict<Value>)
    ensures forall x :: x in SubCells(key, subs) ==>
              exists s :: s in subs && s.0 != "attributes" && x == (key + "." + s.0, s.1)
    decreases |subs|
  {
    if |subs| > 0 {
      SubCellsFrom(key, subs[..|subs| - 1]);
      assert forall s :: s in subs[..|subs| - 1] ==> s in subs;
    }
  }

  /** Conversely every non-`attributes` scalar and every non-`attributes` sub-entry of a dict value
      gives a column. */
  lemma {:induction false} CsvEntriesCover(record: Dict<Value>)
    ensures forall e :: e in record && e.0 != "attributes" && !e.1.Obj? ==> e in CsvEntries(record)
    ensures forall e, s :: e in record && e.0 != "attributes" && e.1.Obj? && s in e.1.fields && s.0 != "attributes"
              ==> (e.0 + "." + s.0, s.1) in CsvEntries(record)
    decreases |record|
  {
    if |record| > 0 {
      var prefix := record[..|record| - 1];
      var last := record[|record| - 1];
      CsvEntriesCover(prefix);
      assert forall e :: e in record <==> e in prefix || e == last;
      if last.0 != "attributes" && last.1.Obj? {
        SubCellsCover(last.0, last.1.fields);
      }
    }
  }

  lemma {:induction false} SubCellsCover(key: string, subs: Dict<Value>)
    ensures forall s :: s in subs && s.0 != "attributes" ==> (key + "." + s.0, s.1) in SubCells(key, subs)
    decreases |subs|
  {
    if |subs| > 0 {
      SubCellsCover(key, subs[..|subs| - 1]);
      assert forall s :: s in subs <==> s in subs[..|subs| - 1] || s == subs[|subs| - 1];
    }
  }

  /** The keys of one flattened record. */
  function KeySet(d: Dict<Value>): set<string> {
    set i | 0 <= i < |d| :: d[i].0
  }

  function AllKeySet(flats: seq<Dict<Value>>): (s: set<string>)
    ensures forall k :: k in s <==> exists i :: 0 <= i < |flats| && k in KeySet(flats[i])
    decreases |flats|
  {
    if |flats| == 0 then {}
    else
      var prefix := flats[..|flats| - 1];
      var s := AllKeySet(prefix) + KeySet(flats[|flats| - 1]);
      assert forall i :: 0 <= i < |prefix| ==> prefix[i] == flats[i];
      s
  }

  /** `sorted(all_keys)`: the CSV header row, every key of every flattened record once, ascending. */
  function CsvHeaders(records: seq<Dict<Value>>): (hs: seq<string>)
    ensures StrictlySorted(hs)
    ensures forall k :: k in hs <==> exists i :: 0 <= i < |records| && HasKey(FlattenCsv(records[i]), k)
  {
    var flats := seq(|records|, i requires 0 <= i < |records| => FlattenCsv(records[i]));
    assert forall i, k :: 0 <= i < |records| ==> (k in KeySet(flats[i]) <==> HasKey(FlattenCsv(records[i]), k));
    SortSet(AllKeySet(flats))
  }

  /** `[obj.strip() for obj in objects_str.split(',')]`: piece `k` is the `k`-th comma-separated piece
      stripped, so it has no comma and no whitespace at either end. */
  function ParseObjects(s: string): (r: seq<string>)
    ensures |r| == CountChar(s, ',') + 1
    ensures |r| == |SplitOn(s, ',')|
    ensures forall k :: 0 <= k < |r| ==> r[k] == Strip(SplitOn(s, ',')[k])
    ensures forall k :: 0 <= k < |r| ==> ',' !in r[k]
    ensures forall k :: 0 <= k < |r| ==> r[k] == [] || (!IsSpace(r[k][0]) && !IsSpace(r[k][|r[k]| - 1]))
  {
    var parts := SplitOn(s, ',');
    SplitOnCount(s, ',');
    var r := seq(|parts|, k requires 0 <= k < |parts| => Strip(parts[k]));
    forall k | 0 <= k < |r| ensures ',' !in r[k] {
      StripAbsent(parts[k], ',');
    }
    r
  }

  /** A list written without spaces parses back to its comma-separated pieces, and joining them with
      commas gives the argument back. */
  lemma ParseObjectsNoSpaces(s: string)
    requires NoSpace(s)
    ensures ParseObjects(s) == SplitOn(s, ',')
    ensures Join(",", ParseObjects(s)) == s
  {
    var parts := SplitOn(s, ',');
    forall k | 0 <= k < |parts| ensures Strip(parts[k]) == parts[k] {
      PieceHasNoSpace(s, parts, k);
      StripNoSpace(parts[k]);
    }
  }

  lemma {:induction false} PieceHasNoSpace(s: string, parts: seq<string>, k: nat)
    requires parts == SplitOn(s, ',') && k < |parts|
    requires NoSpace(s)
    ensures NoSpace(parts[k])
    decreases |s|
  {
    if ',' in s {
      var i := IndexOfChar(s, ',');
      var rest := SplitOn(s[i + 1..], ',');
      assert parts == [s[..i]] + rest;
      if k > 0 {
        NoSpaceSlice(s, i + 1, |s|);
        PieceHasNoSpace(s[i + 1..], rest, k - 1);
        assert parts[k] == rest[k - 1];
      } else {
        NoSpaceSlice(s, 0, i);
      }
    }
  }

  lemma NoSpaceSlice(s: string, i: nat, j: nat)
    requires NoSpace(s) && i <= j <= |s|
    ensures NoSpace(s[i..j])
  {
    forall m | 0 <= m < j - i ensures !IsSpace(s[i..j][m]) {
      assert s[i..j][m] == s[i + m];
    }
  }

  lemma StripNoSpace(s: string)
    requires NoSpace(s)
    ensures Strip(s) == s
  {
    assert LeadingSpaces(s) == 0;
    if |s| > 0 {
      assert TrailingEnd(s) == |s|;
      assert s[0..|s|] == s;
    }
  }

  /** The record count query's outcome: a count, or no usable answer (the export goes ahead). */
  datatype CountOutcome = Counted(n: int) | NoCount | Undetermined

  datatype ExportPath = Skip | Bulk | Standard

  /** Above this many records the bulk API is used. */
  const BulkThreshold: int := 10000

  /** The path `export_object` takes: no fields or a zero count skips the object; an answer without
      a result reads as 0; an unreadable answer counts as -1 and goes the standard way. */
  function ChooseExport(hasFields: bool, count: CountOutcome): (p: ExportPath)
    ensures p == Skip <==> !hasFields || count == NoCount || count == Counted(0)
    ensures p == Bulk <==> hasFields && count.Counted? && count.n > BulkThreshold
    ensures p == Standard <==> hasFields && (count == Undetermined || (count.Counted? && count.n != 0 && count.n <= BulkThreshold))
  {
    if !hasFields then Skip
    else
      var n := match count case Counted(n) => n case NoCount => 0 case Undetermined => -1;
      if n == 0 then Skip else if n > BulkThreshold then Bulk else Standard
  }
}
