/** scripts/query_soql.py: flattening SOQL result records and rendering them as a markdown table. */
module QuerySoql {
  import opened Wrappers
  import opened Dicts
  import opened Json
  import opened Strings
  import opened StrOrder

  /** One record of `result.records` as returned by the CLI. */
  type Record = Dict<Value>

  /** `f"{parent_key}.{key}" if parent_key else key` */
  function NestedKey(parentKey: string, key: string): string {
    if parentKey == "" then key else parentKey + "." + key
  }

  /** What may end up in a flattened record: neither a subquery list nor a relationship object. */
  predicate IsCellValue(v: Value) {
    !v.Arr? && !IsRelationship(v)
  }

  predicate AllCellValues(d: Dict<Value>) {
    forall x :: x in d ==> IsCellValue(x.1)
  }

  /** `flatten_record(record, parent_key)` */
  function FlattenRecord(record: Record, parentKey: string): (r: Dict<Value>)
    ensures UniqueKeys(r)
    ensures AllCellValues(r)
    decreases Obj(record), 1
  {
    FlattenFrom(record, parentKey, 0, [])
  }

  /** The loop of `flatten_record` from entry `i` on, with `acc` flattened so far. */
  function FlattenFrom(record: Record, parentKey: string, i: nat, acc: Dict<Value>): (r: Dict<Value>)
    requires i <= |record|
    ensures UniqueKeys(acc) ==> UniqueKeys(r)
    ensures AllCellValues(acc) ==> AllCellValues(r)
    decreases Obj(record), 0, |record| - i, 1
  {
    if i == |record| then acc
    else FlattenFrom(record, parentKey, i + 1, FlattenEntry(record, parentKey, i, acc))
  }

  /** One iteration of the loop: entry `i` of `record` added to `acc`. */
  function FlattenEntry(record: Record, parentKey: string, i: nat, acc: Dict<Value>): (r: Dict<Value>)
    requires i < |record|
    ensures UniqueKeys(acc) ==> UniqueKeys(r)
    ensures AllCellValues(acc) ==> AllCellValues(r)
    decreases Obj(record), 0, |record| - i, 0
  {
    var key := record[i].0;
    var value := record[i].1;
    var newKey := NestedKey(parentKey, key);
    if key == "attributes" then acc
    else if IsRelationship(value) then Update(acc, FlattenRecord(value.fields, newKey))
    else if value.Arr? then acc
    else
      PutUnique(acc, newKey, value);
      Put(acc, newKey, value)
  }

  /** Reference definition: the key paths `flatten_record` visits, outermost key first. */
  function LeafPaths(record: Record): (ps: seq<seq<string>>)
    ensures forall p :: p in ps ==> |p| > 0 && "attributes" !in p
    decreases Obj(record), 1
  {
    LeafPathsFrom(record, 0)
  }

  function LeafPathsFrom(record: Record, i: nat): (ps: seq<seq<string>>)
    requires i <= |record|
    ensures forall p :: p in ps ==> |p| > 0 && "attributes" !in p
    decreases Obj(record), 0, |record| - i, 1
  {
    if i == |record| then [] else EntryPaths(record, i) + LeafPathsFrom(record, i + 1)
  }

  function EntryPaths(record: Record, i: nat): (ps: seq<seq<string>>)
    requires i < |record|
    ensures forall p :: p in ps ==> |p| > 0 && "attributes" !in p
    decreases Obj(record), 0, |record| - i, 0
  {
    var key := record[i].0;
    var value := record[i].1;
    if key == "attributes" || value.Arr? then []
    else if IsRelationship(value) then Prefixed(key, LeafPaths(value.fields))
    else [[key]]
  }

  function Prefixed(key: string, ps: seq<seq<string>>): (r: seq<seq<string>>)
    ensures |r| == |ps|
    ensures forall j :: 0 <= j < |ps| ==> r[j] == [key] + ps[j]
  {
    seq(|ps|, j requires 0 <= j < |ps| => [key] + ps[j])
  }

  /** The flattened key of a path below `parentKey`. */
  function Dotted(parentKey: string, path: seq<string>): string
    decreases |path|
  {
    if |path| == 0 then parentKey else Dotted(NestedKey(parentKey, path[0]), path[1..])
  }

  function DottedKeys(parentKey: string, ps: seq<seq<string>>): (ks: seq<string>)
    ensures |ks| == |ps|
    ensures forall j :: 0 <= j < |ps| ==> ks[j] == Dotted(parentKey, ps[j])
  {
    seq(|ps|, j requires 0 <= j < |ps| => Dotted(parentKey, ps[j]))
  }

  lemma DottedKeysAppend(parentKey: string, a: seq<seq<string>>, b: seq<seq<string>>)
    ensures DottedKeys(parentKey, a + b) == DottedKeys(parentKey, a) + DottedKeys(parentKey, b)
  {
  }

  lemma DottedKeysPrefixed(parentKey: string, key: string, ps: seq<seq<string>>)
    ensures DottedKeys(parentKey, Prefixed(key, ps)) == DottedKeys(NestedKey(parentKey, key), ps)
  {
    forall j | 0 <= j < |ps|
      ensures Dotted(parentKey, [key] + ps[j]) == Dotted(NestedKey(parentKey, key), ps[j])
    {
      assert ([key] + ps[j])[1..] == ps[j];
    }
  }

  /** The flattened keys are exactly the dotted leaf paths: a key named `attributes` is skipped at
      every level, a relationship is flattened under `parent.key`, a list contributes nothing. */
  lemma FlattenKeys(record: Record, parentKey: string)
    ensures forall k :: HasKey(FlattenRecord(record, parentKey), k)
                   <==> k in DottedKeys(parentKey, LeafPaths(record))
  {
    FlattenFromKeys(record, parentKey, 0, []);
    var ks := DottedKeys(parentKey, LeafPaths(record));
    assert Elems(Keys(FlattenRecord(record, parentKey))) == Elems(ks) by {
      assert Elems(Keys<Value>([])) == {};
    }
    forall k ensures HasKey(FlattenRecord(record, parentKey), k) <==> k in ks {
      assert k in Keys(FlattenRecord(record, parentKey)) <==> k in Elems(ks);
    }
  }

  /** The elements of a sequence, as a set. */
  ghost function Elems(s: seq<string>): set<string> {
    set x | x in s
  }

  /** The keys of `d` are those of `acc` together with those of `ks`. */
  ghost predicate KeysAre(d: Dict<Value>, acc: Dict<Value>, ks: seq<string>) {
    Elems(Keys(d)) == Elems(Keys(acc)) + Elems(ks)
  }

  lemma {:induction false} FlattenFromKeys(record: Record, parentKey: string, i: nat, acc: Dict<Value>)
    requires i <= |record|
    ensures KeysAre(FlattenFrom(record, parentKey, i, acc), acc, DottedKeys(parentKey, LeafPathsFrom(record, i)))
    decreases Obj(record), 0, |record| - i, 2
  {
    if i < |record| {
      FlattenFromKeys(record, parentKey, i + 1, FlattenEntry(record, parentKey, i, acc));
      FlattenFromKeysCons(record, parentKey, i, acc);
    }
  }

  /** One loop step: the keys entry `i` adds, followed by those of the rest of the loop. */
  lemma FlattenFromKeysCons(record: Record, parentKey: string, i: nat, acc: Dict<Value>)
    requires i < |record|
    requires KeysAre(FlattenFrom(record, parentKey, i + 1, FlattenEntry(record, parentKey, i, acc)),
                     FlattenEntry(record, parentKey, i, acc), DottedKeys(parentKey, LeafPathsFrom(record, i + 1)))
    ensures KeysAre(FlattenFrom(record, parentKey, i, acc), acc, DottedKeys(parentKey, LeafPathsFrom(record, i)))
    decreases Obj(record), 0, |record| - i, 1
  {
    var mid := FlattenEntry(record, parentKey, i, acc);
    FlattenEntryKeys(record, parentKey, i, acc);
    FlattenFromUnfold(record, parentKey, i, acc);
    LeafPathsFromUnfold(record, parentKey, i);
    KeysStep(FlattenFrom(record, parentKey, i, acc), FlattenFrom(record, parentKey, i + 1, mid), mid, acc,
             DottedKeys(parentKey, LeafPathsFrom(record, i)), DottedKeys(parentKey, EntryPaths(record, i)),
             DottedKeys(parentKey, LeafPathsFrom(record, i + 1)));
  }

  lemma FlattenFromUnfold(record: Record, parentKey: string, i: nat, acc: Dict<Value>)
    requires i < |record|
    ensures FlattenFrom(record, parentKey, i, acc)
            == FlattenFrom(record, parentKey, i + 1, FlattenEntry(record, parentKey, i, acc))
  {
  }

  lemma LeafPathsFromUnfold(record: Record, parentKey: string, i: nat)
    requires i < |record|
    ensures DottedKeys(parentKey, LeafPathsFrom(record, i))
            == DottedKeys(parentKey, EntryPaths(record, i)) + DottedKeys(parentKey, LeafPathsFrom(record, i + 1))
  {
    assert LeafPathsFrom(record, i) == EntryPaths(record, i) + LeafPathsFrom(record, i + 1);
    DottedKeysAppend(parentKey, EntryPaths(record, i), LeafPathsFrom(record, i + 1));
  }

  lemma {:induction false} FlattenEntryKeys(record: Record, parentKey: string, i: nat, acc: Dict<Value>)
    requires i < |record|
    ensures KeysAre(FlattenEntry(record, parentKey, i, acc), acc, DottedKeys(parentKey, EntryPaths(record, i)))
    decreases Obj(record), 0, |record| - i, 0
  {
    var key := record[i].0;
    var value := record[i].1;
    if key == "attributes" || value.Arr? {
      SkippedEntryKeys(record, parentKey, i, acc);
    } else if IsRelationship(value) {
      FlattenFromKeys(value.fields, NestedKey(parentKey, key), 0, []);
      NestedEntryKeys(record, parentKey, i, acc);
    } else {
      ScalarEntryKeys(record, parentKey, i, acc);
    }
  }

  lemma SkippedEntryKeys(record: Record, parentKey: string, i: nat, acc: Dict<Value>)
    requires i < |record| && (record[i].0 == "attributes" || record[i].1.Arr?)
    ensures KeysAre(FlattenEntry(record, parentKey, i, acc), acc, DottedKeys(parentKey, EntryPaths(record, i)))
  {
    assert FlattenEntry(record, parentKey, i, acc) == acc;
    assert DottedKeys(parentKey, EntryPaths(record, i)) == [];
    assert Elems([]) == {};
  }

  lemma NestedEntryKeys(record: Record, parentKey: string, i: nat, acc: Dict<Value>)
    requires i < |record| && record[i].0 != "attributes" && IsRelationship(record[i].1)
    requires KeysAre(FlattenRecord(record[i].1.fields, NestedKey(parentKey, record[i].0)), [],
                     DottedKeys(NestedKey(parentKey, record[i].0), LeafPaths(record[i].1.fields)))
    ensures KeysAre(FlattenEntry(record, parentKey, i, acc), acc, DottedKeys(parentKey, EntryPaths(record, i)))
  {
    var key := record[i].0;
    var fields := record[i].1.fields;
    var sub := FlattenRecord(fields, NestedKey(parentKey, key));
    assert FlattenEntry(record, parentKey, i, acc) == Update(acc, sub);
    assert EntryPaths(record, i) == Prefixed(key, LeafPaths(fields));
    DottedKeysPrefixed(parentKey, key, LeafPaths(fields));
    UpdateKeys(acc, sub);
    assert Elems(Keys<Value>([])) == {};
  }

  lemma ScalarEntryKeys(record: Record, parentKey: string, i: nat, acc: Dict<Value>)
    requires i < |record| && record[i].0 != "attributes" && !record[i].1.Arr? && !IsRelationship(record[i].1)
    ensures KeysAre(FlattenEntry(record, parentKey, i, acc), acc, DottedKeys(parentKey, EntryPaths(record, i)))
  {
    var key := record[i].0;
    var newKey := NestedKey(parentKey, key);
    assert FlattenEntry(record, parentKey, i, acc) == Put(acc, newKey, record[i].1);
    assert EntryPaths(record, i) == [[key]];
    assert Dotted(parentKey, [key]) == Dotted(newKey, []) == newKey;
    assert DottedKeys(parentKey, [[key]]) == [newKey];
    PutKeys(acc, newKey, record[i].1);
  }

  lemma PutKeys(d: Dict<Value>, k: string, v: Value)
    ensures KeysAre(Put(d, k, v), d, [k])
  {
    if HasKey(d, k) {
      assert k in Elems(Keys(d));
    } else {
      assert Elems(Keys(d) + [k]) == Elems(Keys(d)) + Elems([k]);
    }
  }

  lemma UpdateKeys(d: Dict<Value>, e: Dict<Value>)
    ensures KeysAre(Update(d, e), d, Keys(e))
  {
    var r := Update(d, e);
    forall k ensures k in Elems(Keys(r)) <==> k in Elems(Keys(d)) + Elems(Keys(e)) {
      assert HasKey(r, k) <==> HasKey(d, k) || HasKey(e, k);
    }
  }

  /** Chaining two key-set equations, one per step of the flattening loop. */
  lemma KeysStep(whole: Dict<Value>, out: Dict<Value>, mid: Dict<Value>, acc: Dict<Value>,
                 all: seq<string>, here: seq<string>, rest: seq<string>)
    requires whole == out && all == here + rest
    requires KeysAre(out, mid, rest) && KeysAre(mid, acc, here)
    ensures KeysAre(whole, acc, all)
  {
    assert Elems(here + rest) == Elems(here) + Elems(rest);
  }

  /** No flattened key ends in an `attributes` segment, at any nesting level. */
  lemma NoAttributesKey(record: Record, parentKey: string, k: string)
    requires HasKey(FlattenRecord(record, parentKey), k)
    ensures exists p :: p in LeafPaths(record) && Dotted(parentKey, p) == k
                        && |p| > 0 && p[|p| - 1] != "attributes"
  {
    FlattenKeys(record, parentKey);
    var ks := DottedKeys(parentKey, LeafPaths(record));
    var j :| 0 <= j < |ks| && ks[j] == k;
    var p := LeafPaths(record)[j];
    assert p in LeafPaths(record);
    assert p[|p| - 1] in p;
  }

  /** Reference definition: the values `flatten_record` stores, parallel to `LeafPaths`. */
  function LeafValues(record: Record): (vs: seq<Value>)
    ensures |vs| == |LeafPaths(record)|
    decreases Obj(record), 1
  {
    LeafValuesFrom(record, 0)
  }

  function LeafValuesFrom(record: Record, i: nat): (vs: seq<Value>)
    requires i <= |record|
    ensures |vs| == |LeafPathsFrom(record, i)|
    decreases Obj(record), 0, |record| - i, 1
  {
    if i == |record| then [] else EntryValues(record, i) + LeafValuesFrom(record, i + 1)
  }

  function EntryValues(record: Record, i: nat): (vs: seq<Value>)
    requires i < |record|
    ensures |vs| == |EntryPaths(record, i)|
    decreases Obj(record), 0, |record| - i, 0
  {
    var key := record[i].0;
    var value := record[i].1;
    if key == "attributes" || value.Arr? then []
    else if IsRelationship(value) then LeafValues(value.fields)
    else [value]
  }

  /** Each path's dotted key below `parentKey` paired with its value, in visiting order. */
  function Leaves(parentKey: string, ps: seq<seq<string>>, vs: seq<Value>): (e: Dict<Value>)
    requires |ps| == |vs|
    ensures Keys(e) == DottedKeys(parentKey, ps)
    ensures forall j :: 0 <= j < |ps| ==> e[j] == (Dotted(parentKey, ps[j]), vs[j])
  {
    seq(|ps|, j requires 0 <= j < |ps| => (Dotted(parentKey, ps[j]), vs[j]))
  }

  /** Every key of the flattened record reads the value of the last leaf with that dotted key:
      `flattened[new_key] = value` at every depth, a later leaf overwriting an earlier one. */
  lemma FlattenReads(record: Record, parentKey: string)
    ensures forall k :: Get(FlattenRecord(record, parentKey), k)
                   == LastValue(Leaves(parentKey, LeafPaths(record), LeafValues(record)), k)
  {
    FlattenFromReads(record, parentKey, 0, []);
  }

  /** Leaf `j` is stored under its dotted key with its own value, unless a later leaf has the same
      dotted key. */
  lemma FlattenValues(record: Record, parentKey: string, j: nat)
    requires j < |LeafPaths(record)|
    requires forall m :: j < m < |LeafPaths(record)| ==>
               Dotted(parentKey, LeafPaths(record)[m]) != Dotted(parentKey, LeafPaths(record)[j])
    ensures Get(FlattenRecord(record, parentKey), DottedKeys(parentKey, LeafPaths(record))[j])
            == Some(LeafValues(record)[j])
  {
    FlattenReads(record, parentKey);
    LastValueAt(Leaves(parentKey, LeafPaths(record), LeafValues(record)), j);
  }

  /** `d` reads like `acc` with the entries of `e` stored over it in order. */
  ghost predicate ReadsAs(d: Dict<Value>, acc: Dict<Value>, e: Dict<Value>) {
    forall k {:trigger Get(d, k)} :: Get(d, k) == if HasKey(e, k) then LastValue(e, k) else Get(acc, k)
  }

  lemma {:induction false} FlattenFromReads(record: Record, parentKey: string, i: nat, acc: Dict<Value>)
    requires i <= |record|
    ensures ReadsAs(FlattenFrom(record, parentKey, i, acc), acc,
                    Leaves(parentKey, LeafPathsFrom(record, i), LeafValuesFrom(record, i)))
    decreases Obj(record), 0, |record| - i, 2
  {
    if i < |record| {
      FlattenFromReadsCons(record, parentKey, i, acc);
    } else {
      FlattenFromEndReads(record, parentKey, acc);
    }
  }

  lemma FlattenFromEndReads(record: Record, parentKey: string, acc: Dict<Value>)
    ensures ReadsAs(FlattenFrom(record, parentKey, |record|, acc), acc,
                    Leaves(parentKey, LeafPathsFrom(record, |record|), LeafValuesFrom(record, |record|)))
  {
    var e := Leaves(parentKey, LeafPathsFrom(record, |record|), LeafValuesFrom(record, |record|));
    assert e == [];
    forall k ensures !HasKey(e, k) {
      assert Keys(e) == [];
    }
  }

  /** One loop step: what entry `i` stores, followed by what the rest of the loop stores. */
  lemma {:induction false} FlattenFromReadsCons(record: Record, parentKey: string, i: nat, acc: Dict<Value>)
    requires i < |record|
    ensures ReadsAs(FlattenFrom(record, parentKey, i, acc), acc,
                    Leaves(parentKey, LeafPathsFrom(record, i), LeafValuesFrom(record, i)))
    decreases Obj(record), 0, |record| - i, 1
  {
    FlattenFromReads(record, parentKey, i + 1, FlattenEntry(record, parentKey, i, acc));
    FlattenEntryReads(record, parentKey, i, acc);
    FlattenFromUnfold(record, parentKey, i, acc);
    var here := Leaves(parentKey, EntryPaths(record, i), EntryValues(record, i));
    var rest := Leaves(parentKey, LeafPathsFrom(record, i + 1), LeafValuesFrom(record, i + 1));
    LeavesFromUnfold(record, parentKey, i);
    ReadsStep(FlattenFrom(record, parentKey, i + 1, FlattenEntry(record, parentKey, i, acc)),
              FlattenEntry(record, parentKey, i, acc), acc, here, rest);
  }

  lemma LeavesFromUnfold(record: Record, parentKey: string, i: nat)
    requires i < |record|
    ensures Leaves(parentKey, LeafPathsFrom(record, i), LeafValuesFrom(record, i))
            == Leaves(parentKey, EntryPaths(record, i), EntryValues(record, i))
               + Leaves(parentKey, LeafPathsFrom(record, i + 1), LeafValuesFrom(record, i + 1))
  {
    var ps, qs := EntryPaths(record, i), LeafPathsFrom(record, i + 1);
    var vs, ws := EntryValues(record, i), LeafValuesFrom(record, i + 1);
    assert LeafPathsFrom(record, i) == ps + qs;
    assert LeafValuesFrom(record, i) == vs + ws;
    LeavesAppend(parentKey, ps, qs, vs, ws);
  }

  lemma LeavesAppend(parentKey: string, ps: seq<seq<string>>, qs: seq<seq<string>>, vs: seq<Value>, ws: seq<Value>)
    requires |ps| == |vs| && |qs| == |ws|
    ensures Leaves(parentKey, ps + qs, vs + ws) == Leaves(parentKey, ps, vs) + Leaves(parentKey, qs, ws)
  {
    var l, a, b := Leaves(parentKey, ps + qs, vs + ws), Leaves(parentKey, ps, vs), Leaves(parentKey, qs, ws);
    forall j | 0 <= j < |l| ensures l[j] == (a + b)[j] {
      if j >= |ps| {
        assert (ps + qs)[j] == qs[j - |ps|] && (vs + ws)[j] == ws[j - |ps|];
      }
    }
  }

  /** Chaining two read equations, one per step of the flattening loop. */
  lemma ReadsStep(out: Dict<Value>, mid: Dict<Value>, acc: Dict<Value>, here: Dict<Value>, rest: Dict<Value>)
    requires ReadsAs(out, mid, rest) && ReadsAs(mid, acc, here)
    ensures ReadsAs(out, acc, here + rest)
  {
    forall k ensures Get(out, k) == if HasKey(here + rest, k) then LastValue(here + rest, k) else Get(acc, k) {
      LastValueAppend(here, rest, k);
      assert Keys(here + rest) == Keys(here) + Keys(rest);
    }
  }

  lemma {:induction false} FlattenEntryReads(record: Record, parentKey: string, i: nat, acc: Dict<Value>)
    requires i < |record|
    ensures ReadsAs(FlattenEntry(record, parentKey, i, acc), acc,
                    Leaves(parentKey, EntryPaths(record, i), EntryValues(record, i)))
    decreases Obj(record), 0, |record| - i, 0
  {
    var key := record[i].0;
    var value := record[i].1;
    if key == "attributes" || value.Arr? {
      assert FlattenEntry(record, parentKey, i, acc) == acc;
      assert Keys(Leaves(parentKey, EntryPaths(record, i), EntryValues(record, i))) == [];
    } else if IsRelationship(value) {
      FlattenFromReads(value.fields, NestedKey(parentKey, key), 0, []);
      NestedEntryReads(record, parentKey, i, acc);
    } else {
      ScalarEntryReads(record, parentKey, i, acc);
    }
  }

  lemma NestedEntryReads(record: Record, parentKey: string, i: nat, acc: Dict<Value>)
    requires i < |record| && record[i].0 != "attributes" && IsRelationship(record[i].1)
    requires ReadsAs(FlattenRecord(record[i].1.fields, NestedKey(parentKey, record[i].0)), [],
                     Leaves(NestedKey(parentKey, record[i].0), LeafPaths(record[i].1.fields),
                            LeafValues(record[i].1.fields)))
    ensures ReadsAs(FlattenEntry(record, parentKey, i, acc), acc,
                    Leaves(parentKey, EntryPaths(record, i), EntryValues(record, i)))
  {
    var key := record[i].0;
    var fields := record[i].1.fields;
    var sub := FlattenRecord(fields, NestedKey(parentKey, key));
    var e := Leaves(NestedKey(parentKey, key), LeafPaths(fields), LeafValues(fields));
    assert FlattenEntry(record, parentKey, i, acc) == Update(acc, sub);
    assert EntryPaths(record, i) == Prefixed(key, LeafPaths(fields));
    assert EntryValues(record, i) == LeafValues(fields);
    LeavesPrefixed(parentKey, key, LeafPaths(fields), LeafValues(fields));
    UpdateReads(acc, sub, e);
  }

  lemma LeavesPrefixed(parentKey: string, key: string, ps: seq<seq<string>>, vs: seq<Value>)
    requires |ps| == |vs|
    ensures Leaves(parentKey, Prefixed(key, ps), vs) == Leaves(NestedKey(parentKey, key), ps, vs)
  {
    DottedKeysPrefixed(parentKey, key, ps);
    var a, b := Leaves(parentKey, Prefixed(key, ps), vs), Leaves(NestedKey(parentKey, key), ps, vs);
    forall j | 0 <= j < |ps| ensures a[j] == b[j] {
      assert DottedKeys(parentKey, Prefixed(key, ps))[j] == DottedKeys(NestedKey(parentKey, key), ps)[j];
    }
  }

  /** Updating with a dict that reads like `e` stored over nothing reads like `e` stored over `acc`. */
  lemma UpdateReads(acc: Dict<Value>, sub: Dict<Value>, e: Dict<Value>)
    requires UniqueKeys(sub) && ReadsAs(sub, [], e)
    ensures ReadsAs(Update(acc, sub), acc, e)
  {
    forall k ensures Get(Update(acc, sub), k) == if HasKey(e, k) then LastValue(e, k) else Get(acc, k) {
      UpdateGet(acc, sub, k);
      assert Get(sub, k) == if HasKey(e, k) then LastValue(e, k) else Get([], k);
    }
  }

  lemma ScalarEntryReads(record: Record, parentKey: string, i: nat, acc: Dict<Value>)
    requires i < |record| && record[i].0 != "attributes" && !record[i].1.Arr? && !IsRelationship(record[i].1)
    ensures ReadsAs(FlattenEntry(record, parentKey, i, acc), acc,
                    Leaves(parentKey, EntryPaths(record, i), EntryValues(record, i)))
  {
    var key := record[i].0;
    var value := record[i].1;
    var newKey := NestedKey(parentKey, key);
    var e := Leaves(parentKey, EntryPaths(record, i), EntryValues(record, i));
    assert FlattenEntry(record, parentKey, i, acc) == Put(acc, newKey, value);
    assert EntryPaths(record, i) == [[key]] && EntryValues(record, i) == [value];
    assert Dotted(parentKey, [key]) == Dotted(newKey, []) == newKey;
    assert e == [(newKey, value)];
    forall k ensures Get(Put(acc, newKey, value), k) == if HasKey(e, k) then LastValue(e, k) else Get(acc, k) {
      PutGet(acc, newKey, value, k);
      assert Keys(e) == [newKey];
      assert e[1..] == [];
    }
  }

  /** Reference definition for a record without relationships: its entries minus the
      `attributes` entry and the subquery lists, in order. */
  function KeptFields(record: Record): (r: Record)
    ensures forall x :: x in r ==> x in record
    ensures UniqueKeys(record) ==> UniqueKeys(r)
    decreases |record|
  {
    if |record| == 0 then []
    else
      var prefix := record[..|record| - 1];
      var last := record[|record| - 1];
      var kept := KeptFields(prefix);
      assert forall x :: x in prefix ==> x in record;
      if last.0 == "attributes" || last.1.Arr? then kept
      else
        assert UniqueKeys(record) ==> forall x :: x in kept ==> x.0 != last.0 by {
          if UniqueKeys(record) {
            forall x | x in kept ensures x.0 != last.0 {
              var j :| 0 <= j < |prefix| && prefix[j] == x;
              assert record[j] == x;
            }
          }
        }
        kept + [last]
  }

  predicate NoRelationships(record: Record) {
    forall x :: x in record ==> !IsRelationship(x.1)
  }

  /** Scalars, `None` included, are kept under their own key with their value unchanged;
      only `attributes` and lists are dropped. */
  lemma FlattenFlatRecord(record: Record)
    requires UniqueKeys(record) && NoRelationships(record)
    ensures FlattenRecord(record, "") == KeptFields(record)
  {
    assert record[..0] == [];
    FlattenFlatFrom(record, 0);
  }

  lemma {:induction false} FlattenFlatFrom(record: Record, i: nat)
    requires UniqueKeys(record) && NoRelationships(record) && i <= |record|
    ensures FlattenFrom(record, "", i, KeptFields(record[..i])) == KeptFields(record)
    decreases |record| - i
  {
    if i == |record| {
      assert record[..i] == record;
    } else {
      var key := record[i].0;
      var value := record[i].1;
      var acc := KeptFields(record[..i]);
      assert record[..i + 1][..i] == record[..i];
      assert record[..i + 1][i] == record[i];
      assert record[i] in record;
      if key != "attributes" && !value.Arr? {
        forall x | x in acc ensures x.0 != key {
          assert x in record[..i];
          var j :| 0 <= j < i && record[..i][j] == x;
          assert record[j] == x;
        }
        assert !HasKey(acc, key) by {
          forall m | 0 <= m < |acc| ensures Keys(acc)[m] != key {
            assert acc[m] in acc;
          }
        }
        assert Put(acc, key, value) == acc + [(key, value)];
      }
      assert FlattenEntry(record, "", i, acc) == KeptFields(record[..i + 1]);
      FlattenFlatFrom(record, i + 1);
    }
  }

  /** `[flatten_record(rec) for rec in records]` */
  function FlattenAll(records: seq<Record>): (flats: seq<Dict<Value>>)
    ensures |flats| == |records|
    ensures forall i :: 0 <= i < |records| ==> flats[i] == FlattenRecord(records[i], "")
  {
    seq(|records|, i requires 0 <= i < |records| => FlattenRecord(records[i], ""))
  }

  /** Every key of every flattened record, record by record, in dict order. */
  function AllKeys(flats: seq<Dict<Value>>): (ks: seq<string>)
    ensures forall k :: k in ks <==> exists i :: 0 <= i < |flats| && HasKey(flats[i], k)
    decreases |flats|
  {
    if |flats| == 0 then []
    else
      var prefix := flats[..|flats| - 1];
      assert forall i :: 0 <= i < |prefix| ==> prefix[i] == flats[i];
      AllKeys(prefix) + Keys(flats[|flats| - 1])
  }

  /** `if key not in headers: headers.append(key)` */
  function AddIfNew(headers: seq<string>, key: string): seq<string> {
    if key in headers then headers else headers + [key]
  }

  /** The header loop of `format_table`, over the remaining keys `ks`. */
  function CollectHeaders(headers: seq<string>, ks: seq<string>): seq<string>
    decreases |ks|
  {
    if |ks| == 0 then headers else CollectHeaders(AddIfNew(headers, ks[0]), ks[1..])
  }

  /** Reference definition: each key kept at its first occurrence only. */
  function FirstOccurrences(ks: seq<string>): (r: seq<string>)
    ensures Distinct(r)
    ensures forall k :: k in r <==> k in ks
    decreases |ks|
  {
    if |ks| == 0 then []
    else
      var prefix := ks[..|ks| - 1];
      var last := ks[|ks| - 1];
      assert forall k :: k in ks <==> k in prefix || k == last;
      FirstOccurrences(prefix) + (if last in prefix then [] else [last])
  }

  /** The table headers: the distinct flattened keys in order of first appearance. */
  function Headers(flats: seq<Dict<Value>>): (hs: seq<string>)
    ensures hs == FirstOccurrences(AllKeys(flats))
    ensures Distinct(hs)
    ensures forall k :: k in hs <==> exists i :: 0 <= i < |flats| && HasKey(flats[i], k)
  {
    CollectHeadersIsFirstOccurrences(AllKeys(flats), 0);
    assert AllKeys(flats)[..0] == [] && AllKeys(flats)[0..] == AllKeys(flats);
    CollectHeaders([], AllKeys(flats))
  }

  lemma {:induction false} CollectHeadersIsFirstOccurrences(ks: seq<string>, i: nat)
    requires i <= |ks|
    ensures CollectHeaders(FirstOccurrences(ks[..i]), ks[i..]) == FirstOccurrences(ks)
    decreases |ks| - i
  {
    if i == |ks| {
      assert ks[..i] == ks;
    } else {
      assert ks[..i + 1][..i] == ks[..i];
      assert ks[..i + 1][i] == ks[i];
      assert AddIfNew(FirstOccurrences(ks[..i]), ks[i]) == FirstOccurrences(ks[..i + 1]);
      assert ks[i..][1..] == ks[i + 1..];
      CollectHeadersIsFirstOccurrences(ks, i + 1);
    }
  }

  const MaxCellWidth: nat := 50
  const KeptCellPrefix: nat := 47

  /** `record.get(header, "")`, with `None` shown as the empty string, then `str(value)`. */
  function CellText(v: Option<Value>): string {
    match v
    case None => ""
    case Some(Null) => ""
    case Some(x) => PyStr(x)
  }

  /** The 50-character cap on a cell. */
  function Truncate(s: string): (c: string)
    ensures |c| <= MaxCellWidth
    ensures |s| <= MaxCellWidth <==> c == s
    ensures |s| > MaxCellWidth ==> c == s[..KeptCellPrefix] + "..."
  {
    if |s| > MaxCellWidth then s[..KeptCellPrefix] + "..." else s
  }

  function RowCells(flat: Dict<Value>, headers: seq<string>): (cells: seq<string>)
    ensures |cells| == |headers|
    ensures forall j :: 0 <= j < |headers| ==> |cells[j]| <= MaxCellWidth
    ensures forall j :: 0 <= j < |headers| ==> cells[j] == Truncate(CellText(Get(flat, headers[j])))
  {
    seq(|headers|, j requires 0 <= j < |headers| => Truncate(CellText(Get(flat, headers[j]))))
  }

  /** The table as a grid: header row, separator row, then one row per record. Every row has one
      cell per header; a data cell is at most 50 characters and empty for a missing key or `None`. */
  function TableGrid(flats: seq<Dict<Value>>): (grid: seq<seq<string>>)
    ensures |grid| == 2 + |flats|
    ensures grid[0] == Headers(flats)
    ensures forall j :: 0 <= j < |grid[1]| ==> grid[1][j] == "---"
    ensures forall i :: 0 <= i < |grid| ==> |grid[i]| == |Headers(flats)|
    ensures forall i, j :: 2 <= i < |grid| && 0 <= j < |grid[i]| ==> |grid[i][j]| <= MaxCellWidth
    ensures forall i, j :: 0 <= i < |flats| && 0 <= j < |grid[i + 2]|
              ==> (grid[i + 2][j] == "" <== Get(flats[i], Headers(flats)[j]) in {None, Some(Null)})
    ensures forall i :: 0 <= i < |flats| ==> grid[i + 2] == RowCells(flats[i], Headers(flats))
    ensures forall i, j :: 0 <= i < |flats| && 0 <= j < |Headers(flats)|
              ==> grid[i + 2][j] == Truncate(CellText(Get(flats[i], Headers(flats)[j])))
  {
    var hs := Headers(flats);
    [hs, seq(|hs|, j => "---")]
      + seq(|flats|, i requires 0 <= i < |flats| => RowCells(flats[i], hs))
  }

  /** `"| " + " | ".join(cells) + " |"` */
  function MarkdownRow(cells: seq<string>): string {
    "| " + Join(" | ", cells) + " |"
  }

  /** Lines joined, each ended by a newline. */
  function Unlines(lines: seq<string>): string
    decreases |lines|
  {
    if |lines| == 0 then "" else lines[0] + "\n" + Unlines(lines[1..])
  }

  function TableLines(flats: seq<Dict<Value>>): (lines: seq<string>)
    ensures |lines| == 2 + |flats|
    ensures forall i :: 0 <= i < |lines| ==> lines[i] == MarkdownRow(TableGrid(flats)[i])
  {
    var grid := TableGrid(flats);
    seq(|grid|, i requires 0 <= i < |grid| => MarkdownRow(grid[i]))
  }

  /** `format_table(records)` */
  function FormatTable(records: seq<Record>): (r: string)
    ensures records == [] <==> r == "No results found."
    ensures records != [] ==> r == Unlines(TableLines(FlattenAll(records)))
  {
    if records == [] then "No results found."
    else
      var lines := TableLines(FlattenAll(records));
      assert r: Unlines(lines) != "No results found." by {
        assert lines[0][0] == '|';
        assert Unlines(lines)[0] == '|';
      }
      Unlines(lines)
  }

  /** Line `i + 2` of the table renders record `i`: its flattened values under the shared headers. */
  lemma RecordLine(records: seq<Record>, i: nat)
    requires i < |records|
    ensures var flats := FlattenAll(records);
            TableLines(flats)[i + 2] == MarkdownRow(RowCells(FlattenRecord(records[i], ""), Headers(flats)))
  {
    var flats := FlattenAll(records);
    assert TableGrid(flats)[i + 2] == RowCells(flats[i], Headers(flats));
  }
}
