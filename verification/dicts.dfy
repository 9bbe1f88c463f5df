/** Python's insertion-ordered `dict` with string keys, as a sequence of entries. */
module Dicts {
  import opened Wrappers

  /** Entries in insertion order. Dicts built with `Put` never repeat a key. */
  type Dict<V> = seq<(string, V)>

  function Keys<V>(d: Dict<V>): (ks: seq<string>)
    ensures |ks| == |d|
    ensures forall i :: 0 <= i < |d| ==> ks[i] == d[i].0
  {
    seq(|d|, i requires 0 <= i < |d| => d[i].0)
  }

  /** `k in d` */
  predicate HasKey<V>(d: Dict<V>, k: string) {
    k in Keys(d)
  }

  predicate UniqueKeys<V>(d: Dict<V>) {
    forall i, j :: 0 <= i < j < |d| ==> d[i].0 != d[j].0
  }

  /** Position of the first entry stored under `k`. */
  function KeyIndex<V>(d: Dict<V>, k: string): (i: nat)
    requires HasKey(d, k)
    ensures i < |d| && d[i].0 == k
    ensures forall j :: 0 <= j < i ==> d[j].0 != k
  {
    if d[0].0 == k then 0
    else
      assert HasKey(d[1..], k) by {
        var j :| 0 <= j < |d| && Keys(d)[j] == k;
        assert Keys(d[1..])[j - 1] == k;
      }
      1 + KeyIndex(d[1..], k)
  }

  /** `d.get(k)`: the value stored under `k`, if any. */
  function Get<V>(d: Dict<V>, k: string): (r: Option<V>)
    ensures r.Some? <==> HasKey(d, k)
    ensures r.Some? ==> (k, r.value) in d
  {
    if HasKey(d, k) then Some(d[KeyIndex(d, k)].1) else None
  }

  /** In a dict without repeated keys, an entry's value is what `Get` returns for its key. */
  lemma GetEntry<V>(d: Dict<V>, i: nat)
    requires UniqueKeys(d) && i < |d|
    ensures Get(d, d[i].0) == Some(d[i].1)
  {
    assert HasKey(d, d[i].0) by { assert Keys(d)[i] == d[i].0; }
  }

  /** `d[k] = v`: an existing key keeps its position and takes the new value; a new key goes last. */
  function Put<V>(d: Dict<V>, k: string, v: V): (r: Dict<V>)
    ensures HasKey(d, k) ==> Keys(r) == Keys(d)
    ensures !HasKey(d, k) ==> Keys(r) == Keys(d) + [k]
    ensures forall x :: x in r ==> x in d || x == (k, v)
  {
    if HasKey(d, k) then d[KeyIndex(d, k) := (k, v)] else d + [(k, v)]
  }

  /** After `d[k] = v`, `k` reads back `v` and every other key reads back what it read before. */
  lemma PutGet<V>(d: Dict<V>, k: string, v: V, k': string)
    ensures Get(Put(d, k, v), k') == if k' == k then Some(v) else Get(d, k')
  {
    var r := Put(d, k, v);
    if HasKey(d, k) {
      assert Keys(r) == Keys(d);
    } else {
      assert Keys(r) == Keys(d) + [k];
      if HasKey(d, k') {
        assert KeyIndex(r, k') == KeyIndex(d, k') by {
          var i := KeyIndex(d, k');
          assert r[i] == d[i];
        }
      }
    }
  }

  lemma PutUnique<V>(d: Dict<V>, k: string, v: V)
    ensures UniqueKeys(d) ==> UniqueKeys(Put(d, k, v))
  {
    var r := Put(d, k, v);
    if UniqueKeys(d) && !HasKey(d, k) {
      forall i, j | 0 <= i < j < |r| ensures r[i].0 != r[j].0 {
        if j == |d| { assert Keys(d)[i] == d[i].0; }
      }
    }
  }

  /** `d.update(e)`: every entry of `e`, in order, stored with `Put`. */
  function Update<V>(d: Dict<V>, e: Dict<V>): (r: Dict<V>)
    ensures forall k :: HasKey(r, k) <==> HasKey(d, k) || HasKey(e, k)
    ensures UniqueKeys(d) ==> UniqueKeys(r)
    ensures forall x :: x in r ==> x in d || x in e
    decreases |e|
  {
    if |e| == 0 then d
    else
      assert Keys(e) == [e[0].0] + Keys(e[1..]);
      PutUnique(d, e[0].0, e[0].1);
      Update(Put(d, e[0].0, e[0].1), e[1..])
  }

  /** A dict updated with a dict that has no repeated keys reads the update's values for its keys. */
  lemma {:induction false} UpdateGet<V>(d: Dict<V>, e: Dict<V>, k: string)
    requires UniqueKeys(e)
    ensures Get(Update(d, e), k) == if HasKey(e, k) then Get(e, k) else Get(d, k)
    decreases |e|
  {
    if |e| > 0 {
      assert Keys(e) == [e[0].0] + Keys(e[1..]);
      UpdateGet(Put(d, e[0].0, e[0].1), e[1..], k);
      PutGet(d, e[0].0, e[0].1, k);
      if k == e[0].0 {
        assert !HasKey(e[1..], k);
        GetEntry(e, 0);
      } else if HasKey(e[1..], k) {
        assert KeyIndex(e, k) == 1 + KeyIndex(e[1..], k);
      }
    }
  }

  /** The value of the last entry of `e` stored under `k`: what `k` reads once `e`'s entries
      have been stored in order. */
  function LastValue<V>(e: Dict<V>, k: string): (r: Option<V>)
    ensures r.Some? <==> HasKey(e, k)
    ensures r.Some? ==> (k, r.value) in e
    decreases |e|
  {
    if |e| == 0 then None
    else
      assert Keys(e) == [e[0].0] + Keys(e[1..]);
      var rest := LastValue(e[1..], k);
      if rest.Some? then rest else if e[0].0 == k then Some(e[0].1) else None
  }

  /** `d.update(e)` with repeated keys in `e`: the last entry under a key wins. */
  lemma {:induction false} UpdateLast<V>(d: Dict<V>, e: Dict<V>, k: string)
    ensures Get(Update(d, e), k) == if HasKey(e, k) then LastValue(e, k) else Get(d, k)
    decreases |e|
  {
    if |e| > 0 {
      assert Keys(e) == [e[0].0] + Keys(e[1..]);
      UpdateLast(Put(d, e[0].0, e[0].1), e[1..], k);
      PutGet(d, e[0].0, e[0].1, k);
    }
  }

  lemma {:induction false} LastValueAppend<V>(a: Dict<V>, b: Dict<V>, k: string)
    ensures LastValue(a + b, k) == if HasKey(b, k) then LastValue(b, k) else LastValue(a, k)
    decreases |a|
  {
    if |a| == 0 {
      assert a + b == b;
    } else {
      assert (a + b)[1..] == a[1..] + b;
      LastValueAppend(a[1..], b, k);
    }
  }

  /** An entry with no later entry under the same key is the one its key reads. */
  lemma {:induction false} LastValueAt<V>(e: Dict<V>, j: nat)
    requires j < |e|
    requires forall m :: j < m < |e| ==> e[m].0 != e[j].0
    ensures LastValue(e, e[j].0) == Some(e[j].1)
    decreases j
  {
    if j == 0 {
      assert !HasKey(e[1..], e[0].0) by {
        forall m | 0 <= m < |e| - 1 ensures Keys(e[1..])[m] != e[0].0 {
          assert e[1..][m] == e[m + 1];
        }
      }
    } else {
      LastValueAt(e[1..], j - 1);
    }
  }
}
