/**
 * The reporter's `failures` table: a JavaScript `Map` from test title to failure
 * record. A `Map` iterates in insertion order, and `set` on a key that is already
 * present replaces the value but keeps the key where it was. The table is the pair
 * of its iteration order and its key-to-record map.
 */
module FailureTable {

  /** `{message, stack, timeTaken}`: what is kept about one failed test. */
  datatype Failure = Failure(message: string, stack: string, timeTaken: string)

  datatype Table = Table(order: seq<string>, records: map<string, Failure>)

  /** Each key occurs once in the order, and the order lists exactly the keys of the map. */
  ghost predicate Valid(t: Table) {
    && (forall i, j :: 0 <= i < j < |t.order| ==> t.order[i] != t.order[j])
    && (forall k :: k in t.records <==> k in t.order)
  }

  /** `new Map()`. */
  function Empty(): (t: Table)
    ensures Valid(t) && t.order == [] && |t.records| == 0
  {
    Table([], map[])
  }

  /** `map.set(k, v)`. */
  function Put(t: Table, k: string, v: Failure): (r: Table)
    requires Valid(t)
    ensures Valid(r)
  {
    Table(if k in t.records then t.order else t.order + [k], t.records[k := v])
  }

  /** `set` stores `v` under `k` and leaves every other record as it was; a key already
      present keeps its place in the iteration order, a new key goes last. */
  lemma PutSpec(t: Table, k: string, v: Failure)
    requires Valid(t)
    ensures var r := Put(t, k, v);
            && k in r.records && r.records[k] == v
            && r.records.Keys == t.records.Keys + {k}
            && (forall k' :: k' in t.records && k' != k ==> r.records[k'] == t.records[k'])
            && (k in t.records ==> r.order == t.order)
            && (k !in t.records ==> r.order == t.order + [k])
  {
  }

  /** `map.size`: the number of entries equals the length of the iteration order. */
  lemma SizeIsOrderLength(t: Table)
    requires Valid(t)
    ensures |t.records| == |t.order|
  {
    DistinctCard(t.order);
    assert t.records.Keys == set x | x in t.order;
  }

  lemma {:induction false} DistinctCard(s: seq<string>)
    requires forall i, j :: 0 <= i < j < |s| ==> s[i] != s[j]
    ensures |set x | x in s| == |s|
  {
    if s != [] {
      var p := s[..|s| - 1];
      DistinctCard(p);
      assert (set x | x in s) == (set x | x in p) + {s[|s| - 1]};
      assert s[|s| - 1] !in (set x | x in p);
    }
  }

  /** Setting a key that is present replaces its record, keeps the size and keeps the
      key at the same position in the iteration order. */
  lemma PutExisting(t: Table, k: string, v: Failure, p: nat)
    requires Valid(t) && p < |t.order| && t.order[p] == k
    ensures |Put(t, k, v).records| == |t.records|
    ensures Put(t, k, v).order[p] == k
    ensures Put(t, k, v).records[k] == v
  {
    PutSpec(t, k, v);
    assert Put(t, k, v).records.Keys == t.records.Keys;
  }

  /** Setting a new key grows the table by one entry, placed last in iteration order. */
  lemma PutNew(t: Table, k: string, v: Failure)
    requires Valid(t) && k !in t.records
    ensures |Put(t, k, v).records| == |t.records| + 1
    ensures Put(t, k, v).order[|t.order|] == k
  {
    PutSpec(t, k, v);
    SizeIsOrderLength(t);
    SizeIsOrderLength(Put(t, k, v));
  }
}
