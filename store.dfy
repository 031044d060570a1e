/**
 * The MySQL tables the scripts share, as maps keyed by id. A transaction that
 * rolls back leaves them as they were; the scripts' database errors are
 * parameters of the operations that can meet them.
 */
module Db {
  import opened Wrappers

  /** A `templestay` row, with the columns the modelled scripts read or write. */
  datatype Record = Record(url: string, templeName: Option<string>, address: Option<string>, schedule: Option<string>)

  /** A `filter` row, keyed by its `templestay_id`; `None` is SQL `NULL`. */
  datatype FilterRow = FilterRow(kind: Option<int>, price: Option<int>, activity: Option<int>, region: Option<int>, etc: Option<int>)

  /** A snapshot of the tables: `templestay`, `filter`, `image`, and the next `AUTO_INCREMENT` id. */
  datatype Tables = Tables(
    records: map<nat, Record>,
    filters: map<nat, FilterRow>,
    images: seq<(nat, string)>,
    nextId: nat)

  /** What the schema guarantees: ids below the counter, a unique `url` column, filter rows of existing records. */
  ghost predicate TablesValid(t: Tables) {
    && (forall id :: id in t.records ==> id < t.nextId)
    && (forall a, b :: a in t.records && b in t.records && t.records[a].url == t.records[b].url ==> a == b)
    && t.filters.Keys <= t.records.Keys
  }

  /** Strictly ascending ids, so each one once. */
  predicate Ascending(s: seq<nat>) {
    forall i, j :: 0 <= i < j < |s| ==> s[i] < s[j]
  }

  /** The ids of `keys` below `n`, ascending: a table scan in primary-key order. */
  function IdsBelow(keys: set<nat>, n: nat): (r: seq<nat>)
    ensures forall x :: x in r <==> x in keys && x < n
    ensures forall i, j :: 0 <= i < j < |r| ==> r[i] < r[j]
  {
    if n == 0 then []
    else
      var r := IdsBelow(keys, n - 1);
      var t := r + if n - 1 in keys then [n - 1] else [];
      assert forall i :: 0 <= i < |r| ==> r[i] < n - 1 by {
        forall i | 0 <= i < |r| ensures r[i] < n - 1 { assert r[i] in r; }
      }
      assert forall i, j :: 0 <= i < j < |t| ==> t[i] < t[j] by {
        forall i, j | 0 <= i < j < |t| ensures t[i] < t[j] {
          assert t[i] == r[i];
          if j < |r| { assert t[j] == r[j]; }
        }
      }
      t
  }

  /** The ids of all records, ascending. */
  function RecordIds(t: Tables): seq<nat> {
    IdsBelow(t.records.Keys, t.nextId)
  }

  /** The id of the record holding `url`, if one does. */
  function IdOfUrl(t: Tables, url: string): (r: Option<nat>)
    ensures r.Some? ==> r.value in t.records && t.records[r.value].url == url
    ensures r.None? ==> forall id :: id in t.records && id < t.nextId ==> t.records[id].url != url
  {
    FindUrl(t.records, url, t.nextId)
  }

  function FindUrl(records: map<nat, Record>, url: string, n: nat): (r: Option<nat>)
    ensures r.Some? ==> r.value < n && r.value in records && records[r.value].url == url
    ensures r.None? ==> forall id :: id in records && id < n ==> records[id].url != url
  {
    if n == 0 then None
    else if n - 1 in records && records[n - 1].url == url then Some(n - 1)
    else FindUrl(records, url, n - 1)
  }

  /** The live tables. */
  class Store {
    var records: map<nat, Record>
    var filters: map<nat, FilterRow>
    var images: seq<(nat, string)>
    var nextId: nat

    function State(): Tables
      reads this
    {
      Tables(records, filters, images, nextId)
    }

    ghost predicate Valid()
      reads this
    {
      TablesValid(State())
    }

    constructor (t: Tables)
      ensures State() == t
    {
      records, filters, images, nextId := t.records, t.filters, t.images, t.nextId;
    }

    /** Replace the whole snapshot: the effect of a committed transaction. */
    method Commit(t: Tables)
      modifies this
      ensures State() == t
    {
      records, filters, images, nextId := t.records, t.filters, t.images, t.nextId;
    }
  }
}
