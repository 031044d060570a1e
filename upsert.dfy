/**
 * `batch_insert_and_upsert` (`url_type.py`): the listings with a non-zero
 * type are inserted into `templestay` if their url is new (`INSERT IGNORE`),
 * and the type of each url, the last one listed for it, is written into the
 * `filter` row of the url's id (`ON DUPLICATE KEY UPDATE`). The statements run
 * in one transaction: on any error nothing is kept.
 */
module Upsert {
  import opened Wrappers
  import opened OrderedMap
  import opened Listing
  import opened Db

  /** `[... for ... in url_type_list if type_bits > 0]`. */
  function ValidEntries(es: seq<Listing>): (r: seq<Listing>)
    ensures |r| <= |es|
    ensures forall e :: e in r <==> e in es && e.typeBits > 0
  {
    if es == [] then []
    else (if es[0].typeBits > 0 then [es[0]] else []) + ValidEntries(es[1..])
  }

  /** The filter row of `id`, if there is one. */
  function FilterAt(filters: map<nat, FilterRow>, id: nat): Option<FilterRow> {
    if id in filters then Some(filters[id]) else None
  }

  /** `INSERT INTO filter (templestay_id, type) ... ON DUPLICATE KEY UPDATE type = ...` on one row. */
  function WithType(row: Option<FilterRow>, bits: nat): (r: FilterRow)
    ensures r.kind == Some(bits)
    ensures row.Some? ==> r.(kind := row.value.kind) == row.value
    ensures row.None? ==> r == FilterRow(Some(bits), None, None, None, None)
  {
    match row
    case None => FilterRow(Some(bits), None, None, None, None)
    case Some(f) => f.(kind := Some(bits))
  }

  /** `INSERT IGNORE INTO templestay (url)` for one url: a new url gets the next id. */
  function InsertUrl(t: Tables, url: string): Tables {
    if IdOfUrl(t, url).Some? then t
    else t.(records := t.records[t.nextId := Record(url, None, None, None)], nextId := t.nextId + 1)
  }

  /** The `executemany` of the insert, in list order. */
  function InsertAll(t: Tables, es: seq<Listing>): Tables
    decreases |es|
  {
    if es == [] then t else InsertAll(InsertUrl(t, es[0].url), es[1..])
  }

  /** `{url: type_bits for ...}`: a later entry overwrites the bits of an earlier one with the same url. */
  function TypeMap(es: seq<Listing>): (m: seq<(string, nat)>)
    ensures DistinctKeys(m)
  {
    if es == [] then [] else Put(TypeMap(es[..|es| - 1]), es[|es| - 1].url, es[|es| - 1].typeBits)
  }

  /** The bits of the last entry of `es` with url `url`. */
  function LastBits(es: seq<Listing>, url: string): Option<nat> {
    if es == [] then None
    else if es[|es| - 1].url == url then Some(es[|es| - 1].typeBits)
    else LastBits(es[..|es| - 1], url)
  }

  /** The filter upsert of one (id, url) row of the `SELECT`. */
  function UpsertType(t: Tables, url: string, bits: nat): Tables {
    match IdOfUrl(t, url)
    case None => t
    case Some(id) => t.(filters := t.filters[id := WithType(FilterAt(t.filters, id), bits)])
  }

  /** The `executemany` of the filter upsert, one row per url of the type map. */
  function UpsertTypes(t: Tables, m: seq<(string, nat)>): Tables
    decreases |m|
  {
    if m == [] then t else UpsertTypes(UpsertType(t, m[0].0, m[0].1), m[1..])
  }

  /** The tables after the call; `fail` stands for an error anywhere in the transaction. */
  function UpsertOf(t: Tables, list: seq<Listing>, fail: bool): Tables {
    var valid := ValidEntries(list);
    if list == [] || valid == [] || fail then t
    else
      var inserted := InsertAll(t, valid);
      UpsertTypes(inserted, TypeMap(valid))
  }

  /** The call on an open connection. */
  method BatchInsertAndUpsert(db: Store, list: seq<Listing>, fail: bool)
    modifies db
    ensures db.State() == UpsertOf(old(db.State()), list, fail)
  {
    if list == [] {
      return;
    }
    var valid := ValidEntries(list);
    if valid == [] {
      return;
    }
    var t := db.State();
    ghost var t0 := t;
    var i := 0;
    while i < |valid|
      invariant 0 <= i <= |valid|
      invariant InsertAll(t, valid[i..]) == InsertAll(t0, valid)
    {
      assert valid[i..][1..] == valid[i + 1..];
      t := InsertUrl(t, valid[i].url);
      i := i + 1;
    }
    assert valid[i..] == [];
    var urlToType := TypeMap(valid);
    ghost var t1 := t;
    var j := 0;
    while j < |urlToType|
      invariant 0 <= j <= |urlToType|
      invariant UpsertTypes(t, urlToType[j..]) == UpsertTypes(t1, urlToType)
    {
      assert urlToType[j..][1..] == urlToType[j + 1..];
      t := UpsertType(t, urlToType[j].0, urlToType[j].1);
      j := j + 1;
    }
    assert urlToType[j..] == [];
    if !fail {
      db.Commit(t);
    }
  }

  /** An empty list, a list without a typed entry, or an error leaves the tables as they were. */
  lemma UpsertUnchanged(t: Tables, list: seq<Listing>, fail: bool)
    requires fail || forall k :: 0 <= k < |list| ==> list[k].typeBits == 0
    ensures UpsertOf(t, list, fail) == t
  {
    if !fail {
      assert forall e :: e in list ==> e.typeBits == 0;
    }
  }

  /** The id of a url is the record that holds it, under unique urls. */
  lemma IdOfUrlIs(t: Tables, url: string, id: nat)
    requires TablesValid(t) && id in t.records && t.records[id].url == url
    ensures IdOfUrl(t, url) == Some(id)
  {}

  /** Inserting one url keeps the tables valid, keeps every existing id, and gives the url an id. */
  lemma InsertUrlEffect(t: Tables, url: string)
    requires TablesValid(t)
    ensures var r := InsertUrl(t, url);
      && TablesValid(r) && r.filters == t.filters && r.images == t.images && t.nextId <= r.nextId
      && (forall id :: id in t.records ==> id in r.records && r.records[id] == t.records[id])
      && IdOfUrl(r, url).Some?
      && (forall u :: IdOfUrl(t, u).Some? ==> IdOfUrl(r, u) == IdOfUrl(t, u))
  {
    var r := InsertUrl(t, url);
    if IdOfUrl(t, url).None? {
      var n := t.nextId;
      assert n !in t.records;
      assert forall b :: b in t.records ==> t.records[b].url != url;
      IdOfUrlIs(r, url, n);
      forall u | IdOfUrl(t, u).Some? ensures IdOfUrl(r, u) == IdOfUrl(t, u) {
        IdOfUrlIs(r, u, IdOfUrl(t, u).value);
      }
    }
  }

  /** What inserting a list of urls promises. */
  ghost predicate InsertedFrom(t: Tables, es: seq<Listing>, r: Tables) {
    && TablesValid(r) && r.filters == t.filters && r.images == t.images && t.nextId <= r.nextId
    && (forall id :: id in t.records ==> id in r.records && r.records[id] == t.records[id])
    && (forall e :: e in es ==> IdOfUrl(r, e.url).Some?)
    && (forall u :: IdOfUrl(t, u).Some? ==> IdOfUrl(r, u) == IdOfUrl(t, u))
  }

  lemma {:induction false} InsertAllEffect(t: Tables, es: seq<Listing>)
    requires TablesValid(t)
    ensures InsertedFrom(t, es, InsertAll(t, es))
    decreases |es|
  {
    if es != [] {
      var t' := InsertUrl(t, es[0].url);
      InsertUrlEffect(t, es[0].url);
      InsertAllEffect(t', es[1..]);
      var r := InsertAll(t', es[1..]);
      forall e | e in es ensures IdOfUrl(r, e.url).Some? {
        if e != es[0] {
          assert e in es[1..];
        }
      }
    }
  }

  /** The upsert of one url changes no table but `filter`, and no filter row but the url's. */
  lemma UpsertTypeEffect(t: Tables, url: string, bits: nat, id: nat)
    requires TablesValid(t)
    ensures var r := UpsertType(t, url, bits);
      && TablesValid(r) && r.records == t.records && r.nextId == t.nextId && r.images == t.images
      && FilterAt(r.filters, id) ==
        if IdOfUrl(t, url) == Some(id) then Some(WithType(FilterAt(t.filters, id), bits)) else FilterAt(t.filters, id)
  {}

  /** The url's id: the same before and after filter upserts, which leave `templestay` alone. */
  lemma SameIds(t: Tables, r: Tables, url: string)
    requires r.records == t.records && r.nextId == t.nextId
    ensures IdOfUrl(r, url) == IdOfUrl(t, url)
  {}

  /**
   * After the filter upserts, the row of the id of a url in the map carries the
   * url's bits, and the row of an id no url of the map has is as it was.
   */
  lemma {:induction false} UpsertTypesAt(t: Tables, m: seq<(string, nat)>, id: nat)
    requires TablesValid(t) && DistinctKeys(m)
    ensures var r := UpsertTypes(t, m);
      && TablesValid(r) && r.records == t.records && r.nextId == t.nextId && r.images == t.images
      && (forall u :: u in Keys(m) && IdOfUrl(t, u) == Some(id) ==>
            FilterAt(r.filters, id) == Some(WithType(FilterAt(t.filters, id), Get(m, u).value)))
      && ((forall u :: u in Keys(m) ==> IdOfUrl(t, u) != Some(id)) ==> FilterAt(r.filters, id) == FilterAt(t.filters, id))
    decreases |m|
  {
    if m != [] {
      var (u0, b0) := m[0];
      var t' := UpsertType(t, u0, b0);
      var rest := m[1..];
      UpsertTypeEffect(t, u0, b0, id);
      assert DistinctKeys(rest) by {
        forall i, j | 0 <= i < j < |rest| ensures rest[i].0 != rest[j].0 {
          assert rest[i] == m[i + 1] && rest[j] == m[j + 1];
        }
      }
      KeysCons(m[0], rest);
      assert m == [m[0]] + rest;
      assert u0 !in Keys(rest) by {
        forall j | 0 <= j < |rest| ensures Keys(rest)[j] != u0 {
          assert rest[j] == m[j + 1];
        }
      }
      UpsertTypesAt(t', rest, id);
      var r := UpsertTypes(t', rest);
      forall u ensures IdOfUrl(t', u) == IdOfUrl(t, u) {
        SameIds(t, t', u);
      }
      forall u | u in Keys(m) && IdOfUrl(t, u) == Some(id)
        ensures FilterAt(r.filters, id) == Some(WithType(FilterAt(t.filters, id), Get(m, u).value))
      {
        GetCons(m[0], rest, u);
        if u != u0 {
          assert u in Keys(rest);
          assert IdOfUrl(t, u0) != Some(id);
        } else {
          assert forall u' :: u' in Keys(rest) ==> IdOfUrl(t', u') != Some(id);
        }
      }
      if forall u :: u in Keys(m) ==> IdOfUrl(t, u) != Some(id) {
        assert u0 in Keys(m);
      }
    }
  }

  /** The map holds the urls of the entries, each with the bits of its last entry. */
  lemma {:induction false} TypeMapGet(es: seq<Listing>, url: string)
    ensures Get(TypeMap(es), url) == LastBits(es, url)
    ensures url in Keys(TypeMap(es)) <==> exists k :: 0 <= k < |es| && es[k].url == url
  {
    if es != [] {
      var init := es[..|es| - 1];
      TypeMapGet(init, url);
      if url != es[|es| - 1].url && url in Keys(TypeMap(es)) {
        var k :| 0 <= k < |init| && init[k].url == url;
        assert es[k] == init[k];
      }
      if exists k :: 0 <= k < |es| && es[k].url == url {
        var k :| 0 <= k < |es| && es[k].url == url;
        if k < |init| {
          assert init[k] == es[k];
        }
      }
    }
  }

  /** Entry `k` has url `url` and no later entry has it. */
  predicate IsLastEntry(es: seq<Listing>, k: nat, url: string) {
    k < |es| && es[k].url == url && forall j :: k < j < |es| ==> es[j].url != url
  }

  /** The last write: the bits of an entry with the url that no later entry overrides. */
  lemma {:induction false} LastBitsSpec(es: seq<Listing>, url: string, bits: nat)
    ensures LastBits(es, url) == Some(bits) <==> exists k: nat :: IsLastEntry(es, k, url) && es[k].typeBits == bits
  {
    if es != [] {
      var n := |es| - 1;
      var init := es[..n];
      LastBitsSpec(init, url, bits);
      if es[n].url == url {
        assert IsLastEntry(es, n, url);
        forall k: nat | IsLastEntry(es, k, url) ensures k == n {}
      } else {
        if LastBits(init, url) == Some(bits) {
          var k: nat :| IsLastEntry(init, k, url) && init[k].typeBits == bits;
          LastEntryExtends(es, k, url);
        }
        forall k: nat | IsLastEntry(es, k, url) ensures IsLastEntry(init, k, url) && init[k] == es[k] {
          assert k < n;
          forall j | k < j < |init| ensures init[j].url != url { assert init[j] == es[j]; }
        }
      }
    }
  }

  lemma LastEntryExtends(es: seq<Listing>, k: nat, url: string)
    requires es != [] && es[|es| - 1].url != url
    requires IsLastEntry(es[..|es| - 1], k, url)
    ensures IsLastEntry(es, k, url) && es[k] == es[..|es| - 1][k]
  {
    var init := es[..|es| - 1];
    forall j | k < j < |es| ensures es[j].url != url {
      if j < |init| { assert es[j] == init[j]; }
    }
  }

  /** A successful call keeps every record and the ids of known urls, gives every typed url an id, and keeps the tables valid. */
  lemma UpsertRecords(t: Tables, list: seq<Listing>)
    requires TablesValid(t)
    ensures var r := UpsertOf(t, list, false);
      && TablesValid(r) && r.images == t.images
      && (forall id :: id in t.records ==> id in r.records && r.records[id] == t.records[id])
      && (forall u :: IdOfUrl(t, u).Some? ==> IdOfUrl(r, u) == IdOfUrl(t, u))
      && (forall e :: e in list && e.typeBits > 0 ==> IdOfUrl(r, e.url).Some?)
  {
    var valid := ValidEntries(list);
    if list != [] && valid != [] {
      var t1 := InsertAll(t, valid);
      InsertAllEffect(t, valid);
      UpsertTypesAt(t1, TypeMap(valid), 0);
      var r := UpsertTypes(t1, TypeMap(valid));
      forall u ensures IdOfUrl(r, u) == IdOfUrl(t1, u) {
        SameIds(t1, r, u);
      }
    }
  }

  /**
   * A successful call sets the type of every typed url's row to the bits of its
   * last typed entry, keeps the row's other columns, and creates the row with
   * only a type for a url that had none.
   */
  lemma UpsertFilterOfUrl(t: Tables, list: seq<Listing>, url: string, bits: nat)
    requires TablesValid(t)
    requires LastBits(ValidEntries(list), url) == Some(bits)
    ensures var r := UpsertOf(t, list, false);
      && IdOfUrl(r, url).Some?
      && var id := IdOfUrl(r, url).value;
        && id in r.filters
        && r.filters[id] == WithType(FilterAt(t.filters, id), bits)
        && (IdOfUrl(t, url).None? ==> r.filters[id] == FilterRow(Some(bits), None, None, None, None))
  {
    var valid := ValidEntries(list);
    var m := TypeMap(valid);
    TypeMapGet(valid, url);
    LastBitsSpec(valid, url, bits);
    var k: nat :| IsLastEntry(valid, k, url) && valid[k].typeBits == bits;
    assert valid[k] in list;
    var t1 := InsertAll(t, valid);
    InsertAllEffect(t, valid);
    assert IdOfUrl(t1, url).Some? by { assert valid[k] in valid; }
    var id := IdOfUrl(t1, url).value;
    UpsertTypesAt(t1, m, id);
    var r := UpsertTypes(t1, m);
    SameIds(t1, r, url);
    if IdOfUrl(t, url).None? {
      assert id !in t.records;
    }
  }

  /** A successful call leaves the filter row of every id that no typed url of the list has. */
  lemma UpsertOtherFilters(t: Tables, list: seq<Listing>, id: nat)
    requires TablesValid(t)
    requires forall e :: e in list && e.typeBits > 0 ==> IdOfUrl(UpsertOf(t, list, false), e.url) != Some(id)
    ensures FilterAt(UpsertOf(t, list, false).filters, id) == FilterAt(t.filters, id)
  {
    var valid := ValidEntries(list);
    if list != [] && valid != [] {
      var m := TypeMap(valid);
      var t1 := InsertAll(t, valid);
      InsertAllEffect(t, valid);
      UpsertTypesAt(t1, m, id);
      var r := UpsertTypes(t1, m);
      forall u | u in Keys(m) ensures IdOfUrl(t1, u) != Some(id) {
        TypedUrlNotId(t, list, id, u, r);
      }
    }
  }

  lemma TypedUrlNotId(t: Tables, list: seq<Listing>, id: nat, u: string, r: Tables)
    requires list != [] && ValidEntries(list) != []
    requires r == UpsertOf(t, list, false)
    requires r.records == InsertAll(t, ValidEntries(list)).records && r.nextId == InsertAll(t, ValidEntries(list)).nextId
    requires forall e :: e in list && e.typeBits > 0 ==> IdOfUrl(r, e.url) != Some(id)
    requires u in Keys(TypeMap(ValidEntries(list)))
    ensures IdOfUrl(InsertAll(t, ValidEntries(list)), u) != Some(id)
  {
    var valid := ValidEntries(list);
    TypeMapGet(valid, u);
    var k :| 0 <= k < |valid| && valid[k].url == u;
    assert valid[k] in list;
    SameIds(InsertAll(t, valid), r, u);
  }
}
