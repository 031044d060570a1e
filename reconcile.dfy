/**
 * `delete_removed_urls` of `remove_url.py`: the records whose url the latest
 * crawl no longer lists are deleted, filter rows first, in one transaction.
 */
module Reconcile {
  import opened Db

  /** The rows of `SELECT id, url FROM templestay`, as a scan in id order. */
  function UrlRows(t: Tables): (r: seq<(nat, string)>)
    ensures |r| == |RecordIds(t)|
    ensures forall k :: 0 <= k < |r| ==> RecordIds(t)[k] in t.records && r[k] == (RecordIds(t)[k], t.records[RecordIds(t)[k]].url)
  {
    var ids := RecordIds(t);
    assert forall k :: 0 <= k < |ids| ==> ids[k] in ids;
    seq(|ids|, k requires 0 <= k < |ids| => (ids[k], t.records[ids[k]].url))
  }

  /** `removed_ids`: the ids of the rows whose url is not among `current`, in row order. */
  function RemovedIds(rows: seq<(nat, string)>, current: set<string>): (r: seq<nat>)
    ensures forall k :: 0 <= k < |rows| && rows[k].1 !in current ==> rows[k].0 in r
    ensures forall x :: x in r ==> exists k :: 0 <= k < |rows| && rows[k].0 == x && rows[k].1 !in current
  {
    if rows == [] then []
    else
      var init, last := rows[..|rows| - 1], rows[|rows| - 1];
      assert forall k :: 0 <= k < |init| ==> init[k] == rows[k];
      RemovedIds(init, current) + if last.1 !in current then [last.0] else []
  }

  /** The removed ids are below any bound of the row ids. */
  lemma RemovedIdsBelow(rows: seq<(nat, string)>, current: set<string>, b: nat)
    requires forall k :: 0 <= k < |rows| ==> rows[k].0 < b
    ensures forall i :: 0 <= i < |RemovedIds(rows, current)| ==> RemovedIds(rows, current)[i] < b
  {
    var r := RemovedIds(rows, current);
    forall i | 0 <= i < |r| ensures r[i] < b {
      assert r[i] in r;
    }
  }

  /** Rows in ascending id order give removed ids in ascending order, each once. */
  lemma {:induction false} RemovedIdsAscending(rows: seq<(nat, string)>, current: set<string>)
    requires forall i, j :: 0 <= i < j < |rows| ==> rows[i].0 < rows[j].0
    ensures Ascending(RemovedIds(rows, current))
  {
    if rows != [] {
      var init, last := rows[..|rows| - 1], rows[|rows| - 1];
      assert forall k :: 0 <= k < |init| ==> init[k] == rows[k];
      RemovedIdsAscending(init, current);
      RemovedIdsBelow(init, current, last.0);
    }
  }

  /**
   * The stale ids of the stored table are exactly the records whose url is not
   * current, listed in id order.
   */
  lemma RemovedIdsSpec(t: Tables, current: set<string>)
    requires TablesValid(t)
    ensures forall id :: id in RemovedIds(UrlRows(t), current) <==> id in t.records && t.records[id].url !in current
    ensures Ascending(RemovedIds(UrlRows(t), current))
  {
    var ids, rows := RecordIds(t), UrlRows(t);
    forall id | id in t.records && t.records[id].url !in current ensures id in RemovedIds(rows, current) {
      assert id in ids;
      var k :| 0 <= k < |ids| && ids[k] == id;
      assert rows[k] == (id, t.records[id].url);
    }
    RemovedIdsAscending(rows, current);
  }

  /** `DELETE FROM filter WHERE templestay_id IN (...)`. */
  function WithoutFilters(t: Tables, ids: seq<nat>): Tables {
    t.(filters := map id | id in t.filters && id !in ids :: t.filters[id])
  }

  /** `DELETE FROM templestay WHERE id IN (...)`. */
  function WithoutRecords(t: Tables, ids: seq<nat>): Tables {
    t.(records := map id | id in t.records && id !in ids :: t.records[id])
  }

  /** The tables `delete_removed_urls` leaves: unchanged when nothing is stale or the transaction fails. */
  function ReconcileEffect(t: Tables, current: set<string>, fails: bool): Tables {
    var removed := RemovedIds(UrlRows(t), current);
    if removed == [] || fails then t else WithoutRecords(WithoutFilters(t, removed), removed)
  }

  /**
   * `delete_removed_urls(conn, current)`: the stale ids it computes and the
   * tables it leaves; `fails` is a database error in the deletes or the
   * commit, which rolls both deletes back.
   */
  method DeleteRemovedUrls(db: Store, current: set<string>, fails: bool) returns (removed: seq<nat>)
    modifies db
    ensures removed == RemovedIds(UrlRows(old(db.State())), current)
    ensures db.State() == ReconcileEffect(old(db.State()), current, fails)
    ensures old(db.Valid()) ==> db.Valid()
  {
    var t := db.State();
    removed := RemovedIds(UrlRows(t), current);
    if removed != [] {
      db.filters := map id | id in db.filters && id !in removed :: db.filters[id];
      assert db.State() == WithoutFilters(t, removed);
      db.records := map id | id in db.records && id !in removed :: db.records[id];
      assert db.State() == WithoutRecords(WithoutFilters(t, removed), removed);
      if fails {
        db.Commit(t);
      } else if TablesValid(t) {
        DeleteOrderKeepsSchema(t, removed);
      }
    }
  }

  /**
   * Deleting the filter rows first keeps the schema's guarantees after each
   * statement, while deleting records first breaks them exactly when one of the
   * deleted records still has a filter row.
   */
  lemma DeleteOrderKeepsSchema(t: Tables, ids: seq<nat>)
    requires TablesValid(t)
    ensures TablesValid(WithoutFilters(t, ids))
    ensures TablesValid(WithoutRecords(WithoutFilters(t, ids), ids))
    ensures TablesValid(WithoutRecords(t, ids)) <==> forall id :: id in ids ==> id !in t.filters
  {
    if !(forall id :: id in ids ==> id !in t.filters) {
      var id :| id in ids && id in t.filters;
      assert id !in WithoutRecords(t, ids).records;
    }
  }

  /** Deleting exactly the stale ids keeps exactly the current records and their filter rows. */
  lemma DeleteStale(t: Tables, ids: seq<nat>, current: set<string>)
    requires TablesValid(t)
    requires forall id :: id in ids <==> id in t.records && t.records[id].url !in current
    ensures var r := WithoutRecords(WithoutFilters(t, ids), ids);
      && (forall id :: id in r.records <==> id in t.records && t.records[id].url in current)
      && (forall id :: id in r.filters <==> id in t.filters && t.records[id].url in current)
  {}

  /**
   * What the reconciliation does: with no failure it keeps exactly the records
   * whose url is current and the filter rows of those records, unchanged; the
   * images and the id counter are never touched; with nothing stale, or on a
   * failure, the tables are as they were; the schema's guarantees still hold.
   */
  lemma ReconcileEffectSpec(t: Tables, current: set<string>, fails: bool)
    requires TablesValid(t)
    ensures var r := ReconcileEffect(t, current, fails);
      && r.images == t.images && r.nextId == t.nextId
      && TablesValid(r)
      && (fails ==> r == t)
      && ((forall id :: id in t.records ==> t.records[id].url in current) ==> r == t)
      && (!fails ==> forall id :: id in r.records <==> id in t.records && t.records[id].url in current)
      && (!fails ==> forall id :: id in r.filters <==> id in t.filters && t.records[id].url in current)
      && (forall id :: id in r.records ==> r.records[id] == t.records[id])
      && (forall id :: id in r.filters ==> r.filters[id] == t.filters[id])
  {
    var removed := RemovedIds(UrlRows(t), current);
    RemovedIdsSpec(t, current);
    if removed == [] {
      assert forall id :: id in t.records ==> t.records[id].url in current;
    } else {
      assert removed[0] in removed;
      DeleteOrderKeepsSchema(t, removed);
      DeleteStale(t, removed, current);
    }
  }
}
