/**
 * `batch_update_filter` (`filter.py`): the filter rows with a `NULL` price,
 * activity or region are recomputed from their record and detail page, a row
 * is staged when a recomputed value differs from the stored one, and the
 * staged rows are written in batches of 100 with one last write of the
 * remainder. A fetch failure skips the row; an error in a row or in a write
 * ends the run and rolls back what is not committed yet.
 */
module FilterSync {
  import opened Wrappers
  import opened Chunking
  import opened Db
  import opened Encoders

  const BatchSize: nat := 100

  /** The fetch of a detail page: failed, or the page's price table (`None` when it has none). */
  datatype PriceFetch = FetchFailed | Fetched(table: Option<seq<PriceRow>>)

  /** A staged row `(price, activity, region, templestay_id)`. */
  datatype Update = Update(price: nat, activity: nat, region: nat, id: nat)

  /** What the run reports: nothing to update, the total written, or an error. */
  datatype RunResult = NothingToDo | Done(total: nat) | Aborted

  // ------------------------------------------------------------------- query

  predicate HasNull(f: FilterRow) {
    f.price.None? || f.activity.None? || f.region.None?
  }

  /** The query's condition: a record joined with a filter row that has a `NULL`. */
  predicate Selects(t: Tables, id: nat) {
    id in t.records && id in t.filters && HasNull(t.filters[id])
  }

  /** The ids of `ids` the query selects, in order. */
  function Selected(t: Tables, ids: seq<nat>): (r: seq<nat>)
    ensures forall x :: x in r <==> x in ids && Selects(t, x)
  {
    if ids == [] then []
    else
      var init := ids[..|ids| - 1];
      assert forall x :: x in ids <==> x in init || x == ids[|ids| - 1] by {
        assert ids == init + [ids[|ids| - 1]];
      }
      Selected(t, init) + if Selects(t, ids[|ids| - 1]) then [ids[|ids| - 1]] else []
  }

  lemma {:induction false} SelectedAscending(t: Tables, ids: seq<nat>)
    requires Ascending(ids)
    ensures Ascending(Selected(t, ids))
  {
    if ids != [] {
      var init, last := ids[..|ids| - 1], ids[|ids| - 1];
      SelectedAscending(t, init);
      var r := Selected(t, init);
      if Selects(t, last) {
        var s := r + [last];
        forall i | 0 <= i < |r| ensures r[i] < last {
          assert r[i] in init;
          var k :| 0 <= k < |init| && init[k] == r[i];
          assert ids[k] == init[k];
        }
        forall i, j | 0 <= i < j < |s| ensures s[i] < s[j] {
          assert s[i] == r[i];
          if j < |r| { assert s[j] == r[j]; }
        }
      }
    }
  }

  /** The rows of the `SELECT ... ORDER BY t.id ASC`. */
  function Candidates(t: Tables): (r: seq<nat>)
    ensures AllSelected(t, r)
  {
    var r := Selected(t, RecordIds(t));
    assert forall k :: 0 <= k < |r| ==> r[k] in r;
    r
  }

  /** The query returns, in ascending id order, exactly the records whose filter row has a `NULL`. */
  lemma CandidatesSpec(t: Tables)
    requires TablesValid(t)
    ensures forall id :: id in Candidates(t) <==> Selects(t, id)
    ensures Ascending(Candidates(t))
  {
    SelectedAscending(t, RecordIds(t));
  }

  // -------------------------------------------------------------------- rows

  /** What one row leads to: skipped, an error, nothing to change, or an update. */
  datatype Outcome = Skip | Fail | Same | Stage(u: Update)

  /** The body of the row loop, against the snapshot `t` the query read. */
  function RowOutcome(t: Tables, id: nat, fetch: string -> PriceFetch): Outcome
    requires id in t.records && id in t.filters
  {
    var rec, stored := t.records[id], t.filters[id];
    match fetch(rec.url)
    case FetchFailed => Skip
    case Fetched(table) =>
      var price := ExtractPrice(table);
      var activity := ExtractActivity(rec.schedule);
      match ExtractRegion(rec.address)
      case None => Fail
      case Some(region) =>
        if Some(price as int) != stored.price || Some(activity as int) != stored.activity || Some(region as int) != stored.region
        then Stage(Update(price, activity, region, id))
        else Same
  }

  /**
   * A row is staged exactly when its page loads, its address has a word,
   * and one of the three recomputed values differs from the stored one; the
   * staged tuple holds the recomputed values and the row's id. A failed fetch
   * skips the row.
   */
  lemma RowOutcomeSpec(t: Tables, id: nat, fetch: string -> PriceFetch)
    requires id in t.records && id in t.filters
    ensures var rec, stored := t.records[id], t.filters[id];
      && (fetch(rec.url).FetchFailed? ==> RowOutcome(t, id, fetch) == Skip)
      && (RowOutcome(t, id, fetch) == Fail <==> fetch(rec.url).Fetched? && ExtractRegion(rec.address).None?)
      && (RowOutcome(t, id, fetch).Stage? <==>
            && fetch(rec.url).Fetched? && ExtractRegion(rec.address).Some?
            && var u := Update(ExtractPrice(fetch(rec.url).table), ExtractActivity(rec.schedule), ExtractRegion(rec.address).value, id);
               Some(u.price as int) != stored.price || Some(u.activity as int) != stored.activity || Some(u.region as int) != stored.region)
      && (RowOutcome(t, id, fetch).Stage? ==>
            RowOutcome(t, id, fetch).u == Update(ExtractPrice(fetch(rec.url).table), ExtractActivity(rec.schedule), ExtractRegion(rec.address).value, id))
  {}

  /** A `NULL` never equals a recomputed value: every selected row whose page loads and whose address has a word is staged. */
  lemma SelectedRowIsStaged(t: Tables, id: nat, fetch: string -> PriceFetch)
    requires Selects(t, id)
    requires fetch(t.records[id].url).Fetched? && ExtractRegion(t.records[id].address).Some?
    ensures RowOutcome(t, id, fetch).Stage?
  {}

  // ----------------------------------------------------------------- staging

  /** The staged rows so far, and whether a row has failed; after a failure nothing changes. */
  datatype Progress = Progress(staged: seq<Update>, failed: bool)

  function Advance(p: Progress, o: Outcome): Progress {
    if p.failed then p
    else
      match o
      case Fail => Progress(p.staged, true)
      case Stage(u) => Progress(p.staged + [u], false)
      case _ => p
  }

  /** The row loop over the outcomes `os` of the rows, ignoring the writes. */
  function Staging(os: seq<Outcome>): Progress {
    if os == [] then Progress([], false)
    else Advance(Staging(os[..|os| - 1]), os[|os| - 1])
  }

  predicate AllSelected(t: Tables, ids: seq<nat>) {
    forall k :: 0 <= k < |ids| ==> Selects(t, ids[k])
  }

  /** The outcome of each row of `ids`, in order. */
  function Outcomes(t: Tables, fetch: string -> PriceFetch, ids: seq<nat>): (os: seq<Outcome>)
    requires AllSelected(t, ids)
    ensures |os| == |ids|
    ensures forall k :: 0 <= k < |ids| ==> os[k] == RowOutcome(t, ids[k], fetch)
  {
    seq(|ids|, k requires 0 <= k < |ids| => RowOutcome(t, ids[k], fetch))
  }

  lemma StagingSnoc(os: seq<Outcome>, i: nat)
    requires i < |os|
    ensures Staging(os[..i + 1]) == Advance(Staging(os[..i]), os[i])
  {
    assert os[..i + 1][..i] == os[..i];
  }

  /** Later rows only add to what is staged, and nothing is added after a failure. */
  lemma {:induction false} StagingGrows(os: seq<Outcome>, i: nat)
    requires i <= |os|
    ensures Staging(os[..i]).staged <= Staging(os).staged
    ensures Staging(os[..i]).failed ==> Staging(os) == Staging(os[..i])
  {
    if i < |os| {
      var init := os[..|os| - 1];
      StagingGrows(init, i);
      assert init[..i] == os[..i];
    } else {
      assert os[..i] == os;
    }
  }

  /** The ids of the updates that the outcomes stage ascend with the rows. */
  ghost predicate StagesAscend(os: seq<Outcome>) {
    forall i, j :: 0 <= i < j < |os| && os[i].Stage? && os[j].Stage? ==> os[i].u.id < os[j].u.id
  }

  /** The last step of `Staging`, in terms of the first `|os| - 1` outcomes. */
  lemma StagingLast(os: seq<Outcome>)
    requires os != []
    ensures var init, last := os[..|os| - 1], os[|os| - 1];
      && (forall m :: 0 <= m < |init| ==> init[m] == os[m])
      && Staging(os) == Advance(Staging(init), last)
  {}

  /** Each staged tuple is one of the staging outcomes. */
  lemma {:induction false} StagedAreOutcomes(os: seq<Outcome>)
    ensures forall k :: 0 <= k < |Staging(os).staged| ==> Stage(Staging(os).staged[k]) in os
  {
    if os != [] {
      var init := os[..|os| - 1];
      StagedAreOutcomes(init);
      StagingLast(os);
      var p0, p := Staging(init), Staging(os);
      forall k | 0 <= k < |p.staged| ensures Stage(p.staged[k]) in os {
        if k < |p0.staged| {
          assert p.staged[k] == p0.staged[k];
          var m :| 0 <= m < |init| && init[m] == Stage(p0.staged[k]);
          assert os[m] == init[m];
        }
      }
    }
  }

  /** The staged ids ascend when the ids the outcomes stage ascend with the rows. */
  lemma {:induction false} StagedAscend(os: seq<Outcome>)
    requires StagesAscend(os)
    ensures var us := Staging(os).staged; forall i, j :: 0 <= i < j < |us| ==> us[i].id < us[j].id
  {
    if os != [] {
      var init, last := os[..|os| - 1], os[|os| - 1];
      StagingLast(os);
      assert StagesAscend(init);
      StagedAscend(init);
      var p0, p := Staging(init), Staging(os);
      if !p0.failed && last.Stage? {
        StagedAreOutcomes(init);
        StagedAfter(init, last, p0.staged);
        assert init + [last] == os;
        forall i, j | 0 <= i < j < |p.staged| ensures p.staged[i].id < p.staged[j].id {
          assert p.staged[i] == p0.staged[i];
          if j < |p0.staged| { assert p.staged[j] == p0.staged[j]; }
        }
      }
    }
  }

  /** When no row failed, every staging outcome is staged. */
  lemma {:induction false} StagedComplete(os: seq<Outcome>)
    requires !Staging(os).failed
    ensures forall m :: 0 <= m < |os| && os[m].Stage? ==> os[m].u in Staging(os).staged
  {
    if os != [] {
      var init, last := os[..|os| - 1], os[|os| - 1];
      StagingLast(os);
      StagedComplete(init);
      var p0, p := Staging(init), Staging(os);
      assert p0.staged <= p.staged;
      forall m | 0 <= m < |os| && os[m].Stage? ensures os[m].u in p.staged {
        if m < |init| { assert os[m] == init[m]; }
      }
    }
  }

  /** A staging outcome after the rows `init` has a larger id than all their staged tuples. */
  lemma StagedAfter(init: seq<Outcome>, last: Outcome, staged: seq<Update>)
    requires last.Stage? && forall k :: 0 <= k < |staged| ==> Stage(staged[k]) in init
    ensures StagesAscend(init + [last]) ==> forall k :: 0 <= k < |staged| ==> staged[k].id < last.u.id
  {
    var os := init + [last];
    if StagesAscend(os) {
      forall k | 0 <= k < |staged| ensures staged[k].id < last.u.id {
        var m :| 0 <= m < |init| && init[m] == Stage(staged[k]);
        assert os[m] == init[m] && os[|init|] == last;
      }
    }
  }

  /** The outcomes of the query's rows stage ascending ids, each the id of its row. */
  lemma OutcomesSpec(t: Tables, fetch: string -> PriceFetch, ids: seq<nat>)
    requires AllSelected(t, ids) && Ascending(ids)
    ensures var os := Outcomes(t, fetch, ids);
      && StagesAscend(os)
      && forall m :: 0 <= m < |os| && os[m].Stage? ==> os[m].u.id == ids[m]
  {}

  // ------------------------------------------------------------------ writes

  /** The `UPDATE filter SET price, activity, region` of one staged tuple. */
  function SetFilter(f: FilterRow, u: Update): FilterRow {
    f.(price := Some(u.price), activity := Some(u.activity), region := Some(u.region))
  }

  /** The updates `us` applied in order; an id without a filter row matches no row. */
  function SetFilters(t: Tables, us: seq<Update>): Tables {
    if us == [] then t
    else
      var t' := SetFilters(t, us[..|us| - 1]);
      var u := us[|us| - 1];
      if u.id in t'.filters then t'.(filters := t'.filters[u.id := SetFilter(t'.filters[u.id], u)]) else t'
  }

  lemma {:induction false} SetFiltersConcat(t: Tables, a: seq<Update>, b: seq<Update>)
    ensures SetFilters(t, a + b) == SetFilters(SetFilters(t, a), b)
  {
    if b == [] {
      assert a + b == a;
    } else {
      var init := b[..|b| - 1];
      SetFiltersConcat(t, a, init);
      assert (a + b)[..|a + b| - 1] == a + init;
      assert (a + b)[|a + b| - 1] == b[|b| - 1];
    }
  }

  /**
   * With distinct ids, the updates change only the filter rows they name, each
   * to its tuple's values, and leave every other table and row as it was.
   */
  lemma {:induction false} SetFiltersEffect(t: Tables, us: seq<Update>)
    requires forall i, j :: 0 <= i < j < |us| ==> us[i].id != us[j].id
    ensures var r := SetFilters(t, us);
      && r.records == t.records && r.images == t.images && r.nextId == t.nextId
      && r.filters.Keys == t.filters.Keys
      && (forall k :: 0 <= k < |us| && us[k].id in t.filters ==> r.filters[us[k].id] == SetFilter(t.filters[us[k].id], us[k]))
      && (forall id :: id in t.filters && (forall k :: 0 <= k < |us| ==> us[k].id != id) ==> r.filters[id] == t.filters[id])
  {
    if us != [] {
      var n := |us| - 1;
      var init, u := us[..n], us[n];
      SetFiltersEffect(t, init);
      var t' := SetFilters(t, init);
      var r := SetFilters(t, us);
      assert forall k :: 0 <= k < n ==> init[k] == us[k] && us[k].id != u.id;
      forall k | 0 <= k < |us| && us[k].id in t.filters ensures r.filters[us[k].id] == SetFilter(t.filters[us[k].id], us[k]) {
        if k < n { assert init[k] == us[k]; }
        else { assert forall j :: 0 <= j < |init| ==> init[j].id != u.id; }
      }
      forall id | id in t.filters && (forall k :: 0 <= k < |us| ==> us[k].id != id) ensures r.filters[id] == t.filters[id] {
        assert forall k :: 0 <= k < |init| ==> init[k].id != id by {
          forall k | 0 <= k < |init| ensures init[k].id != id { assert init[k] == us[k]; }
        }
        assert u.id != id;
      }
    }
  }

  // ----------------------------------------------------------------- batches

  /**
   * The batches the run hands to the database: the chunks of 100 of what is
   * staged, without a last short chunk when a row failed before it was written.
   */
  function Flushes(p: Progress): seq<seq<Update>> {
    var cs := Chunks(p.staged, BatchSize);
    if p.failed && cs != [] && |cs[|cs| - 1]| < BatchSize then cs[..|cs| - 1] else cs
  }

  /** The number of writes, of the first `m`, before the first one that fails. */
  function FlushCount(m: nat, fails: nat -> bool): (c: nat)
    ensures c <= m
    ensures forall k :: 0 <= k < c ==> !fails(k)
    ensures c < m ==> fails(c)
  {
    if m == 0 then 0
    else
      var c := FlushCount(m - 1, fails);
      if c == m - 1 && !fails(m - 1) then m else c
  }

  lemma {:induction false} FlushCountAll(m: nat, fails: nat -> bool)
    requires forall k :: 0 <= k < m ==> !fails(k)
    ensures FlushCount(m, fails) == m
  {
    if m > 0 { FlushCountAll(m - 1, fails); }
  }

  lemma {:induction false} FlushCountFirst(m: nat, k: nat, fails: nat -> bool)
    requires k < m && fails(k) && forall j :: 0 <= j < k ==> !fails(j)
    ensures FlushCount(m, fails) == k
  {
    if m - 1 == k {
      FlushCountAll(k, fails);
    } else {
      FlushCountFirst(m - 1, k, fails);
    }
  }

  ghost predicate AllFull(bs: seq<seq<Update>>) {
    forall k :: 0 <= k < |bs| ==> |bs[k]| == BatchSize
  }

  /** Full batches at the front of what is staged are the first batches handed to the database. */
  lemma FlushesAfterFull(bs: seq<seq<Update>>, rest: seq<Update>, failed: bool)
    requires AllFull(bs)
    ensures Flushes(Progress(Flatten(bs) + rest, failed)) == bs + Flushes(Progress(rest, failed))
  {
    ChunksAfterFull(bs, rest, BatchSize);
    var cs := Chunks(rest, BatchSize);
    if cs == [] && bs != [] {
      assert (bs + cs)[|bs + cs| - 1] == bs[|bs| - 1];
    }
    if cs != [] {
      assert (bs + cs)[..|bs + cs| - 1] == bs + cs[..|cs| - 1];
    }
  }

  /** A short batch that a failed row leaves behind is never written. */
  lemma ShortBatchDropped(batch: seq<Update>)
    requires |batch| < BatchSize
    ensures Flushes(Progress(batch, true)) == []
  {}

  // -------------------------------------------------------------------- loop

  /** What the row loop keeps: no failure yet, full batches written, a short open batch. */
  ghost predicate Filling(p: Progress, batch: seq<Update>, flushed: seq<seq<Update>>) {
    && !p.failed
    && Flatten(flushed) + batch == p.staged
    && AllFull(flushed)
    && |batch| < BatchSize
  }

  /** The run's batches begin with the full ones written after the first `i` rows. */
  lemma RunStartsWith(os: seq<Outcome>, i: nat, fs: seq<seq<Update>>, rest: seq<Update>)
    requires i <= |os| && AllFull(fs)
    requires Flatten(fs) + rest == Staging(os[..i]).staged
    ensures var bs := Flushes(Staging(os)); |fs| <= |bs| && bs[..|fs|] == fs
  {
    StagingGrows(os, i);
    var p := Staging(os);
    var more := PrefixRest(Flatten(fs), rest, p.staged);
    FlushesAfterFull(fs, rest + more, p.failed);
    PrefixOfConcat(fs, Flushes(Progress(rest + more, p.failed)));
  }

  /** What follows `a + b` in a sequence that begins with it. */
  lemma PrefixRest<T>(a: seq<T>, b: seq<T>, c: seq<T>) returns (more: seq<T>)
    requires a + b <= c
    ensures c == a + (b + more)
  {
    more := c[|a + b|..];
    assert c == (a + b) + more;
  }

  lemma PrefixOfConcat<T>(a: seq<T>, b: seq<T>)
    ensures |a| <= |a + b| && (a + b)[..|a|] == a
  {}

  /**
   * How a run over rows with outcomes `os` ends, against the snapshot `t0`: the
   * store holds the batches written before the first failing write, and the
   * result is `Done` with the number of staged rows exactly when no row and no
   * write failed.
   */
  ghost predicate RunEnds(t0: Tables, os: seq<Outcome>, fails: nat -> bool, t: Tables, r: RunResult) {
    var p := Staging(os);
    var bs := Flushes(p);
    var c := FlushCount(|bs|, fails);
    && t == SetFilters(t0, Flatten(bs[..c]))
    && (r == NothingToDo <==> os == [])
    && (r.Done? <==> os != [] && !p.failed && c == |bs|)
    && (r.Done? ==> r.total == |p.staged|)
  }

  /** The run on a store holding `t0`, whose query returns `Candidates(t0)`. */
  ghost predicate RunSpec(t0: Tables, fetch: string -> PriceFetch, fails: nat -> bool, t: Tables, r: RunResult) {
    RunEnds(t0, Outcomes(t0, fetch, Candidates(t0)), fails, t, r)
  }

  /**
   * The run on the store `db`; `fetch` is each detail page and `fails(k)` is
   * whether the `k`-th batch write meets a database error.
   */
  method BatchUpdateFilter(db: Store, fetch: string -> PriceFetch, fails: nat -> bool) returns (r: RunResult)
    modifies db
    ensures RunSpec(old(db.State()), fetch, fails, db.State(), r)
  {
    var t0 := db.State();
    var rows := Candidates(t0);
    ghost var os := Outcomes(t0, fetch, rows);
    if rows == [] {
      assert Flushes(Staging(os)) == [];
      return NothingToDo;
    }
    var batch: seq<Update> := [];
    var flushed: seq<seq<Update>> := [];
    var total := 0;
    var i := 0;
    assert os[..0] == [];
    while i < |rows|
      invariant 0 <= i <= |rows|
      invariant Filling(Staging(os[..i]), batch, flushed)
      invariant forall k :: 0 <= k < |flushed| ==> !fails(k)
      invariant total == |Flatten(flushed)|
      invariant db.State() == SetFilters(t0, Flatten(flushed))
    {
      StagingSnoc(os, i);
      var o := RowOutcome(t0, rows[i], fetch);
      var abort: bool;
      abort, batch, flushed, total := ProcessRow(db, t0, os, i, o, fails, batch, flushed, total);
      if abort {
        return Aborted;
      }
      i := i + 1;
    }
    assert os[..i] == os;
    r := Finish(db, t0, os, fails, batch, flushed, total);
  }

  /** One row of the loop, with outcome `o`; `abort` is an error that ends the run, with the store as `RunEnds` says. */
  method ProcessRow(db: Store, ghost t0: Tables, ghost os: seq<Outcome>, i: nat, o: Outcome, fails: nat -> bool,
                    batch: seq<Update>, flushed: seq<seq<Update>>, total: nat)
    returns (abort: bool, batch': seq<Update>, flushed': seq<seq<Update>>, total': nat)
    requires i < |os| && o == os[i]
    requires Filling(Staging(os[..i]), batch, flushed)
    requires forall k :: 0 <= k < |flushed| ==> !fails(k)
    requires total == |Flatten(flushed)|
    requires db.State() == SetFilters(t0, Flatten(flushed))
    requires Staging(os[..i + 1]) == Advance(Staging(os[..i]), o)
    modifies db
    ensures abort ==> RunEnds(t0, os, fails, db.State(), Aborted)
    ensures !abort ==> && Filling(Staging(os[..i + 1]), batch', flushed')
                       && (forall k :: 0 <= k < |flushed'| ==> !fails(k))
                       && total' == |Flatten(flushed')|
                       && db.State() == SetFilters(t0, Flatten(flushed'))
  {
    abort, batch', flushed', total' := false, batch, flushed, total;
    if o == Fail {
      FailedRow(t0, os, i, fails, batch, flushed);
      abort := true;
    } else if o.Stage? {
      StageRow(os, i, batch, flushed);
      batch' := batch + [o.u];
      if |batch'| >= BatchSize {
        if fails(|flushed|) {
          FailedWrite(t0, os, i + 1, fails, flushed, batch');
          abort := true;
        } else {
          db.Commit(SetFilters(db.State(), batch'));
          WriteBatch(t0, os, i + 1, flushed, batch');
          total' := total + |batch'|;
          flushed' := flushed + [batch'];
          batch' := [];
        }
      }
    }
  }

  /** A staging row adds its tuple to the open batch. */
  lemma StageRow(os: seq<Outcome>, i: nat, batch: seq<Update>, flushed: seq<seq<Update>>)
    requires i < |os| && os[i].Stage?
    requires Filling(Staging(os[..i]), batch, flushed)
    requires Staging(os[..i + 1]) == Advance(Staging(os[..i]), os[i])
    ensures var p := Staging(os[..i + 1]);
      && !p.failed && Flatten(flushed) + (batch + [os[i].u]) == p.staged && |batch + [os[i].u]| <= BatchSize
  {}

  /** Writing a full open batch closes it. */
  lemma WriteBatch(t0: Tables, os: seq<Outcome>, i: nat, flushed: seq<seq<Update>>, batch: seq<Update>)
    requires i <= |os| && AllFull(flushed) && |batch| == BatchSize
    requires !Staging(os[..i]).failed && Flatten(flushed) + batch == Staging(os[..i]).staged
    ensures Filling(Staging(os[..i]), [], flushed + [batch])
    ensures |Flatten(flushed + [batch])| == |Flatten(flushed)| + |batch|
    ensures SetFilters(SetFilters(t0, Flatten(flushed)), batch) == SetFilters(t0, Flatten(flushed + [batch]))
  {
    SetFiltersConcat(t0, Flatten(flushed), batch);
    FlattenAppend(flushed, batch);
    FullAppend(flushed, batch);
  }

  lemma FullAppend(bs: seq<seq<Update>>, b: seq<Update>)
    requires AllFull(bs) && |b| == BatchSize
    ensures AllFull(bs + [b])
  {
    var cs := bs + [b];
    forall k | 0 <= k < |cs| ensures |cs[k]| == BatchSize {
      if k < |bs| { assert cs[k] == bs[k]; }
    }
  }

  /** A row whose address has no word ends the run: the full batches written so far stay. */
  lemma FailedRow(t0: Tables, os: seq<Outcome>, i: nat, fails: nat -> bool, batch: seq<Update>, flushed: seq<seq<Update>>)
    requires i < |os| && os[i] == Fail
    requires Filling(Staging(os[..i]), batch, flushed)
    requires forall k :: 0 <= k < |flushed| ==> !fails(k)
    requires Staging(os[..i + 1]) == Advance(Staging(os[..i]), os[i])
    ensures RunEnds(t0, os, fails, SetFilters(t0, Flatten(flushed)), Aborted)
  {
    assert Staging(os[..i + 1]) == Progress(Flatten(flushed) + batch, true);
    StagingGrows(os, i + 1);
    FlushesAfterFull(flushed, batch, true);
    ShortBatchDropped(batch);
    var bs := Flushes(Staging(os));
    assert bs == flushed;
    FlushCountAll(|bs|, fails);
    assert bs[..|bs|] == bs;
  }

  /** A write that fails ends the run: the batches written before it stay. */
  lemma FailedWrite(t0: Tables, os: seq<Outcome>, i: nat, fails: nat -> bool, flushed: seq<seq<Update>>, batch: seq<Update>)
    requires 0 < i <= |os|
    requires AllFull(flushed) && |batch| == BatchSize
    requires Flatten(flushed) + batch == Staging(os[..i]).staged
    requires forall k :: 0 <= k < |flushed| ==> !fails(k)
    requires fails(|flushed|)
    ensures RunEnds(t0, os, fails, SetFilters(t0, Flatten(flushed)), Aborted)
  {
    var fs := flushed + [batch];
    FullAppend(flushed, batch);
    FlattenAppend(flushed, batch);
    assert Flatten(fs) + [] == Staging(os[..i]).staged;
    RunStartsWith(os, i, fs, []);
    var bs := Flushes(Staging(os));
    assert bs[..|flushed|] == flushed by { assert bs[..|fs|][..|flushed|] == bs[..|flushed|]; }
    FlushCountFirst(|bs|, |flushed|, fails);
  }

  /** The write of the remainder and the report. */
  method Finish(db: Store, ghost t0: Tables, ghost os: seq<Outcome>, fails: nat -> bool,
                batch: seq<Update>, flushed: seq<seq<Update>>, total: nat)
    returns (r: RunResult)
    requires os != []
    requires Filling(Staging(os), batch, flushed)
    requires forall k :: 0 <= k < |flushed| ==> !fails(k)
    requires total == |Flatten(flushed)|
    requires db.State() == SetFilters(t0, Flatten(flushed))
    modifies db
    ensures RunEnds(t0, os, fails, db.State(), r)
  {
    if batch != [] {
      if fails(|flushed|) {
        RemainderFails(t0, os, fails, batch, flushed);
        return Aborted;
      }
      db.Commit(SetFilters(db.State(), batch));
      SetFiltersConcat(t0, Flatten(flushed), batch);
      RemainderWritten(t0, os, fails, batch, flushed);
      r := Done(total + |batch|);
    } else {
      NoRemainder(t0, os, fails, flushed);
      r := Done(total);
    }
  }

  /** The batches of a run that ends with the open batch `batch`. */
  lemma RemainderBatches(os: seq<Outcome>, batch: seq<Update>, flushed: seq<seq<Update>>)
    requires Filling(Staging(os), batch, flushed) && batch != []
    ensures Flushes(Staging(os)) == flushed + [batch]
  {
    ChunksOfBatches(flushed, batch, BatchSize);
  }

  /** A failing write of the remainder leaves the full batches. */
  lemma RemainderFails(t0: Tables, os: seq<Outcome>, fails: nat -> bool, batch: seq<Update>, flushed: seq<seq<Update>>)
    requires os != [] && Filling(Staging(os), batch, flushed) && batch != []
    requires (forall k :: 0 <= k < |flushed| ==> !fails(k)) && fails(|flushed|)
    ensures RunEnds(t0, os, fails, SetFilters(t0, Flatten(flushed)), Aborted)
  {
    RemainderBatches(os, batch, flushed);
    var bs := flushed + [batch];
    FlushCountFirst(|bs|, |flushed|, fails);
    assert bs[..|flushed|] == flushed;
  }

  /** Once the remainder is written, everything staged is written. */
  lemma RemainderWritten(t0: Tables, os: seq<Outcome>, fails: nat -> bool, batch: seq<Update>, flushed: seq<seq<Update>>)
    requires os != [] && Filling(Staging(os), batch, flushed) && batch != []
    requires (forall k :: 0 <= k < |flushed| ==> !fails(k)) && !fails(|flushed|)
    ensures RunEnds(t0, os, fails, SetFilters(t0, Flatten(flushed) + batch), Done(|Flatten(flushed)| + |batch|))
  {
    RemainderBatches(os, batch, flushed);
    FlattenAppend(flushed, batch);
    var bs := flushed + [batch];
    assert forall k :: 0 <= k < |bs| ==> !fails(k);
    FlushCountAll(|bs|, fails);
    assert bs[..|bs|] == bs;
  }

  /** Without a remainder, the full batches are everything staged. */
  lemma NoRemainder(t0: Tables, os: seq<Outcome>, fails: nat -> bool, flushed: seq<seq<Update>>)
    requires os != [] && Filling(Staging(os), [], flushed)
    requires forall k :: 0 <= k < |flushed| ==> !fails(k)
    ensures RunEnds(t0, os, fails, SetFilters(t0, Flatten(flushed)), Done(|Flatten(flushed)|))
  {
    ChunksOfFull(flushed, BatchSize);
    assert Staging(os).staged == Flatten(flushed) + [] == Flatten(flushed);
    FlushCountAll(|flushed|, fails);
    assert flushed[..|flushed|] == flushed;
  }

  // ------------------------------------------------------------- whole run

  /** A run that reports `Done` has written everything it staged. */
  lemma DoneWritesAll(t0: Tables, os: seq<Outcome>, fails: nat -> bool, t: Tables, r: RunResult)
    requires RunEnds(t0, os, fails, t, r) && r.Done?
    ensures !Staging(os).failed && t == SetFilters(t0, Staging(os).staged)
  {
    var p := Staging(os);
    var bs := Flushes(p);
    ChunksIsChunking(p.staged, BatchSize);
    assert bs[..|bs|] == bs;
  }

  /** The updates a run that reports `Done` has written: the staged ones, with distinct ids. */
  lemma DoneState(t0: Tables, fetch: string -> PriceFetch, fails: nat -> bool, t: Tables, r: RunResult)
    requires TablesValid(t0) && RunSpec(t0, fetch, fails, t, r) && r.Done?
    ensures var us := Staging(Outcomes(t0, fetch, Candidates(t0))).staged;
      && !Staging(Outcomes(t0, fetch, Candidates(t0))).failed
      && t == SetFilters(t0, us)
      && forall i, j :: 0 <= i < j < |us| ==> us[i].id != us[j].id
  {
    var rows := Candidates(t0);
    var os := Outcomes(t0, fetch, rows);
    DoneWritesAll(t0, os, fails, t, r);
    CandidatesSpec(t0);
    OutcomesSpec(t0, fetch, rows);
    StagedAscend(os);
  }

  /** A run that reports `Done` changes the filter table only, and no key of it. */
  lemma DoneFrame(t0: Tables, fetch: string -> PriceFetch, fails: nat -> bool, t: Tables, r: RunResult)
    requires TablesValid(t0) && RunSpec(t0, fetch, fails, t, r) && r.Done?
    ensures t.records == t0.records && t.images == t0.images && t.nextId == t0.nextId
    ensures t.filters.Keys == t0.filters.Keys
  {
    DoneState(t0, fetch, fails, t, r);
    SetFiltersEffect(t0, Staging(Outcomes(t0, fetch, Candidates(t0))).staged);
  }

  /** A run that reports `Done` gives every selected row whose page loads and whose address has a word its recomputed values. */
  lemma DoneUpdatesSelected(t0: Tables, fetch: string -> PriceFetch, fails: nat -> bool, t: Tables, r: RunResult)
    requires TablesValid(t0) && RunSpec(t0, fetch, fails, t, r) && r.Done?
    ensures forall id :: Selects(t0, id) && RowOutcome(t0, id, fetch).Stage? ==>
      id in t.filters && t.filters[id] == SetFilter(t0.filters[id], RowOutcome(t0, id, fetch).u)
  {
    var rows := Candidates(t0);
    var us := Staging(Outcomes(t0, fetch, rows)).staged;
    DoneState(t0, fetch, fails, t, r);
    CandidatesSpec(t0);
    forall id | Selects(t0, id) && RowOutcome(t0, id, fetch).Stage?
      ensures id in t.filters && t.filters[id] == SetFilter(t0.filters[id], RowOutcome(t0, id, fetch).u)
    {
      StagedCovers(t0, fetch, rows, id);
      StagedWritten(t0, us, RowOutcome(t0, id, fetch).u);
    }
  }

  /** A run that reports `Done` leaves every other filter row as it was. */
  lemma DoneLeavesOthers(t0: Tables, fetch: string -> PriceFetch, fails: nat -> bool, t: Tables, r: RunResult)
    requires TablesValid(t0) && RunSpec(t0, fetch, fails, t, r) && r.Done?
    ensures forall id :: id in t0.filters && !(Selects(t0, id) && RowOutcome(t0, id, fetch).Stage?) ==>
      id in t.filters && t.filters[id] == t0.filters[id]
  {
    var rows := Candidates(t0);
    var us := Staging(Outcomes(t0, fetch, rows)).staged;
    DoneState(t0, fetch, fails, t, r);
    forall id | id in t0.filters && !(Selects(t0, id) && RowOutcome(t0, id, fetch).Stage?)
      ensures id in t.filters && t.filters[id] == t0.filters[id]
    {
      forall k | 0 <= k < |us| ensures us[k].id != id {
        StagedFromRows(t0, fetch, rows, k);
      }
      UnstagedKept(t0, us, id);
    }
  }

  /** With distinct ids, a written tuple sets its filter row. */
  lemma StagedWritten(t0: Tables, us: seq<Update>, u: Update)
    requires forall i, j :: 0 <= i < j < |us| ==> us[i].id != us[j].id
    requires u in us && u.id in t0.filters
    ensures u.id in SetFilters(t0, us).filters && SetFilters(t0, us).filters[u.id] == SetFilter(t0.filters[u.id], u)
  {
    SetFiltersEffect(t0, us);
    var k :| 0 <= k < |us| && us[k] == u;
  }

  /** A filter row no tuple names is left as it was. */
  lemma UnstagedKept(t0: Tables, us: seq<Update>, id: nat)
    requires forall i, j :: 0 <= i < j < |us| ==> us[i].id != us[j].id
    requires id in t0.filters && forall k :: 0 <= k < |us| ==> us[k].id != id
    ensures id in SetFilters(t0, us).filters && SetFilters(t0, us).filters[id] == t0.filters[id]
  {
    SetFiltersEffect(t0, us);
  }

  /** Without a failed row, the tuple of every staging row is staged. */
  lemma StagedCovers(t0: Tables, fetch: string -> PriceFetch, rows: seq<nat>, id: nat)
    requires AllSelected(t0, rows) && id in rows && Selects(t0, id)
    requires RowOutcome(t0, id, fetch).Stage? && !Staging(Outcomes(t0, fetch, rows)).failed
    ensures RowOutcome(t0, id, fetch).u in Staging(Outcomes(t0, fetch, rows)).staged
    ensures RowOutcome(t0, id, fetch).u.id == id && id in t0.filters
  {
    var os := Outcomes(t0, fetch, rows);
    StagedComplete(os);
    var m :| 0 <= m < |rows| && rows[m] == id;
    assert os[m] == RowOutcome(t0, id, fetch);
  }

  /** Each staged tuple is the update of one of the rows, under that row's id. */
  lemma StagedFromRows(t0: Tables, fetch: string -> PriceFetch, rows: seq<nat>, k: nat)
    requires AllSelected(t0, rows) && k < |Staging(Outcomes(t0, fetch, rows)).staged|
    ensures var u := Staging(Outcomes(t0, fetch, rows)).staged[k];
      Selects(t0, u.id) && RowOutcome(t0, u.id, fetch) == Stage(u)
  {
    var os := Outcomes(t0, fetch, rows);
    var u := Staging(os).staged[k];
    StagedAreOutcomes(os);
    var m :| 0 <= m < |os| && os[m] == Stage(u);
    assert os[m] == RowOutcome(t0, rows[m], fetch);
    assert Selects(t0, rows[m]);
  }
}
