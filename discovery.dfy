/**
 * `crawl_and_process` (`url_type.py`): the rows of every listing page are
 * matched, a row is kept when its url is new to the url cache and its type is
 * not 0, the cache learns each kept url at once, and the kept listings are
 * flushed to the store in batches of `batch_size`, with one last flush of the
 * remainder.
 */
module Discovery {
  import opened Wrappers
  import opened Chunking
  import opened Listing
  import opened Db
  import opened Upsert

  /** The scan state: the url cache and the listings kept so far, in order. */
  datatype Scan = Scan(cache: set<string>, accepted: seq<Listing>)

  /** The test of one row against the cache. */
  function AcceptStep(s: Scan, item: ListingItem): Scan {
    match ListingOf(item)
    case None => s
    case Some(l) => if l.url in s.cache || l.typeBits == 0 then s else Keep(s, l)
  }

  /** The scan over `items`, in order, from cache `cache0`. */
  function ScanItems(cache0: set<string>, items: seq<ListingItem>): Scan {
    if items == [] then Scan(cache0, [])
    else AcceptStep(ScanItems(cache0, items[..|items| - 1]), items[|items| - 1])
  }

  /** The rows of the pages in page order; `None` is a page whose fetch failed and is skipped. */
  function PageItems(pages: seq<Option<seq<ListingItem>>>): seq<ListingItem> {
    if pages == [] then []
    else PageItems(pages[..|pages| - 1]) + pages[|pages| - 1].GetOr([])
  }

  /** The batch length at which `len(batch) >= batch_size` fires: 1 for a size of 0. */
  function FlushSize(batchSize: nat): (n: nat)
    ensures n > 0
  {
    if batchSize == 0 then 1 else batchSize
  }

  /** The store after the flushes `bs`; `fails(k)` is whether flush `k` meets an error. */
  function UpsertAll(t: Tables, bs: seq<seq<Listing>>, fails: nat -> bool): Tables {
    if bs == [] then t
    else UpsertOf(UpsertAll(t, bs[..|bs| - 1], fails), bs[|bs| - 1], fails(|bs| - 1))
  }

  /** A row is kept exactly when it matches, its url is not cached yet and its type is not 0; the cache learns the url. */
  lemma AcceptStepSpec(s: Scan, item: ListingItem)
    ensures var r := AcceptStep(s, item);
      && (r != s <==> ListingOf(item).Some? && ListingOf(item).value.url !in s.cache && ListingOf(item).value.typeBits != 0)
      && (r != s ==> r == Keep(s, ListingOf(item).value))
  {
    if ListingOf(item).Some? {
      var l := ListingOf(item).value;
      if l.url !in s.cache && l.typeBits != 0 {
        assert l.url in AcceptStep(s, item).cache;
      }
    }
  }

  /** The urls of `ls`. */
  function UrlsOf(ls: seq<Listing>): (r: set<string>)
    ensures forall u :: u in r <==> exists k :: 0 <= k < |ls| && ls[k].url == u
  {
    set k | 0 <= k < |ls| :: ls[k].url
  }

  lemma UrlsOfSnoc(ls: seq<Listing>, l: Listing)
    ensures UrlsOf(ls + [l]) == UrlsOf(ls) + {l.url}
  {
    var a, b := UrlsOf(ls + [l]), UrlsOf(ls) + {l.url};
    forall u | u in b ensures u in a {
      if u != l.url {
        var k :| 0 <= k < |ls| && ls[k].url == u;
        assert (ls + [l])[k] == ls[k];
      } else {
        assert (ls + [l])[|ls|] == l;
      }
    }
    forall u | u in a ensures u in b {
      var k :| 0 <= k < |ls| + 1 && (ls + [l])[k].url == u;
      if k < |ls| { assert (ls + [l])[k] == ls[k]; }
    }
  }

  /** The cache holds the initial urls and the url of every kept listing, and nothing else. */
  lemma {:induction false} ScanCache(cache0: set<string>, items: seq<ListingItem>)
    ensures var s := ScanItems(cache0, items);
      s.cache == cache0 + UrlsOf(s.accepted)
  {
    if items != [] {
      var init := items[..|items| - 1];
      ScanCache(cache0, init);
      var s0 := ScanItems(cache0, init);
      var s := ScanItems(cache0, items);
      if s != s0 {
        var l := ListingOf(items[|items| - 1]).value;
        assert s == Keep(s0, l);
        UrlsOfSnoc(s0.accepted, l);
      } else {
        assert s.accepted == s0.accepted;
      }
    }
  }

  /** No url of `a` occurs twice or in `cache0`, and every listing of `a` has a type. */
  ghost predicate Fresh(cache0: set<string>, a: seq<Listing>) {
    && (forall i, j :: 0 <= i < j < |a| ==> a[i].url != a[j].url)
    && (forall k :: 0 <= k < |a| ==> a[k].url !in cache0 && a[k].typeBits > 0)
  }

  lemma FreshSnoc(cache0: set<string>, a: seq<Listing>, l: Listing)
    requires Fresh(cache0, a)
    requires l.url !in cache0 + UrlsOf(a) && l.typeBits > 0
    ensures Fresh(cache0, a + [l])
  {
    var b := a + [l];
    assert forall i :: 0 <= i < |a| ==> a[i].url != l.url;
    forall i, j | 0 <= i < j < |b| ensures b[i].url != b[j].url {
      assert b[i] == a[i];
      if j < |a| { assert b[j] == a[j]; }
    }
    forall k | 0 <= k < |b| ensures b[k].url !in cache0 && b[k].typeBits > 0 {
      if k < |a| { assert b[k] == a[k]; }
    }
  }

  /** No url is kept twice, no url of the initial cache is kept, and every kept listing has a type. */
  lemma {:induction false} ScanFresh(cache0: set<string>, items: seq<ListingItem>)
    ensures Fresh(cache0, ScanItems(cache0, items).accepted)
  {
    if items != [] {
      var init := items[..|items| - 1];
      ScanFresh(cache0, init);
      ScanCache(cache0, init);
      var s0 := ScanItems(cache0, init);
      var item := items[|items| - 1];
      AcceptStepSpec(s0, item);
      if AcceptStep(s0, item) != s0 {
        FreshSnoc(cache0, s0.accepted, ListingOf(item).value);
      }
    }
  }

  /** Every flush keeps the tables valid. */
  lemma {:induction false} UpsertAllValid(t: Tables, bs: seq<seq<Listing>>, fails: nat -> bool)
    requires TablesValid(t)
    ensures TablesValid(UpsertAll(t, bs, fails))
  {
    if bs != [] {
      var n := |bs| - 1;
      UpsertAllValid(t, bs[..n], fails);
      var t' := UpsertAll(t, bs[..n], fails);
      if fails(n) {
        UpsertUnchanged(t', bs[n], true);
      } else {
        UpsertRecords(t', bs[n]);
      }
    }
  }

  lemma ScanConcatSnoc(cache0: set<string>, before: seq<ListingItem>, items: seq<ListingItem>, j: nat)
    requires j < |items|
    ensures ScanItems(cache0, before + items[..j + 1]) == AcceptStep(ScanItems(cache0, before + items[..j]), items[j])
  {
    var w := before + items[..j + 1];
    assert w[..|w| - 1] == before + items[..j];
    assert w[|w| - 1] == items[j];
  }

  lemma PageItemsSnoc(pages: seq<Option<seq<ListingItem>>>, p: nat)
    requires p < |pages|
    ensures PageItems(pages[..p + 1]) == PageItems(pages[..p]) + pages[p].GetOr([])
  {
    assert pages[..p + 1][..p] == pages[..p];
  }

  lemma UpsertAllSnoc(t: Tables, bs: seq<seq<Listing>>, b: seq<Listing>, fails: nat -> bool)
    ensures UpsertAll(t, bs + [b], fails) == UpsertOf(UpsertAll(t, bs, fails), b, fails(|bs|))
  {
    assert (bs + [b])[..|bs|] == bs;
  }

  /** What the loop keeps: the flushes so far are full batches, and with the open batch they are the kept listings. */
  ghost predicate Flushing(s: Scan, cache: set<string>, batch: seq<Listing>, flushed: seq<seq<Listing>>, n: nat) {
    && cache == s.cache
    && Flatten(flushed) + batch == s.accepted
    && (forall k :: 0 <= k < |flushed| ==> |flushed[k]| == n)
    && |batch| < n
  }

  /** The scan after keeping `l`. */
  function Keep(s: Scan, l: Listing): Scan {
    Scan(s.cache + {l.url}, s.accepted + [l])
  }

  /** A kept listing that leaves the open batch short of `n` joins it. */
  lemma KeepOpen(s: Scan, batch: seq<Listing>, flushed: seq<seq<Listing>>, n: nat, l: Listing)
    requires Flushing(s, s.cache, batch, flushed, n) && |batch| + 1 < n
    ensures Flushing(Keep(s, l), s.cache + {l.url}, batch + [l], flushed, n)
  {
    assert Flatten(flushed) + (batch + [l]) == (Flatten(flushed) + batch) + [l];
  }

  /** A kept listing that fills the open batch turns it into one more flush. */
  lemma KeepFlush(s: Scan, batch: seq<Listing>, flushed: seq<seq<Listing>>, n: nat, l: Listing)
    requires Flushing(s, s.cache, batch, flushed, n) && |batch| + 1 >= n
    ensures Flushing(Keep(s, l), s.cache + {l.url}, [], flushed + [batch + [l]], n)
  {
    FlattenAppend(flushed, batch + [l]);
    assert Flatten(flushed) + (batch + [l]) == (Flatten(flushed) + batch) + [l];
    var f := flushed + [batch + [l]];
    forall k | 0 <= k < |f| ensures |f[k]| == n {
      if k < |flushed| { assert f[k] == flushed[k]; }
    }
  }

  /** The body of the item loop for one row. */
  method ProcessItem(db: Store, item: ListingItem, n: nat, fails: nat -> bool,
                     cache: set<string>, batch: seq<Listing>, flushed: seq<seq<Listing>>, ghost s: Scan, ghost t0: Tables)
    returns (cache': set<string>, batch': seq<Listing>, flushed': seq<seq<Listing>>)
    requires n > 0 && Flushing(s, cache, batch, flushed, n)
    requires db.State() == UpsertAll(t0, flushed, fails)
    modifies db
    ensures Flushing(AcceptStep(s, item), cache', batch', flushed', n)
    ensures db.State() == UpsertAll(t0, flushed', fails)
  {
    cache', batch', flushed' := cache, batch, flushed;
    AcceptStepSpec(s, item);
    var m := ListingOf(item);
    if m.Some? && m.value.url !in cache && m.value.typeBits != 0 {
      var l := m.value;
      assert AcceptStep(s, item) == Keep(s, l);
      cache' := cache + {l.url};
      if |batch| + 1 >= n {
        BatchInsertAndUpsert(db, batch + [l], fails(|flushed|));
        UpsertAllSnoc(t0, flushed, batch + [l], fails);
        KeepFlush(s, batch, flushed, n, l);
        flushed' := flushed + [batch + [l]];
        batch' := [];
      } else {
        KeepOpen(s, batch, flushed, n, l);
        batch' := batch + [l];
      }
    }
  }

  /** The item loop over the rows of one page, after the rows `before` of the earlier pages. */
  method ProcessPage(db: Store, items: seq<ListingItem>, n: nat, fails: nat -> bool,
                     cache: set<string>, batch: seq<Listing>, flushed: seq<seq<Listing>>,
                     ghost cache0: set<string>, ghost before: seq<ListingItem>, ghost t0: Tables)
    returns (cache': set<string>, batch': seq<Listing>, flushed': seq<seq<Listing>>)
    requires n > 0 && Flushing(ScanItems(cache0, before), cache, batch, flushed, n)
    requires db.State() == UpsertAll(t0, flushed, fails)
    modifies db
    ensures Flushing(ScanItems(cache0, before + items), cache', batch', flushed', n)
    ensures db.State() == UpsertAll(t0, flushed', fails)
  {
    cache', batch', flushed' := cache, batch, flushed;
    var j := 0;
    assert before + items[..0] == before;
    while j < |items|
      invariant 0 <= j <= |items|
      invariant Flushing(ScanItems(cache0, before + items[..j]), cache', batch', flushed', n)
      invariant db.State() == UpsertAll(t0, flushed', fails)
    {
      ghost var s := ScanItems(cache0, before + items[..j]);
      ScanConcatSnoc(cache0, before, items, j);
      cache', batch', flushed' := ProcessItem(db, items[j], n, fails, cache', batch', flushed', s, t0);
      j := j + 1;
    }
    assert items[..j] == items;
  }

  /**
   * The run over the pages from cache `cache0`, on an open connection. Returns
   * the final cache and the batches handed to the store, in order.
   */
  method CrawlAndProcess(db: Store, pages: seq<Option<seq<ListingItem>>>, batchSize: nat,
                         cache0: set<string>, fails: nat -> bool)
    returns (cache: set<string>, flushed: seq<seq<Listing>>)
    modifies db
    ensures var s := ScanItems(cache0, PageItems(pages));
      cache == s.cache && flushed == Chunks(s.accepted, FlushSize(batchSize))
    ensures db.State() == UpsertAll(old(db.State()), flushed, fails)
  {
    var n := FlushSize(batchSize);
    ghost var t0 := db.State();
    cache := cache0;
    flushed := [];
    var batch: seq<Listing> := [];
    var p := 0;
    while p < |pages|
      invariant 0 <= p <= |pages|
      invariant Flushing(ScanItems(cache0, PageItems(pages[..p])), cache, batch, flushed, n)
      invariant db.State() == UpsertAll(t0, flushed, fails)
    {
      ghost var before := PageItems(pages[..p]);
      PageItemsSnoc(pages, p);
      if pages[p].Some? {
        cache, batch, flushed := ProcessPage(db, pages[p].value, n, fails, cache, batch, flushed, cache0, before, t0);
      } else {
        assert PageItems(pages[..p + 1]) == before;
      }
      p := p + 1;
    }
    assert pages[..p] == pages;
    ghost var s := ScanItems(cache0, PageItems(pages));
    if batch != [] {
      BatchInsertAndUpsert(db, batch, fails(|flushed|));
      UpsertAllSnoc(t0, flushed, batch, fails);
      ChunksOfBatches(flushed, batch, n);
      flushed := flushed + [batch];
    } else {
      assert Flatten(flushed) == s.accepted;
      ChunksOfFull(flushed, n);
    }
  }
}
