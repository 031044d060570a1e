/**
 * `crawl_templestay_details` and `process_url_batch`: the fields read from one
 * detail page, the info-list fold that fills the temple name, address and
 * phone, and the rule that turns a result into an update row and image rows.
 */
module Detail {
  import opened Wrappers
  import opened Text
  import opened Page
  import opened Phone
  import opened Images
  import opened Schedule
  import opened Introduction
  import opened Chunking

  /** One `li` of the info list: the `alt` of its image (`""` without one) and its own text. */
  datatype InfoItem = InfoItem(alt: string, text: string)

  /** The three values the info-list loop keeps overwriting. */
  datatype Contact = Contact(templeName: Option<string>, address: Option<string>, phone: Option<string>)

  const NoContact := Contact(None, None, None)

  /** Python truthiness of an optional string: present and non-empty. */
  predicate Truthy(s: Option<string>) { s.Some? && s.value != "" }

  predicate IsAddressItem(it: InfoItem) { Contains(it.alt, "주소") }

  /** A phone item: labelled as contact, or phone-shaped, and not an address item (that branch comes first). */
  predicate IsPhoneItem(it: InfoItem) {
    !IsAddressItem(it) && (Contains(it.alt, "연락처") || LooksLikePhone(it.text))
  }

  /** One iteration of the `li` loop. */
  function InfoStep(c: Contact, it: InfoItem): Contact {
    if IsAddressItem(it) then
      var parts := SplitOnce(it.text, ',');
      if |parts| == 2 then c.(templeName := Some(Strip(parts[0])), address := Some(Strip(parts[1])))
      else c.(address := Some(it.text))
    else if Contains(it.alt, "연락처") || LooksLikePhone(it.text) then
      var p := ExtractPhone(it.text);
      if Truthy(p) then c.(phone := p) else c
    else c
  }

  /** The loop over the info items, from three `None`s. */
  function ContactOf(items: seq<InfoItem>): Contact {
    if items == [] then NoContact else InfoStep(ContactOf(items[..|items| - 1]), items[|items| - 1])
  }

  method FoldInfo(items: seq<InfoItem>) returns (templeName: Option<string>, address: Option<string>, phone: Option<string>)
    ensures Contact(templeName, address, phone) == ContactOf(items)
  {
    templeName, address, phone := None, None, None;
    var i := 0;
    while i < |items|
      invariant 0 <= i <= |items|
      invariant Contact(templeName, address, phone) == ContactOf(items[..i])
    {
      var alt, text := items[i].alt, items[i].text;
      if Contains(alt, "주소") {
        var parts := SplitOnce(text, ',');
        if |parts| == 2 {
          templeName := Some(Strip(parts[0]));
          address := Some(Strip(parts[1]));
        } else {
          address := Some(text);
        }
      } else if Contains(alt, "연락처") || LooksLikePhone(text) {
        var p := ExtractPhone(text);
        if p.Some? && p.value != "" {
          phone := p;
        }
      }
      assert items[..i + 1][..i] == items[..i];
      i := i + 1;
    }
    assert items[..i] == items;
  }

  /** What an item writes to the temple name: the stripped part before the first comma of an address. */
  function NameWrite(it: InfoItem): Option<string> {
    if IsAddressItem(it) && ',' in it.text then Some(Strip(SplitOnce(it.text, ',')[0])) else None
  }

  /** What an item writes to the address: the stripped part after the first comma, or the whole text. */
  function AddressWrite(it: InfoItem): Option<string> {
    if !IsAddressItem(it) then None
    else if ',' in it.text then Some(Strip(SplitOnce(it.text, ',')[1]))
    else Some(it.text)
  }

  /** What an item writes to the phone: a non-empty extracted number of a phone item. */
  function PhoneWrite(it: InfoItem): Option<string> {
    if IsPhoneItem(it) && Truthy(ExtractPhone(it.text)) then ExtractPhone(it.text) else None
  }

  /** The value the last writing item of `items` gives, `None` when no item writes. */
  function LastWritten(items: seq<InfoItem>, write: InfoItem -> Option<string>): Option<string> {
    if items == [] then None
    else
      var w := write(items[|items| - 1]);
      if w.Some? then w else LastWritten(items[..|items| - 1], write)
  }

  /** One step, field by field: each field takes the item's write if it has one. */
  lemma InfoStepFields(c: Contact, it: InfoItem)
    ensures InfoStep(c, it) == Contact(
      if NameWrite(it).Some? then NameWrite(it) else c.templeName,
      if AddressWrite(it).Some? then AddressWrite(it) else c.address,
      if PhoneWrite(it).Some? then PhoneWrite(it) else c.phone)
  {}

  /** Each field holds what the last item writing that field wrote. */
  lemma {:induction false} ContactIsLastWrites(items: seq<InfoItem>)
    ensures ContactOf(items) == Contact(LastWritten(items, NameWrite), LastWritten(items, AddressWrite), LastWritten(items, PhoneWrite))
  {
    if items != [] {
      ContactIsLastWrites(items[..|items| - 1]);
      InfoStepFields(ContactOf(items[..|items| - 1]), items[|items| - 1]);
    }
  }

  /** `LastWritten` stated over positions: nothing when no item writes, else the write of the last writer. */
  lemma {:induction false} LastWrittenSpec(items: seq<InfoItem>, write: InfoItem -> Option<string>)
    ensures LastWritten(items, write).None? <==> forall k :: 0 <= k < |items| ==> write(items[k]).None?
    ensures LastWritten(items, write).Some? ==>
      exists k :: (0 <= k < |items| && write(items[k]) == LastWritten(items, write)
        && forall k' :: k < k' < |items| ==> write(items[k']).None?)
  {
    if items != [] {
      var init := items[..|items| - 1];
      LastWrittenSpec(init, write);
      assert forall k :: 0 <= k < |init| ==> init[k] == items[k];
      if write(items[|items| - 1]).None? && LastWritten(init, write).Some? {
        var k :| 0 <= k < |init| && write(init[k]) == LastWritten(init, write)
          && forall k' :: k < k' < |init| ==> write(init[k']).None?;
        assert write(items[k]) == LastWritten(items, write);
      }
    }
  }

  /** An address item without a comma keeps the temple name and sets the whole text as the address. */
  lemma AddressWithoutComma(c: Contact, it: InfoItem)
    requires IsAddressItem(it) && ',' !in it.text
    ensures InfoStep(c, it) == c.(address := Some(it.text))
  {}

  /** The phone never contains `/`, and has no surrounding whitespace. */
  lemma PhoneShape(items: seq<InfoItem>)
    ensures var p := ContactOf(items).phone; p.Some? ==> p.value != "" && '/' !in p.value && Stripped(p.value)
  {
    ContactIsLastWrites(items);
    LastWrittenSpec(items, PhoneWrite);
  }

  /** The `div.place` block: its `h3` text (if any) and its info items (none without `div.info`). */
  datatype Place = Place(title: Option<string>, info: seq<InfoItem>)

  /** A loaded detail page, as its traversal yields it. */
  datatype DetailPage = DetailPage(
    place: Option<Place>,
    sections: seq<Section>,
    introImageBlocks: seq<Option<TextBlock>>,
    slides: seq<Option<string>>,
    imgs: seq<Option<string>>)

  /** The browser either loads the page or raises (timeout, driver error); the crawl catches the error. */
  datatype Fetch = Failed | Loaded(page: DetailPage)

  /** The seven values `crawl_templestay_details` returns. */
  datatype Detail = Detail(
    templestayName: Option<string>,
    templeName: Option<string>,
    address: Option<string>,
    phone: Option<string>,
    introduction: Option<string>,
    schedule: Option<Days>,
    images: seq<string>)

  /** The result for a failed fetch or a page without `div.place`. */
  const EmptyDetail := Detail(None, None, None, None, None, None, [])

  const ScheduleMarker: string := "프로그램 일정"

  /** The schedule table: looked for only in the first section whose heading names the schedule. */
  function ScheduleTableOf(sections: seq<Section>): Option<Table> {
    if sections == [] then None
    else if sections[0].heading.Some? && Contains(sections[0].heading.value, ScheduleMarker) then sections[0].table
    else ScheduleTableOf(sections[1..])
  }

  function DetailOf(f: Fetch): Detail {
    match f
    case Failed => EmptyDetail
    case Loaded(page) =>
      match page.place
      case None => EmptyDetail
      case Some(place) =>
        var c := ContactOf(place.info);
        Detail(place.title, c.templeName, c.address, c.phone,
          IntroductionOf(page.sections, page.introImageBlocks),
          ScheduleOf(ScheduleTableOf(page.sections)),
          ImageUrls(page.slides, page.imgs))
  }

  method FindScheduleTable(sections: seq<Section>) returns (table: Option<Table>)
    ensures table == ScheduleTableOf(sections)
  {
    table := None;
    var i := 0;
    while i < |sections|
      invariant 0 <= i <= |sections|
      invariant ScheduleTableOf(sections) == ScheduleTableOf(sections[i..])
    {
      var h := sections[i].heading;
      if h.Some? && Contains(h.value, ScheduleMarker) {
        table := sections[i].table;
        return;
      }
      assert sections[i..][1..] == sections[i + 1..];
      i := i + 1;
    }
  }

  method CrawlDetails(f: Fetch) returns (d: Detail)
    ensures d == DetailOf(f)
  {
    if f.Failed? || f.page.place.None? {
      return EmptyDetail;
    }
    var page := f.page;
    var place := page.place.value;
    var templeName, address, phone := FoldInfo(place.info);
    var introduction := ExtractIntroduction(page.sections, page.introImageBlocks);
    var table := FindScheduleTable(page.sections);
    var schedule := ParseSchedule(table);
    var images := ExtractImageUrls(page.slides, page.imgs);
    d := Detail(place.title, templeName, address, phone, introduction, schedule, images);
  }

  /** A result worth an update: one of the six fields is truthy (a schedule, once serialised, always is). */
  predicate HasData(d: Detail) {
    Truthy(d.templestayName) || Truthy(d.templeName) || Truthy(d.address) || Truthy(d.phone)
    || Truthy(d.introduction) || d.schedule.Some?
  }

  /** A failed crawl produces neither an update nor an image. */
  lemma FailedCrawl(f: Fetch)
    requires f.Failed? || f.page.place.None?
    ensures !HasData(DetailOf(f)) && DetailOf(f).images == []
  {}

  /** An update row: the six fields, then the id for the `WHERE` clause. */
  datatype UpdateRow = UpdateRow(
    templestayName: Option<string>,
    templeName: Option<string>,
    address: Option<string>,
    phone: Option<string>,
    introduction: Option<string>,
    schedule: Option<Days>,
    id: nat)

  function RowOf(d: Detail, id: nat): UpdateRow {
    UpdateRow(d.templestayName, d.templeName, d.address, d.phone, d.introduction, d.schedule, id)
  }

  /** The crawl results of the entries of `batch` (pairs of id and url); `pages` gives what fetching a url yields. */
  function Crawled(batch: seq<(nat, string)>, pages: string -> Fetch): (ds: seq<Detail>)
    ensures |ds| == |batch|
  {
    seq(|batch|, k requires 0 <= k < |batch| => DetailOf(pages(batch[k].1)))
  }

  /** The update rows of `batch`, whose entries crawled to `ds`, in order. */
  function UpdatesOf(batch: seq<(nat, string)>, ds: seq<Detail>): seq<UpdateRow>
    requires |ds| == |batch|
  {
    if batch == [] then []
    else
      var n := |batch| - 1;
      UpdatesOf(batch[..n], ds[..n]) + if HasData(ds[n]) then [RowOf(ds[n], batch[n].0)] else []
  }

  /** The images of one result, tagged with the entry's id. */
  function Tagged(id: nat, images: seq<string>): (r: seq<(nat, string)>)
    ensures |r| == |images|
    ensures forall k :: 0 <= k < |r| ==> r[k] == (id, images[k])
  {
    seq(|images|, k requires 0 <= k < |images| => (id, images[k]))
  }

  /** The (id, image url) rows of `batch`, whose entries crawled to `ds`, in order. */
  function ImageRowsOf(batch: seq<(nat, string)>, ds: seq<Detail>): seq<(nat, string)>
    requires |ds| == |batch|
  {
    if batch == [] then []
    else
      var n := |batch| - 1;
      ImageRowsOf(batch[..n], ds[..n]) + Tagged(batch[n].0, ds[n].images)
  }

  /** The inner loop of `process_url_batch`: one image row per image url. */
  method TagImages(id: nat, images: seq<string>) returns (rows: seq<(nat, string)>)
    ensures rows == Tagged(id, images)
  {
    rows := [];
    var j := 0;
    while j < |images|
      invariant 0 <= j <= |images|
      invariant rows == Tagged(id, images[..j])
    {
      rows := rows + [(id, images[j])];
      j := j + 1;
    }
    assert images[..j] == images;
  }

  method ProcessUrlBatch(batch: seq<(nat, string)>, pages: string -> Fetch)
    returns (updates: seq<UpdateRow>, imageRows: seq<(nat, string)>)
    ensures updates == UpdatesOf(batch, Crawled(batch, pages))
    ensures imageRows == ImageRowsOf(batch, Crawled(batch, pages))
  {
    ghost var ds := Crawled(batch, pages);
    updates, imageRows := [], [];
    var i := 0;
    while i < |batch|
      invariant 0 <= i <= |batch|
      invariant updates == UpdatesOf(batch[..i], ds[..i])
      invariant imageRows == ImageRowsOf(batch[..i], ds[..i])
    {
      var (id, url) := batch[i];
      var d := CrawlDetails(pages(url));
      assert d == ds[i];
      if HasData(d) {
        updates := updates + [RowOf(d, id)];
      }
      var tagged := TagImages(id, d.images);
      imageRows := imageRows + tagged;
      RowsSnoc(batch, ds, i);
      i := i + 1;
    }
    assert batch[..i] == batch;
    assert ds[..i] == ds;
  }

  lemma RowsSnoc(batch: seq<(nat, string)>, ds: seq<Detail>, i: nat)
    requires |ds| == |batch| && i < |batch|
    ensures UpdatesOf(batch[..i + 1], ds[..i + 1]) ==
      UpdatesOf(batch[..i], ds[..i]) + if HasData(ds[i]) then [RowOf(ds[i], batch[i].0)] else []
    ensures ImageRowsOf(batch[..i + 1], ds[..i + 1]) == ImageRowsOf(batch[..i], ds[..i]) + Tagged(batch[i].0, ds[i].images)
  {
    assert batch[..i + 1][..i] == batch[..i];
    assert ds[..i + 1][..i] == ds[..i];
  }

  /** An update row exists for exactly the entries whose result has data, carrying that entry's id last. */
  lemma {:induction false} UpdatesMembership(batch: seq<(nat, string)>, ds: seq<Detail>, row: UpdateRow)
    requires |ds| == |batch|
    ensures row in UpdatesOf(batch, ds) <==>
      exists k :: 0 <= k < |batch| && HasData(ds[k]) && row == RowOf(ds[k], batch[k].0)
  {
    if batch != [] {
      var n := |batch| - 1;
      UpdatesMembership(batch[..n], ds[..n], row);
      assert forall k :: 0 <= k < n ==> batch[..n][k] == batch[k] && ds[..n][k] == ds[k];
    }
  }

  /** Image rows do not depend on the update rule: every image of every entry, tagged with its id. */
  lemma {:induction false} ImageRowsMembership(batch: seq<(nat, string)>, ds: seq<Detail>, id: nat, url: string)
    requires |ds| == |batch|
    ensures (id, url) in ImageRowsOf(batch, ds) <==>
      exists k :: 0 <= k < |batch| && batch[k].0 == id && url in ds[k].images
  {
    if batch != [] {
      var n := |batch| - 1;
      ImageRowsMembership(batch[..n], ds[..n], id, url);
      assert forall k :: 0 <= k < n ==> batch[..n][k] == batch[k] && ds[..n][k] == ds[k];
      var tagged := Tagged(batch[n].0, ds[n].images);
      assert (id, url) in tagged <==> id == batch[n].0 && url in ds[n].images by {
        if id == batch[n].0 && url in ds[n].images {
          var k :| 0 <= k < |ds[n].images| && ds[n].images[k] == url;
          assert tagged[k] == (id, url);
        }
      }
    }
  }

  /** Both row lists distribute over a split of the work into consecutive batches. */
  lemma RowsOfConcat(a: seq<(nat, string)>, da: seq<Detail>, b: seq<(nat, string)>, db: seq<Detail>)
    requires |da| == |a| && |db| == |b|
    ensures UpdatesOf(a + b, da + db) == UpdatesOf(a, da) + UpdatesOf(b, db)
    ensures ImageRowsOf(a + b, da + db) == ImageRowsOf(a, da) + ImageRowsOf(b, db)
  {
    UpdatesOfConcat(a, da, b, db);
    ImageRowsOfConcat(a, da, b, db);
  }

  lemma {:induction false} UpdatesOfConcat(a: seq<(nat, string)>, da: seq<Detail>, b: seq<(nat, string)>, db: seq<Detail>)
    requires |da| == |a| && |db| == |b|
    ensures UpdatesOf(a + b, da + db) == UpdatesOf(a, da) + UpdatesOf(b, db)
    decreases |b|
  {
    if b == [] {
      assert a + b == a && da + db == da;
    } else {
      var n := |b| - 1;
      UpdatesOfConcat(a, da, b[..n], db[..n]);
      var ab, dab := a + b, da + db;
      var m := |ab| - 1;
      assert ab[..m] == a + b[..n] && dab[..m] == da + db[..n];
      assert ab[m] == b[n] && dab[m] == db[n];
      var last := if HasData(db[n]) then [RowOf(db[n], b[n].0)] else [];
      assert UpdatesOf(ab, dab) == UpdatesOf(a + b[..n], da + db[..n]) + last;
      assert UpdatesOf(b, db) == UpdatesOf(b[..n], db[..n]) + last;
    }
  }

  lemma {:induction false} ImageRowsOfConcat(a: seq<(nat, string)>, da: seq<Detail>, b: seq<(nat, string)>, db: seq<Detail>)
    requires |da| == |a| && |db| == |b|
    ensures ImageRowsOf(a + b, da + db) == ImageRowsOf(a, da) + ImageRowsOf(b, db)
    decreases |b|
  {
    if b == [] {
      assert a + b == a && da + db == da;
    } else {
      var n := |b| - 1;
      ImageRowsOfConcat(a, da, b[..n], db[..n]);
      var ab, dab := a + b, da + db;
      var m := |ab| - 1;
      assert ab[..m] == a + b[..n] && dab[..m] == da + db[..n];
      assert ab[m] == b[n] && dab[m] == db[n];
      var last := Tagged(b[n].0, db[n].images);
      assert ImageRowsOf(ab, dab) == ImageRowsOf(a + b[..n], da + db[..n]) + last;
      assert ImageRowsOf(b, db) == ImageRowsOf(b[..n], db[..n]) + last;
    }
  }

  /** Crawling distributes over concatenation too. */
  lemma CrawledConcat(a: seq<(nat, string)>, b: seq<(nat, string)>, pages: string -> Fetch)
    ensures Crawled(a + b, pages) == Crawled(a, pages) + Crawled(b, pages)
  {}

  /** The rows of consecutive batches are the rows of their concatenation. */
  lemma BatchRowsConcat(a: seq<(nat, string)>, b: seq<(nat, string)>, pages: string -> Fetch)
    ensures UpdatesOf(a + b, Crawled(a + b, pages)) == UpdatesOf(a, Crawled(a, pages)) + UpdatesOf(b, Crawled(b, pages))
    ensures ImageRowsOf(a + b, Crawled(a + b, pages)) == ImageRowsOf(a, Crawled(a, pages)) + ImageRowsOf(b, Crawled(b, pages))
  {
    CrawledConcat(a, b, pages);
    RowsOfConcat(a, Crawled(a, pages), b, Crawled(b, pages));
  }

  /** Rows per `update_templestay_batch` call, and per `insert_images_batch` call. */
  const UpdateBulkSize: nat := 100
  const ImageBulkSize: nat := 200

  /**
   * What `main` hands to the bulk writers. `Aborted` is a batch size of 0:
   * `range` raises, the outer handler logs, and nothing is written.
   */
  datatype Run = Aborted | Run(updateBatches: seq<seq<UpdateRow>>, imageBatches: seq<seq<(nat, string)>>)

  /** The update rows `process_url_batch` returns for each work batch. */
  function BatchUpdates(batches: seq<seq<(nat, string)>>, pages: string -> Fetch): (r: seq<seq<UpdateRow>>)
    ensures |r| == |batches|
    ensures forall b :: 0 <= b < |batches| ==> r[b] == UpdatesOf(batches[b], Crawled(batches[b], pages))
  {
    seq(|batches|, b requires 0 <= b < |batches| => UpdatesOf(batches[b], Crawled(batches[b], pages)))
  }

  /** The image rows `process_url_batch` returns for each work batch. */
  function BatchImages(batches: seq<seq<(nat, string)>>, pages: string -> Fetch): (r: seq<seq<(nat, string)>>)
    ensures |r| == |batches|
    ensures forall b :: 0 <= b < |batches| ==> r[b] == ImageRowsOf(batches[b], Crawled(batches[b], pages))
  {
    seq(|batches|, b requires 0 <= b < |batches| => ImageRowsOf(batches[b], Crawled(batches[b], pages)))
  }

  /**
   * `main` over the rows `(id, url)` read from the store. The pool's futures
   * complete in `order`, a permutation of the work batches; the future of a
   * batch in `dropped` raises (a driver that cannot start, say) and is logged
   * and skipped. The results are extended in completion order.
   */
  method RunDetails(urlData: seq<(nat, string)>, batchSize: nat, pages: string -> Fetch, order: seq<nat>, dropped: set<nat>)
    returns (r: Run)
    requires batchSize > 0 ==> IsOrder(order, |Chunks(urlData, batchSize)|)
    ensures batchSize == 0 ==> r == Aborted
    ensures batchSize > 0 ==> r == Run(
      Chunks(Gather(BatchUpdates(Chunks(urlData, batchSize), pages), order, dropped), UpdateBulkSize),
      Chunks(Gather(BatchImages(Chunks(urlData, batchSize), pages), order, dropped), ImageBulkSize))
  {
    if batchSize == 0 {
      return Aborted;
    }
    var batches := Chunks(urlData, batchSize);
    ghost var ups, ims := BatchUpdates(batches, pages), BatchImages(batches, pages);
    var allUpdates: seq<UpdateRow> := [];
    var allImages: seq<(nat, string)> := [];
    var i := 0;
    while i < |order|
      invariant 0 <= i <= |order|
      invariant allUpdates == Gather(ups, order[..i], dropped)
      invariant allImages == Gather(ims, order[..i], dropped)
    {
      var b := order[i];
      assert order[..i + 1][..i] == order[..i];
      if b !in dropped {
        var updates, images := ProcessUrlBatch(batches[b], pages);
        allUpdates := allUpdates + updates;
        allImages := allImages + images;
      }
      i := i + 1;
    }
    assert order[..i] == order;
    r := Run(Chunks(allUpdates, UpdateBulkSize), Chunks(allImages, ImageBulkSize));
  }

  /**
   * Whatever order the batches complete in, the rows handed to the bulk writers
   * are those of the urls of the batches that did not raise, each as often as
   * crawling them in url order gives it; in submission order they are exactly
   * those rows, and with no batch dropped they are the rows of all the urls.
   */
  lemma RunDetailsRows(urlData: seq<(nat, string)>, batchSize: nat, pages: string -> Fetch, order: seq<nat>, dropped: set<nat>)
    requires batchSize > 0 && IsOrder(order, |Chunks(urlData, batchSize)|)
    ensures var batches := Chunks(urlData, batchSize);
      var kept := Flatten(KeptFrom(batches, dropped));
      && multiset(Gather(BatchUpdates(batches, pages), order, dropped)) == multiset(UpdatesOf(kept, Crawled(kept, pages)))
      && multiset(Gather(BatchImages(batches, pages), order, dropped)) == multiset(ImageRowsOf(kept, Crawled(kept, pages)))
      && (order == Range(|batches|) ==>
            && Gather(BatchUpdates(batches, pages), order, dropped) == UpdatesOf(kept, Crawled(kept, pages))
            && Gather(BatchImages(batches, pages), order, dropped) == ImageRowsOf(kept, Crawled(kept, pages)))
      && (dropped == {} ==> kept == urlData)
  {
    var batches := Chunks(urlData, batchSize);
    var ups, ims := BatchUpdates(batches, pages), BatchImages(batches, pages);
    GatherAnyOrder(ups, order, dropped);
    GatherAnyOrder(ims, order, dropped);
    GatherRange(ups, dropped);
    GatherRange(ims, dropped);
    KeptRows(batches, pages, dropped);
    ChunksIsChunking(urlData, batchSize);
  }

  /** The rows of the kept batches, concatenated, are the rows of the kept urls. */
  lemma KeptRows(batches: seq<seq<(nat, string)>>, pages: string -> Fetch, dropped: set<nat>)
    ensures var kept := Flatten(KeptFrom(batches, dropped));
      && Flatten(KeptFrom(BatchUpdates(batches, pages), dropped)) == UpdatesOf(kept, Crawled(kept, pages))
      && Flatten(KeptFrom(BatchImages(batches, pages), dropped)) == ImageRowsOf(kept, Crawled(kept, pages))
  {
    KeptUpdates(batches, pages, dropped);
    KeptImages(batches, pages, dropped);
  }

  lemma {:induction false} KeptUpdates(batches: seq<seq<(nat, string)>>, pages: string -> Fetch, dropped: set<nat>)
    ensures var kept := Flatten(KeptFrom(batches, dropped));
      Flatten(KeptFrom(BatchUpdates(batches, pages), dropped)) == UpdatesOf(kept, Crawled(kept, pages))
  {
    if batches != [] {
      var n := |batches| - 1;
      var init, rs := batches[..n], BatchUpdates(batches, pages);
      KeptUpdates(init, pages, dropped);
      assert rs[..n] == BatchUpdates(init, pages);
      var k0, r0 := KeptFrom(init, dropped), KeptFrom(BatchUpdates(init, pages), dropped);
      if n !in dropped {
        assert KeptFrom(batches, dropped) == k0 + [batches[n]];
        assert KeptFrom(rs, dropped) == r0 + [rs[n]];
        FlattenAppend(k0, batches[n]);
        FlattenAppend(r0, rs[n]);
        BatchRowsConcat(Flatten(k0), batches[n], pages);
      } else {
        assert KeptFrom(batches, dropped) == k0 + [] == k0;
        assert KeptFrom(rs, dropped) == r0 + [] == r0;
      }
    }
  }

  lemma {:induction false} KeptImages(batches: seq<seq<(nat, string)>>, pages: string -> Fetch, dropped: set<nat>)
    ensures var kept := Flatten(KeptFrom(batches, dropped));
      Flatten(KeptFrom(BatchImages(batches, pages), dropped)) == ImageRowsOf(kept, Crawled(kept, pages))
  {
    if batches != [] {
      var n := |batches| - 1;
      var init, rs := batches[..n], BatchImages(batches, pages);
      KeptImages(init, pages, dropped);
      assert rs[..n] == BatchImages(init, pages);
      var k0, r0 := KeptFrom(init, dropped), KeptFrom(BatchImages(init, pages), dropped);
      if n !in dropped {
        assert KeptFrom(batches, dropped) == k0 + [batches[n]];
        assert KeptFrom(rs, dropped) == r0 + [rs[n]];
        FlattenAppend(k0, batches[n]);
        FlattenAppend(r0, rs[n]);
        BatchRowsConcat(Flatten(k0), batches[n], pages);
      } else {
        assert KeptFrom(batches, dropped) == k0 + [] == k0;
        assert KeptFrom(rs, dropped) == r0 + [] == r0;
      }
    }
  }
}
