# Temple-stay crawl and sync scripts, modelled in Dafny

The JEOLLOGA crawling scripts keep a MySQL catalogue of temple-stay programs.
The catalogue has three tables: `templestay` (one row per program url), `filter` (per-program search attributes, keyed by `templestay_id`) and `image`.
Five scripts change it:

- `url_type.py` walks the program listing pages. It reads each row's reserve call and category labels. It keeps the rows whose url is new to a url cache and whose type is not 0. It flushes them to the store in batches, inserting missing urls and upserting the `type` column of `filter`.
- `templestay.py` crawls each detail page. From the page it reads:
  - the name and address (split at the first comma);
  - the phone number;
  - a cleaned introduction text;
  - a day/time/activity schedule;
  - the image urls.

  It turns the results into update rows and image rows, cut into bulk batches.
- `filter.py` recomputes three attributes for the filter rows that still hold a `NULL`: the adult price, the activity bitmask and the region bit. It stages a row only when a value changed, and writes in batches of 100.
- `etc.py` reads an amenity CSV and normalises its temple names. It sums the amenity bits per name and matches names against the stored ones. It writes the bits with one `UPDATE ... CASE` statement.
- `remove_url.py` deletes the records whose url the latest crawl no longer lists, filter rows first, in one transaction.

The model describes these rules over abstract inputs.
HTML traversal results become sequences: info items, rows of cell texts, lists of `src` values, paragraphs, price rows.
The database is a `Db.Store` object whose fields are maps keyed by id.
A transaction that commits replaces the store's snapshot, and one that rolls back leaves it as it was.
Database errors, page fetches and the url cache file are parameters of the operations that meet them.

Modules:

- Helpers:
  - `Wrappers` (`Option`);
  - `Text` (Python's `strip`, `split`, `splitlines`, `join` and `int` on digit strings);
  - `Bits` (powers of two and `|`);
  - `Chunking` (`s[i:i+n]` batches);
  - `OrderedMap` (`OrderedDict` and insertion-ordered `dict`);
  - `Page` (the shapes a detail page is traversed into).
- `templestay.py`: `Phone`, `Images`, `Schedule`, `Introduction`, `Detail`.
- `url_type.py`: `Listing`, `Upsert`, `Discovery`.
- The shared tables: `Db`.
- `filter.py`: `Encoders`, `FilterSync`.
- `etc.py`: `Amenity`.
- `remove_url.py`: `Reconcile`.

The loops of the scripts are methods. Each is proved to compute a specification function, and the lemmas beside it state what the scripts promise about that function.

## Model

| member | source | states |
|---|---|---|
| Phone.ExtractPhone | data/templestay.py:83-91 | `None` exactly when the text holds no digit, `-`, space or `/`; otherwise the result has no `/`, no surrounding whitespace, and only characters of that class |
| Phone.ExtractPhoneFirstRun | data/templestay.py:84-91 | the result is computed from the leftmost maximal run of phone characters and from nothing else |
| Phone.Tidy | data/templestay.py:88-90 | the tidied run has no `/` and is stripped, and its characters come from the run |
| Phone.TidyLastSegment | data/templestay.py:88-90 | the run is stripped; without a `/` that is the phone, and with one the phone is the stripped part after the last `/` |
| Phone.ExtractPhoneLastSegment | data/templestay.py:84-91 | the phone is the stripped leftmost run of phone characters, or, when that run holds a `/`, the stripped part after its last `/` |
| Images.Resolve | data/templestay.py:104-105 | a non-empty source gives a url that does not start with `/`; a `/`-path gets the site origin in front |
| Images.ExtractImageUrls | data/templestay.py:93-117 | the two loops compute `ImageUrls`: the slide sources, then the new program images |
| Images.ProgramImagesExtend | data/templestay.py:108-116 | the second pass only appends, so the slide images stay first and in order, duplicates kept |
| Images.ProgramImagesFresh | data/templestay.py:114-115 | every url the second pass appends repeats neither an earlier entry nor another appended one |
| Images.ProgramImagesComplete | data/templestay.py:109-115 | every image whose source contains `templePrg` ends up in the list, resolved |
| Images.ProgramImagesSound | data/templestay.py:109-115 | everything the second pass appends is the resolved source of a program image |
| Images.ImageUrlsAbsolute | data/templestay.py:93-117 | no image url in the result starts with `/` |
| Images.SlideUrlsAbsolute | data/templestay.py:98-106 | every slide url is resolved, so none starts with `/` |
| Images.ProgramImagesAbsolute | data/templestay.py:108-115 | the second pass keeps every url free of a leading `/` |
| Schedule.DayLabel | data/templestay.py:137 | a day label holds no space |
| Schedule.LabelNotEmpty | data/templestay.py:132-137 | a non-empty stripped day cell always names a day |
| Schedule.ParseSchedule | data/templestay.py:119-149 | the row loop computes `ScheduleOf`: no table gives `None`, and otherwise the fold of the rows after the header |
| Schedule.ParseRow | data/templestay.py:129-147 | one pass of the loop body is one `Step` of the fold |
| Schedule.FoldWellFormed | data/templestay.py:125-147 | the days have distinct labels, the times of each day are distinct, and the cursor names an existing day or none |
| Schedule.StepWellFormed | data/templestay.py:129-147 | one row keeps the days well formed and adds at most the row's own day label |
| Schedule.DaysInFirstLabelOrder | data/templestay.py:136-139 | the days appear in the order their labels first appear; a repeated label reopens its day |
| Schedule.DaysDistinctAndSpaceFree | data/templestay.py:136-139 | every day key is distinct and holds no space |
| Schedule.SlotIsLastWrite | data/templestay.py:141-147 | the activity stored for a day and time is the one the last row writing that pair wrote |
| Schedule.LastWriteNone | data/templestay.py:141-147 | a day and time are absent exactly when no row writes them |
| Schedule.LastWriteSome | data/templestay.py:141-147 | a stored activity comes from the last row that writes that day and time |
| Schedule.DroppedRows | data/templestay.py:131-147 | rows of another arity, and rows before any day label, change nothing |
| Schedule.StepOpensDay | data/templestay.py:136-142 | a row with a new day label appends that day, with the row's slot, and moves the cursor to it |
| Schedule.StepReopensDay | data/templestay.py:136-142 | a row with a known day label writes into that day and keeps the day order |
| Schedule.StepContinuesDay | data/templestay.py:141-147 | a 2-cell row, or a 3-cell row with an empty day, writes into the current day |
| OrderedMap.Put | data/templestay.py:139-142 | an ordered-dict assignment sets the key, keeps every other key's value, and appends a new key at the end, while an existing key keeps its position |
| OrderedMap.PutNewKey | data/templestay.py:139-142 | a key not yet present is appended at the end with its value |
| OrderedMap.PutExistingKeyLast | data/templestay.py:142 | rewriting the last key replaces its value in place |
| Introduction.IntroSectionsEmpty | data/templestay.py:153-158 | the first pass collects nothing exactly when no section has an introduction heading and a text block with a `p` |
| Introduction.FallbackBlocksEmpty | data/templestay.py:160-167 | the fallback pass collects nothing exactly when no candidate text block has a `p` |
| Introduction.CollectIntroSections | data/templestay.py:152-158 | the first loop collects `IntroSections` |
| Introduction.CollectFallback | data/templestay.py:160-167 | the fallback loop collects `FallbackBlocks` |
| Introduction.CleanLines | data/templestay.py:174 | the kept lines are non-blank and stripped, no more than the input lines, and made of the input's characters |
| Introduction.CleanLine | data/templestay.py:174 | one line is kept, stripped, exactly when it is not blank |
| Introduction.CleanLinesConcat | data/templestay.py:174 | cleaning works line by line and keeps the order of the lines |
| Introduction.CleanBlocks | data/templestay.py:169-175 | the paragraph loops clean every paragraph of every block, in order |
| Introduction.ExtractIntroduction | data/templestay.py:151-177 | the text is computed by `IntroductionOf`: cleaned paragraphs joined by blank lines, the fallback only when the first pass found nothing |
| Introduction.NoIntroduction | data/templestay.py:160-177 | the result is `None` exactly when neither pass collected a text block |
| Introduction.CleanParagraphLines | data/templestay.py:174 | a cleaned paragraph splits back at `\n` into its cleaned lines, which hold no `\n` |
| Introduction.BlankParagraph | data/templestay.py:173-174 | a paragraph cleans to `""` exactly when it is all whitespace |
| Detail.FoldInfo | data/templestay.py:198-219 | the `li` loop computes `ContactOf` of the info items |
| Detail.ContactIsLastWrites | data/templestay.py:205-219 | name, address and phone are each the value of the last item that writes them |
| Detail.LastWrittenSpec | data/templestay.py:205-219 | a field stays `None` exactly when no item writes it, and otherwise holds the last write |
| Detail.InfoStepFields | data/templestay.py:211-219 | one info item sets exactly the fields it writes (name and address from an address item, the phone from a phone item whose extraction is truthy) and keeps the others |
| Detail.AddressWithoutComma | data/templestay.py:216-217 | an address item without a comma keeps the name and stores the whole text |
| Detail.PhoneShape | data/templestay.py:218-219 | a stored phone is non-empty, holds no `/`, and has no surrounding whitespace |
| Detail.FindScheduleTable | data/templestay.py:223-232 | the section loop finds the table of the first schedule section, stopping there even without a table |
| Detail.CrawlDetails | data/templestay.py:179-243 | one crawl computes `DetailOf` of the fetch |
| Detail.FailedCrawl | data/templestay.py:191-194 | a failed fetch, or a page without `div.place`, gives no data and no image |
| Detail.TagImages | data/templestay.py:343-344 | one image row per image url, tagged with the entry's id, in order |
| Detail.Tagged | data/templestay.py:343-344 | one `(id, url)` row per image url, in order |
| Detail.ProcessUrlBatch | data/templestay.py:322-350 | the batch loop emits exactly `UpdatesOf` and `ImageRowsOf` of its entries' crawl results |
| Detail.UpdatesMembership | data/templestay.py:331-340 | an entry has an update row, ending in its id, exactly when one of its six fields is truthy |
| Detail.ImageRowsMembership | data/templestay.py:343-344 | an image row is an image of an entry tagged with that entry's id, whether or not the entry has an update row |
| Detail.BatchRowsConcat | data/templestay.py:371-375 | the rows of consecutive batches are the rows of the batches' concatenation |
| Detail.BatchUpdates | data/templestay.py:322-350 | each work batch yields the update rows of its urls, in url order |
| Detail.BatchImages | data/templestay.py:322-350 | each work batch yields the image rows of its urls, in url order |
| Detail.RunDetails | data/templestay.py:352-393 | a batch size of 0 aborts the run; otherwise the results of the batches that did not raise are extended in completion order, and the bulk batches are their chunks of 100 update rows and of 200 image rows |
| Detail.RunDetailsRows | data/templestay.py:364-393 | in any completion order the rows are those of the urls of the batches that did not raise, each as often; in submission order they are exactly those rows in url order; with no batch dropped they come from every url |
| Detail.KeptRows | data/templestay.py:371-375 | the rows of the kept batches, concatenated, are the rows of their urls |
| Chunking.ChunksIsChunking | data/templestay.py:364 | the chunks concatenate back to the input, each chunk holds `n` items except a non-empty last one |
| Chunking.ChunkingUnique | data/templestay.py:382-383 | any such cutting is the chunking |
| Chunking.ChunksOfFull | data/templestay.py:382-383 | batches of exactly `n` items are their own chunking |
| Chunking.ChunksOfBatches | data/templestay.py:390-391 | full batches followed by a short one are their own chunking |
| Chunking.ChunksAfterFull | data/filter.py:128-140 | full batches in front stay batches of the chunking |
| Chunking.Range | data/templestay.py:367 | the submission order lists each batch index once, in order |
| Chunking.KeptFrom | data/templestay.py:371-377 | with no batch dropped, every batch is kept |
| Chunking.GatherConcat | data/templestay.py:371-375 | gathering distributes over a split of the completion order |
| Chunking.GatherRange | data/templestay.py:371-375 | in submission order the gathered results are the kept results, concatenated |
| Chunking.GatherAnyOrder | data/templestay.py:371-375 | any completion order gathers the same results, each as often, as submission order |
| Listing.TypeToBinarySpec | data/url_type.py:10-14 | a stripped type label gives the bit of its position and anything else 0 |
| Listing.TypeToBinaryStrips | data/url_type.py:40-41 | surrounding whitespace does not change the bit |
| Listing.ParseBuild | data/url_type.py:33-38 | the reserve url reads back as its sequence number and bookmark |
| Listing.BuildInjective | data/url_type.py:33-38 | different listings get different reserve urls |
| Listing.FirstMatch | data/url_type.py:46 | the search finds the leftmost position where the reserve call matches, or reports that none does |
| Listing.ReserveCallOfOnclick | data/url_type.py:45-49 | an onclick text `fncReserve('<digits>', '<word>')` yields its two arguments |
| Listing.MatchOnclick | data/url_type.py:46 | the pattern matches a well-formed reserve call at its start and yields its two arguments |
| Listing.ExtractUrlAndType | data/url_type.py:43-60 | the span loop computes `ListingOf`: no match gives `None`, and otherwise the reserve url, the OR of the span bits and the sequence number |
| Listing.SpanBitsBound | data/url_type.py:53-57 | the type bits stay below 8 |
| Listing.SpanBitsHasBit | data/url_type.py:53-57 | bit `k` is set exactly when some span carries label `k` |
| Listing.ListingUrlCarriesId | data/url_type.py:49-59 | the program id is the sequence number inside the listing's url |
| Upsert.ValidEntries | data/url_type.py:79 | the kept entries are exactly those with type bits above 0 |
| Upsert.WithType | data/url_type.py:98-102 | the upserted filter row has the new type and keeps its other columns, and a new row has only a type |
| Upsert.TypeMap | data/url_type.py:86 | the url-to-type map has distinct keys |
| Upsert.TypeMapGet | data/url_type.py:86 | the map holds exactly the entries' urls, each with the bits of its last entry |
| Upsert.LastBitsSpec | data/url_type.py:86 | the bits of a url are those of its last entry |
| Upsert.BatchInsertAndUpsert | data/url_type.py:72-109 | the call leaves the tables `UpsertOf` computes |
| Upsert.UpsertUnchanged | data/url_type.py:73-81 | an empty list, a list without a typed entry, or an error leaves the tables as they were |
| Upsert.InsertUrlEffect | data/url_type.py:84 | `INSERT IGNORE` keeps every record and id and gives the url an id |
| Upsert.InsertAllEffect | data/url_type.py:83-84 | inserting the urls keeps every record and known id and gives each url an id |
| Upsert.UpsertTypeEffect | data/url_type.py:97-102 | one upsert touches only the filter row of the url's id |
| Upsert.UpsertTypesAt | data/url_type.py:97-102 | the upsert loop gives the filter row of each mapped url's id that url's bits, keeps every other row and table, and keeps the schema's guarantees |
| Upsert.UpsertRecords | data/url_type.py:83-104 | a successful call keeps every record and known id, gives every typed url an id, and keeps the schema's guarantees |
| Upsert.UpsertFilterOfUrl | data/url_type.py:86-104 | a typed url's filter row gets the bits of its last entry and keeps its other columns, or is created with only a type |
| Upsert.UpsertOtherFilters | data/url_type.py:97-104 | the filter row of an id no typed url has is unchanged |
| Discovery.AcceptStepSpec | data/url_type.py:133-138 | a row is kept exactly when it matches, its url is not cached and its type is not 0, and the cache learns the url |
| Discovery.FlushSize | data/url_type.py:140 | a batch is flushed once it holds at least one row, so a size of 0 flushes every row |
| Discovery.UrlsOf | data/url_type.py:137-138 | the set holds exactly the urls of the kept listings |
| Discovery.KeepOpen | data/url_type.py:136-140 | a kept listing that leaves the batch short of the flush size joins it |
| Discovery.KeepFlush | data/url_type.py:136-144 | a kept listing that fills the batch turns it into one more flushed batch and empties it |
| Discovery.ScanCache | data/url_type.py:118-138 | the cache holds the initial urls and the url of every kept listing, and nothing else |
| Discovery.ScanFresh | data/url_type.py:133-138 | no url is kept twice, none of the initial cache is kept, and every kept listing has a type |
| Discovery.UpsertAllValid | data/url_type.py:141-152 | every flush keeps the schema's guarantees |
| Discovery.ProcessItem | data/url_type.py:133-144 | one row step keeps the batch below the flush size, the flushed batches full, and the store equal to the upserts of the flushed batches |
| Discovery.CrawlAndProcess | data/url_type.py:111-157 | the final cache is the scan's cache, the flushed batches are the chunks of the kept listings at the batch size, including the remainder, and the store holds their upserts in order |
| Encoders.ExtractActivitySpec | data/filter.py:60-67 | the activity mask is below 64, has bit `k` exactly when label `k` occurs in the schedule, and is 0 for a `NULL` or empty schedule |
| Encoders.ActivityBitsHasBit | data/filter.py:62-66 | after the first `n` labels, bit `k` is set exactly when `k < n` and label `k` occurs |
| Encoders.ActivityBitsBound | data/filter.py:62-66 | after the first `n` labels the mask is below `2^n` |
| Encoders.ExtractRegionSpec | data/filter.py:69-75 | only a non-empty whitespace-only address fails; otherwise the result is 0 or one bit below 2^17, that of the first region in map order inside the first word, and 0 when none is |
| Encoders.FirstRegion | data/filter.py:72-75 | the scan finds the first region label contained in the token, or reports that none is |
| Encoders.ExtractPriceSpec | data/filter.py:42-58 | no table, or no adult row followed by a row with a cell, gives 0; otherwise the price is the amount in the cell after the first adult row |
| Encoders.AdultRowFrom | data/filter.py:47-52 | the scan finds the first adult row at or after a position |
| Encoders.PriceValueOfAmount | data/filter.py:53-55 | a cell holding an amount with `원` reads back as the amount |
| FilterSync.Candidates | data/filter.py:81-88 | the query's rows are the records with a filter row holding a `NULL` price, activity or region |
| FilterSync.CandidatesSpec | data/filter.py:81-88 | the rows are exactly those records, in ascending id order |
| FilterSync.Selected | data/filter.py:85 | the kept ids are exactly those whose record has a filter row with a `NULL` |
| FilterSync.SelectedAscending | data/filter.py:86 | filtering keeps ascending ids ascending |
| FilterSync.Outcomes | data/filter.py:97-126 | there is one outcome per row, each the outcome of that row |
| FilterSync.RowOutcomeSpec | data/filter.py:106-126 | a failed fetch skips the row; a whitespace-only address fails the run; otherwise the row is staged exactly when a recomputed value differs from the stored one, with the recomputed values and the id |
| FilterSync.SelectedRowIsStaged | data/filter.py:118-123 | a `NULL` never equals a recomputed value, so every selected row whose page loads and whose address has a word is staged |
| FilterSync.OutcomesSpec | data/filter.py:97-123 | staged tuples carry the ids of their rows, in ascending order |
| FilterSync.StagedAreOutcomes | data/filter.py:118-123 | every staged tuple is the outcome of a row |
| FilterSync.StagedAscend | data/filter.py:97-123 | the staged tuples are in row order, so their ids ascend |
| FilterSync.StagedComplete | data/filter.py:97-123 | with no failure, every row that stages a tuple has it in the staged list |
| FilterSync.SetFiltersEffect | data/filter.py:130-136 | the writes change only the price, activity and region of the staged ids' filter rows |
| FilterSync.FlushCount | data/filter.py:128-160 | the writes that commit are those before the first failing one |
| FilterSync.FlushesAfterFull | data/filter.py:128-140 | full batches that were flushed stay batches of the run |
| FilterSync.ShortBatchDropped | data/filter.py:144-160 | after a failure, a staged remainder shorter than a batch is never written |
| FilterSync.BatchUpdateFilter | data/filter.py:77-163 | the run ends as `RunEnds` says: the store holds the batches committed before the first failure, `NothingToDo` exactly when the query has no row, `Done` with the number of staged rows exactly when nothing failed |
| FilterSync.ProcessRow | data/filter.py:97-142 | one row step keeps the batch below 100, the flushed batches full, and the store equal to the committed batches |
| FilterSync.Finish | data/filter.py:144-160 | the remainder flush ends the run as `RunEnds` says |
| FilterSync.WriteBatch | data/filter.py:128-140 | a full batch that commits becomes one more flushed batch, and the store gains its writes |
| FilterSync.FailedRow | data/filter.py:116 | a row whose address fails ends the run, keeping only the committed batches |
| FilterSync.FailedWrite | data/filter.py:128-140 | a flush that fails ends the run, keeping only the earlier batches |
| FilterSync.RemainderBatches | data/filter.py:144-155 | a non-empty remainder is the last batch of the run |
| FilterSync.RemainderWritten | data/filter.py:144-157 | a remainder that commits ends the run with `Done` and every staged row written |
| FilterSync.RemainderFails | data/filter.py:144-161 | a remainder whose write fails ends the run, keeping only the committed batches |
| FilterSync.NoRemainder | data/filter.py:144-157 | with nothing left over, the run ends with `Done` and the count of the flushed rows |
| FilterSync.RunStartsWith | data/filter.py:128-140 | the flushes made so far are a prefix of the run's flushes |
| FilterSync.DoneWritesAll | data/filter.py:144-157 | a run that reports `Done` has written everything it staged |
| FilterSync.DoneState | data/filter.py:97-157 | a `Done` run wrote the staged tuples, whose ids are distinct |
| FilterSync.DoneFrame | data/filter.py:130-136 | a `Done` run changes only the filter table, and none of its keys |
| FilterSync.DoneUpdatesSelected | data/filter.py:97-157 | a `Done` run gives every staged row its recomputed price, activity and region |
| FilterSync.DoneLeavesOthers | data/filter.py:97-157 | a `Done` run leaves every other filter row as it was |
| FilterSync.StagedWritten | data/filter.py:130-136 | a staged row gets its tuple's price, activity and region |
| FilterSync.UnstagedKept | data/filter.py:130-136 | a row whose id is not staged is kept |
| Amenity.NormalizeIsCanon | data/etc.py:27-34 | `normalize` equals an independent one-pass definition: a non-string gives `""`, and otherwise all whitespace is dropped and full-width parentheses become ASCII |
| Amenity.NormalizeSpec | data/etc.py:27-34 | the result holds no whitespace, including no no-break space, and no full-width parenthesis |
| Amenity.NormalizeIdempotent | data/etc.py:27-34 | normalising twice is normalising once |
| Amenity.ReplaceParens | data/etc.py:32 | the two `replace` calls turn every full-width parenthesis into its ASCII form |
| Amenity.NamedIds | data/etc.py:38-39 | the query's rows are the records with a non-`NULL` name, each with its name |
| Amenity.KeyRows | data/etc.py:41-42 | each `(id, name)` row is keyed by its normalised name, in order |
| Amenity.KeyRowOf | data/etc.py:38-43 | a keyed row comes from a named record, with that record's normalised name |
| Amenity.LoadTempleNameToIds | data/etc.py:36-44 | the loop builds `NameIndex` of the rows |
| Amenity.NameIndexSpec | data/etc.py:36-44 | the index has an entry exactly for the normalised names that occur, and each entry lists the ids of all rows with that name, in row order |
| Amenity.IdsWithKey | data/etc.py:42-43 | an id is in an entry exactly when a row with that id has that normalised name |
| Amenity.IdsWithKeyAscending | data/etc.py:36-44 | with rows in id order, each entry lists its ids ascending, so each id once |
| Amenity.CellBitsAdditive | data/etc.py:51-56 | the bits are a sum over the comma-separated tokens, not an OR: two cells joined by a comma add up |
| Amenity.CellOfTokens | data/etc.py:51-56 | a cell of comma-free tokens has the sum of the tokens' bits |
| Amenity.LabelCell | data/etc.py:6-10 | a cell holding exactly one label has that label's bits |
| Amenity.RepeatedLabel | data/etc.py:51-56 | a label listed twice counts twice |
| Amenity.GroupNames | data/etc.py:50 | the group names are the distinct CSV keys, sorted |
| Amenity.GroupsSpec | data/etc.py:46-58 | there is one group per distinct normalised CSV name, in ascending name order, holding the sum of its rows' cell bits |
| Amenity.StrLessTotal | data/etc.py:50 | two different names are ordered one way or the other |
| Amenity.StrLessTransitive | data/etc.py:50 | the name order is transitive |
| Amenity.InsertName | data/etc.py:50 | inserting a name adds it and keeps the names sorted |
| Amenity.CsvKeys | data/etc.py:47 | one normalised key per CSV row, in order |
| Amenity.Groups | data/etc.py:46-58 | one group per sorted distinct name, with that name's summed bits |
| Amenity.PairsSpec | data/etc.py:85-91 | a pair is an id of a group's name with that group's bit; a name missing from the index yields no pair |
| Amenity.ExpandPairs | data/etc.py:85-91 | the nested loops compute `Pairs`: the groups in order, each with the ids of its entry in order |
| Amenity.GenerateCaseUpdateSql | data/etc.py:60-72 | the builder returns `CaseUpdateSql`: one `WHEN` line per pair in input order, then the `IN` list of their ids |
| Amenity.CaseLines | data/etc.py:63-64 | one `WHEN` line per pair, in order |
| Amenity.IdTexts | data/etc.py:65 | one decimal id per pair, in order |
| Amenity.CaseLineHasNoNewline | data/etc.py:64-66 | a `WHEN` line holds no line break |
| Amenity.JoinCommaSpace | data/etc.py:67 | joining with `", "` is joining with `","` after padding every piece but the first with a space |
| Amenity.CaseLineRoundTrip | data/etc.py:64 | every `WHEN` line reads back as its id and bit |
| Amenity.CaseBlockRoundTrip | data/etc.py:64-66 | the `CASE` block splits at line breaks into one line per pair, in order, each reading back as its pair |
| Amenity.InListRoundTrip | data/etc.py:65-67 | the `IN` list splits at its commas into one piece per pair, in order, each reading back with `int` as the pair's id |
| Amenity.CaseValue | data/etc.py:66 | the `CASE` gives a row the bit of a pair for its id, and no value when no pair names it |
| Amenity.SyncEtc | data/etc.py:81-105 | SQL is issued exactly when there are pairs, and it is `CaseUpdateSql` of them; the tables end as `EtcEffect` says |
| Amenity.PairOfId | data/etc.py:85-91 | every pair for an id carries the group bit of that record's normalised name |
| Amenity.PairOfMatched | data/etc.py:85-91 | a record whose normalised name is a CSV group gets a pair with that group's bit |
| Amenity.EtcEffectSpec | data/etc.py:81-105 | a filter row whose record's normalised name is a CSV group gets that group's bit in `etc`; every other row and table is kept, and a failure changes nothing |
| Reconcile.RemovedIds | data/remove_url.py:35-38 | a row is listed exactly when its url is not current |
| Reconcile.UrlRows | data/remove_url.py:32-33 | one `(id, url)` row per record, in id order |
| Reconcile.RemovedIdsAscending | data/remove_url.py:32-38 | rows in id order list the stale ids in ascending order, each once |
| Reconcile.RemovedIdsSpec | data/remove_url.py:32-38 | the stale ids are exactly the records whose url is not current, in id order |
| Reconcile.DeleteRemovedUrls | data/remove_url.py:29-55 | the stale ids are computed; the filter rows are deleted first, then the records; a failure rolls both back; the schema's guarantees hold afterwards |
| Reconcile.DeleteOrderKeepsSchema | data/remove_url.py:44-45 | deleting filter rows first keeps every filter row's record after each statement, and deleting records first would break that exactly when a stale record has a filter row |
| Reconcile.ReconcileEffectSpec | data/remove_url.py:29-55 | without failure exactly the current records and their filter rows remain, unchanged; images and the id counter are never touched; nothing stale, or a failure, leaves the tables as they were |
| Text.Strip | data/etc.py:30 | `str.strip`: the result has no surrounding whitespace, is empty exactly for an all-whitespace string, and leaves a stripped string alone |
| Text.Split | data/etc.py:54 | `split` gives at least one piece, none holding the separator, all made of the input's characters |
| Text.SplitLines | data/templestay.py:174 | `splitlines` gives pieces without line breaks, made of the input's characters |
| Text.RemoveChar | data/templestay.py:137 | `replace(c, "")` leaves no `c` and no new character, and changes nothing without a `c` |
| Text.ReplaceChar | data/etc.py:32 | `replace(a, b)` swaps every `a` for `b` and keeps every other character in place |
| Text.RemoveSpaces | data/etc.py:31 | dropping all whitespace leaves none and no new character, and is the identity on a string without whitespace |
| Text.ToDecimal | data/etc.py:64-65 | a number's decimal text is a non-empty digit string |
| Text.SplitJoin | data/etc.py:54 | splitting a join of separator-free parts gives the parts back |
| Text.JoinSplit | data/etc.py:54 | joining the pieces of a split gives the string back |
| Text.SplitOnce | data/templestay.py:212 | `split(',', 1)` gives two parts exactly when there is a comma, and they rejoin to the text |
| Text.SplitLast | data/templestay.py:90 | the last piece of `split(sep)` is what follows the last separator |
| Text.FirstWord | data/filter.py:73 | the first word of `split()` is the run of non-space characters after the leading whitespace, ending at whitespace or the end |
| Text.Words | data/filter.py:73 | `split()` gives no word exactly for an all-whitespace string |
| Text.ParseInt | data/filter.py:53-57 | `int` succeeds exactly when the stripped text is a non-empty digit string |
| Text.ParseToDecimal | data/etc.py:64-65 | a number's decimal text reads back as the number |

## Left out

- Network and browser I/O are parameters: Selenium, `requests`, timeouts and `time.sleep`. A fetch is a function from url to a loaded page or a failure.
- BeautifulSoup parsing is not modelled. Each page is given as the sequences its traversal yields.
- Only the reserve-call pattern is modelled, as a hand-written matcher. The phone-shape pattern of `templestay.py:218` is a predicate over the text, and the regex engine itself is left out.
- Database connections, the connection pool, cursors and `rowcount` are left out. An error is a boolean, or a function of the batch number, and it rolls back the open transaction.
- Queries without `ORDER BY` are modelled as scans in ascending id order.
- Detail.RunDetails: the completion order of the thread pool and the set of batches whose future raises are parameters, not derived from timing or from driver start-up; the worker count and concurrent execution are left out.
- `update_templestay_batch` and `insert_images_batch` are not applied to the tables. The model stops at the bulk batches handed to them.
- `fetch_urls_from_db` is a parameter of `Detail.RunDetails`.
- The url cache file (`pickle`), YAML configuration, the pandas CSV read and all logging and prints are left out. The cache is a set passed in and returned, and the CSV is a sequence of rows.
- Schedule.ParseSchedule: returns the ordered day/time/activity structure, not the bytes of `json.dumps`.
- Text.ParseInt: accepts only ASCII digit strings after stripping. It leaves out Python `int`'s signs, underscores and non-ASCII digits.
- Amenity.CaseValue: the SQL text is not interpreted by a SQL engine. The model gives the statement its meaning with `ApplyCase`, and proves the text reads back as its pairs.
- The `lru_cache` on `extract_phone_number` has no effect on results and is left out.
- `\s` in `normalize` and `str.split()` follow Python's whitespace set as listed in `Text.IsSpace`.
- `\d` and `\w` in the patterns are ASCII-only in the model.

## Where the code decides

- `remove_url.py` deletes only `filter` and `templestay` rows. The `image` rows of deleted records stay, in the code and in the model.
- `parse_program_schedule` returns the JSON of a possibly empty dict. A table with only a header row therefore gives a truthy `"{}"`, and such a result still makes an update row.
- `extract_region` does not guard a whitespace-only address. `split()[0]` raises there, and in `batch_update_filter` the error ends the run and rolls back the open batch. The model makes this an error result rather than a precondition.
- A stored `NULL` never equals a recomputed value. So every selected row whose page loads and whose address has a word is staged, even when the values were already right.
