# Web crawler bookkeeping, modelled in Dafny

This project models the crawl bookkeeping of the `WebCrawler` class in
`main.py`, a Tk desktop crawler that keeps its links in an SQLite table
`crawler_data` (`CrawlerInfo` records `{id, link, crawled}`, `models.py`).
While crawling is on, the dispatcher thread repeats one cycle:

1. Mark the ids recorded in the previous cycle as crawled.
2. Claim up to 200 uncrawled records.
3. Split the claimed batch into chunks, one per worker.
4. Save the links the workers found as new uncrawled records.

The model runs sequentially:

- The database table is a sequence of records in row-id order (`LinkTable`).
  A `LinkTable.Record` is one `CrawlerInfo` row of `models.py:7-12`: its
  integer primary key `id`, its `link` text and its `crawled` flag.
- Fetching a URL and parsing its HTML are an input function. It maps a link to
  a `LinkFilter.FetchOutcome`: a response with its status and the `href`s of
  its anchors (`main.py:345-350`), or a request error (`main.py:354`).
- The worker threads run one chunk after the other.
- The user's Stop button is an input for each cycle. It says before which URL
  checkpoint of the cycle Stop is pressed.

What the `WebCrawler` fields hold:

| Field | Holds |
|---|---|
| `table` | the in-memory table |
| `nextId` | the id the next insert gets |
| `urlsToCrawl` | the claimed batch |
| `newLinks` | the links found and not yet saved |
| `crawledIds` | the ids the workers reached, not yet flushed |
| `inProgressIds` | every claimed id |
| `totalNewLinksFound` | the running count of saved links |
| `crawlingMode` | the crawling flag |

`Crawler.CrawlState` holds the same eight fields as one value. The
dispatcher is specified as a run: the states before each cycle and after the
last one, each consecutive pair related by `Crawler.CycleStep`, the whole
effect of one cycle.

What is proved:

- **The chunking loop of `run_crawlers`.** All chunks have the same length,
  `max(1, ceil(n / t))`. There are at most `t` chunks. Glued together they are
  a prefix of the batch, and what is left over is shorter than one chunk. The
  float test is equivalent to integer cross-multiplication.
- **The worker (`extract_links_from_urls`).**
  - The flag is checked before every URL.
  - Links are kept only from status-200 responses.
  - A link is kept exactly when it contains `http://` or `https://` anywhere,
    and it is stored after `strip()`.
  - The id of every URL reached is recorded, whatever the fetch outcome.
- **The table operations.**
  - The mark update sets exactly the listed ids, never un-crawls a row, and is
    idempotent.
  - The claim query returns at most 200 uncrawled rows, and all of them when
    there are fewer.
  - The bulk insert appends one fresh uncrawled row per link.
- **The dispatcher.**
  - The flush of crawled ids is deferred by one cycle.
  - The table only grows.
  - The dispatcher stops exactly after the first cycle in which the user
    presses Stop or the thread-count entry is not an integer.

Points where the code behaves differently from what a reader might expect:

- **Chunks.** The loop at `main.py:317-326` never emits a trailing partial
  chunk. The URLs after the last full chunk are not crawled in that cycle,
  and `urls_to_crawl` is cleared all the same.
  - `Chunking.Chunks` is what the loop does.
  - `Chunking.CeilChunks` is the partition that also covers the remainder.
  - `ChunksMatchCeilIffCovering` and `ChunksMatchCeilOnMultiple` say when the
    two agree.
  - `TenOnFourDropsOne` shows an input (ten URLs, four threads) where they
    differ.
- **Deferred flush.** The ids a worker records in one cycle are written to
  the table only by `mark_urls_as_crawled` at the start of the NEXT cycle, or
  at the next start after a stop. Right after the cycle that reached them,
  those rows are still uncrawled.
  - `CycleStep` makes the ids a cycle's workers reach the recorded ids of the
    next state, and writes back only the ids recorded before it.
  - `CrawlerDispatcher` and `StartCrawling` return the run they went through,
    from the state they started in to the current one.
  - `CycleStepFacts` and `LastCycle` give `Unflushed` after the last cycle.
    The table still begins with that cycle's updated table, and the batch
    ends with its claim.
  - `UnflushedClaimUncrawled` shows that every record claimed in that cycle
    is still an uncrawled row.
- **Invalid thread count.** An entry that is not an integer stops crawling and
  returns without clearing `urls_to_crawl`. The save still runs, and at the
  next start the old batch is claimed again and appended.
- **`in_progress_ids`.** It only ever grows and is never used as a filter for
  the claim.
- **Duplicate links.** The link column has no uniqueness constraint, so a link
  found again in a later cycle becomes another row.
- **Whitespace.** `int()` skips only tab, line feed, vertical tab, form feed,
  carriage return and space around the number. `strip()` also removes the
  separators 0x1C-0x1F. An entry of 0x1C followed by `4` therefore takes the
  `ValueError` path (`ParseIntRejectsSeparator`).
- **Digit limit.** Since the fix for CVE-2020-10735, `int()` refuses a
  base-10 string of more than 4300 digits, with underscores not counted, by
  raising `ValueError`. The fix is in Python 3.11 and was backported to
  3.10.7, 3.9.14, 3.8.14 and 3.7.14. Such an entry takes the stop path at `main.py:312-315`
  (`ParseIntDigitLimit`, `ParseIntOfNatToString`).

## Model

| member | source | states |
|---|---|---|
| LinkTable.MarkCrawled | main.py:276-281 | the update keeps the number of rows; `MarkCrawledRows` gives it row by row |
| LinkTable.MarkCrawledRows | main.py:273-283 | the update sets `crawled` exactly on the rows whose id is listed; ids and links are unchanged and no row becomes uncrawled |
| LinkTable.MarkCrawledNothing | main.py:274 | with no recorded ids the table is unchanged |
| LinkTable.MarkCrawledIdempotent | main.py:276-281 | running the update twice with the same ids gives the table of running it once |
| LinkTable.MarkCrawledKeepsIds | main.py:276-281 | the update keeps the set of row ids, their order and the next row id |
| LinkTable.Uncrawled | main.py:301 | the rows passing the `crawled == False` filter, in scan order, no more than the table holds |
| LinkTable.SelectUncrawled | main.py:301-302 | the claim query returns at most `limit` rows; `SelectUncrawledRows` and `SelectIsFirstUncrawled` say which |
| LinkTable.UncrawledRows | main.py:301 | the rows the `crawled == False` filter passes are exactly the table's uncrawled rows |
| LinkTable.SelectUncrawledRows | main.py:301-302 | every claimed row is an uncrawled row of the table, and when fewer than the limit come back, every uncrawled row is among them |
| LinkTable.SelectIsFirstUncrawled | main.py:301-302 | the claim is the first `limit` uncrawled rows in scan order, or all of them when there are fewer |
| LinkTable.SelectUncrawledIds | main.py:301-305 | claimed ids are ids of the table |
| LinkTable.IdsIncreasingAt | models.py:10 | in a table kept in row-id order, an earlier row has a smaller id, so ids are unique |
| LinkTable.NextRowId | models.py:10 | the row id the next insert gets: one past the last row's, or 1 for an empty table; `NextRowIdAbove` relates it to every row |
| LinkTable.NextRowIdAbove | models.py:10 | the id the next insert gets is above every id in the table |
| LinkTable.AppendNextRow | main.py:158 | a row inserted with the next id keeps the ids in order and adds exactly its id |
| LinkTable.InsertOneMore | main.py:154-158 | inserting one more link with the next consecutive id extends a partial bulk insert by that link |
| LinkTable.InsertedAsNew | main.py:289-291 | the rows a bulk insert appends: one uncrawled row per link with consecutive ids from the first fresh one, after the unchanged existing rows |
| LinkTable.InsertStep | main.py:289-291 | one step of the insert loop keeps the insert's progress invariant |
| LinkTable.InsertedLinksDistinct | main.py:289-291 | the rows inserted from a set hold each link exactly once |
| LinkTable.RepeatedLinkShrinks | models.py:11 | rows with a repeated link have fewer distinct links than rows |
| LinkTable.GrowsTransitive | main.py:265-269 | keeping the existing rows composes over successive steps |
| Text.Strip | main.py:353 | `strip()` never lengthens the text; `StripShape` says which part it keeps |
| Text.StripShape | main.py:353 | `strip()` gives the piece of the text between its leading and trailing whitespace; it neither starts nor ends with whitespace |
| Text.LeadingSpaceShape | main.py:353 | the counted leading characters are whitespace and the next one is not |
| Text.TrailingSpaceShape | main.py:353 | the counted trailing characters are whitespace and the one before them is not |
| Text.StripUnpadded | main.py:353 | a text without surrounding whitespace is its own strip |
| Text.StripIdempotent | main.py:353 | stripping twice is stripping once |
| Text.FindIndex | main.py:352 | a found position is an occurrence of the pattern, and no earlier position is |
| Text.Contains | main.py:352 | the `in` test: some position of `s` starts an occurrence of `p`; `FindIndex` and `OccurrenceContains` are its two directions |
| Text.OccurrenceContains | main.py:352 | any occurrence of the pattern makes the `in` test true |
| Text.ContainsFirstChar | main.py:352 | a text containing the pattern contains its first character |
| Text.StripKeepsOccurrence | main.py:352-353 | stripping keeps every occurrence of a pattern without whitespace |
| Text.OccurrenceInsideMargins | main.py:352-353 | an occurrence of a whitespace-free pattern lies inside the stripped part |
| Text.LineContent | main.py:174 | `x.split("\n")[0]` is the prefix of `x` before its first line feed, and contains none |
| Text.LineContentOfLine | main.py:173-174 | a line read with or without its terminator gives back exactly its text |
| Text.ParseInt | main.py:311-312 | `int()` of the entry: `int()` whitespace, an optional sign and well-formed digits, at most 4300 of them, give the number; anything else is the `ValueError` path; the lemmas below state its cases |
| Text.DigitCount | main.py:311 | the number of digits `int()` counts against its limit, underscores excluded, never more than the text's length |
| Text.DigitCountOfDigits | main.py:311 | in a text of plain digits every character counts |
| Text.ConvertibleDigits | main.py:311-312 | the digits `int()` converts: well formed and at most 4300 of them |
| Text.ParseIntDigitLimit | main.py:311-312 | a string of plain digits converts exactly when it has at most 4300 digits, leading zeros included, and then to its value |
| Text.TrimIntSpace | main.py:311 | the whitespace `int()` skips is removed at both ends and the text is never lengthened; `TrimIntSpaceShape` says which part is kept |
| Text.TrimIntSpaceShape | main.py:311 | the trimmed entry is the part after the leading `int()` whitespace, surrounded only by such whitespace and neither starting nor ending with it |
| Text.DigitsValueOfNatToString | main.py:311 | the digits of a number have that value |
| Text.ParseIntOfNatToString | main.py:311-312 | `int(str(n)) == n` for every natural number of at most 4300 digits, and a longer one takes the `ValueError` path |
| Text.ParseIntPadded | main.py:311 | surrounding whitespace is accepted by `int()` |
| Text.ParseIntRejects | main.py:311-312 | an empty entry and a decimal fraction take the `ValueError` path |
| Text.ParseIntRejectsSeparator | main.py:311-312 | an entry of 0x1C then `4` takes the `ValueError` path although `strip()` would leave `4` |
| Text.ParseIntUnderscore | main.py:311 | single underscores between digits are accepted |
| LinkFilter.IsAbsoluteLooking | main.py:352 | the test `"http://" in link or "https://" in link` |
| LinkFilter.KeptLinks | main.py:351-353 | the trims of the `href`s that pass the test; `KeptLinksAppend` and `KeptLinksAbsolute` state its meaning |
| LinkFilter.PageLinks | main.py:346-353 | a 200 response yields its kept links, any other outcome none |
| LinkFilter.LinksFound | main.py:341-357 | the links found over a sequence of URLs; `LinksFoundExactly` characterises it |
| LinkFilter.KeptLinksAppend | main.py:351-353 | filtering one more `href` adds its trim exactly when it contains `http://` or `https://` |
| LinkFilter.KeptLinksAbsolute | main.py:352-353 | every kept link still contains `http://` or `https://` after the trim |
| LinkFilter.KeptLinksOfFirst | main.py:351-353 | when only the first of three `href`s looks absolute, only its trim is kept |
| LinkFilter.KeptLinksExample | main.py:350-353 | `https://example.com/x`, `/relative`, `mailto:foo@bar` keep exactly the first |
| LinkFilter.NonWebLinksDropped | main.py:352 | a relative link and a `mailto:` link are dropped |
| LinkFilter.NoLetterH | main.py:352 | an `href` without the letter `h` is dropped |
| LinkFilter.LinksFoundExactly | main.py:344-353 | a link is found exactly when some URL's 200 response has an absolute-looking `href` that trims to it |
| LinkFilter.LinksFoundAppend | main.py:341-357 | going through two stretches of URLs finds the links of both |
| LinkFilter.FailureIsolated | main.py:344-355 | a request error or a non-200 status adds no links and leaves the next URL's links unaffected |
| Chunking.ReachedChunkMax | main.py:317-322 | the test `len(temp) >= len(urls) / max_threads` on exact reals; `ReachedChunkMaxIff` turns it into integers |
| Chunking.ChunkSize | main.py:317-322 | the length at which the test first passes; `ChunkSizeCovers` and `ChunkSizeLeast` characterise it |
| Chunking.ReachedChunkMaxIff | main.py:317-322 | the float test `len(temp) >= n / t` is `len(temp) * t >= n` for `t >= 1` |
| Chunking.ChunkSizeCovers | main.py:317-322 | the chunk length is the least positive `k` with `k * t >= n`, and at most `n` for a non-empty batch |
| Chunking.ChunkSizeLeast | main.py:317-322 | no smaller positive length passes the test |
| Chunking.ReachedChunkMaxAtSize | main.py:320-324 | while `temp` is no longer than a chunk, the test passes exactly at the chunk length |
| Chunking.TakeChunksShape | main.py:318-326 | at most the budget of chunks, each of length `k`, glued into a prefix; fewer than `k` left unless the budget runs out |
| Chunking.ChunksShape | main.py:317-328 | at most `t` equal chunks of `ChunkSize`, glued into a prefix of the batch with less than a chunk left over and nothing left when there are `t`; no chunks exactly for an empty batch |
| Chunking.Chunks | main.py:317-326 | the chunks the loop emits; `ChunksShape` states their shape and `SplitIntoChunks` is the loop proved equal to it |
| Chunking.EmitStep | main.py:322-324 | emitting the full `temp` moves one chunk from the chunks still to come to the emitted ones |
| Chunking.SplitIntoChunks | main.py:317-326 | the loop produces exactly `Chunks(urls, maxThreads)` |
| Chunking.CeilChunks | main.py:317-326 | the remainder-absorbing partition: non-empty chunks of at most `k` that glue back to the whole batch |
| Chunking.TakeChunksCoveringIsCeil | main.py:317-326 | chunks that cover the whole batch are the remainder-absorbing partition |
| Chunking.ChunksMatchCeilIffCovering | main.py:317-326 | the loop's chunks are the remainder-absorbing partition exactly when they cover the batch |
| Chunking.ChunksMatchCeilOnMultiple | main.py:317-326 | when the batch length is a multiple of the chunk length, nothing is dropped and the two partitions agree |
| Chunking.TenOnFourDropsOne | main.py:317-326 | ten URLs on four threads give three chunks of three and the tenth URL is not handed out |
| Crawler.Reached | main.py:341-343 | the URLs a worker gets to, never more than it was given; `ReachedShape` says which |
| Crawler.ModeAfter | main.py:341-343 | whether the flag is still on after a worker goes through its URLs: on exactly when it was on and no stop lands among them; `ReachedAppend` relates it across stretches |
| Crawler.ReachedShape | main.py:341-343 | a worker reaches a prefix of its URLs: all with no stop, those before the stop, none when crawling is off |
| Crawler.ReachedAppend | main.py:329-334 | going through two stretches reaches what going through both reaches, the stop index shifted |
| Crawler.ReachedNextChunk | main.py:329-334 | adding one chunk adds the ids and links its worker reaches and carries the flag on |
| Crawler.CycleReached | main.py:317-343 | the URLs a cycle's workers reach: those the flag check lets through in the glued chunks, none for a non-integer entry; `CycleReachedShape` says which |
| Crawler.CycleModeAfter | main.py:310-343 | the flag after a cycle's workers: off for a non-integer entry, otherwise as the workers leave it |
| Crawler.EnvReached | main.py:317-343 | the URLs a cycle's workers reach under that cycle's entry and Stop |
| Crawler.CycleReachedShape | main.py:317-338 | a cycle's workers reach a prefix of the batch and record only its ids; without a stop they reach every chunk |
| Crawler.CycleReachesAll | main.py:317-334 | without a stop and with a batch length a multiple of the chunk length, the workers reach the whole batch |
| Crawler.SomeEndsIff | main.py:265 | the recursive check used by the dispatcher's loop invariant is the same as some cycle ending crawling |
| Crawler.EndsCrawling | main.py:310-315 | a cycle ends the loop exactly when Stop is pressed during it or the entry is not an integer |
| Crawler.CyclesUntilEndStep | main.py:265-269 | one more cycle counts one, and unless it ends crawling a later cycle still does |
| Crawler.CyclesUntilEndIsFirst | main.py:265-269 | the cycle count is that of the first cycle that ends crawling, and no earlier cycle ends it |
| Crawler.InsertKeepsIds | main.py:289-292 | a bulk insert keeps every id already in the table |
| Crawler.CycleRows | main.py:265-269 | after mark-then-insert, old rows keep id and link and are crawled exactly when they were or their id was recorded in the previous cycle |
| Crawler.Unflushed | main.py:264-283 | what a cycle leaves before the next flush: the batch ends with the claim from the updated table, and the table still begins with that updated table |
| Crawler.UnflushedClaimUncrawled | main.py:264-283 | before the next flush every record claimed in the last cycle is still an uncrawled row of the table |
| Crawler.UnflushedAfterInsert | main.py:266-269 | appending the claim to the batch and then a bulk insert after the updated table leave the cycle unflushed |
| Crawler.CycleStep | main.py:265-269 | the whole effect of one cycle on the crawler state: the recorded ids are written back and records claimed from the updated table; the ids the workers reach become the recorded ids; the found and pending links become uncrawled rows with consecutive ids after the updated table; the batch is emptied unless the entry is not an integer; the claim joins `inProgressIds`; the count moves on by the links saved; the flag is off exactly when the cycle ends crawling |
| Crawler.CycleStepFacts | main.py:265-269 | after one cycle the table still begins with its updated table and the batch ends with its claim, whose ids are in progress; rows are only added or marked, claimed ids only added, and the count moves on by the rows added |
| Crawler.IsRun | main.py:264-269 | a run of `n` cycles: `n + 1` states, the crawler before each cycle and after the last, each cycle a `CycleStep` with its environment |
| Crawler.RunFacts | main.py:264-269 | over a whole run rows are only added or marked, claimed ids only added, and the count moves on by the rows added |
| Crawler.LastCycle | main.py:264-269 | after the last cycle of a run the new links are saved, the recorded ids are those its workers reached from its batch and are not yet flushed into the table, the claim's ids are in progress, and the batch is kept only when its entry was not an integer |
| Crawler.RunExtend | main.py:264-269 | a run followed by one more `CycleStep` is a run one cycle longer |
| Crawler.WebCrawler.constructor | main.py:19-30 | a fresh crawler: empty batch, sets and count, crawling flag on |
| Crawler.WebCrawler.StartCrawling | main.py:243-255 | turns the flag on and runs the dispatcher up to and including the first cycle that ends crawling; returns the run it went through, from the state with the flag on to the current state, each cycle a `CycleStep`; so afterwards the new links are saved, the ids the last cycle reached from its batch are still recorded and not flushed (the table still begins with that cycle's updated table, the batch ends with its claim, and the claimed ids are in progress), the batch is kept only when that cycle's entry was not an integer, the table only grows, `inProgressIds` only grows and the count moves on by the number of rows added |
| Crawler.WebCrawler.StopCrawling | main.py:256-263 | the flag is off |
| Crawler.WebCrawler.CrawlerDispatcher | main.py:264-271 | runs no cycle when the flag is off, otherwise exactly `CyclesUntilEnd(envs)` cycles, and ends with the flag off and the table in row-id order; returns the run it went through, from the state on entry to the current one, each cycle a `CycleStep` |
| Crawler.WebCrawler.NextCycle | main.py:265-269 | one pass of the loop body is a `CycleStep` from the state before it to the state after it |
| Crawler.WebCrawler.DispatchCycle | main.py:265-269 | one cycle: the table becomes the update over the ids recorded in the PREVIOUS cycle followed by one new uncrawled row per found link, so old rows are crawled exactly when they were or their id was recorded then; the batch is the old batch plus the claim from the updated table, and the claim's ids join the claimed ids; the recorded ids become exactly those of the URLs the workers reach, all of them claimed; the batch is emptied unless the entry is not an integer; the count moves on by the saved links; the flag is off exactly when the cycle ends crawling |
| Crawler.WebCrawler.MarkAndClaim | main.py:266-267 | the update over the recorded ids, which are cleared, then the claim from the updated table appended to the batch and its ids to the claimed ids |
| Crawler.WebCrawler.RunAndSave | main.py:268-269 | run then save: the ids of the URLs the workers reach are recorded, the batch is emptied unless the entry is not an integer, the pending and found links become new uncrawled rows after the existing ones, the count moves on by their number, and the flag is off exactly when the cycle ends crawling |
| Crawler.WebCrawler.MarkUrlsAsCrawled | main.py:273-283 | the table is the update over the recorded ids, which are then cleared; nothing changes with no ids |
| Crawler.WebCrawler.GetUrlsToCrawlFromDb | main.py:297-305 | the claim is appended to the batch and its ids added to the claimed ids |
| Crawler.WebCrawler.ClaimResult | main.py:303-305 | the loop appends every row of the result in order and adds each id |
| Crawler.WebCrawler.RunCrawlers | main.py:307-338 | a non-integer entry turns the flag off and keeps the batch; otherwise the batch is cleared, ids and links of the URLs the workers reach are added, and the flag is as the workers leave it |
| Crawler.WebCrawler.RunChunks | main.py:328-334 | the chunks' workers together record the ids and find the links of the URLs reached in the glued chunks |
| Crawler.WebCrawler.ExtractLinksFromUrls | main.py:340-357 | the ids of the URLs reached are recorded and the links of their 200 responses added; the flag is off exactly when a stop lands among the URLs |
| Crawler.WebCrawler.CollectLinks | main.py:350-353 | the anchor loop adds the trim of every absolute-looking `href` |
| Crawler.WebCrawler.SaveNewLinksToDb | main.py:285-295 | one new uncrawled row per new link with consecutive fresh ids, the count moves on by their number, the new links are cleared |
| Crawler.WebCrawler.ImportToDb | main.py:152-160 | one new uncrawled row per link with consecutive fresh ids; nothing for an empty set |
| Crawler.WebCrawler.ImportFileLines | main.py:171-175 | the set of the file's lines, each without its line feed, is imported |
| Crawler.WebCrawler.InsertLinks | main.py:154-159 | the bulk insert appends exactly one uncrawled row per link with consecutive ids from the next id |

## Left out

- The Tk GUI is left out: the window, labels, buttons, dialogs, `window.update`, the statistics polling and the status texts (`main.py:32-150`, and the `current_state` lines). They are presentation only.
- The database engine, sessions and SQLite path handling (`main.py:209-241`) are left out. They are replaced by the in-memory table.
- SQL row order is modelled as row-id scan order. The claim returns the first 200 uncrawled rows. New rows get the row id after the last row's.
- Reading files, choosing them in dialogs, and the export of host names (`main.py:162-170` and `main.py:178-207`) are left out. Each is I/O or depends on `urlparse`. The model takes the list `readlines()` returns.
- `requests.get` and BeautifulSoup are the `fetch` input. Decoding, timeouts and the HTML grammar are not modelled.
- `fetch` maps a link text to one outcome, so two records with the same link in one batch get the same outcome. `main.py:345` makes a separate request for each, and the two responses may differ. This happens when a batch kept after a non-integer entry is claimed again and appended, or when a link was saved twice. No proved property depends on the two outcomes being equal.
- The `int()` digit limit is modelled at CPython's default of 4300. The limit can be changed with `sys.set_int_max_str_digits` or `PYTHONINTMAXSTRDIGITS`, and Python releases without the CVE-2020-10735 fix have none; the model takes the default.
- Worker threads, `ThreadPoolExecutor`, `wait`, the early `shutdown`, and the unsynchronised visibility of the flag are left out. The chunks run one after the other. Without a Stop this changes nothing, since the ids and links are collected by set union.
- With a Stop in the middle of a cycle, the real workers run at the same time, and each one stops partway through its own chunk (`main.py:341-343`). The URLs reached are then a union of prefixes of the chunks. The model's workers run one after the other, so it reaches a prefix of the glued chunks (`Reached`, `CycleReachedShape`). Those interleavings are not modelled.
- Stop is modelled as landing only at a URL checkpoint of a worker, or after the workers are done. It does not land inside `mark_urls_as_crawled`, the claim or the save.
- Thread counts of zero or below are left out, and the model requires a positive count.
  - A zero count raises `ZeroDivisionError` at `main.py:317`.
  - A negative count with a non-empty batch emits a chunk per URL, and `ThreadPoolExecutor` then raises `ValueError` at `main.py:329`.
  - Both exceptions kill the dispatcher thread.
  - A negative count with an empty batch raises nothing. `chunk_max_size` is `-0.0`, no chunk is emitted, and the cycle goes on to the save.
- `strip()` and `int()` are modelled on ASCII only, each with its own whitespace set. Python's other Unicode whitespace and digits are left out.
- An exception other than `requests.RequestException` inside the worker's `try` (`main.py:344-353`) is left out. An example is a parser error on malformed markup. The `finally` still records that URL's id. The exception then ends the worker, so the rest of its chunk is neither fetched nor recorded, and `wait` does not re-raise it. `FetchOutcome` has no such outcome, so the model assumes every fetch ends in a response or a request error.
- The float division at `main.py:317` is modelled on exact reals and proved equal to integer cross-multiplication. Float rounding is not modelled.
- Crawler.WebCrawler.Valid keeps only row-id order and the next row id. It does not state that recorded ids are among the claimed ones; `DispatchCycle` states that cycle by cycle instead.
- Crawler.WebCrawler.StartCrawling: requires that some cycle of the given environment ends crawling. A run where the user never presses Stop does not terminate and is not modelled.
- Crawler.WebCrawler.CrawlerDispatcher states the run it went through and no more. What the run means for the table, the recorded ids, the batch, the claimed ids and the counter is stated by `RunFacts` and `LastCycle`, and repeated as postconditions of `StartCrawling`. The dispatcher does not repeat them.
- Crawler.CycleStep leaves the order of a cycle's new rows open. The bulk insert takes the links from a Python set, whose iteration order the model does not fix.
