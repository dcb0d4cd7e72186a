# MovieLens enrichment scrapers, modelled in Dafny

The repository enriches a MovieLens CSV export. It visits each movie's detail
page and adds four columns: the poster image link, the budget and the revenue
in US dollars, and the original language. There are two scripts:

- `scraper_threading.py` fetches pages itself on a thread pool. Its
  `data_scraper` never raises. It returns a record for every row, with
  defaults where extraction fails.
- `scraper_zyte.py` sends one query per usable URL to a scraping API and gets
  the answers back in any order. `get_movie_id` and `mapping_dict` re-attach
  each answer to its row. Its `scraper` lets extraction errors escape, and the
  main loop then skips the item.

Both scripts:
- clean the texts with `currency_cleaner` and `lang_cleaner`;
- pick the facts paragraphs by the same positional rule;
- save snapshots of the accumulator to a temporary file while the items
  come in, but on different rules:
  - the threaded variant saves after every 1000th completed task and after
    the last one;
  - the delegated variant saves only right after an item has appended its
    record, and only when that item's 1-based position is a multiple of 1000
    or equals the number of source rows. An item skipped by `continue` or an
    exception saves nothing. If any row was not queried, the
    `i == total_links` test never fires. The last item then saves a
    snapshot only if it appended and its position is a multiple of 1000;
- left-join the records onto the source table by `original_index` and rename
  the four scraped columns.

The model has one module per concern:

- `Strings`: Python's `str.strip()`, `str.replace(old, '')` and the greedy `\d+`.
- `Numbers`: `float()` on decimal numerals, as an exact `real`.
- `Rows`: the source table as `read_csv(dtype=object)` and `itertuples` give it.
- `Cleaners`: the two normalizers.
- `Identity`: `get_movie_id` and `mapping_dict`.
- `Dispatch`: the checkpoint schedule, completion orders and snapshot logs.
- `Extraction`: the page abstraction, the positional rule and the record.
- `Merge`: the join, the fill and the rename.
- `Threaded`: `data_scraper` and the threaded `main`.
- `Zyte`: `scraper`, the query list, the answer loop and the delegated `main`.

How external inputs are modelled:
- Fetches and API answers are parameters: one outcome per row, or one per query.
- The order in which they complete is an arbitrary permutation `order`.
- Checkpoint writes are recorded in a ghost log of snapshots.
- Every property of the main loops is proved for every completion order.

In these places the code does something a reader might not expect, and the model follows the code:

- A failed row in the threaded variant keeps the dict defaults `''`, 0.0, 0.0
  and `''`, not "Not Available". The threaded variant never fills: every row
  gets a record, so no row is unmatched.
- In the delegated variant `fillna(0.0)` also turns a matched row's
  unparsable amount (NaN from `currency_cleaner`) into 0.0. It is not limited
  to rows that produced no record.
- The delegated variant writes its output file before the fill and the
  rename (see Findings).
- The threaded variant's `main` produces no output at all when the source has
  no rows. Neither variant produces output when a source column is already
  named like a scraped one. In both cases `set_index` or `join` raises and
  nothing is written.

## Model

| member | source | states |
|---|---|---|
| Strings.Strip | scraper_threading.py:57 | `s.strip()` is the slice of `s` after its leading whitespace (Python's `isspace` set). Everything cut at the back is whitespace, and the result has none at either end. |
| Strings.StripIdempotent | scraper_threading.py:68 | Stripping twice is stripping once. |
| Strings.RemoveAll | scraper_threading.py:57 | `s.replace(pat, '')` is never longer than `s` and only keeps characters of `s`. A one-character pattern no longer occurs. |
| Strings.RemoveAllNoOccurrence | scraper_threading.py:68 | A pattern that occurs nowhere in the text is not removed, so the text is unchanged. |
| Strings.RemoveCharConcat | scraper_threading.py:57 | Removing a character distributes over concatenation. |
| Strings.DropSeparators | scraper_threading.py:57 | Removing "," from a three-group amount joins the groups. |
| Strings.DigitRun | scraper_zyte.py:22 | The greedy `\d+`: the longest all-digit prefix, stopping at the first non-digit. |
| Strings.DigitRunStopsAtNonDigit | scraper_zyte.py:22 | Text after a non-digit does not change the digit run. |
| Numbers.ParseDecimal | scraper_threading.py:58 | The model's `float` accepts only non-empty numerals made of digits, a point and a sign. The syntax Python also accepts and the model does not is listed under Left out. |
| Numbers.ParseNumeral | scraper_threading.py:58 | Every valid numeral is accepted, with its value. A valid numeral has an optional sign, integer digits, an optional point and fraction digits, and at least one digit. Its value is the integer part plus the fraction, negated for "-". |
| Numbers.ParsedIsNumeral | scraper_threading.py:58 | The converse: every accepted text is the spelling of a valid numeral, and the parse is that numeral's value. |
| Numbers.ParseFractionExample | scraper_threading.py:58 | `float("63000000.00")` is 63000000. |
| Numbers.ParseNatDigits | scraper_threading.py:58 | `float(str(n)) == n` for every natural `n`. |
| Numbers.NatDigitsOfValue | scraper_threading.py:58 | A canonical digit string is the rendering of its own value. |
| Cleaners.CurrencyText | scraper_threading.py:57 | The text handed to `float` (labels, "$" and "," removed in that order, then stripped) has no "$", no "," and no outer whitespace. |
| Cleaners.CurrencyCleaner | scraper_threading.py:51-62 | The sentinels "Budget -" and "Revenue -" give NaN without parsing. A number comes back only when the cleaned text is a non-empty numeral; otherwise NaN, never an exception. |
| Cleaners.CurrencyOfLabeledAmount | scraper_threading.py:57-58 | A "Budget "/"Revenue " label followed by a "$" amount cleans to the parse of the amount without separators. |
| Cleaners.CurrencyOfLabeledNumeral | scraper_threading.py:57-58 | A labelled "$" amount whose digits spell a valid numeral once the separators are removed cleans to that numeral's value, fractions included. |
| Cleaners.CurrencyIsNumeral | scraper_threading.py:54-58 | Whenever the cleaner returns a number, the text was not a sentinel, and the cleaned text spells a valid numeral whose value is that number. |
| Cleaners.CurrencyFractionExample | scraper_threading.py:51-62 | "Budget $63,000,000.00" cleans to 63000000. |
| Cleaners.CurrencyOfWholeAmount | scraper_threading.py:57-58 | A labelled dollar amount of whole dollars, written without separators (`str(n)`), comes back as its value. |
| Cleaners.CurrencyOfGroupedAmount | scraper_threading.py:57-58 | A labelled "$" amount written as three comma-separated groups cleans to the parse of the groups joined. `CurrencyExample` and `CurrencyFractionExample` are both instances of it. |
| Cleaners.CurrencyExample | scraper_threading.py:51-62 | "Budget $12,345,678" cleans to 12345678. |
| Cleaners.LangCleaner | scraper_threading.py:66-75 | NaN gives "Not Available". A string gives a stripped result made of its own characters. |
| Cleaners.LangOfLabeledName | scraper_threading.py:68 | "Original Language " followed by a stripped name cleans to the name, provided the name does not itself contain "Original Language ". |
| Cleaners.LangExample | scraper_threading.py:68 | "Original Language English" cleans to "English". |
| Identity.FirstMatchFrom | scraper_zyte.py:22 | A found position is at or after `i`, and `movie/\d` matches there. |
| Identity.FirstMatchMeaning | scraper_zyte.py:22 | Nothing matches between `i` and the found position. Finding nothing means no position at or after `i` matches. |
| Identity.LeftmostMatch | scraper_zyte.py:22 | A match with no match before it, from `i` on, is the one the scan from `i` finds. |
| Identity.MovieId | scraper_zyte.py:16-23 | A non-string cell gives None. An id is non-empty and all ASCII digits. |
| Identity.MovieIdMeaning | scraper_zyte.py:22-23 | None exactly when `movie/\d` matches nowhere. Otherwise `"movie/" + id` occurs at the leftmost match, and the digit run is maximal. |
| Identity.MovieIdExample | scraper_zyte.py:22-23 | ".../movie/603/the-matrix" gives "603". |
| Identity.MovieIdOfSlice | scraper_zyte.py:22 | A slice with only whitespace around it yields the same id as the whole text. |
| Identity.MovieIdOfStripped | scraper_zyte.py:92-105 | The stripped query URL has the same id as the raw row URL the map was built from. |
| Identity.MappingDict | scraper_zyte.py:26-36 | Keys are exactly the ids the rows yield. Each maps to the index of the last row with that id. Rows without an id add nothing. |
| Identity.IdMapInjective | scraper_zyte.py:26-36 | With unique row indices, distinct ids map to distinct indices. |
| Identity.IdMapPointsToLastRow | scraper_zyte.py:33-34 | A row whose id no later row repeats is the one its id maps to. |
| Dispatch.Checkpoints | scraper_threading.py:174 | The counts after which a snapshot is saved are exactly those among 1..m divisible by 1000 or equal to the total, in increasing order. |
| Dispatch.LastItemCheckpoints | scraper_threading.py:174 | The last item always triggers a snapshot, and it is the last one. |
| Dispatch.CheckpointCount | scraper_threading.py:174 | Before the last item, one snapshot is taken per full batch of 1000. |
| Dispatch.SnapshotSizes | scraper_threading.py:174-177 | One snapshot per checkpoint, each holding the first `count` records. |
| Dispatch.SnapshotsExtend | scraper_threading.py:172-177 | Records appended later do not change saved snapshots. |
| Extraction.SelectFacts | scraper_threading.py:114-123 | Four paragraphs give language, budget and revenue at 1, 2, 3. Five or more give them at 2, 3, 4. Fewer than four raise. |
| Extraction.SelectFactsShifted | scraper_threading.py:114-123 | One extra paragraph in front of the four-paragraph layout selects the same texts. |
| Extraction.SelectFactsIgnoresTail | scraper_threading.py:121-123 | Paragraphs after the fifth are never read. |
| Extraction.CleanFacts | scraper_threading.py:116-118 | The cleaned language is stripped. An amount is present only if its cleaned text is non-empty. |
| Extraction.PageFields | scraper_threading.py:112-123 | Extraction of the facts succeeds exactly when the facts section exists and has at least four paragraphs. |
| Threaded.ThreadedRecord | scraper_threading.py:79-135 | The record always carries `row[0]`. If any raising step fails, all fields keep their defaults. Otherwise the poster link (or "Not Available") and the cleaned facts. |
| Threaded.MissingPosterKeepsFacts | scraper_threading.py:105-109 | A missing poster gives "Not Available" and extraction continues. |
| Threaded.BrokenFactsDropPoster | scraper_threading.py:112-135 | A broken facts section gives the default record, dropping a poster link already found. |
| Threaded.DataScraper | scraper_threading.py:79-135 | The imperative dict updates compute `ThreadedRecord`. |
| Threaded.SavedSnapshotsStep | scraper_threading.py:171-177 | One more completion adds a snapshot of the whole accumulator exactly at a checkpoint. |
| Threaded.FinalSnapshotComplete | scraper_threading.py:174-177 | The last snapshot of a complete run holds every record. |
| Threaded.ScrapeAll | scraper_threading.py:163-177 | One record per completed task, in completion order, and the snapshot log follows the checkpoint schedule. |
| Threaded.JoinedInSourceOrder | scraper_threading.py:181-185 | Whatever the completion order, keys are unique and the join gives each source row, in order, its own record. |
| Threaded.ThreadedMain | scraper_threading.py:139-202 | One record per row with unique keys, for any completion order. The last snapshot holds everything. The output exists iff there are rows and no column clash, has the renamed header, and attaches to row k its own record. |
| Merge.MatchesOf | scraper_threading.py:185 | The records with a given index: all of them, and only them. |
| Merge.Lookup | scraper_threading.py:185 | A record with the index, and none exactly when no record has it. |
| Merge.LookupFirst | scraper_threading.py:185 | The record found is the earliest one with the index. |
| Merge.LookupUnique | scraper_threading.py:185 | With unique keys each record is found by its own index. |
| Merge.MatchesOfUnique | scraper_threading.py:185 | With unique keys a row has at most one match. |
| Merge.LeftJoin | scraper_threading.py:185 | Every source row is kept, in order, with its matches, so the join is never shorter than the table. With unique keys `JoinUnique` gives exactly one row per source row, matched through `MatchesOf`. `scraper_zyte.py:136` uses the same join. |
| Merge.JoinUnique | scraper_threading.py:185 | With unique keys the left join keeps every source row, in order, once, with its record attached or unmatched. |
| Merge.RenameColumns | scraper_threading.py:188-193 | The four scraped names become the public ones. No other column changes. |
| Merge.RenameJoinedHeader | scraper_threading.py:185-193 | Renaming the joined header appends the four public names to the source header. |
| Merge.Join | scraper_threading.py:181-185 | There is a joined table exactly when there are records and no column clash. It has the source header plus the four raw names. |
| Merge.FinalizeThreaded | scraper_threading.py:181-202 | The threaded output: join, then the public names. |
| Merge.FillMissing | scraper_zyte.py:142-145 | After the fill no column is NaN, and present values are unchanged. |
| Merge.FillUnmatched | scraper_zyte.py:142-145 | A skipped row gets "", 0.0, 0.0 and "Not Available". |
| Merge.FillMatched | scraper_zyte.py:142-145 | A matched row keeps its record, except that a NaN amount becomes 0.0. |
| Merge.FillAll | scraper_zyte.py:142-145 | The fill is applied to every row. |
| Merge.FinalizeFilled | scraper_zyte.py:132-152 | The corrected delegated output: join, fill every row, then the public names. |
| Merge.SkippedRowWrittenUnfilled | scraper_zyte.py:136-145 | A row with no record is NaN under raw names in the join, but filled under public names after the fill. |
| Zyte.ZyteRecord | scraper_zyte.py:40-76 | Always `index` when it returns. No body gives the defaults. It raises exactly on an undecodable body, a missing poster or unreadable facts. Otherwise the poster and the same fields as the threaded rule. |
| Zyte.Scraper | scraper_zyte.py:40-76 | The imperative dict updates compute `ZyteRecord`. |
| Zyte.ZyteAgreesWithThreaded | scraper_zyte.py:60-74 | Where both scrapers succeed on a page, they build the same record. |
| Zyte.QuerySources | scraper_zyte.py:91-96 | Exactly the rows whose URL is a non-blank string, in row order. |
| Zyte.Queries | scraper_zyte.py:91-96 | One query per queried row. Each has `httpResponseBody` set and a non-blank, stripped URL. `QueryOfRow` ties each query to its row's URL and id. |
| Zyte.QueryOfRow | scraper_zyte.py:91-96 | Each query has the stripped, non-blank URL of its row and `httpResponseBody` set. Its id is the row's id. |
| Zyte.ItemRecord | scraper_zyte.py:98-127 | An item appends a record exactly when its query was answered, the URL's id is in the map and `scraper` returns. The record is what `scraper` returns for the mapped index. |
| Zyte.Appended | scraper_zyte.py:98-127 | The accumulator has at most one record per item, each with an index from the map. |
| Zyte.ZyteLog | scraper_zyte.py:118-121 | The snapshots saved during the first `n` items: one after each item that appended at a checkpoint of the row count, and never more than one per item. Every snapshot is a prefix of the accumulator at that point. `NoSnapshotWhenRowsUnqueried`: with fewer than 1000 queries and an unqueried row, nothing is ever saved. |
| Zyte.ZyteLogBatchBound | scraper_zyte.py:118-121 | With an unqueried row, at most one snapshot is saved per full batch of 1000 items. |
| Zyte.BatchSnapshotSaved | scraper_zyte.py:118-121 | An item that appends at a multiple of 1000 saves the whole accumulator, even when some row was not queried. |
| Zyte.ArrivalStep | scraper_zyte.py:112-121 | The step lemma of the `CollectAnswers` loop: it unfolds `Appended` and `ZyteLog` by one item. That item appends its record, if any, and a snapshot is added only when it appended at a checkpoint. |
| Zyte.NoSnapshotWhenRowsUnqueried | scraper_zyte.py:84-121 | With fewer queries than rows and fewer than 1000 of them, no snapshot is ever saved. |
| Zyte.ItemIndexIsSourceIndex | scraper_zyte.py:105 | With distinct ids, an answer is re-attached to exactly the row its query came from. |
| Zyte.SourceIndexInjective | scraper_zyte.py:91-96 | Distinct queries come from rows with distinct indices. |
| Zyte.AppendedDistinct | scraper_zyte.py:98-115 | When appended items carry their query's distinct key, the accumulator's keys are unique. |
| Zyte.AppendedKeysUnique | scraper_zyte.py:87-115 | With distinct ids, no two records share an index, for any order, and each belongs to a queried row. |
| Zyte.UnqueriedRowHasNoId | scraper_zyte.py:16-23 | A row with a missing or blank URL yields no id. |
| Zyte.NoIdMapsToRow | scraper_zyte.py:26-36 | With unique row indices, no map entry points to a row that yields no id. |
| Zyte.UnqueriedRowUnmatched | scraper_zyte.py:91-136 | A row with a missing or blank URL gets no record, even when other rows share ids. |
| Zyte.AppendedHas | scraper_zyte.py:112-115 | Every item that appends a record leaves it in the accumulator. |
| Zyte.AppendedFrom | scraper_zyte.py:112-115 | Every record in the accumulator was appended by some item. |
| Zyte.QueriedRowRecord | scraper_zyte.py:98-136 | With distinct ids, the record the accumulator holds for a queried row is what that row's own answer appends, and there is none when it appends nothing. |
| Zyte.JoinedAnswers | scraper_zyte.py:132-136 | With distinct ids, the join puts each queried row next to its own answer's record (NaN when it appended nothing), and every unqueried row next to NaN. |
| Zyte.ZyteWrittenRowUnfilled | scraper_zyte.py:136-145 | The written file leaves an unqueried row's budget NaN. The filled table, never written, has 0.0. |
| Zyte.CollectAnswers | scraper_zyte.py:98-127 | The answer loop computes `Appended` and the snapshot log, skipping errors and unmapped ids. |
| Zyte.ZyteMain | scraper_zyte.py:79-164 | The map is `mapping_dict`'s and the queries are the comprehension's. The accumulator is bounded by the queries and unique under distinct ids, and has no record for an unqueried row. With distinct ids, each queried row's record is its own answer's, and the written rows attach it. The written file is the plain join; `final` is the filled, renamed one, whose rows are the written rows filled. |

## Left out

- HTTP session, retry policy and headers (`create_session`): external library configuration. The outcome of a fetch is a parameter.
- The randomized `time.sleep` pacing: timing only.
- `ThreadPoolExecutor`/`as_completed` and the asynchronous API client and its `session.iter`: concurrency. Completion order is an arbitrary permutation.
- BeautifulSoup queries: the page is an optional poster `src` plus optional paragraph texts.
- Base64 and UTF-8 decoding: a body is absent, undecodable or a page. An empty decoded body counts as a page with neither poster nor facts.
- The `url` echoed in an API answer is taken to be the query's URL.
- CSV reading and writing, DataFrame construction and the `del` clean-up: tables are sequences of rows. Checkpoint and output writes are a ghost log and returned values.
- IEEE doubles: amounts are exact reals, NaN is `None`.
- `float()` syntax beyond signed decimal numerals made of ASCII digits is not modelled: exponents, underscores, "inf", "nan", surrounding whitespace and non-ASCII Unicode decimal digits (which `float()` accepts). The cleaned text is already stripped.
- `\d` matches ASCII digits only; Python's `re` also matches other Unicode decimal digits.
- `print` logging, the environment-variable API key and the `__main__` entry point.
- A row tuple shorter than six fields: `row_tuple[5]` would raise before the dict exists. Every row is assumed at least as wide as a header with a fifth column.
- Snapshot rows are the accumulated records; their column layout in `temp_data.csv` is not modelled.
- Rows whose URL yields an id that another row shares: `AppendedKeysUnique`, `QueriedRowRecord`, `JoinedAnswers` and the per-row statements of `ZyteMain` assume distinct ids. With shared ids the general left join is still modelled, one output row per match, and unqueried rows still get no record.

## Findings

| source | as written | input that shows it | evidently intended | confidence | as-written member | corrected member |
|---|---|---|---|---|---|---|
| scraper_zyte.py:139-152 | `final_df.to_csv` runs before the four `fillna` calls and the rename. The file keeps NaN for skipped rows and the raw column names; the filled, renamed table is discarded. | A table where one row has a NaN URL (never queried) and another row is scraped: the written file has NaN budget for the first row and the header `img_link`, ... | Write the table after filling and renaming: the comment over the fill says it exists for skipped rows. | medium, not executed | Zyte.ZyteWrittenRowUnfilled | Merge.FinalizeFilled |
