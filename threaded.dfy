/**
  The thread-pool variant: `data_scraper` turns one source row into a record,
  never raising, and `main` collects one record per row in completion order,
  saves checkpoints, joins the records onto the source and renames the
  scraped columns.
 */
module Threaded {
  import opened Wrappers
  import opened Rows
  import opened Cleaners
  import opened Dispatch
  import opened Extraction
  import opened Merge

  /**
    The page fetch for one row. `FetchFailed` stands for every way
    `session.get(link, timeout=10)` or `raise_for_status()` raises once the
    retries are spent.
   */
  datatype FetchOutcome = FetchFailed | Fetched(page: Page)

  /** Every step of extraction that can raise succeeds for this row. */
  predicate Extracts(row: SourceRow, fetch: FetchOutcome)
    requires HasUrl(row)
  {
    Url(row).Text? && fetch.Fetched? && PageFields(fetch.page).Some?
  }

  /**
    The record `data_scraper` returns. It always carries the row's index.
    A missing poster only turns the link into "Not Available"; any other
    failure (a NaN link, a failed request, no facts section, too few
    paragraphs) leaves every field at its default, the poster link included,
    because the fields are written together at the end.
   */
  function ThreadedRecord(row: SourceRow, fetch: FetchOutcome): (r: Record)
    requires HasUrl(row)
    ensures r.originalIndex == row.index
    ensures !Extracts(row, fetch) ==> r == DefaultRecord(row.index)
    ensures Extracts(row, fetch) ==>
      && r.imgLink == fetch.page.poster.GetOr(NotAvailable)
      && Fields(r.budget, r.revenue, r.lang) == PageFields(fetch.page).value
  {
    if !Extracts(row, fetch) then DefaultRecord(row.index)
    else WithFields(DefaultRecord(row.index), fetch.page.poster.GetOr(NotAvailable),
                    PageFields(fetch.page).value)
  }

  /** A page without a poster still yields its facts. */
  lemma MissingPosterKeepsFacts(row: SourceRow, facts: seq<string>)
    requires HasUrl(row) && Url(row).Text? && |facts| >= 4
    ensures ThreadedRecord(row, Fetched(Page(None, Some(facts)))).imgLink == NotAvailable
    ensures var f := CleanFacts(SelectFacts(facts).value);
      var r := ThreadedRecord(row, Fetched(Page(None, Some(facts))));
      r.budget == f.budget && r.revenue == f.revenue && r.lang == f.lang
  {
  }

  /** A page whose facts cannot be read loses the poster link it had. */
  lemma BrokenFactsDropPoster(row: SourceRow, poster: string, facts: Option<seq<string>>)
    requires HasUrl(row) && (facts.None? || |facts.value| < 4)
    ensures ThreadedRecord(row, Fetched(Page(Some(poster), facts))) == DefaultRecord(row.index)
  {
  }

  /** `data_scraper(row_tuple)`: the default dict, overwritten field by field once extraction is done. */
  method DataScraper(row: SourceRow, fetch: FetchOutcome) returns (scraped: Record)
    requires HasUrl(row)
    ensures scraped == ThreadedRecord(row, fetch)
  {
    var link := Url(row);
    scraped := DefaultRecord(row.index);
    if link.NaN? || fetch.FetchFailed? {
      return;
    }
    var page := fetch.page;
    var posterLink := NotAvailable;
    if page.poster.Some? {
      posterLink := page.poster.value;
    }
    if page.facts.None? {
      return;
    }
    var videoData := page.facts.value;
    var budget, revenue, language;
    if |videoData| == 4 {
      budget := CurrencyCleaner(videoData[2]);
      revenue := CurrencyCleaner(videoData[3]);
      language := LangCleaner(Text(videoData[1]));
    } else if |videoData| >= 5 {
      budget := CurrencyCleaner(videoData[3]);
      revenue := CurrencyCleaner(videoData[4]);
      language := LangCleaner(Text(videoData[2]));
    } else {
      return;
    }
    scraped := scraped.(imgLink := posterLink);
    scraped := scraped.(budget := budget);
    scraped := scraped.(revenue := revenue);
    scraped := scraped.(lang := language);
  }

  /** The checkpoints of a run over `total` rows that have seen `done` completions. */
  ghost function SavedSnapshots(results: seq<Record>, done: nat, total: nat): seq<seq<Record>>
    requires done <= |results|
  {
    Snapshots(results, Checkpoints(done, total))
  }

  /** One more completion: the snapshots so far, and one of the whole accumulator if it is a checkpoint. */
  lemma SavedSnapshotsStep(results: seq<Record>, scraped: Record, done: nat, total: nat)
    requires done == |results|
    ensures SavedSnapshots(results + [scraped], done + 1, total) ==
      SavedSnapshots(results, done, total) + (if IsCheckpoint(done + 1, total) then [results + [scraped]] else [])
  {
    var acc := results + [scraped];
    var cs := Checkpoints(done, total);
    SnapshotsExtend(results, [scraped], cs);
    if IsCheckpoint(done + 1, total) {
      assert Checkpoints(done + 1, total) == cs + [done + 1];
      assert (cs + [done + 1])[..|cs|] == cs;
      assert acc[..done + 1] == acc;
    } else {
      assert Checkpoints(done + 1, total) == cs;
    }
  }

  /** The last snapshot of a complete run holds every record. */
  lemma FinalSnapshotComplete(results: seq<Record>)
    requires |results| > 0
    ensures var log := SavedSnapshots(results, |results|, |results|);
      |log| > 0 && log[|log| - 1] == results
  {
    var n := |results|;
    LastItemCheckpoints(n);
    SnapshotSizes(results, Checkpoints(n, n));
    assert results[..n] == results;
  }

  /**
    With one record per row, in some completion order, the join gives every
    source row its own record, in source order.
   */
  lemma {:induction false} JoinedInSourceOrder(rows: seq<SourceRow>, fetches: seq<FetchOutcome>,
                                              order: seq<nat>, results: seq<Record>)
    requires AllHaveUrls(rows) && UniqueIndices(rows) && |fetches| == |rows|
    requires IsPermutation(order, |rows|) && |results| == |rows|
    requires forall j :: 0 <= j < |results| ==> results[j] == ThreadedRecord(rows[order[j]], fetches[order[j]])
    ensures UniqueKeys(results)
    ensures |LeftJoin(rows, results)| == |rows|
    ensures forall k :: 0 <= k < |rows| ==>
      LeftJoin(rows, results)[k] == Attach(rows[k], ThreadedRecord(rows[k], fetches[k]))
  {
    forall i, j | 0 <= i < j < |results| ensures results[i].originalIndex != results[j].originalIndex {
      assert order[i] != order[j];
      if order[i] < order[j] {
        assert rows[order[i]].index != rows[order[j]].index;
      } else {
        assert rows[order[j]].index != rows[order[i]].index;
      }
    }
    JoinUnique(rows, results);
    forall k | 0 <= k < |rows|
      ensures LeftJoin(rows, results)[k] == Attach(rows[k], ThreadedRecord(rows[k], fetches[k]))
    {
      assert k in order;
      var j :| 0 <= j < |order| && order[j] == k;
      LookupUnique(results, j);
    }
  }

  /**
    The collecting loop of `main`: one record appended per completed task, in
    completion order, and a snapshot of the accumulator saved at every
    checkpoint.
   */
  method ScrapeAll(rows: seq<SourceRow>, fetches: seq<FetchOutcome>, order: seq<nat>)
    returns (results: seq<Record>, ghost log: seq<seq<Record>>)
    requires AllHaveUrls(rows) && |fetches| == |rows| && IsPermutation(order, |rows|)
    ensures |results| == |rows|
    ensures forall j :: 0 <= j < |results| ==> results[j] == ThreadedRecord(rows[order[j]], fetches[order[j]])
    ensures log == SavedSnapshots(results, |rows|, |rows|)
  {
    var total := |rows|;
    results := [];
    log := [];
    for i := 0 to total
      invariant |results| == i
      invariant forall j :: 0 <= j < i ==> results[j] == ThreadedRecord(rows[order[j]], fetches[order[j]])
      invariant log == SavedSnapshots(results, i, total)
    {
      var scraped := DataScraper(rows[order[i]], fetches[order[i]]);
      SavedSnapshotsStep(results, scraped, i, total);
      results := results + [scraped];
      if IsCheckpoint(i + 1, total) {
        log := log + [results];
      }
    }
  }

  /**
    `main(filepath)`. Every completed task appends exactly one record, so the
    accumulator holds one record per row whatever the completion order; after
    each checkpoint the accumulator so far is saved, the last item always
    being one; the output is the join with the renamed columns, and there is
    none when no row was read or a source column clashes with a scraped one.
   */
  method ThreadedMain(table: SourceTable, fetches: seq<FetchOutcome>, order: seq<nat>)
    returns (results: seq<Record>, ghost log: seq<seq<Record>>, output: Option<Table>)
    requires WellFormed(table) && |fetches| == |table.rows|
    requires IsPermutation(order, |table.rows|)
    ensures |results| == |table.rows|
    ensures forall j :: 0 <= j < |results| ==>
      results[j] == ThreadedRecord(table.rows[order[j]], fetches[order[j]])
    ensures UniqueKeys(results)
    ensures log == SavedSnapshots(results, |results|, |results|)
    ensures |results| > 0 ==> |log| > 0 && log[|log| - 1] == results
    ensures output == FinalizeThreaded(table, results)
    ensures output.Some? <==> |table.rows| > 0 && !Overlap(table.header)
    ensures output.Some? ==>
      && output.value.header == table.header + PublicColumns
      && |output.value.rows| == |table.rows|
      && forall k :: 0 <= k < |table.rows| ==>
           output.value.rows[k] == Attach(table.rows[k], ThreadedRecord(table.rows[k], fetches[k]))
  {
    var rows := table.rows;
    WellFormedRowsHaveUrls(table);
    results, log := ScrapeAll(rows, fetches, order);
    if |results| > 0 {
      FinalSnapshotComplete(results);
    }
    JoinedInSourceOrder(rows, fetches, order, results);
    output := FinalizeThreaded(table, results);
  }
}
