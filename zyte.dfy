/**
  The delegated-fetch variant: one query per usable URL, answers arriving in
  any order and re-attached to their rows through the identifier map, a
  `scraper` that lets extraction errors escape to the loop, which skips the
  item, and a finalize step that writes the join before filling it.
 */
module Zyte {
  import opened Wrappers
  import opened Strings
  import opened Rows
  import opened Cleaners
  import opened Identity
  import opened Dispatch
  import opened Extraction
  import opened Merge
  import opened Threaded

  /**
    The `httpResponseBody` of an answer: absent or empty (falsy), not valid
    base64 or UTF-8, or a page. Base64 and UTF-8 decoding are abstracted.
   */
  datatype Body = Absent | Undecodable | Decoded(page: Page)

  /** One query: `{"url": ..., "httpResponseBody": True}`. */
  datatype Query = Query(url: string, httpResponseBody: bool)

  /** What awaiting a query's future gives: a `RequestError`, or an answer. */
  datatype QueryOutcome = RequestFailed | Answered(body: Body)

  /**
    `scraper(encoded_html, url, index)`: the default record when there is no
    body; otherwise a failure to decode, a missing poster (`None['src']`), a
    missing facts section or too few paragraphs raises out of the call.
   */
  function ZyteRecord(body: Body, index: int): (r: Outcome<Record>)
    ensures r.Returned? ==> r.value.originalIndex == index
    ensures body.Absent? ==> r == Returned(DefaultRecord(index))
    ensures r.Raised? <==>
      body.Undecodable? || (body.Decoded? && (body.page.poster.None? || PageFields(body.page).None?))
    ensures body.Decoded? && r.Returned? ==>
      && r.value.imgLink == body.page.poster.value
      && Fields(r.value.budget, r.value.revenue, r.value.lang) == PageFields(body.page).value
  {
    match body
    case Absent => Returned(DefaultRecord(index))
    case Undecodable => Raised
    case Decoded(page) =>
      if page.poster.None? || PageFields(page).None? then Raised
      else Returned(WithFields(DefaultRecord(index), page.poster.value, PageFields(page).value))
  }

  /** `scraper` as written: the default dict, filled in only when there is a body. */
  method Scraper(body: Body, index: int) returns (data: Outcome<Record>)
    ensures data == ZyteRecord(body, index)
  {
    var scraped := DefaultRecord(index);
    if body.Absent? {
      return Returned(scraped);
    }
    if body.Undecodable? {
      return Raised;
    }
    var page := body.page;
    if page.poster.None? {
      return Raised;
    }
    var posterLink := page.poster.value;
    if page.facts.None? {
      return Raised;
    }
    var videoData := page.facts.value;
    var budget, revenue, language;
    if |videoData| == 4 {
      budget := CurrencyCleaner(videoData[2]);
      revenue := CurrencyCleaner(videoData[3]);
      language := LangCleaner(Text(videoData[1]));
    } else if |videoData| >= 5 {
      budget := CurrencyCleaner(videoData[3]);
      revenue := CurrencyCleaner(videoData[4]);
      language := LangCleaner(Text(videoData[2]));
    } else {
      return Raised;
    }
    assert PageFields(page) == Some(Fields(budget, revenue, language));
    scraped := scraped.(imgLink := posterLink);
    scraped := scraped.(budget := budget);
    scraped := scraped.(revenue := revenue);
    scraped := scraped.(lang := language);
    return Returned(scraped);
  }

  /**
    Where the delegated scraper returns a filled record, the threaded one,
    given the same page for a row with that index, returns the same record:
    both apply the same positional rule and cleaners.
   */
  lemma ZyteAgreesWithThreaded(row: SourceRow, page: Page)
    requires HasUrl(row) && Url(row).Text?
    requires ZyteRecord(Decoded(page), row.index).Returned?
    ensures ZyteRecord(Decoded(page), row.index).value == ThreadedRecord(row, Fetched(page))
  {
  }

  /** A row is queried when its URL is a string that is not blank. */
  predicate Queryable(row: SourceRow)
    requires HasUrl(row)
  {
    Url(row).Text? && Strip(Url(row).s) != []
  }

  /** The positions, among the first `n` rows, of the queried rows, in row order. */
  function QuerySources(rows: seq<SourceRow>, n: nat): (r: seq<nat>)
    requires n <= |rows| && AllHaveUrls(rows)
    ensures forall j :: 0 <= j < |r| ==> r[j] < n && Queryable(rows[r[j]])
    ensures forall i, j :: 0 <= i < j < |r| ==> r[i] < r[j]
    ensures forall k :: 0 <= k < n && Queryable(rows[k]) ==> k in r
  {
    if n == 0 then []
    else
      var prev := QuerySources(rows, n - 1);
      var tail := if Queryable(rows[n - 1]) then [n - 1] else [];
      SourcesExtendQueryable(rows, n, prev, tail);
      SourcesExtendIncreasing(n, prev, tail);
      SourcesExtendComplete(rows, n, prev, tail);
      prev + tail
  }

  /** One more row keeps the queried positions below the row count and queryable. */
  lemma SourcesExtendQueryable(rows: seq<SourceRow>, n: nat, prev: seq<nat>, tail: seq<nat>)
    requires 0 < n <= |rows| && AllHaveUrls(rows)
    requires forall j :: 0 <= j < |prev| ==> prev[j] < n - 1 && Queryable(rows[prev[j]])
    requires tail == if Queryable(rows[n - 1]) then [n - 1] else []
    ensures forall j :: 0 <= j < |prev + tail| ==> (prev + tail)[j] < n && Queryable(rows[(prev + tail)[j]])
  {
  }

  /** One more row keeps the queried positions increasing. */
  lemma SourcesExtendIncreasing(n: nat, prev: seq<nat>, tail: seq<nat>)
    requires 0 < n
    requires forall j :: 0 <= j < |prev| ==> prev[j] < n - 1
    requires forall i, j :: 0 <= i < j < |prev| ==> prev[i] < prev[j]
    requires tail == [] || tail == [n - 1]
    ensures forall i, j :: 0 <= i < j < |prev + tail| ==> (prev + tail)[i] < (prev + tail)[j]
  {
  }

  /** One more row keeps every queryable position among the queried ones. */
  lemma SourcesExtendComplete(rows: seq<SourceRow>, n: nat, prev: seq<nat>, tail: seq<nat>)
    requires 0 < n <= |rows| && AllHaveUrls(rows)
    requires forall k :: 0 <= k < n - 1 && Queryable(rows[k]) ==> k in prev
    requires tail == if Queryable(rows[n - 1]) then [n - 1] else []
    ensures forall k :: 0 <= k < n && Queryable(rows[k]) ==> k in prev + tail
  {
    var r := prev + tail;
    forall k | 0 <= k < n && Queryable(rows[k]) ensures k in r {
      if k < n - 1 {
        assert k in prev;
      } else {
        assert r[|prev|] == k;
      }
    }
  }

  function Sources(rows: seq<SourceRow>): seq<nat>
    requires AllHaveUrls(rows)
  {
    QuerySources(rows, |rows|)
  }

  /** The query for a queried row: its stripped URL, asking for the raw body. */
  function QueryFor(row: SourceRow): Query
    requires HasUrl(row) && Url(row).Text?
  {
    Query(Strip(Url(row).s), true)
  }

  /** The `queries` list comprehension. */
  function Queries(rows: seq<SourceRow>): (r: seq<Query>)
    requires AllHaveUrls(rows)
    ensures |r| == |Sources(rows)|
    ensures forall j :: 0 <= j < |r| ==> r[j].httpResponseBody && r[j].url != [] && IsStripped(r[j].url)
  {
    var src := Sources(rows);
    seq(|src|, j requires 0 <= j < |src| => QueryFor(rows[src[j]]))
  }

  /**
    Each query carries its row's URL stripped, non-blank, with
    `httpResponseBody` set, and the URL yields the same identifier as the
    row's unstripped URL.
   */
  lemma QueryOfRow(rows: seq<SourceRow>, j: nat)
    requires AllHaveUrls(rows) && j < |Queries(rows)|
    ensures var q := Queries(rows)[j]; var row := rows[Sources(rows)[j]];
      && q.url == Strip(Url(row).s) && q.url != [] && IsStripped(q.url) && q.httpResponseBody
      && MovieId(Text(q.url)) == RowId(row)
  {
    MovieIdOfStripped(Url(rows[Sources(rows)[j]]).s);
  }

  /**
    What one item appends: nothing on a request error, when the URL's
    identifier is not in the map (`index is None`) or when `scraper` raises;
    otherwise the record scraped for the mapped index.
   */
  function ItemRecord(idMap: map<string, int>, query: Query, outcome: QueryOutcome): (r: Option<Record>)
    ensures r.Some? <==>
      && outcome.Answered?
      && MovieId(Text(query.url)).Some? && MovieId(Text(query.url)).value in idMap
      && ZyteRecord(outcome.body, idMap[MovieId(Text(query.url)).value]).Returned?
    ensures r.Some? ==> r.value == ZyteRecord(outcome.body, idMap[MovieId(Text(query.url)).value]).value
    ensures r.Some? ==> r.value.originalIndex == idMap[MovieId(Text(query.url)).value]
  {
    match outcome
    case RequestFailed => None
    case Answered(body) =>
      var id := MovieId(Text(query.url));
      if id.None? || id.value !in idMap then None
      else
        match ZyteRecord(body, idMap[id.value])
        case Raised => None
        case Returned(rec) => Some(rec)
  }

  /** Answers align with queries and arrive in some order of them. */
  predicate Aligned(queries: seq<Query>, outcomes: seq<QueryOutcome>, order: seq<nat>) {
    |outcomes| == |queries| && IsPermutation(order, |queries|)
  }

  /** The record the `i`-th arriving item (from 0) appends, if any. */
  function Arrival(idMap: map<string, int>, queries: seq<Query>, outcomes: seq<QueryOutcome>,
                   order: seq<nat>, i: nat): Option<Record>
    requires Aligned(queries, outcomes, order) && i < |order|
  {
    ItemRecord(idMap, queries[order[i]], outcomes[order[i]])
  }

  /** `data_accumulator` after the first `n` arriving items. */
  function Appended(idMap: map<string, int>, queries: seq<Query>, outcomes: seq<QueryOutcome>,
                    order: seq<nat>, n: nat): (r: seq<Record>)
    requires Aligned(queries, outcomes, order) && n <= |order|
    ensures |r| <= n
    ensures forall a :: 0 <= a < |r| ==> r[a].originalIndex in idMap.Values
  {
    if n == 0 then []
    else
      var prev := Appended(idMap, queries, outcomes, order, n - 1);
      match Arrival(idMap, queries, outcomes, order, n - 1)
      case None => prev
      case Some(rec) => prev + [rec]
  }

  /**
    The snapshots saved during the first `n` items: the accumulator after
    every item that appended and whose 1-based position is a checkpoint of
    `total`, the number of source rows.
   */
  ghost function ZyteLog(idMap: map<string, int>, queries: seq<Query>, outcomes: seq<QueryOutcome>,
                         order: seq<nat>, n: nat, total: nat): (r: seq<seq<Record>>)
    requires Aligned(queries, outcomes, order) && n <= |order|
    ensures |r| <= n
    ensures forall j :: 0 <= j < |r| ==> r[j] <= Appended(idMap, queries, outcomes, order, n)
  {
    if n == 0 then []
    else
      var prev := ZyteLog(idMap, queries, outcomes, order, n - 1, total);
      AppendedGrows(idMap, queries, outcomes, order, n, prev);
      prev
      + (if Arrival(idMap, queries, outcomes, order, n - 1).Some? && IsCheckpoint(n, total)
         then [Appended(idMap, queries, outcomes, order, n)] else [])
  }

  /** One more item only extends the accumulator, so earlier snapshots stay prefixes of it. */
  lemma AppendedGrows(idMap: map<string, int>, queries: seq<Query>, outcomes: seq<QueryOutcome>,
                      order: seq<nat>, n: nat, snaps: seq<seq<Record>>)
    requires Aligned(queries, outcomes, order) && 0 < n <= |order|
    requires forall j :: 0 <= j < |snaps| ==> snaps[j] <= Appended(idMap, queries, outcomes, order, n - 1)
    ensures forall j :: 0 <= j < |snaps| ==> snaps[j] <= Appended(idMap, queries, outcomes, order, n)
  {
    var prev := Appended(idMap, queries, outcomes, order, n - 1);
    var acc := Appended(idMap, queries, outcomes, order, n);
    AppendedExtends(idMap, queries, outcomes, order, n);
    forall j | 0 <= j < |snaps| ensures snaps[j] <= acc {
      PrefixTransitive(snaps[j], prev, acc);
    }
  }

  lemma PrefixTransitive(a: seq<Record>, b: seq<Record>, c: seq<Record>)
    requires a <= b && b <= c
    ensures a <= c
  {
    assert c[..|b|][..|a|] == c[..|a|];
  }

  /**
    With fewer queries than rows (some URL missing or blank) and fewer than
    a batch of them, no snapshot is ever saved: the `i == total_links`
    checkpoint is never reached.
   */
  lemma {:induction false} NoSnapshotWhenRowsUnqueried(idMap: map<string, int>, queries: seq<Query>,
                                 outcomes: seq<QueryOutcome>, order: seq<nat>, n: nat, total: nat)
    requires Aligned(queries, outcomes, order) && n <= |order|
    requires |queries| < total && |queries| < BatchSize
    ensures ZyteLog(idMap, queries, outcomes, order, n, total) == []
  {
    if n > 0 {
      NoSnapshotWhenRowsUnqueried(idMap, queries, outcomes, order, n - 1, total);
      assert !IsCheckpoint(n, total);
    }
  }

  /**
    With fewer queries than rows the `i == total_links` checkpoint is never
    reached, so at most one snapshot is saved per full batch of items.
   */
  lemma {:induction false} ZyteLogBatchBound(idMap: map<string, int>, queries: seq<Query>,
                                             outcomes: seq<QueryOutcome>, order: seq<nat>, n: nat, total: nat)
    requires Aligned(queries, outcomes, order) && n <= |order|
    requires |queries| < total
    ensures |ZyteLog(idMap, queries, outcomes, order, n, total)| <= n / BatchSize
  {
    if n > 0 {
      ZyteLogBatchBound(idMap, queries, outcomes, order, n - 1, total);
      assert IsCheckpoint(n, total) <==> n % BatchSize == 0;
    }
  }

  /**
    An item that appends at a multiple of the batch size saves the whole
    accumulator, whether or not every row was queried.
   */
  lemma BatchSnapshotSaved(idMap: map<string, int>, queries: seq<Query>,
                           outcomes: seq<QueryOutcome>, order: seq<nat>, n: nat, total: nat)
    requires Aligned(queries, outcomes, order) && 0 < n <= |order| && n % BatchSize == 0
    requires Arrival(idMap, queries, outcomes, order, n - 1).Some?
    ensures var log := ZyteLog(idMap, queries, outcomes, order, n, total);
      log != [] && log[|log| - 1] == Appended(idMap, queries, outcomes, order, n)
  {
    ArrivalStep(idMap, queries, outcomes, order, n - 1, total);
  }

  /** No two rows with an identifier share it. */
  predicate DistinctIds(rows: seq<SourceRow>)
    requires AllHaveUrls(rows)
  {
    forall j, k :: 0 <= j < k < |rows| && RowId(rows[j]).Some? ==> RowId(rows[j]) != RowId(rows[k])
  }

  /** With distinct identifiers, an item re-attaches to exactly the row its query came from. */
  lemma ItemIndexIsSourceIndex(rows: seq<SourceRow>, idMap: map<string, int>, outcome: QueryOutcome, q: nat)
    requires AllHaveUrls(rows) && DistinctIds(rows) && IsIdMap(rows, idMap)
    requires q < |Queries(rows)|
    requires ItemRecord(idMap, Queries(rows)[q], outcome).Some?
    ensures ItemRecord(idMap, Queries(rows)[q], outcome).value.originalIndex == rows[Sources(rows)[q]].index
  {
    var k := Sources(rows)[q];
    QueryOfRow(rows, q);
    IdMapPointsToLastRow(rows, idMap, k);
  }

  /** The index of the row query `q` was built from. */
  function SourceIndex(rows: seq<SourceRow>, q: nat): int
    requires AllHaveUrls(rows) && q < |Sources(rows)|
  {
    rows[Sources(rows)[q]].index
  }

  /** `key` is the index of a row that was queried. */
  ghost predicate IsQueriedIndex(rows: seq<SourceRow>, key: int)
    requires AllHaveUrls(rows)
  {
    exists q :: 0 <= q < |Sources(rows)| && key == SourceIndex(rows, q)
  }

  /** Distinct queries come from distinct rows, so with unique indices from distinct indices. */
  lemma SourceIndexInjective(rows: seq<SourceRow>, q1: nat, q2: nat)
    requires AllHaveUrls(rows) && UniqueIndices(rows)
    requires q1 < |Sources(rows)| && q2 < |Sources(rows)| && q1 != q2
    ensures SourceIndex(rows, q1) != SourceIndex(rows, q2)
  {
    var src := Sources(rows);
    if q1 < q2 {
      assert src[q1] < src[q2];
    } else {
      assert src[q2] < src[q1];
    }
  }

  /**
    When every arrival that appends carries the key of its query, and the
    queries' keys are distinct, the accumulator's keys are unique and each is
    the key of a query that has arrived.
   */
  lemma {:induction false} AppendedDistinct(idMap: map<string, int>, queries: seq<Query>,
                                            outcomes: seq<QueryOutcome>, order: seq<nat>,
                                            keys: seq<int>, n: nat)
    requires Aligned(queries, outcomes, order) && n <= |order| && |keys| == |queries|
    requires forall p, q :: 0 <= p < q < |keys| ==> keys[p] != keys[q]
    requires forall i :: 0 <= i < |order| && Arrival(idMap, queries, outcomes, order, i).Some? ==>
      Arrival(idMap, queries, outcomes, order, i).value.originalIndex == keys[order[i]]
    ensures var acc := Appended(idMap, queries, outcomes, order, n);
      && UniqueKeys(acc)
      && forall a :: 0 <= a < |acc| ==> exists j :: 0 <= j < n && acc[a].originalIndex == keys[order[j]]
  {
    if n > 0 {
      var prev := Appended(idMap, queries, outcomes, order, n - 1);
      AppendedDistinct(idMap, queries, outcomes, order, keys, n - 1);
      var item := Arrival(idMap, queries, outcomes, order, n - 1);
      if item.Some? {
        var key := item.value.originalIndex;
        forall a | 0 <= a < |prev| ensures prev[a].originalIndex != key {
          var j :| 0 <= j < n - 1 && prev[a].originalIndex == keys[order[j]];
          assert order[j] != order[n - 1];
          if order[j] < order[n - 1] {
            assert keys[order[j]] != keys[order[n - 1]];
          } else {
            assert keys[order[n - 1]] != keys[order[j]];
          }
        }
        AppendOneUnique(prev, item.value);
        var acc := prev + [item.value];
        forall a | 0 <= a < |acc|
          ensures exists j :: 0 <= j < n && acc[a].originalIndex == keys[order[j]]
        {
          if a == |prev| {
            assert acc[a].originalIndex == keys[order[n - 1]];
          } else {
            assert acc[a] == prev[a];
          }
        }
      }
    }
  }

  /**
    With unique row indices and distinct identifiers, the accumulator never
    holds two records for one row, whatever order the answers arrive in, and
    each record belongs to a row whose query has arrived.
   */
  lemma AppendedKeysUnique(rows: seq<SourceRow>, idMap: map<string, int>,
                           outcomes: seq<QueryOutcome>, order: seq<nat>)
    requires AllHaveUrls(rows) && UniqueIndices(rows) && DistinctIds(rows) && IsIdMap(rows, idMap)
    requires Aligned(Queries(rows), outcomes, order)
    ensures var acc := Appended(idMap, Queries(rows), outcomes, order, |order|);
      && UniqueKeys(acc)
      && forall a :: 0 <= a < |acc| ==> IsQueriedIndex(rows, acc[a].originalIndex)
  {
    var queries := Queries(rows);
    var keys := seq(|queries|, q requires 0 <= q < |queries| => SourceIndex(rows, q));
    forall p, q | 0 <= p < q < |keys| ensures keys[p] != keys[q] {
      SourceIndexInjective(rows, p, q);
    }
    forall i | 0 <= i < |order| && Arrival(idMap, queries, outcomes, order, i).Some?
      ensures Arrival(idMap, queries, outcomes, order, i).value.originalIndex == keys[order[i]]
    {
      ItemIndexIsSourceIndex(rows, idMap, outcomes[order[i]], order[i]);
    }
    AppendedDistinct(idMap, queries, outcomes, order, keys, |order|);
    var acc := Appended(idMap, queries, outcomes, order, |order|);
    forall a | 0 <= a < |acc| ensures IsQueriedIndex(rows, acc[a].originalIndex) {
      var j :| 0 <= j < |order| && acc[a].originalIndex == keys[order[j]];
      var q := order[j];
      assert q < |keys| == |Sources(rows)|;
      assert acc[a].originalIndex == SourceIndex(rows, q);
    }
  }

  /** A row that is not queried has no identifier: its URL is NaN or blank. */
  lemma UnqueriedRowHasNoId(row: SourceRow)
    requires HasUrl(row) && !Queryable(row)
    ensures RowId(row).None?
  {
    if Url(row).Text? {
      MovieIdOfStripped(Url(row).s);
      assert FirstMatchFrom(Strip(Url(row).s), 0).None?;
    }
  }

  /** No identifier maps to the index of a row that yields no identifier. */
  lemma NoIdMapsToRow(rows: seq<SourceRow>, idMap: map<string, int>, k: nat, v: int)
    requires AllHaveUrls(rows) && UniqueIndices(rows) && IsIdMap(rows, idMap)
    requires k < |rows| && RowId(rows[k]).None? && v in idMap.Values
    ensures v != rows[k].index
  {
    var id :| id in idMap && idMap[id] == v;
    var j := LastWith(rows, |rows|, id).value;
    assert RowId(rows[j]) == Some(id) && idMap[id] == rows[j].index;
    assert j != k;
    if j < k {
      assert rows[j].index != rows[k].index;
    } else {
      assert rows[k].index != rows[j].index;
    }
  }

  /** A row that was never queried gets no record, whatever identifiers the other rows share. */
  lemma UnqueriedRowUnmatched(rows: seq<SourceRow>, idMap: map<string, int>,
                              outcomes: seq<QueryOutcome>, order: seq<nat>, k: nat)
    requires AllHaveUrls(rows) && UniqueIndices(rows) && IsIdMap(rows, idMap)
    requires Aligned(Queries(rows), outcomes, order)
    requires k < |rows| && !Queryable(rows[k])
    ensures Lookup(Appended(idMap, Queries(rows), outcomes, order, |order|), rows[k].index).None?
  {
    var acc := Appended(idMap, Queries(rows), outcomes, order, |order|);
    UnqueriedRowHasNoId(rows[k]);
    forall a | 0 <= a < |acc| ensures acc[a].originalIndex != rows[k].index {
      NoIdMapsToRow(rows, idMap, k, acc[a].originalIndex);
    }
  }

  /** Every arrival that appends a record leaves it in the accumulator. */
  lemma {:induction false} AppendedHas(idMap: map<string, int>, queries: seq<Query>,
                                       outcomes: seq<QueryOutcome>, order: seq<nat>, n: nat, i: nat)
    requires Aligned(queries, outcomes, order) && i < n <= |order|
    requires Arrival(idMap, queries, outcomes, order, i).Some?
    ensures Arrival(idMap, queries, outcomes, order, i).value in Appended(idMap, queries, outcomes, order, n)
  {
    var accs := AppendedChain(idMap, queries, outcomes, order, n);
    AppendedLast(idMap, queries, outcomes, order, i + 1);
    ChainKeeps(accs, i + 1, n, Arrival(idMap, queries, outcomes, order, i).value);
  }

  /** Along a chain of sequences each extending the one before, a member of one is a member of every later one. */
  lemma {:induction false} ChainKeeps(accs: seq<seq<Record>>, m: nat, n: nat, x: Record)
    requires m <= n < |accs|
    requires forall k :: 0 < k < |accs| ==> accs[k - 1] <= accs[k]
    requires x in accs[m]
    ensures x in accs[n]
  {
    if m < n {
      ChainKeeps(accs, m, n - 1, x);
      var j :| 0 <= j < |accs[n - 1]| && accs[n - 1][j] == x;
      assert accs[n - 1] <= accs[n];
      assert accs[n][j] == x;
    }
  }

  /** The accumulators after 0, 1, ..., `n` items form a chain of extensions. */
  lemma AppendedChain(idMap: map<string, int>, queries: seq<Query>, outcomes: seq<QueryOutcome>,
                      order: seq<nat>, n: nat) returns (accs: seq<seq<Record>>)
    requires Aligned(queries, outcomes, order) && n <= |order|
    ensures |accs| == n + 1
    ensures forall k :: 0 <= k <= n ==> accs[k] == Appended(idMap, queries, outcomes, order, k)
    ensures forall k :: 0 < k < |accs| ==> accs[k - 1] <= accs[k]
  {
    accs := seq(n + 1, k requires 0 <= k <= n => Appended(idMap, queries, outcomes, order, k));
    forall k | 0 < k < |accs| ensures accs[k - 1] <= accs[k] {
      AppendedExtends(idMap, queries, outcomes, order, k);
    }
  }

  /** One more item only extends the accumulator. */
  lemma AppendedExtends(idMap: map<string, int>, queries: seq<Query>, outcomes: seq<QueryOutcome>,
                        order: seq<nat>, n: nat)
    requires Aligned(queries, outcomes, order) && 0 < n <= |order|
    ensures Appended(idMap, queries, outcomes, order, n - 1) <= Appended(idMap, queries, outcomes, order, n)
  {
    var prev := Appended(idMap, queries, outcomes, order, n - 1);
    match Arrival(idMap, queries, outcomes, order, n - 1)
    case None =>
    case Some(rec) => assert Appended(idMap, queries, outcomes, order, n) == prev + [rec];
  }

  /** The `n`-th item's record, if any, is in the accumulator after it. */
  lemma AppendedLast(idMap: map<string, int>, queries: seq<Query>, outcomes: seq<QueryOutcome>,
                     order: seq<nat>, n: nat)
    requires Aligned(queries, outcomes, order) && 0 < n <= |order|
    requires Arrival(idMap, queries, outcomes, order, n - 1).Some?
    ensures Arrival(idMap, queries, outcomes, order, n - 1).value in Appended(idMap, queries, outcomes, order, n)
  {
    AppendStep(Appended(idMap, queries, outcomes, order, n - 1), Appended(idMap, queries, outcomes, order, n),
               Arrival(idMap, queries, outcomes, order, n - 1));
  }

  /** Appending an optional record keeps what was there and adds the record. */
  lemma AppendStep(prev: seq<Record>, acc: seq<Record>, a: Option<Record>)
    requires acc == match a case None => prev case Some(rec) => prev + [rec]
    ensures forall x :: x in prev ==> x in acc
    ensures a.Some? ==> a.value in acc
  {
  }

  /** `rec` is the record one of the first `n` arrivals appends. */
  ghost predicate ArrivedAmong(idMap: map<string, int>, queries: seq<Query>, outcomes: seq<QueryOutcome>,
                               order: seq<nat>, n: nat, rec: Record)
    requires Aligned(queries, outcomes, order) && n <= |order|
  {
    exists j :: 0 <= j < n && Arrival(idMap, queries, outcomes, order, j) == Some(rec)
  }

  /** Every record in the accumulator is what some arrival appended. */
  lemma {:induction false} AppendedFrom(idMap: map<string, int>, queries: seq<Query>,
                                        outcomes: seq<QueryOutcome>, order: seq<nat>, n: nat)
    requires Aligned(queries, outcomes, order) && n <= |order|
    ensures forall a :: 0 <= a < |Appended(idMap, queries, outcomes, order, n)| ==>
      ArrivedAmong(idMap, queries, outcomes, order, n, Appended(idMap, queries, outcomes, order, n)[a])
  {
    if n > 0 {
      var prev := Appended(idMap, queries, outcomes, order, n - 1);
      AppendedFrom(idMap, queries, outcomes, order, n - 1);
      var acc := Appended(idMap, queries, outcomes, order, n);
      forall a | 0 <= a < |acc| ensures ArrivedAmong(idMap, queries, outcomes, order, n, acc[a]) {
        if a < |prev| {
          assert acc[a] == prev[a];
          assert ArrivedAmong(idMap, queries, outcomes, order, n - 1, prev[a]);
          var j :| 0 <= j < n - 1 && Arrival(idMap, queries, outcomes, order, j) == Some(prev[a]);
          assert 0 <= j < n;
        } else {
          assert Arrival(idMap, queries, outcomes, order, n - 1) == Some(acc[a]);
        }
      }
    }
  }

  /**
    With distinct identifiers, the record the accumulator holds for a queried
    row is exactly what that row's own answer appends, and there is none when
    its answer appends nothing.
   */
  lemma QueriedRowRecord(rows: seq<SourceRow>, idMap: map<string, int>,
                         outcomes: seq<QueryOutcome>, order: seq<nat>, q: nat)
    requires AllHaveUrls(rows) && UniqueIndices(rows) && DistinctIds(rows) && IsIdMap(rows, idMap)
    requires Aligned(Queries(rows), outcomes, order) && q < |Queries(rows)|
    ensures Lookup(Appended(idMap, Queries(rows), outcomes, order, |order|), SourceIndex(rows, q)) ==
      ItemRecord(idMap, Queries(rows)[q], outcomes[q])
  {
    if ItemRecord(idMap, Queries(rows)[q], outcomes[q]).Some? {
      QueriedRowFound(rows, idMap, outcomes, order, q);
    } else {
      QueriedRowMissing(rows, idMap, outcomes, order, q);
    }
  }

  /** An answer that appends a record is found under its row's index. */
  lemma QueriedRowFound(rows: seq<SourceRow>, idMap: map<string, int>,
                        outcomes: seq<QueryOutcome>, order: seq<nat>, q: nat)
    requires AllHaveUrls(rows) && UniqueIndices(rows) && DistinctIds(rows) && IsIdMap(rows, idMap)
    requires Aligned(Queries(rows), outcomes, order) && q < |Queries(rows)|
    requires ItemRecord(idMap, Queries(rows)[q], outcomes[q]).Some?
    ensures Lookup(Appended(idMap, Queries(rows), outcomes, order, |order|), SourceIndex(rows, q)) ==
      ItemRecord(idMap, Queries(rows)[q], outcomes[q])
  {
    var queries := Queries(rows);
    var acc := Appended(idMap, queries, outcomes, order, |order|);
    var rec := ItemRecord(idMap, queries[q], outcomes[q]).value;
    AppendedKeysUnique(rows, idMap, outcomes, order);
    assert q in order;
    var i :| 0 <= i < |order| && order[i] == q;
    assert Arrival(idMap, queries, outcomes, order, i) == Some(rec);
    AppendedHas(idMap, queries, outcomes, order, |order|, i);
    ItemIndexIsSourceIndex(rows, idMap, outcomes[q], q);
    var a :| 0 <= a < |acc| && acc[a] == rec;
    LookupUnique(acc, a);
  }

  /** An answer that appends nothing leaves its row's index without a record. */
  lemma QueriedRowMissing(rows: seq<SourceRow>, idMap: map<string, int>,
                          outcomes: seq<QueryOutcome>, order: seq<nat>, q: nat)
    requires AllHaveUrls(rows) && UniqueIndices(rows) && IsIdMap(rows, idMap)
    requires Aligned(Queries(rows), outcomes, order) && q < |Queries(rows)|
    requires DistinctIds(rows)
    requires ItemRecord(idMap, Queries(rows)[q], outcomes[q]).None?
    ensures Lookup(Appended(idMap, Queries(rows), outcomes, order, |order|), SourceIndex(rows, q)).None?
  {
    var queries := Queries(rows);
    var acc := Appended(idMap, queries, outcomes, order, |order|);
    AppendedFrom(idMap, queries, outcomes, order, |order|);
    forall a | 0 <= a < |acc| ensures acc[a].originalIndex != SourceIndex(rows, q) {
      assert ArrivedAmong(idMap, queries, outcomes, order, |order|, acc[a]);
      var j :| 0 <= j < |order| && Arrival(idMap, queries, outcomes, order, j) == Some(acc[a]);
      ItemIndexIsSourceIndex(rows, idMap, outcomes[order[j]], order[j]);
      if order[j] != q {
        SourceIndexInjective(rows, order[j], q);
      }
    }
  }

  /**
    The joined rows put every queried row next to what its own answer
    appends (NaN when it appends nothing), and every other row next to NaN.
   */
  predicate AnswersAttached(rows: seq<SourceRow>, idMap: map<string, int>, outcomes: seq<QueryOutcome>,
                            joined: seq<JoinedRow>)
    requires AllHaveUrls(rows) && |outcomes| == |Queries(rows)|
  {
    && |joined| == |rows|
    && (forall q :: 0 <= q < |Sources(rows)| ==>
          joined[Sources(rows)[q]] == JoinOne(rows[Sources(rows)[q]], ItemRecord(idMap, Queries(rows)[q], outcomes[q])))
    && (forall k :: 0 <= k < |rows| && !Queryable(rows[k]) ==> joined[k] == Unmatched(rows[k]))
  }

  /** With distinct identifiers, the joined table attaches to each row its own answer's record. */
  lemma JoinedAnswers(table: SourceTable, idMap: map<string, int>, outcomes: seq<QueryOutcome>, order: seq<nat>)
    requires WellFormed(table) && AllHaveUrls(table.rows) && DistinctIds(table.rows) && IsIdMap(table.rows, idMap)
    requires Aligned(Queries(table.rows), outcomes, order)
    ensures AnswersAttached(table.rows, idMap, outcomes,
                            LeftJoin(table.rows, Appended(idMap, Queries(table.rows), outcomes, order, |order|)))
  {
    var rows := table.rows;
    var acc := Appended(idMap, Queries(rows), outcomes, order, |order|);
    AppendedKeysUnique(rows, idMap, outcomes, order);
    JoinUnique(rows, acc);
    var joined := LeftJoin(rows, acc);
    forall q | 0 <= q < |Sources(rows)|
      ensures joined[Sources(rows)[q]] == JoinOne(rows[Sources(rows)[q]], ItemRecord(idMap, Queries(rows)[q], outcomes[q]))
    {
      QueriedRowRecord(rows, idMap, outcomes, order, q);
    }
    forall k | 0 <= k < |rows| && !Queryable(rows[k]) ensures joined[k] == Unmatched(rows[k]) {
      UnqueriedRowUnmatched(rows, idMap, outcomes, order, k);
    }
  }

  /**
    The file the delegated variant writes leaves a row with a missing or
    blank URL as NaN under the scraped column names; the table it fills and
    renamed afterwards, and never writes, has the defaults.
   */
  lemma ZyteWrittenRowUnfilled(table: SourceTable, idMap: map<string, int>,
                               outcomes: seq<QueryOutcome>, order: seq<nat>, k: nat)
    requires WellFormed(table) && DistinctIds(table.rows) && IsIdMap(table.rows, idMap)
    requires Aligned(Queries(table.rows), outcomes, order)
    requires k < |table.rows| && !Queryable(table.rows[k])
    requires Appended(idMap, Queries(table.rows), outcomes, order, |order|) != [] && !Overlap(table.header)
    ensures var acc := Appended(idMap, Queries(table.rows), outcomes, order, |order|);
      && Join(table, acc).value.rows[k].budget.None?
      && FinalizeFilled(table, acc).value.rows[k].budget == Some(0.0)
  {
    var acc := Appended(idMap, Queries(table.rows), outcomes, order, |order|);
    AppendedKeysUnique(table.rows, idMap, outcomes, order);
    UnqueriedRowUnmatched(table.rows, idMap, outcomes, order, k);
    SkippedRowWrittenUnfilled(table, acc, k);
  }

  /** Appending a record with a fresh key keeps the keys unique. */
  lemma AppendOneUnique(prev: seq<Record>, rec: Record)
    requires UniqueKeys(prev)
    requires forall a :: 0 <= a < |prev| ==> prev[a].originalIndex != rec.originalIndex
    ensures UniqueKeys(prev + [rec])
  {
    var acc := prev + [rec];
    forall i, j | 0 <= i < j < |acc| ensures acc[i].originalIndex != acc[j].originalIndex {
      assert acc[i] == prev[i];
      if j < |prev| {
        assert acc[j] == prev[j];
      }
    }
  }

  /** One more arrival: it appends its record, if any, and saves a snapshot at a checkpoint. */
  lemma ArrivalStep(idMap: map<string, int>, queries: seq<Query>, outcomes: seq<QueryOutcome>,
                    order: seq<nat>, i: nat, total: nat)
    requires Aligned(queries, outcomes, order) && i < |order|
    ensures var prev := Appended(idMap, queries, outcomes, order, i);
      Appended(idMap, queries, outcomes, order, i + 1) ==
        match Arrival(idMap, queries, outcomes, order, i)
        case None => prev
        case Some(rec) => prev + [rec]
    ensures ZyteLog(idMap, queries, outcomes, order, i + 1, total) ==
      ZyteLog(idMap, queries, outcomes, order, i, total)
      + (if Arrival(idMap, queries, outcomes, order, i).Some? && IsCheckpoint(i + 1, total)
         then [Appended(idMap, queries, outcomes, order, i + 1)] else [])
  {
  }

  /**
    The `session.iter(queries)` loop: items counted from 1, skipped on a
    request error, an unmapped identifier or an exception in `scraper`.
   */
  method CollectAnswers(idMap: map<string, int>, queries: seq<Query>, outcomes: seq<QueryOutcome>,
                        order: seq<nat>, total: nat)
    returns (acc: seq<Record>, ghost log: seq<seq<Record>>)
    requires Aligned(queries, outcomes, order)
    ensures acc == Appended(idMap, queries, outcomes, order, |queries|)
    ensures log == ZyteLog(idMap, queries, outcomes, order, |queries|, total)
  {
    acc := [];
    log := [];
    for i := 0 to |queries|
      invariant acc == Appended(idMap, queries, outcomes, order, i)
      invariant log == ZyteLog(idMap, queries, outcomes, order, i, total)
    {
      ArrivalStep(idMap, queries, outcomes, order, i, total);
      var q := order[i];
      var outcome := outcomes[q];
      if outcome.RequestFailed? {
        continue;
      }
      var url := queries[q].url;
      var index: Option<int> := match MovieId(Text(url))
        case Some(id) => if id in idMap then Some(idMap[id]) else None
        case None => None;
      if index.None? {
        continue;
      }
      var data := Scraper(outcome.body, index.value);
      if data.Raised? {
        continue;
      }
      acc := acc + [data.value];
      if IsCheckpoint(i + 1, total) {
        log := log + [acc];
      }
    }
  }

  /**
    `main(filepath)`. The map is built from the rows, the queries from the
    usable URLs; each arriving item appends at most one record and
    checkpoints only after appending; the file written is the plain join,
    and the table filled and renamed afterwards is `final`.
   */
  method ZyteMain(table: SourceTable, outcomes: seq<QueryOutcome>, order: seq<nat>)
    returns (idMap: map<string, int>, queries: seq<Query>, acc: seq<Record>,
             ghost log: seq<seq<Record>>, written: Option<Table>, final: Option<Table>)
    requires WellFormed(table)
    requires Aligned(Queries(table.rows), outcomes, order)
    ensures AllHaveUrls(table.rows) && IsIdMap(table.rows, idMap)
    ensures queries == Queries(table.rows)
    ensures acc == Appended(idMap, queries, outcomes, order, |queries|)
    ensures |acc| <= |queries| && forall a :: 0 <= a < |acc| ==> acc[a].originalIndex in idMap.Values
    ensures DistinctIds(table.rows) ==> UniqueKeys(acc)
    ensures forall k :: 0 <= k < |table.rows| && !Queryable(table.rows[k]) ==>
      Lookup(acc, table.rows[k].index).None?
    ensures DistinctIds(table.rows) ==> forall q :: 0 <= q < |queries| ==>
      Lookup(acc, SourceIndex(table.rows, q)) == ItemRecord(idMap, queries[q], outcomes[q])
    ensures log == ZyteLog(idMap, queries, outcomes, order, |queries|, |table.rows|)
    ensures written == Join(table, acc)
    ensures DistinctIds(table.rows) && written.Some? ==> AnswersAttached(table.rows, idMap, outcomes, written.value.rows)
    ensures final == FinalizeFilled(table, acc)
    ensures final.Some? <==> written.Some?
    ensures final.Some? ==> final.value.rows == FillAll(written.value.rows)
  {
    var rows := table.rows;
    WellFormedRowsHaveUrls(table);
    var total := |rows|;
    idMap := MappingDict(rows);
    queries := Queries(rows);
    acc, log := CollectAnswers(idMap, queries, outcomes, order, total);
    forall k | 0 <= k < |rows| && !Queryable(rows[k]) ensures Lookup(acc, rows[k].index).None? {
      UnqueriedRowUnmatched(rows, idMap, outcomes, order, k);
    }
    if DistinctIds(rows) {
      AppendedKeysUnique(rows, idMap, outcomes, order);
      forall q | 0 <= q < |queries|
        ensures Lookup(acc, SourceIndex(rows, q)) == ItemRecord(idMap, queries[q], outcomes[q])
      {
        QueriedRowRecord(rows, idMap, outcomes, order, q);
      }
      JoinedAnswers(table, idMap, outcomes, order);
    }
    written := Join(table, acc);
    final := FinalizeFilled(table, acc);
  }
}
