/**
  Finalizing: the accumulated records, indexed by `original_index`, are
  left-joined onto the source table; the delegated variant then fills the
  holes; the four scraped columns are renamed.
 */
module Merge {
  import opened Wrappers
  import opened Rows
  import opened Cleaners
  import opened Extraction

  /**
    A row of the joined table: the source row's cells followed by the four
    scraped columns, each of which may be NaN (`None`).
   */
  datatype JoinedRow = JoinedRow(source: SourceRow, imgLink: Option<string>, budget: Option<real>,
                                 revenue: Option<real>, lang: Option<string>)

  /** A source row with a matching record. */
  function Attach(row: SourceRow, rec: Record): JoinedRow {
    JoinedRow(row, Some(rec.imgLink), rec.budget, rec.revenue, Some(rec.lang))
  }

  /** A source row no record matched: NaN in every scraped column. */
  function Unmatched(row: SourceRow): JoinedRow {
    JoinedRow(row, None, None, None, None)
  }

  /** No two records carry the same `original_index`. */
  predicate UniqueKeys(recs: seq<Record>) {
    forall i, j :: 0 <= i < j < |recs| ==> recs[i].originalIndex != recs[j].originalIndex
  }

  /** The records whose `original_index` is `idx`, in accumulator order. */
  function MatchesOf(recs: seq<Record>, idx: int): (r: seq<Record>)
    ensures |r| <= |recs|
    ensures forall x :: x in r ==> x in recs && x.originalIndex == idx
    ensures forall j :: 0 <= j < |recs| && recs[j].originalIndex == idx ==> recs[j] in r
  {
    if recs == [] then []
    else (if recs[0].originalIndex == idx then [recs[0]] else []) + MatchesOf(recs[1..], idx)
  }

  /** The rows a left join makes of one source row: one per match, or one unmatched row. */
  function JoinRow(row: SourceRow, recs: seq<Record>): seq<JoinedRow> {
    var ms := MatchesOf(recs, row.index);
    if ms == [] then [Unmatched(row)]
    else seq(|ms|, j requires 0 <= j < |ms| => Attach(row, ms[j]))
  }

  /** `df.join(result_df)` on the rows: every source row is kept, in order, with its matches. */
  function LeftJoin(rows: seq<SourceRow>, recs: seq<Record>): (r: seq<JoinedRow>)
    ensures |r| >= |rows|
  {
    if rows == [] then [] else JoinRow(rows[0], recs) + LeftJoin(rows[1..], recs)
  }

  /** The first record with `original_index` equal to `idx`. */
  function Lookup(recs: seq<Record>, idx: int): (r: Option<Record>)
    ensures r.Some? ==> r.value in recs && r.value.originalIndex == idx
    ensures r.None? <==> forall j :: 0 <= j < |recs| ==> recs[j].originalIndex != idx
  {
    if recs == [] then None
    else if recs[0].originalIndex == idx then Some(recs[0])
    else Lookup(recs[1..], idx)
  }

  /** `Lookup` finds the earliest record with the index, not a later one. */
  lemma {:induction false} LookupFirst(recs: seq<Record>, idx: int, j: nat)
    requires j < |recs| && recs[j].originalIndex == idx
    requires forall i :: 0 <= i < j ==> recs[i].originalIndex != idx
    ensures Lookup(recs, idx) == Some(recs[j])
  {
    if j > 0 {
      var tail := recs[1..];
      assert tail[j - 1] == recs[j];
      forall i | 0 <= i < j - 1 ensures tail[i].originalIndex != idx {
        assert tail[i] == recs[i + 1];
      }
      LookupFirst(tail, idx, j - 1);
    }
  }

  /** The joined row of a source row, given the record that matches it, if any. */
  function JoinOne(row: SourceRow, rec: Option<Record>): JoinedRow {
    match rec
    case None => Unmatched(row)
    case Some(r) => Attach(row, r)
  }

  /** With unique keys a record is found by its own index. */
  lemma {:induction false} LookupUnique(recs: seq<Record>, j: nat)
    requires UniqueKeys(recs) && j < |recs|
    ensures Lookup(recs, recs[j].originalIndex) == Some(recs[j])
  {
    if j > 0 {
      assert recs[0].originalIndex != recs[j].originalIndex;
      assert recs[1..][j - 1] == recs[j];
      LookupUnique(recs[1..], j - 1);
    }
  }

  /** With unique keys a source row has at most one match, the one `Lookup` finds. */
  lemma {:induction false} MatchesOfUnique(recs: seq<Record>, idx: int)
    requires UniqueKeys(recs)
    ensures MatchesOf(recs, idx) == match Lookup(recs, idx) case None => [] case Some(r) => [r]
  {
    if recs != [] {
      var tail := recs[1..];
      assert UniqueKeys(tail) by {
        forall i, j | 0 <= i < j < |tail| ensures tail[i].originalIndex != tail[j].originalIndex {
          assert tail[i] == recs[i + 1] && tail[j] == recs[j + 1];
        }
      }
      MatchesOfUnique(tail, idx);
      if recs[0].originalIndex == idx {
        forall j | 0 <= j < |tail| ensures tail[j].originalIndex != idx {
          assert tail[j] == recs[j + 1];
        }
      }
    }
  }

  /**
    With unique keys the join has exactly one row per source row, in source
    order: the row with its record attached, or unmatched.
   */
  lemma {:induction false} JoinUnique(rows: seq<SourceRow>, recs: seq<Record>)
    requires UniqueKeys(recs)
    ensures |LeftJoin(rows, recs)| == |rows|
    ensures forall k :: 0 <= k < |rows| ==>
      LeftJoin(rows, recs)[k] == JoinOne(rows[k], Lookup(recs, rows[k].index))
  {
    if rows != [] {
      var head := JoinRow(rows[0], recs);
      var tail := LeftJoin(rows[1..], recs);
      JoinRowUnique(rows[0], recs);
      JoinUnique(rows[1..], recs);
      assert LeftJoin(rows, recs) == head + tail;
      forall k | 0 <= k < |rows|
        ensures LeftJoin(rows, recs)[k] == JoinOne(rows[k], Lookup(recs, rows[k].index))
      {
        if k > 0 {
          assert (head + tail)[k] == tail[k - 1];
          assert rows[1..][k - 1] == rows[k];
        }
      }
    }
  }

  /** With unique keys one source row joins to exactly one row. */
  lemma JoinRowUnique(row: SourceRow, recs: seq<Record>)
    requires UniqueKeys(recs)
    ensures JoinRow(row, recs) == [JoinOne(row, Lookup(recs, row.index))]
  {
    MatchesOfUnique(recs, row.index);
  }

  /** The columns the records contribute, in dict order. */
  const FieldColumns: seq<string> := ["img_link", "budget_value", "revenue_value", "lang"]

  /** Their names in the enriched output. */
  const PublicColumns: seq<string> := ["POSTER_IMAGE_LINK", "BUDGET_USD", "REVENUE_USD", "ORIGINAL_LANGUAGE"]

  function RenameColumn(c: string): string {
    if c == FieldColumns[0] then PublicColumns[0]
    else if c == FieldColumns[1] then PublicColumns[1]
    else if c == FieldColumns[2] then PublicColumns[2]
    else if c == FieldColumns[3] then PublicColumns[3]
    else c
  }

  /** `rename(columns={...})`: the four scraped columns get their public names, no other column changes. */
  function RenameColumns(header: seq<string>): (r: seq<string>)
    ensures |r| == |header|
    ensures forall k :: 0 <= k < |header| && header[k] !in FieldColumns ==> r[k] == header[k]
    ensures forall k, f :: 0 <= k < |header| && 0 <= f < 4 && header[k] == FieldColumns[f] ==>
      r[k] == PublicColumns[f]
  {
    seq(|header|, k requires 0 <= k < |header| => RenameColumn(header[k]))
  }

  /** The source already has a column named like a scraped one: `join` raises on the clash. */
  predicate Overlap(header: seq<string>) {
    exists k :: 0 <= k < |header| && header[k] in FieldColumns
  }

  /** Renaming the joined header renames exactly the four appended columns. */
  lemma RenameJoinedHeader(header: seq<string>)
    requires !Overlap(header)
    ensures RenameColumns(header + FieldColumns) == header + PublicColumns
  {
    var h := header + FieldColumns;
    forall k | 0 <= k < |h| ensures RenameColumns(h)[k] == (header + PublicColumns)[k] {
      if k >= |header| {
        assert h[k] == FieldColumns[k - |header|];
      } else {
        assert h[k] == header[k] && h[k] !in FieldColumns;
      }
    }
  }

  /** An output table: its header and rows (written with `index=False`). */
  datatype Table = Table(header: seq<string>, rows: seq<JoinedRow>)

  /**
    `df.join(pd.DataFrame(recs).set_index('original_index'))`. There is no
    table when there are no records (`set_index` finds no such column and
    raises) or when a source column clashes with a scraped one.
   */
  function Join(source: SourceTable, recs: seq<Record>): (r: Option<Table>)
    ensures r.Some? <==> recs != [] && !Overlap(source.header)
    ensures r.Some? ==> r.value.header == source.header + FieldColumns
    ensures r.Some? ==> r.value.rows == LeftJoin(source.rows, recs)
  {
    if recs == [] || Overlap(source.header) then None
    else Some(Table(source.header + FieldColumns, LeftJoin(source.rows, recs)))
  }

  function Renamed(t: Table): Table {
    Table(RenameColumns(t.header), t.rows)
  }

  /** The threaded variant's output: the join with the four columns renamed. */
  function FinalizeThreaded(source: SourceTable, recs: seq<Record>): (r: Option<Table>)
    ensures r.Some? <==> recs != [] && !Overlap(source.header)
    ensures r.Some? ==> r.value.header == source.header + PublicColumns
    ensures r.Some? ==> r.value.rows == LeftJoin(source.rows, recs)
  {
    match Join(source, recs)
    case None => None
    case Some(t) =>
      RenameJoinedHeader(source.header);
      Some(Renamed(t))
  }

  /**
    The four `fillna` calls on one row: NaN becomes 0.0, 0.0, "Not Available"
    and "". They apply to every NaN, including a matched row's unparsable amount.
   */
  function FillMissing(jr: JoinedRow): (r: JoinedRow)
    ensures r.source == jr.source
    ensures r.imgLink.Some? && r.budget.Some? && r.revenue.Some? && r.lang.Some?
    ensures jr.imgLink.Some? ==> r.imgLink == jr.imgLink
    ensures jr.budget.Some? ==> r.budget == jr.budget
    ensures jr.revenue.Some? ==> r.revenue == jr.revenue
    ensures jr.lang.Some? ==> r.lang == jr.lang
  {
    JoinedRow(jr.source, Some(jr.imgLink.GetOr("")), Some(jr.budget.GetOr(0.0)),
              Some(jr.revenue.GetOr(0.0)), Some(jr.lang.GetOr(NotAvailable)))
  }

  /** A skipped row is filled with "", 0.0, 0.0 and "Not Available". */
  lemma FillUnmatched(row: SourceRow)
    ensures FillMissing(Unmatched(row)) == JoinedRow(row, Some(""), Some(0.0), Some(0.0), Some(NotAvailable))
  {
  }

  /** A matched row keeps its record, except that a NaN amount becomes 0.0. */
  lemma FillMatched(row: SourceRow, rec: Record)
    ensures FillMissing(Attach(row, rec)) ==
      JoinedRow(row, Some(rec.imgLink), Some(rec.budget.GetOr(0.0)), Some(rec.revenue.GetOr(0.0)), Some(rec.lang))
  {
  }

  function FillAll(rows: seq<JoinedRow>): (r: seq<JoinedRow>)
    ensures |r| == |rows| && forall k :: 0 <= k < |rows| ==> r[k] == FillMissing(rows[k])
  {
    seq(|rows|, k requires 0 <= k < |rows| => FillMissing(rows[k]))
  }

  /** The finished delegated-variant table: joined, every hole filled, columns renamed. */
  function FinalizeFilled(source: SourceTable, recs: seq<Record>): (r: Option<Table>)
    ensures r.Some? <==> recs != [] && !Overlap(source.header)
    ensures r.Some? ==> r.value.header == source.header + PublicColumns
    ensures r.Some? ==> r.value.rows == FillAll(LeftJoin(source.rows, recs))
  {
    match Join(source, recs)
    case None => None
    case Some(t) =>
      RenameJoinedHeader(source.header);
      Some(Renamed(Table(t.header, FillAll(t.rows))))
  }

  /**
    A source row no record matched is written as NaN with the scraped column
    names, while the filled and renamed table gives it 0.0 under the public
    names.
   */
  lemma SkippedRowWrittenUnfilled(source: SourceTable, recs: seq<Record>, k: nat)
    requires recs != [] && !Overlap(source.header) && UniqueKeys(recs) && k < |source.rows|
    requires Lookup(recs, source.rows[k].index).None?
    ensures var written := Join(source, recs).value;
      k < |written.rows| && written.rows[k] == Unmatched(source.rows[k])
    ensures var filled := FinalizeFilled(source, recs).value;
      k < |filled.rows| && filled.rows[k] == JoinedRow(source.rows[k], Some(""), Some(0.0), Some(0.0), Some(NotAvailable))
    ensures Join(source, recs).value.header != FinalizeFilled(source, recs).value.header
  {
    JoinUnique(source.rows, recs);
    var n := |source.header|;
    assert (source.header + FieldColumns)[n] != (source.header + PublicColumns)[n];
  }
}
