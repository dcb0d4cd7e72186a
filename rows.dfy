/**
  The source table as `pd.read_csv(filepath, dtype=object)` delivers it and
  `df.itertuples(index=True, name=None)` walks it: every cell is either a
  string or a missing value (NaN), and each row tuple is the row's index
  followed by its cells, so `row[5]`, the detail URL, is the fifth cell.
 */
module Rows {

  /** One pandas object cell: a string or NaN. */
  datatype Cell = Text(s: string) | NaN

  /** A row tuple: `row[0]` is `index`, `row[1..]` are `cells`. */
  datatype SourceRow = SourceRow(index: int, cells: seq<Cell>)

  datatype SourceTable = SourceTable(header: seq<string>, rows: seq<SourceRow>)

  /** `row[5]` is `cells[UrlColumn]`. */
  const UrlColumn := 4

  predicate HasUrl(row: SourceRow) {
    |row.cells| > UrlColumn
  }

  function Url(row: SourceRow): Cell
    requires HasUrl(row)
  {
    row.cells[UrlColumn]
  }

  predicate AllHaveUrls(rows: seq<SourceRow>) {
    forall k :: 0 <= k < |rows| ==> HasUrl(rows[k])
  }

  /** No two rows share an index (read_csv numbers rows 0, 1, 2, ...). */
  predicate UniqueIndices(rows: seq<SourceRow>) {
    forall j, k :: 0 <= j < k < |rows| ==> rows[j].index != rows[k].index
  }

  /** A table as read_csv yields it: every row as wide as the header, which has a fifth column. */
  predicate WellFormed(t: SourceTable) {
    && |t.header| > UrlColumn
    && (forall k :: 0 <= k < |t.rows| ==> |t.rows[k].cells| == |t.header|)
    && UniqueIndices(t.rows)
  }

  /** Every row of a well-formed table has a URL cell. */
  lemma WellFormedRowsHaveUrls(t: SourceTable)
    requires WellFormed(t)
    ensures AllHaveUrls(t.rows)
  {
  }
}
