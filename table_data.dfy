/**
 * The table the extractor produces and every view consumes: an ordered list of
 * column headers and one record per data row, from header text to cell text.
 */
module TableData {

  /** One data row, keyed by header text. */
  type Row = map<string, string>

  datatype TableResult = TableResult(headers: seq<string>, rows: seq<Row>)

  function HeaderKeys(headers: seq<string>): set<string> {
    set h | h in headers
  }

  /** Every row has a cell for every header and for nothing else. */
  predicate WellFormed(t: TableResult) {
    forall i :: 0 <= i < |t.rows| ==> t.rows[i].Keys == HeaderKeys(t.headers)
  }

  /** `row[header] || ""`: a missing (or empty) cell reads as the empty string. */
  function CellText(row: Row, header: string): string {
    if header in row then row[header] else []
  }

  /** The cells of one row in header order. */
  function RowCells(row: Row, headers: seq<string>): seq<string> {
    seq(|headers|, j requires 0 <= j < |headers| => CellText(row, headers[j]))
  }
}
