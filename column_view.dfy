/**
 * The column view: the table pivoted into one list of values per header,
 * rendered as one card per header in header order.
 */
module ColumnView {
  import opened TableData

  /** `rows.map(row => row[header] || "")`: one header's values, row by row. */
  function Column(rows: seq<Row>, header: string): (col: seq<string>)
    ensures |col| == |rows|
    ensures forall i :: 0 <= i < |rows| && header in rows[i] ==> col[i] == rows[i][header]
    ensures forall i :: 0 <= i < |rows| && header !in rows[i] ==> col[i] == []
  {
    seq(|rows|, i requires 0 <= i < |rows| => CellText(rows[i], header))
  }

  /** The dictionary the pivot ends with: every distinct header mapped to its column. */
  function ColumnData(t: TableResult): map<string, seq<string>> {
    map h | h in HeaderKeys(t.headers) :: Column(t.rows, h)
  }

  /**
   * The `forEach` of lines 16-18: each header's entry is (re)written with its
   * column, so a repeated header writes the same list again.
   */
  method BuildColumnData(t: TableResult) returns (columnData: map<string, seq<string>>)
    ensures columnData == ColumnData(t)
  {
    columnData := map[];
    for k := 0 to |t.headers|
      invariant columnData.Keys == HeaderKeys(t.headers[..k])
      invariant forall h :: h in columnData ==> columnData[h] == Column(t.rows, h)
    {
      var header := t.headers[k];
      assert t.headers[..k + 1] == t.headers[..k] + [header];
      columnData := columnData[header := Column(t.rows, header)];
    }
    assert t.headers[..|t.headers|] == t.headers;
  }

  /**
   * One entry per distinct header; each column as long as the table, with
   * element i taken from row i.
   */
  lemma ColumnDataShape(t: TableResult)
    ensures ColumnData(t).Keys == HeaderKeys(t.headers)
    ensures forall h :: h in ColumnData(t) ==> |ColumnData(t)[h]| == |t.rows|
    ensures forall h, i :: h in ColumnData(t) && 0 <= i < |t.rows| ==>
      ColumnData(t)[h][i] == CellText(t.rows[i], h)
  {
  }

  /** A header that appears twice gives the same dictionary as when it appears once. */
  lemma DuplicateHeaderIdle(t: TableResult, h: string)
    requires h in t.headers
    ensures ColumnData(TableResult(t.headers + [h], t.rows)) == ColumnData(t)
  {
    assert HeaderKeys(t.headers + [h]) == HeaderKeys(t.headers);
  }

  /** The cards of lines 22-33: one per header, in header order, each with its column. */
  function Cards(headers: seq<string>, columnData: map<string, seq<string>>): (cs: seq<(string, seq<string>)>)
    requires forall j :: 0 <= j < |headers| ==> headers[j] in columnData
    ensures |cs| == |headers|
  {
    seq(|headers|, j requires 0 <= j < |headers| => (headers[j], columnData[headers[j]]))
  }

  /**
   * Card j carries header j, and its i-th value is the cell the table view
   * shows in row i under that header.
   */
  lemma CardsMatchTable(t: TableResult)
    ensures forall j :: 0 <= j < |t.headers| ==> t.headers[j] in ColumnData(t)
    ensures forall j :: 0 <= j < |t.headers| ==> Cards(t.headers, ColumnData(t))[j].0 == t.headers[j]
    ensures forall j, i :: 0 <= j < |t.headers| && 0 <= i < |t.rows| ==>
      Cards(t.headers, ColumnData(t))[j].1[i] == RowCells(t.rows[i], t.headers)[j]
  {
  }
}
