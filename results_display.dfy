/**
 * The results panel: the table view's cells and the CSV export text, both
 * read with the rule `row[header] || ""`.
 */
module ResultsDisplay {
  import opened TableData
  import opened Text

  /** The body of the table view: one line of cells per row, one cell per header, in order. */
  function TableView(t: TableResult): (v: seq<seq<string>>)
    ensures |v| == |t.rows|
    ensures forall i :: 0 <= i < |v| ==> |v[i]| == |t.headers|
  {
    seq(|t.rows|, i requires 0 <= i < |t.rows| => RowCells(t.rows[i], t.headers))
  }

  /** Each cell of the table view is the row's value for that column's header, or empty when there is none. */
  lemma TableViewCell(t: TableResult, i: nat, j: nat)
    requires i < |t.rows| && j < |t.headers|
    ensures t.headers[j] in t.rows[i] ==> TableView(t)[i][j] == t.rows[i][t.headers[j]]
    ensures t.headers[j] !in t.rows[i] ==> TableView(t)[i][j] == []
  {
  }

  /** One CSV data line: the row's cells in header order, joined by commas, with no quoting. */
  function CsvLine(row: Row, headers: seq<string>): string {
    Join(RowCells(row, headers), ',')
  }

  /** The lines of the export: the header line, then one line per row. */
  function CsvLines(t: TableResult): (ls: seq<string>)
    ensures |ls| == 1 + |t.rows|
  {
    [Join(t.headers, ',')] + seq(|t.rows|, i requires 0 <= i < |t.rows| => CsvLine(t.rows[i], t.headers))
  }

  /** The text of the CSV export: its lines joined by newlines. */
  function CsvContent(t: TableResult): string {
    Join(CsvLines(t), '\n')
  }

  /** No header and no cell holds the character `c`. */
  predicate Avoids(t: TableResult, c: char) {
    && (forall j :: 0 <= j < |t.headers| ==> c !in t.headers[j])
    && (forall i, h :: 0 <= i < |t.rows| && h in t.rows[i] ==> c !in t.rows[i][h])
  }

  /** A row's cells avoid what the table's cells avoid (a missing cell is empty). */
  lemma RowCellsAvoid(t: TableResult, i: nat, c: char)
    requires Avoids(t, c) && i < |t.rows|
    ensures forall j :: 0 <= j < |t.headers| ==> c !in RowCells(t.rows[i], t.headers)[j]
  {
  }

  /**
   * When no header and no cell holds a newline, the export has exactly one
   * line more than there are rows: first the headers joined by commas, then
   * row k's cells in header order, for every k in order.
   */
  lemma {:induction false} CsvSplitLines(t: TableResult)
    requires Avoids(t, '\n')
    ensures |Split(CsvContent(t), '\n')| == 1 + |t.rows|
    ensures Split(CsvContent(t), '\n')[0] == Join(t.headers, ',')
    ensures forall k :: 0 <= k < |t.rows| ==>
      Split(CsvContent(t), '\n')[k + 1] == Join(TableView(t)[k], ',')
  {
    var ls := CsvLines(t);
    JoinAvoids(t.headers, ',', '\n');
    forall k | 0 <= k < |ls| ensures '\n' !in ls[k] {
      if k > 0 {
        RowCellsAvoid(t, k - 1, '\n');
        JoinAvoids(RowCells(t.rows[k - 1], t.headers), ',', '\n');
      }
    }
    SplitJoin(ls, '\n');
  }

  /**
   * When, besides, no header and no cell holds a comma and there is at least
   * one header, splitting any line of the export at commas gives back exactly
   * the headers, or exactly the cells the table view shows for that row.
   */
  lemma CsvFields(t: TableResult)
    requires Avoids(t, '\n') && Avoids(t, ',') && |t.headers| >= 1
    ensures |Split(CsvContent(t), '\n')| == 1 + |t.rows|
    ensures Split(Split(CsvContent(t), '\n')[0], ',') == t.headers
    ensures forall k :: 0 <= k < |t.rows| ==>
      Split(Split(CsvContent(t), '\n')[k + 1], ',') == TableView(t)[k]
  {
    CsvSplitLines(t);
    SplitJoin(t.headers, ',');
    forall k | 0 <= k < |t.rows|
      ensures Split(Split(CsvContent(t), '\n')[k + 1], ',') == TableView(t)[k]
    {
      RowCellsAvoid(t, k, ',');
      SplitJoin(TableView(t)[k], ',');
    }
  }

  /** Values are not escaped: a comma inside a cell adds a field to its line. */
  lemma CommaCellAddsField()
    ensures var t := TableResult(["a", "b"], [map["a" := "x,y", "b" := "z"]]);
      Split(CsvLines(t)[1], ',') == ["x", "y", "z"]
  {
    var t := TableResult(["a", "b"], [map["a" := "x,y", "b" := "z"]]);
    assert RowCells(t.rows[0], t.headers) == ["x,y", "z"];
    assert CsvLines(t)[1] == "x,y,z";
    assert "x,y,z" == "x" + ([','] + "y,z") && "y,z" == "y" + ([','] + "z");
    SplitWord("z", ',');
    SplitAfterWord("y", "z", ',');
    SplitAfterWord("x", "y,z", ',');
  }
}
