/**
 * `process_table` (ocr.py) after `pd.read_html`: the first row of the
 * parsed frame becomes the header and the remaining rows become
 * header-to-cell maps. The HTML parser itself is a parameter.
 */
module TableNormalizer {
  import opened Common
  import opened Records

  /** A parsed frame: `width` columns and its rows of cells. */
  datatype Grid = Grid(width: nat, rows: seq<seq<Cell>>)

  predicate Rectangular(g: Grid)
  {
    forall r :: r in g.rows ==> |r| == g.width
  }

  /** What `pd.read_html(...)[0]` returns: every row as wide as the frame. */
  type Frame = g: Grid | Rectangular(g) witness Grid(0, [])

  /** `df.empty`: no rows or no columns. */
  predicate IsEmpty(f: Frame)
  {
    f.rows == [] || f.width == 0
  }

  /** `dict(zip(header, row))`: when a header value repeats, the later
      column wins. */
  function RowMap(header: seq<Cell>, row: seq<Cell>): map<Cell, Cell>
    requires |header| == |row|
    decreases |header|
  {
    if header == [] then map[]
    else RowMap(header[..|header| - 1], row[..|row| - 1])[header[|header| - 1] := row[|row| - 1]]
  }

  /** `df.to_dict('records')` once the header row is taken off. */
  function TableRecords(header: seq<Cell>, rows: seq<seq<Cell>>): seq<TableRow>
    requires forall r :: r in rows ==> |r| == |header|
  {
    seq(|rows|, k requires 0 <= k < |rows| => RowMap(header, rows[k]))
  }

  /** `process_table(text)` given what the parser made of `text`: `None`
      when `read_html` raised. */
  function ProcessTable(text: string, parsed: Option<Frame>): Content
  {
    match parsed
    case None => TableError(text)
    case Some(f) =>
      if IsEmpty(f) then Table([])
      else
        assert f.rows[0] in f.rows;
        assert forall r :: r in f.rows[1..] ==> r in f.rows;
        Table(TableRecords(f.rows[0], f.rows[1..]))
  }

  // ---------------------------------------------------------------------
  // Rows as maps.

  /** The keys of a row map are the header values. */
  lemma {:induction false} RowMapKeys(header: seq<Cell>, row: seq<Cell>)
    requires |header| == |row|
    ensures forall h :: h in RowMap(header, row) <==> h in header
    decreases |header|
  {
    if header != [] {
      var n := |header| - 1;
      RowMapKeys(header[..n], row[..n]);
      assert header == header[..n] + [header[n]];
    }
  }

  /** A header value maps to the cell under its last occurrence. */
  lemma {:induction false} RowMapLookup(header: seq<Cell>, row: seq<Cell>, k: nat)
    requires |header| == |row| && k < |header|
    requires forall j :: k < j < |header| ==> header[j] != header[k]
    ensures header[k] in RowMap(header, row) && RowMap(header, row)[header[k]] == row[k]
    decreases |header|
  {
    var n := |header| - 1;
    if k < n {
      RowMapLookup(header[..n], row[..n], k);
    }
  }

  /** With distinct header values, every column's cell is found under its
      header value. */
  lemma RowMapDistinct(header: seq<Cell>, row: seq<Cell>)
    requires |header| == |row|
    requires forall i, j :: 0 <= i < j < |header| ==> header[i] != header[j]
    ensures forall k :: 0 <= k < |header| ==>
      header[k] in RowMap(header, row) && RowMap(header, row)[header[k]] == row[k]
  {
    forall k | 0 <= k < |header|
      ensures header[k] in RowMap(header, row) && RowMap(header, row)[header[k]] == row[k]
    {
      RowMapLookup(header, row, k);
    }
  }

  // ---------------------------------------------------------------------
  // What `process_table` returns.

  /** A parse failure becomes a `table_error` record holding the input, and
      only a parse failure does. */
  lemma TableErrorIff(text: string, parsed: Option<Frame>)
    ensures ProcessTable(text, parsed).TableError? <==> parsed.None?
    ensures ProcessTable(text, parsed).TableError? ==> ProcessTable(text, parsed).source == text
  {
  }

  /** An empty frame gives a table with no data. */
  lemma EmptyFrameNoData(text: string, f: Frame)
    requires IsEmpty(f)
    ensures ProcessTable(text, Some(f)) == Table([])
  {
  }

  /** A frame of `n >= 1` rows gives `n - 1` records, in row order, each
      keyed by the first row: every header value maps to a cell of its
      own row, taken from the last column that carries that value. */
  lemma TableShape(text: string, f: Frame)
    requires !IsEmpty(f)
    ensures var c := ProcessTable(text, Some(f));
      && c.Table?
      && |c.data| == |f.rows| - 1
      && forall k, h :: 0 <= k < |c.data| ==> (h in c.data[k] <==> h in f.rows[0])
  {
    var c := ProcessTable(text, Some(f));
    forall k | 0 <= k < |c.data| ensures forall h :: h in c.data[k] <==> h in f.rows[0] {
      assert f.rows[k + 1] in f.rows;
      RowMapKeys(f.rows[0], f.rows[k + 1]);
    }
  }

  /** With distinct header values, record `k` maps the `j`-th header value
      to the `j`-th cell of row `k + 1`. */
  lemma TableCells(text: string, f: Frame, k: nat, j: nat)
    requires !IsEmpty(f) && k + 1 < |f.rows| && j < f.width
    requires forall a, b :: 0 <= a < b < f.width ==> f.rows[0][a] != f.rows[0][b]
    ensures var c := ProcessTable(text, Some(f));
      && c.Table? && k < |c.data|
      && f.rows[0][j] in c.data[k] && c.data[k][f.rows[0][j]] == f.rows[k + 1][j]
  {
    assert f.rows[0] in f.rows && f.rows[k + 1] in f.rows;
    RowMapLookup(f.rows[0], f.rows[k + 1], j);
  }

  /** A table of one row is all header: no data. */
  lemma OneRowNoData(text: string, f: Frame)
    requires |f.rows| == 1
    ensures ProcessTable(text, Some(f)) == Table([])
  {
  }

  /** A two-column row map. */
  lemma RowMapOfTwo(a: Cell, b: Cell, x: Cell, y: Cell)
    ensures RowMap([a, b], [x, y]) == map[a := x][b := y]
  {
    assert [a, b][..1] == [a] && [x, y][..1] == [x];
    assert [a][..0] == [] && [x][..0] == [];
    assert RowMap([a], [x]) == map[a := x];
  }

  lemma TableRecordsOfTwo(header: seq<Cell>, r1: seq<Cell>, r2: seq<Cell>)
    requires |r1| == |header| && |r2| == |header|
    ensures TableRecords(header, [r1, r2]) == [RowMap(header, r1), RowMap(header, r2)]
  {
  }

  /** A header row and two data rows. */
  const ExampleFrame: Frame := Grid(2, [["Name", "Age"], ["Ann", "30"], ["Bob", "41"]])

  lemma ExampleFrameRows()
    ensures ExampleFrame.rows[0] == ["Name", "Age"]
    ensures ExampleFrame.rows[1..] == [["Ann", "30"], ["Bob", "41"]]
  {
  }

  lemma ExampleTable()
    ensures ProcessTable("<table/>", Some(ExampleFrame))
      == Table([map["Name" := "Ann", "Age" := "30"], map["Name" := "Bob", "Age" := "41"]])
  {
    ExampleFrameRows();
    TableRecordsOfTwo(["Name", "Age"], ["Ann", "30"], ["Bob", "41"]);
    RowMapOfTwo("Name", "Age", "Ann", "30");
    RowMapOfTwo("Name", "Age", "Bob", "41");
  }
}
