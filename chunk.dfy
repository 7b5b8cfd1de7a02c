/** `parse_chunk` (rust/cubestore/src/sql/mod.rs): every INSERT row becomes a
    row as wide as the listed columns, cell `i` written at position
    `cols[i].index`, the column's position in the table. */
module Chunk {
  import opened Wrappers
  import opened SqlTypes
  import opened Cells

  /** A fresh row: `vec![TableValue::Int(0); cols.len()]`. */
  function InitialRow(width: nat): (r: seq<TableValue>)
    ensures |r| == width && forall p :: 0 <= p < width ==> r[p] == TableValue.Int(0)
  {
    seq(width, _ => TableValue.Int(0))
  }

  /** One iteration of the inner loop: extract cell `i`, then store it at
      `cols[i].index`; an index past the end of `cols` or of the row panics. */
  function StepCell(o: Oracles, cell: Expr, cols: seq<Column>, i: nat, row: seq<TableValue>): (r: Result<seq<TableValue>, Error>)
    ensures r.Ok? ==> |r.value| == |row|
  {
    match ExtractData(o, cell, cols, i)
    case Err(e) => Err(e)
    case Ok(v) =>
      if i >= |cols| || cols[i].index >= |row| then Err(Panicked(IndexOutOfBounds))
      else Ok(row[cols[i].index := v])
  }

  /** The row after the first `n` cells have been stored. */
  function RowPrefix(o: Oracles, cells: seq<Expr>, cols: seq<Column>, n: nat): (r: Result<seq<TableValue>, Error>)
    requires n <= |cells|
    ensures r.Ok? ==> |r.value| == |cols|
  {
    if n == 0 then Ok(InitialRow(|cols|))
    else
      match RowPrefix(o, cells, cols, n - 1)
      case Err(e) => Err(e)
      case Ok(row) => StepCell(o, cells[n - 1], cols, n - 1, row)
  }

  function ParseRow(o: Oracles, cells: seq<Expr>, cols: seq<Column>): (r: Result<seq<TableValue>, Error>)
    ensures r.Ok? ==> |r.value| == |cols|
  {
    RowPrefix(o, cells, cols, |cells|)
  }

  /** All rows, or the error of the first row that fails. */
  function ParseRows(o: Oracles, rows: seq<seq<Expr>>, cols: seq<Column>): (r: Result<seq<seq<TableValue>>, Error>)
    ensures r.Ok? ==> |r.value| == |rows|
  {
    if rows == [] then Ok([])
    else
      match ParseRows(o, rows[..|rows| - 1], cols)
      case Err(e) => Err(e)
      case Ok(done) =>
        match ParseRow(o, rows[|rows| - 1], cols)
        case Err(e) => Err(e)
        case Ok(row) => Ok(done + [row])
  }

  /** Cell `i` can be stored: it converts, and its column's index is inside
      the row. */
  predicate Storable(o: Oracles, cells: seq<Expr>, cols: seq<Column>, i: nat)
    requires i < |cells|
  {
    ExtractData(o, cells[i], cols, i).Ok? && i < |cols| && cols[i].index < |cols|
  }

  /** A row converts iff every one of its cells can be stored. */
  lemma {:induction false} RowPrefixOk(o: Oracles, cells: seq<Expr>, cols: seq<Column>, n: nat)
    requires n <= |cells|
    ensures RowPrefix(o, cells, cols, n).Ok? <==> forall i :: 0 <= i < n ==> Storable(o, cells, cols, i)
  {
    if n > 0 {
      RowPrefixOk(o, cells, cols, n - 1);
      assert RowPrefix(o, cells, cols, n).Ok? <==>
        RowPrefix(o, cells, cols, n - 1).Ok? && Storable(o, cells, cols, n - 1);
    }
  }

  /** Positions no cell is written to keep `Int(0)`. */
  lemma {:induction false} RowPrefixUnwritten(o: Oracles, cells: seq<Expr>, cols: seq<Column>, n: nat, p: nat)
    requires n <= |cells| && RowPrefix(o, cells, cols, n).Ok? && p < |cols|
    requires forall i :: 0 <= i < n && i < |cols| ==> cols[i].index != p
    ensures RowPrefix(o, cells, cols, n).value[p] == TableValue.Int(0)
  {
    if n > 0 {
      RowPrefixUnwritten(o, cells, cols, n - 1, p);
    }
  }

  /** A written position holds the value of the last cell written there. */
  lemma {:induction false} RowPrefixLastWriter(o: Oracles, cells: seq<Expr>, cols: seq<Column>, n: nat, i: nat)
    requires i < n <= |cells| && i < |cols| && RowPrefix(o, cells, cols, n).Ok?
    requires forall j :: i < j < n && j < |cols| ==> cols[j].index != cols[i].index
    ensures cols[i].index < |cols| && ExtractData(o, cells[i], cols, i).Ok?
    ensures RowPrefix(o, cells, cols, n).value[cols[i].index] == ExtractData(o, cells[i], cols, i).value
  {
    RowPrefixOk(o, cells, cols, n);
    assert Storable(o, cells, cols, i);
    if n - 1 > i {
      RowPrefixLastWriter(o, cells, cols, n - 1, i);
    }
  }

  /** A failure stays a failure as more cells are processed. */
  lemma {:induction false} RowPrefixErr(o: Oracles, cells: seq<Expr>, cols: seq<Column>, n: nat, m: nat)
    requires n <= m <= |cells| && RowPrefix(o, cells, cols, n).Err?
    ensures RowPrefix(o, cells, cols, m) == RowPrefix(o, cells, cols, n)
    decreases m - n
  {
    if m > n {
      RowPrefixErr(o, cells, cols, n, m - 1);
    }
  }

  lemma {:induction false} ParseRowsErr(o: Oracles, rows: seq<seq<Expr>>, cols: seq<Column>, k: nat)
    requires k <= |rows| && ParseRows(o, rows[..k], cols).Err?
    ensures ParseRows(o, rows, cols) == ParseRows(o, rows[..k], cols)
    decreases |rows| - k
  {
    if k < |rows| {
      assert rows[..k + 1][..k] == rows[..k];
      ParseRowsErr(o, rows, cols, k + 1);
    } else {
      assert rows[..k] == rows;
    }
  }

  /** Row `k` of the result is the conversion of input row `k`. */
  lemma {:induction false} ParseRowsAt(o: Oracles, rows: seq<seq<Expr>>, cols: seq<Column>, k: nat)
    requires k < |rows| && ParseRows(o, rows, cols).Ok?
    ensures ParseRow(o, rows[k], cols) == Ok(ParseRows(o, rows, cols).value[k])
  {
    var init := rows[..|rows| - 1];
    if k < |rows| - 1 {
      assert init[k] == rows[k];
      ParseRowsAt(o, init, cols, k);
    }
  }

  /** When every cell converts, the only way a row can fail is the
      index-out-of-bounds panic of storing it. */
  lemma {:induction false} ConvertedCellsOnlyPanic(o: Oracles, cells: seq<Expr>, cols: seq<Column>, n: nat)
    requires n <= |cells|
    requires forall i :: 0 <= i < n ==> ExtractData(o, cells[i], cols, i).Ok?
    ensures RowPrefix(o, cells, cols, n).Err? ==> RowPrefix(o, cells, cols, n).error == Panicked(IndexOutOfBounds)
  {
    if n > 0 {
      ConvertedCellsOnlyPanic(o, cells, cols, n - 1);
    }
  }

  /** The row is only as wide as the listed columns, not the table: a cell
      whose column sits at a table position at or past the number of listed
      columns (as when a strict subset of the columns is listed) panics. */
  lemma NarrowListPanics(o: Oracles, cells: seq<Expr>, cols: seq<Column>, k: nat)
    requires k < |cells| && k < |cols| && cols[k].index >= |cols|
    requires forall i :: 0 <= i < |cells| ==> ExtractData(o, cells[i], cols, i).Ok?
    ensures ParseRow(o, cells, cols) == Err(Panicked(IndexOutOfBounds))
  {
    RowPrefixOk(o, cells, cols, |cells|);
    assert !Storable(o, cells, cols, k);
    ConvertedCellsOnlyPanic(o, cells, cols, |cells|);
  }

  /** Table (a, b) and `INSERT INTO t (b) VALUES (NULL)`: column b has table
      position 1 but the row has width 1. */
  lemma SubsetInsertExample(o: Oracles)
    ensures ParseRow(o, [ValueExpr(Value.Null)], [Column("b", ColumnType.Int, 1)]) == Err(Panicked(IndexOutOfBounds))
  {
    NarrowListPanics(o, [ValueExpr(Value.Null)], [Column("b", ColumnType.Int, 1)], 0);
  }

  /** When the listed columns are a reordering of the table's columns, every
      cell lands at its column's position in the table. */
  lemma ReorderedColumnsLandInTableOrder(o: Oracles, cells: seq<Expr>, cols: seq<Column>, i: nat)
    requires |cells| == |cols| && i < |cols|
    requires forall j :: 0 <= j < |cols| ==> cols[j].index < |cols|
    requires forall j, k :: 0 <= j < k < |cols| ==> cols[j].index != cols[k].index
    requires forall j :: 0 <= j < |cols| ==> ExtractData(o, cells[j], cols, j).Ok?
    ensures ParseRow(o, cells, cols).Ok?
    ensures ParseRow(o, cells, cols).value[cols[i].index] == ExtractData(o, cells[i], cols, i).value
  {
    RowPrefixOk(o, cells, cols, |cells|);
    RowPrefixLastWriter(o, cells, cols, |cells|, i);
  }

  /** The body of `parse_chunk`'s outer loop: a fresh row as wide as the
      listed columns, into which each cell is written in turn. */
  method FillRow(o: Oracles, cells: seq<Expr>, cols: seq<Column>) returns (r: Result<seq<TableValue>, Error>)
    ensures r == ParseRow(o, cells, cols)
  {
    var row := new TableValue[|cols|](_ => TableValue.Int(0));
    assert row[..] == InitialRow(|cols|);
    var i := 0;
    while i < |cells|
      invariant 0 <= i <= |cells|
      invariant row.Length == |cols|
      invariant RowPrefix(o, cells, cols, i) == Ok(row[..])
    {
      var v := ExtractData(o, cells[i], cols, i);
      if v.Err? || i >= |cols| || cols[i].index >= row.Length {
        RowPrefixErr(o, cells, cols, i + 1, |cells|);
        r := if v.Err? then Err(v.error) else Err(Panicked(IndexOutOfBounds));
        return;
      }
      row[cols[i].index] := v.value;
      i := i + 1;
    }
    r := Ok(row[..]);
  }

  /** `parse_chunk`: the frame of the converted rows, or the first error. */
  method ParseChunk(o: Oracles, chunk: seq<seq<Expr>>, cols: seq<Column>) returns (r: Result<DataFrame, Error>)
    ensures r.Ok? <==> ParseRows(o, chunk, cols).Ok?
    ensures r.Ok? ==> r.value == DataFrame(cols, ParseRows(o, chunk, cols).value)
    ensures r.Err? ==> r.error == ParseRows(o, chunk, cols).error
  {
    var res: seq<seq<TableValue>> := [];
    var k := 0;
    while k < |chunk|
      invariant 0 <= k <= |chunk|
      invariant ParseRows(o, chunk[..k], cols) == Ok(res)
    {
      var row := FillRow(o, chunk[k], cols);
      assert chunk[..k + 1][..k] == chunk[..k] && chunk[..k + 1][k] == chunk[k];
      if row.Err? {
        ParseRowsErr(o, chunk, cols, k + 1);
        return Err(row.error);
      }
      res := res + [row.value];
      k := k + 1;
    }
    assert chunk[..k] == chunk;
    r := Ok(DataFrame(cols, res));
  }
}
