/** `insert_data` (rust/cubestore/src/sql/mod.rs) without its store calls:
    the listed columns are looked up in the table, the rows are cut into
    chunks of the write-ahead log's chunk size, and every chunk is converted
    by `parse_chunk` into one frame for the log. */
module Insert {
  import opened Wrappers
  import opened SqlTypes
  import opened Chunk

  /** `table_columns.iter().find(..)`: the first table column with the name. */
  function FindColumn(tableCols: seq<Column>, name: string): (r: Option<Column>)
    ensures r.None? <==> forall k :: 0 <= k < |tableCols| ==> tableCols[k].name != name
    ensures r.Some? ==> exists k :: (0 <= k < |tableCols| && tableCols[k] == r.value
                                    && (forall j :: 0 <= j < k ==> tableCols[j].name != name))
    ensures r.Some? ==> r.value.name == name
  {
    if tableCols == [] then None
    else if tableCols[0].name == name then Some(tableCols[0])
    else
      match FindColumn(tableCols[1..], name)
      case None => None
      case Some(c) =>
        ghost var k :| 0 <= k < |tableCols[1..]| && tableCols[1..][k] == c &&
          (forall j :: 0 <= j < k ==> tableCols[1..][j].name != name);
        assert tableCols[k + 1] == c;
        assert forall j :: 1 <= j < k + 1 ==> tableCols[j] == tableCols[1..][j - 1];
        Some(c)
  }

  /** `data.chunks(n)`: consecutive runs of `n` rows, the last one shorter. */
  function Chunks<T>(data: seq<T>, n: nat): (r: seq<seq<T>>)
    requires n > 0
    ensures r == [] <==> data == []
    ensures forall k :: 0 <= k < |r| ==> 0 < |r[k]| <= n
    decreases |data|
  {
    if data == [] then []
    else if |data| <= n then [data]
    else [data[..n]] + Chunks(data[n..], n)
  }

  function Flatten<T>(s: seq<seq<T>>): seq<T> {
    if s == [] then [] else s[0] + Flatten(s[1..])
  }

  /** Chunking loses and reorders nothing; every chunk is non-empty and at
      most `n` long, and all but the last are exactly `n` long. */
  lemma {:induction false} ChunksSpec<T>(data: seq<T>, n: nat)
    requires n > 0
    ensures Flatten(Chunks(data, n)) == data
    ensures forall k :: 0 <= k < |Chunks(data, n)| ==> 0 < |Chunks(data, n)[k]| <= n
    ensures forall k :: 0 <= k < |Chunks(data, n)| - 1 ==> |Chunks(data, n)[k]| == n
    decreases |data|
  {
    if |data| > n {
      ChunksSpec(data[n..], n);
      var c := Chunks(data, n);
      assert c[1..] == Chunks(data[n..], n);
      assert data[..n] + data[n..] == data;
    }
  }

  lemma {:induction false} FlattenSnoc<T>(s: seq<seq<T>>, x: seq<T>)
    ensures Flatten(s + [x]) == Flatten(s) + x
  {
    if s == [] {
      assert [] + [x] == [x];
    } else {
      assert (s + [x])[1..] == s[1..] + [x];
      FlattenSnoc(s[1..], x);
    }
  }

  /** Converting two runs of rows one after the other is converting them
      together. */
  lemma {:induction false} ParseRowsAppend(o: Oracles, a: seq<seq<Expr>>, b: seq<seq<Expr>>, cols: seq<Column>)
    ensures ParseRows(o, a + b, cols) ==
      match ParseRows(o, a, cols)
      case Err(e) => Err(e)
      case Ok(x) =>
        match ParseRows(o, b, cols)
        case Err(e) => Err(e)
        case Ok(y) => Ok(x + y)
    decreases |b|
  {
    if b == [] {
      assert a + b == a;
      if ParseRows(o, a, cols).Ok? {
        assert ParseRows(o, a, cols).value + [] == ParseRows(o, a, cols).value;
      }
    } else {
      var b0 := b[..|b| - 1];
      assert (a + b)[..|a + b| - 1] == a + b0;
      assert (a + b)[|a + b| - 1] == b[|b| - 1];
      ParseRowsAppend(o, a, b0, cols);
      if ParseRows(o, a, cols).Ok? && ParseRows(o, b0, cols).Ok? && ParseRow(o, b[|b| - 1], cols).Ok? {
        var x, y := ParseRows(o, a, cols).value, ParseRows(o, b0, cols).value;
        assert x + y + [ParseRow(o, b[|b| - 1], cols).value] == x + (y + [ParseRow(o, b[|b| - 1], cols).value]);
      }
    }
  }

  /** The frames handed to the log for each chunk, in order, up to the first
      chunk that fails, and that chunk's error. */
  function WalWrites(o: Oracles, chunks: seq<seq<seq<Expr>>>, cols: seq<Column>): (r: (seq<DataFrame>, Option<Error>))
    ensures |r.0| <= |chunks|
    ensures r.1.None? ==> |r.0| == |chunks|
    ensures forall k :: 0 <= k < |r.0| ==> r.0[k].columns == cols
  {
    if chunks == [] then ([], None)
    else
      var (written, failure) := WalWrites(o, chunks[..|chunks| - 1], cols);
      if failure.Some? then (written, failure)
      else
        match ParseRows(o, chunks[|chunks| - 1], cols)
        case Err(e) => (written, Some(e))
        case Ok(rows) => (written + [DataFrame(cols, rows)], None)
  }

  function AllRows(frames: seq<DataFrame>): seq<seq<TableValue>> {
    if frames == [] then [] else AllRows(frames[..|frames| - 1]) + frames[|frames| - 1].rows
  }

  /** Writing chunk by chunk fails exactly when converting all rows at once
      fails, with the same error, and otherwise writes exactly those rows. */
  lemma {:induction false} WalWritesAreParseRows(o: Oracles, chunks: seq<seq<seq<Expr>>>, cols: seq<Column>)
    ensures WalWrites(o, chunks, cols).1.None? <==> ParseRows(o, Flatten(chunks), cols).Ok?
    ensures WalWrites(o, chunks, cols).1.None? ==> AllRows(WalWrites(o, chunks, cols).0) == ParseRows(o, Flatten(chunks), cols).value
    ensures WalWrites(o, chunks, cols).1.Some? ==> WalWrites(o, chunks, cols).1.value == ParseRows(o, Flatten(chunks), cols).error
  {
    if chunks != [] {
      var init, last := chunks[..|chunks| - 1], chunks[|chunks| - 1];
      assert chunks == init + [last];
      FlattenSnoc(init, last);
      WalWritesAreParseRows(o, init, cols);
      ParseRowsAppend(o, Flatten(init), last, cols);
      var (w, f) := WalWrites(o, init, cols);
      if f.None? && ParseRows(o, last, cols).Ok? {
        var fr := DataFrame(cols, ParseRows(o, last, cols).value);
        assert (w + [fr])[..|w + [fr]| - 1] == w;
      }
    }
  }

  /** The table columns of the listed names, in listed order. */
  function ListedColumns(tableCols: seq<Column>, listed: seq<Ident>): seq<Column>
    requires forall k :: 0 <= k < |listed| ==> FindColumn(tableCols, listed[k].value).Some?
  {
    seq(|listed|, k requires 0 <= k < |listed| => FindColumn(tableCols, listed[k].value).value)
  }

  /** The first loop of `insert_data`: every listed name must be a column of
      the table, and the first one that is not is reported. */
  method ResolveColumns(schema: string, table: string, listed: seq<Ident>, tableCols: seq<Column>)
    returns (r: Result<seq<Column>, Error>)
    ensures r.Ok? <==> forall k :: 0 <= k < |listed| ==> FindColumn(tableCols, listed[k].value).Some?
    ensures r.Ok? ==> r.value == ListedColumns(tableCols, listed)
    ensures r.Err? ==> exists k :: (0 <= k < |listed| && FindColumn(tableCols, listed[k].value).None? &&
      (forall j :: 0 <= j < k ==> FindColumn(tableCols, listed[j].value).Some?) &&
      r.error == ColumnNotInTable(listed[k].value, schema, table))
  {
    var realCols: seq<Column> := [];
    var i := 0;
    while i < |listed|
      invariant 0 <= i <= |listed|
      invariant |realCols| == i
      invariant forall k :: 0 <= k < i ==> FindColumn(tableCols, listed[k].value) == Some(realCols[k])
    {
      var c := FindColumn(tableCols, listed[i].value);
      if c.None? {
        return Err(ColumnNotInTable(listed[i].value, schema, table));
      }
      realCols := realCols + [c.value];
      i := i + 1;
    }
    return Ok(realCols);
  }

  /** The second loop of `insert_data`: one `parse_chunk` per chunk, each
      frame handed to the log, stopping at the first chunk that fails. */
  method WriteChunks(o: Oracles, chunks: seq<seq<seq<Expr>>>, cols: seq<Column>)
    returns (written: seq<DataFrame>, failure: Option<Error>)
    ensures (written, failure) == WalWrites(o, chunks, cols)
  {
    written := [];
    var k := 0;
    while k < |chunks|
      invariant 0 <= k <= |chunks|
      invariant WalWrites(o, chunks[..k], cols) == (written, None)
    {
      assert chunks[..k + 1][..k] == chunks[..k] && chunks[..k + 1][k] == chunks[k];
      var frame := ParseChunk(o, chunks[k], cols);
      if frame.Err? {
        assert WalWrites(o, chunks[..k + 1], cols) == (written, Some(frame.error));
        WalWritesFailureSticks(o, chunks, cols, k + 1);
        return written, Some(frame.error);
      }
      written := written + [frame.value];
      k := k + 1;
    }
    assert chunks[..k] == chunks;
    return written, None;
  }

  /** `insert_data`: resolve the listed columns, then convert and hand over
      one frame per chunk; `written` are the frames handed to the log before
      any failure. A zero chunk size panics in `chunks`. The outcome of the
      log's partitioning jobs is the parameter `jobError`; it is only waited
      for when some frame was written, so an empty insert reports 0 rows. */
  method InsertData(o: Oracles, schema: string, table: string, listed: seq<Ident>, tableCols: seq<Column>,
                    data: seq<seq<Expr>>, chunkLen: nat, jobError: Option<string>)
    returns (written: seq<DataFrame>, r: Result<nat, Error>)
    ensures (exists k :: 0 <= k < |listed| && FindColumn(tableCols, listed[k].value).None?) ==>
      written == [] && r.Err? && r.error.ColumnNotInTable?
    ensures (forall k :: 0 <= k < |listed| ==> FindColumn(tableCols, listed[k].value).Some?) && chunkLen == 0 ==>
      written == [] && r == Err(Panicked(ZeroChunkSize))
    ensures (forall k :: 0 <= k < |listed| ==> FindColumn(tableCols, listed[k].value).Some?) && chunkLen > 0 ==>
      var (frames, failure) := WalWrites(o, Chunks(data, chunkLen), ListedColumns(tableCols, listed));
      written == frames &&
      r == if failure.Some? then Err(failure.value)
           else if jobError.Some? && frames != [] then Err(InsertJobFailed(jobError.value))
           else Ok(|data|)
    ensures (forall k :: 0 <= k < |listed| ==> FindColumn(tableCols, listed[k].value).Some?) && chunkLen > 0 && data == [] ==>
      written == [] && r == Ok(0)
  {
    var realCols := ResolveColumns(schema, table, listed, tableCols);
    if realCols.Err? {
      return [], Err(realCols.error);
    }
    if chunkLen == 0 {
      return [], Err(Panicked(ZeroChunkSize));
    }
    var failure;
    written, failure := WriteChunks(o, Chunks(data, chunkLen), realCols.value);
    if failure.Some? {
      return written, Err(failure.value);
    }
    if jobError.Some? && written != [] {
      return written, Err(InsertJobFailed(jobError.value));
    }
    return written, Ok(|data|);
  }

  lemma {:induction false} WalWritesFailureSticks(o: Oracles, chunks: seq<seq<seq<Expr>>>, cols: seq<Column>, k: nat)
    requires k <= |chunks| && WalWrites(o, chunks[..k], cols).1.Some?
    ensures WalWrites(o, chunks, cols) == WalWrites(o, chunks[..k], cols)
    decreases |chunks| - k
  {
    if k < |chunks| {
      assert chunks[..k + 1][..k] == chunks[..k];
      WalWritesFailureSticks(o, chunks, cols, k + 1);
    } else {
      assert chunks[..k] == chunks;
    }
  }
}
