/** The pure decisions of `SqlServiceImpl::exec_query`
    (rust/cubestore/src/sql/mod.rs): the workbench short-cut, the quote
    rewrite applied before parsing, and the checks made on each parsed
    statement before the meta store, WAL store or query planner is called.
    The parser is a parameter; each call into the stores is returned as an
    `Action` naming its arguments. */
module SqlService {
  import opened Wrappers
  import opened Text
  import opened SqlTypes
  import ColumnConversion
  import Workbench

  // ---------------------------------------------------------------------
  // The rewrite of backslash-quote to doubled quote
  // ---------------------------------------------------------------------

  /** `s` holds character `a` immediately followed by `b`. */
  predicate HasPair(s: string, a: char, b: char) {
    exists i :: 0 <= i < |s| - 1 && s[i] == a && s[i + 1] == b
  }

  /** Every backslash immediately followed by a quote becomes two quotes,
      scanning left to right without overlap. */
  function EscapeQuotes(q: string): (r: string)
    ensures |r| == |q|
  {
    if |q| < 2 then q
    else if q[0] == '\\' && q[1] == '\'' then "''" + EscapeQuotes(q[2..])
    else [q[0]] + EscapeQuotes(q[1..])
  }

  /** Position `i` of `r` either keeps the character of `q`, or is a quote
      replacing a backslash that precedes a quote in `q`. */
  predicate KeptOrRewritten(q: string, r: string, i: nat)
    requires i < |q| && i < |r|
  {
    r[i] == q[i] || (q[i] == '\\' && i + 1 < |q| && q[i + 1] == '\'' && r[i] == '\'')
  }

  /** The rewrite keeps the length, and changes a character only by turning
      a backslash that precedes a quote into a quote. */
  lemma {:induction false} EscapeQuotesPointwise(q: string)
    ensures |EscapeQuotes(q)| == |q|
    ensures forall i :: 0 <= i < |q| ==> KeptOrRewritten(q, EscapeQuotes(q), i)
  {
    if |q| < 2 {
    } else {
      var k := if q[0] == '\\' && q[1] == '\'' then 2 else 1;
      var t := EscapeQuotes(q[k..]);
      var r := EscapeQuotes(q);
      EscapeQuotesPointwise(q[k..]);
      assert r == (if k == 2 then "''" else [q[0]]) + t;
      forall i | 0 <= i < |q|
        ensures KeptOrRewritten(q, r, i)
      {
        if i >= k {
          assert r[i] == t[i - k];
          assert KeptOrRewritten(q[k..], t, i - k);
          assert q[k..][i - k] == q[i];
          if i + 1 < |q| {
            assert q[k..][i - k + 1] == q[i + 1];
          }
        }
      }
    }
  }

  /** A character that is not a backslash is kept at its position. */
  lemma EscapeQuotesKeeps(q: string, i: nat)
    requires i < |q| && q[i] != '\\'
    ensures |EscapeQuotes(q)| == |q| && EscapeQuotes(q)[i] == q[i]
  {
    EscapeQuotesPointwise(q);
    assert KeptOrRewritten(q, EscapeQuotes(q), i);
  }

  /** Every backslash-quote pair of the input is rewritten to two quotes. */
  lemma {:induction false} EscapeQuotesRewritesPairs(q: string, i: nat)
    requires i + 1 < |q| && q[i] == '\\' && q[i + 1] == '\''
    ensures |EscapeQuotes(q)| == |q|
    ensures EscapeQuotes(q)[i] == '\'' && EscapeQuotes(q)[i + 1] == '\''
    decreases i
  {
    EscapeQuotesPointwise(q);
    var k := if q[0] == '\\' && q[1] == '\'' then 2 else 1;
    assert EscapeQuotes(q) == (if k == 2 then "''" else [q[0]]) + EscapeQuotes(q[k..]);
    if i >= k {
      assert i - k + 1 < |q[k..]| && q[k..][i - k] == q[i] && q[k..][i - k + 1] == q[i + 1];
      EscapeQuotesRewritesPairs(q[k..], i - k);
    } else {
      assert k == 2 && i == 0;
    }
  }

  lemma HasPairSuffix(q: string, k: nat, a: char, b: char)
    requires k <= |q| && !HasPair(q, a, b)
    ensures !HasPair(q[k..], a, b)
  {
    forall i | 0 <= i < |q[k..]| - 1
      ensures !(q[k..][i] == a && q[k..][i + 1] == b)
    {
      assert q[k..][i] == q[i + k] && q[k..][i + 1] == q[i + k + 1];
    }
  }

  lemma HasPairAppend(h: string, t: string, a: char, b: char)
    requires !HasPair(h, a, b) && !HasPair(t, a, b)
    requires |h| > 0 && |t| > 0 ==> !(h[|h| - 1] == a && t[0] == b)
    ensures !HasPair(h + t, a, b)
  {
    var s := h + t;
    forall i | 0 <= i < |s| - 1
      ensures !(s[i] == a && s[i + 1] == b)
    {
      if i + 1 < |h| {
        assert s[i] == h[i] && s[i + 1] == h[i + 1];
      } else if i >= |h| {
        assert s[i] == t[i - |h|] && s[i + 1] == t[i - |h| + 1];
      } else {
        assert s[i] == h[|h| - 1] && s[i + 1] == t[0];
      }
    }
  }

  /** Unless the input holds a doubled backslash, the text handed to the
      parser holds no backslash-quote pair at all. */
  lemma {:induction false} EscapeQuotesRemovesPairs(q: string)
    requires !HasPair(q, '\\', '\\')
    ensures !HasPair(EscapeQuotes(q), '\\', '\'')
  {
    if |q| >= 2 {
      if q[0] == '\\' && q[1] == '\'' {
        HasPairSuffix(q, 2, '\\', '\\');
        EscapeQuotesRemovesPairs(q[2..]);
        HasPairAppend("''", EscapeQuotes(q[2..]), '\\', '\'');
      } else {
        HasPairSuffix(q, 1, '\\', '\\');
        EscapeQuotesRemovesPairs(q[1..]);
        var t := EscapeQuotes(q[1..]);
        if q[0] == '\\' {
          assert q[1] != '\\';
          EscapeQuotesKeeps(q[1..], 0);
        }
        HasPairAppend([q[0]], t, '\\', '\'');
      }
    }
  }

  /** A query without backslashes reaches the parser unchanged. */
  lemma {:induction false} EscapeQuotesWithoutBackslash(q: string)
    requires forall i :: 0 <= i < |q| ==> q[i] != '\\'
    ensures EscapeQuotes(q) == q
  {
    if |q| >= 2 {
      EscapeQuotesWithoutBackslash(q[1..]);
    }
  }

  /** The usual escaped apostrophe. */
  lemma EscapeQuotesExample()
    ensures EscapeQuotes("it\\'s") == "it''s"
  {
    assert EscapeQuotes("\\'s") == "''s";
    assert EscapeQuotes("t\\'s") == "t''s";
  }

  // ---------------------------------------------------------------------
  // Parsed statements and the actions they lead to
  // ---------------------------------------------------------------------

  datatype ObjectType = Table | View | Index | Schema

  /** An index column as parsed: its expression, and the parser's own
      rendering of it (with any ASC/DESC), which CREATE TABLE keeps. */
  datatype OrderByExpr = OrderByExpr(expr: Expr, rendered: string)

  /** The body of an INSERT's source query: only VALUES is accepted. */
  datatype SetExpr = Values(rows: seq<seq<Expr>>) | OtherSetExpr(text: string)

  /** An index clause inside CREATE TABLE; other statements may appear in
      that list and are ignored. */
  datatype IndexClause = CreateIndexClause(name: ObjectName, columns: seq<OrderByExpr>) | OtherClause

  datatype Statement =
    | ShowVariable(variable: Ident)
    | SetVariable
    | CreateSchema(schemaName: ObjectName, ifNotExists: bool)
    | CreateTable(name: ObjectName, columns: seq<ColumnDef>, external: bool,
                  location: Option<string>, indexes: seq<IndexClause>)
    | CreateIndex(indexName: ObjectName, tableName: ObjectName, indexColumns: seq<OrderByExpr>)
    | Drop(objectType: ObjectType, names: seq<ObjectName>)
    | Insert(intoName: ObjectName, insertColumns: seq<Ident>, source: SetExpr)
    | Query(text: string)
    | OtherStatement(text: string)

  datatype ShowTarget = Schemas | Tables | Chunks | Indexes | Partitions

  datatype IndexDef = IndexDef(name: string, columns: seq<string>)

  /** What `exec_query` does once its checks have passed. */
  datatype Action =
    | Respond(frame: DataFrame)
    | Show(target: ShowTarget)
    | CreateSchemaCall(schemaName: string, ifNotExists: bool)
    | CreateTableCall(schema: string, table: string, tableColumns: seq<Column>, external: bool,
                      location: Option<string>, indexes: seq<IndexDef>)
    | CreateIndexCall(schema: string, table: string, name: string, columnNames: seq<string>)
    | DeleteSchema(schemaName: string)
    | DropTable(schema: string, table: string)
    | InsertCall(schema: string, table: string, columns: seq<Ident>, rows: seq<seq<Expr>>)
    | QueryCall(text: string)

  const EmptyFrame := DataFrame([], [])

  function ShowTargetOf(variable: Ident): (r: Result<ShowTarget, Error>)
    ensures r.Ok? <==> ToLower(variable.value) in {"schemas", "tables", "chunks", "indexes", "partitions"}
    ensures r.Err? ==> r.error == UnknownShow(ToLower(variable.value))
  {
    var s := ToLower(variable.value);
    if s == "schemas" then Ok(Schemas)
    else if s == "tables" then Ok(Tables)
    else if s == "chunks" then Ok(Chunks)
    else if s == "indexes" then Ok(Indexes)
    else if s == "partitions" then Ok(Partitions)
    else Err(UnknownShow(s))
  }

  /** The index definitions carried by CREATE TABLE, in order, skipping
      clauses that are not CREATE INDEX. */
  function IndexDefs(clauses: seq<IndexClause>): (r: seq<IndexDef>)
    ensures |r| <= |clauses|
  {
    if clauses == [] then []
    else
      var rest := IndexDefs(clauses[1..]);
      match clauses[0]
      case CreateIndexClause(name, columns) =>
        [IndexDef(ObjectNameText(name), Renderings(columns))] + rest
      case OtherClause => rest
  }

  /** The rendering of each index column, as sqlparser prints it. */
  function Renderings(columns: seq<OrderByExpr>): (r: seq<string>)
    ensures |r| == |columns| && forall k :: 0 <= k < |columns| ==> r[k] == columns[k].rendered
  {
    seq(|columns|, k requires 0 <= k < |columns| => columns[k].rendered)
  }

  /** When every clause is CREATE INDEX, definition k is clause k's name and
      column renderings. */
  lemma {:induction false} IndexDefsAllIndexes(clauses: seq<IndexClause>)
    requires forall k :: 0 <= k < |clauses| ==> clauses[k].CreateIndexClause?
    ensures |IndexDefs(clauses)| == |clauses|
    ensures forall k :: 0 <= k < |clauses| ==>
      IndexDefs(clauses)[k] == IndexDef(ObjectNameText(clauses[k].name), Renderings(clauses[k].columns))
  {
    if clauses != [] {
      var tail := clauses[1..];
      assert forall k :: 0 <= k < |tail| ==> tail[k] == clauses[k + 1];
      IndexDefsAllIndexes(tail);
      var r := IndexDefs(clauses);
      assert r == [IndexDef(ObjectNameText(clauses[0].name), Renderings(clauses[0].columns))] + IndexDefs(tail);
      forall k | 1 <= k < |clauses|
        ensures r[k] == IndexDef(ObjectNameText(clauses[k].name), Renderings(clauses[k].columns))
      {
        assert r[k] == IndexDefs(tail)[k - 1];
        assert tail[k - 1] == clauses[k];
      }
    }
  }

  /** Clauses that are not CREATE INDEX contribute nothing. */
  lemma {:induction false} IndexDefsNoIndexes(clauses: seq<IndexClause>)
    requires forall k :: 0 <= k < |clauses| ==> clauses[k].OtherClause?
    ensures IndexDefs(clauses) == []
  {
    if clauses != [] {
      var tail := clauses[1..];
      assert forall k :: 0 <= k < |tail| ==> tail[k] == clauses[k + 1];
      IndexDefsNoIndexes(tail);
    }
  }

  /** Collecting index definitions distributes over concatenation: together
      with the two cases above, it says the result is the CREATE INDEX
      clauses, in order, and nothing else. */
  lemma {:induction false} IndexDefsAppend(a: seq<IndexClause>, b: seq<IndexClause>)
    ensures IndexDefs(a + b) == IndexDefs(a) + IndexDefs(b)
    decreases |a|
  {
    if a == [] {
      assert a + b == b;
    } else {
      assert (a + b)[0] == a[0] && (a + b)[1..] == a[1..] + b;
      IndexDefsAppend(a[1..], b);
    }
  }

  /** The columns of CREATE INDEX must all be plain identifiers; the first
      one that is not is reported. */
  function IndexColumnNames(columns: seq<OrderByExpr>): (r: Result<seq<string>, Error>)
    ensures r.Ok? <==> forall k :: 0 <= k < |columns| ==> columns[k].expr.Identifier?
    ensures r.Ok? ==> |r.value| == |columns|
    ensures r.Ok? ==> forall k :: 0 <= k < |columns| ==> r.value[k] == columns[k].expr.ident.value
    ensures r.Err? ==> exists k :: (0 <= k < |columns| && !columns[k].expr.Identifier? &&
      (forall j :: 0 <= j < k ==> columns[j].expr.Identifier?) &&
      r.error == UnsupportedIndexColumn(columns[k].expr))
  {
    if columns == [] then Ok([])
    else
      match columns[0].expr
      case Identifier(id) =>
        (match IndexColumnNames(columns[1..])
         case Ok(rest) => Ok([id.value] + rest)
         case Err(e) => Err(e))
      case _ => Err(UnsupportedIndexColumn(columns[0].expr))
  }

  /** The checks `exec_query` makes on a parsed statement, in the order it
      makes them. `q` is the query as received, which some messages quote. */
  function Execute(q: string, stmt: Statement): Result<Action, Error> {
    match stmt
    case ShowVariable(variable) =>
      var target :- ShowTargetOf(variable);
      Ok(Show(target))
    case SetVariable => Ok(Respond(EmptyFrame))
    case CreateSchema(name, ifNotExists) => Ok(CreateSchemaCall(ObjectNameText(name), ifNotExists))
    case CreateTable(name, columns, external, location, indexes) =>
      if |name| != 2 then Err(SchemaNameExpected(name))
      else
        var converted :- ColumnConversion.ConvertedColumns(columns);
        Ok(CreateTableCall(name[0].value, name[1].value, converted, external,
                           if external then location else None, IndexDefs(indexes)))
    case CreateIndex(indexName, tableName, columns) =>
      if |tableName| != 2 then Err(SchemaNameExpected(tableName))
      else
        var names :- IndexColumnNames(columns);
        Ok(CreateIndexCall(tableName[0].value, tableName[1].value, ObjectNameText(indexName), names))
    case Drop(objectType, names) =>
      (match objectType
       case Schema =>
         if |names| == 0 then Err(Panicked(IndexOutOfBounds))
         else Ok(DeleteSchema(ObjectNameText(names[0])))
       case Table =>
         if |names| == 0 || |names[0]| < 2 then Err(Panicked(IndexOutOfBounds))
         else Ok(DropTable(IdentText(names[0][0]), IdentText(names[0][1])))
       case _ => Err(UnsupportedDrop))
    case Insert(name, columns, source) =>
      (match source
       case OtherSetExpr(_) => Err(DataExpected(q))
       case Values(rows) =>
         if |name| != 2 then Err(InsertSchemaNameExpected(q))
         else Ok(InsertCall(name[0].value, name[1].value, columns, rows)))
    case Query(text) => Ok(QueryCall(text))
    case OtherStatement(_) => Err(UnsupportedSql(q))
  }

  /** `exec_query`: the workbench probes are answered from the raw query;
      anything else is rewritten, parsed by `parse` and checked. */
  function ExecQuery(q: string, parse: string -> Result<Statement, Error>): Result<Action, Error> {
    match Workbench.HandleWorkbenchQueries(q)
    case Some(frame) => Ok(Respond(frame))
    case None =>
      var stmt :- parse(EscapeQuotes(q));
      Execute(q, stmt)
  }

  // ---------------------------------------------------------------------
  // Properties
  // ---------------------------------------------------------------------

  /** A workbench probe is answered whatever the parser would say, and any
      other query is decided by the parse of its rewritten text alone. */
  lemma WorkbenchFirst(q: string, parse1: string -> Result<Statement, Error>, parse2: string -> Result<Statement, Error>)
    ensures Workbench.HandleWorkbenchQueries(q).Some? ==>
      ExecQuery(q, parse1) == Ok(Respond(Workbench.HandleWorkbenchQueries(q).value))
    ensures parse1(EscapeQuotes(q)) == parse2(EscapeQuotes(q)) ==> ExecQuery(q, parse1) == ExecQuery(q, parse2)
    ensures Workbench.HandleWorkbenchQueries(q).None? && parse1(EscapeQuotes(q)).Err? ==>
      ExecQuery(q, parse1) == Err(parse1(EscapeQuotes(q)).error)
  {
  }

  /** SHOW is answered iff its variable lower-cases to one of the five
      tables, and two variables with the same lower-cased spelling are
      treated alike. */
  lemma ShowVariableCases(q: string, v: Ident, w: Ident)
    ensures Execute(q, ShowVariable(v)).Ok? <==>
      ToLower(v.value) in {"schemas", "tables", "chunks", "indexes", "partitions"}
    ensures Execute(q, ShowVariable(v)).Err? ==> Execute(q, ShowVariable(v)).error == UnknownShow(ToLower(v.value))
    ensures ToLower(v.value) == ToLower(w.value) ==> Execute(q, ShowVariable(v)) == Execute(q, ShowVariable(w))
  {
  }

  /** CREATE TABLE needs a `schema.table` name; with one, it fails exactly
      when a column type is refused, and otherwise creates the converted
      columns, keeping a location only for external tables. */
  lemma CreateTableNames(q: string, name: ObjectName, columns: seq<ColumnDef>, external: bool,
                         location: Option<string>, indexes: seq<IndexClause>)
    ensures |name| != 2 ==> Execute(q, CreateTable(name, columns, external, location, indexes)) == Err(SchemaNameExpected(name))
    ensures |name| == 2 ==>
      (Execute(q, CreateTable(name, columns, external, location, indexes)).Ok? <==>
       forall k :: 0 <= k < |columns| ==> ColumnConversion.ColumnTypeOf(columns[k].dataType).Ok?)
    ensures Execute(q, CreateTable(name, columns, external, location, indexes)).Ok? ==>
      var a := Execute(q, CreateTable(name, columns, external, location, indexes)).value;
      |name| == 2 && a.CreateTableCall? && a.schema == name[0].value && a.table == name[1].value &&
      |a.tableColumns| == |columns| &&
      (forall k :: 0 <= k < |columns| ==> a.tableColumns[k].name == columns[k].name.value && a.tableColumns[k].index == k) &&
      a.tableColumns == ColumnConversion.ConvertedColumns(columns).value &&
      a.indexes == IndexDefs(indexes) &&
      a.external == external &&
      (external ==> a.location == location) &&
      (!external ==> a.location == None)
  {
  }

  /** CREATE INDEX needs a `schema.table` table name, checked before its
      columns, which must all be plain identifiers. */
  lemma CreateIndexNames(q: string, indexName: ObjectName, tableName: ObjectName, columns: seq<OrderByExpr>)
    ensures |tableName| != 2 ==> Execute(q, CreateIndex(indexName, tableName, columns)) == Err(SchemaNameExpected(tableName))
    ensures Execute(q, CreateIndex(indexName, tableName, columns)).Ok? <==>
      |tableName| == 2 && forall k :: 0 <= k < |columns| ==> columns[k].expr.Identifier?
    ensures Execute(q, CreateIndex(indexName, tableName, columns)).Ok? ==>
      Execute(q, CreateIndex(indexName, tableName, columns)).value ==
        CreateIndexCall(tableName[0].value, tableName[1].value, ObjectNameText(indexName),
                        seq(|columns|, k requires 0 <= k < |columns| => columns[k].expr.ident.value))
  {
    if |tableName| == 2 {
      var r := IndexColumnNames(columns);
      if r.Ok? {
        assert r.value == seq(|columns|, k requires 0 <= k < |columns| => columns[k].expr.ident.value);
      }
    }
  }

  /** INSERT needs VALUES (checked first) and a `schema.table` name; both
      messages quote the query as received. */
  lemma InsertNames(q: string, name: ObjectName, columns: seq<Ident>, source: SetExpr)
    ensures source.OtherSetExpr? ==> Execute(q, Insert(name, columns, source)) == Err(DataExpected(q))
    ensures source.Values? && |name| != 2 ==> Execute(q, Insert(name, columns, source)) == Err(InsertSchemaNameExpected(q))
    ensures Execute(q, Insert(name, columns, source)).Ok? <==> source.Values? && |name| == 2
    ensures Execute(q, Insert(name, columns, source)).Ok? ==>
      Execute(q, Insert(name, columns, source)).value == InsertCall(name[0].value, name[1].value, columns, source.rows)
  {
  }

  /** DROP handles schemas and tables only; dropping a table uses the first
      two parts of the first name and panics when they are missing. */
  lemma DropCases(q: string, objectType: ObjectType, names: seq<ObjectName>)
    ensures (objectType == View || objectType == Index) ==> Execute(q, Drop(objectType, names)) == Err(UnsupportedDrop)
    ensures objectType == Table ==>
      (Execute(q, Drop(objectType, names)).Ok? <==> |names| >= 1 && |names[0]| >= 2)
    ensures objectType == Table && |names| >= 1 && |names[0]| >= 2 ==>
      Execute(q, Drop(objectType, names)) == Ok(DropTable(IdentText(names[0][0]), IdentText(names[0][1])))
    ensures objectType == Table && (|names| == 0 || |names[0]| < 2) ==>
      Execute(q, Drop(objectType, names)) == Err(Panicked(IndexOutOfBounds))
    ensures objectType == Schema ==> (Execute(q, Drop(objectType, names)).Ok? <==> |names| >= 1)
    ensures objectType == Schema && |names| >= 1 ==>
      Execute(q, Drop(objectType, names)) == Ok(DeleteSchema(ObjectNameText(names[0])))
    ensures objectType == Schema && |names| == 0 ==>
      Execute(q, Drop(objectType, names)) == Err(Panicked(IndexOutOfBounds))
  {
  }
}
