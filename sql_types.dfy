/** The values the CubeStore SQL service works on
    (rust/cubestore/src/sql/mod.rs): the parsed-SQL fragments it inspects
    (`Ident`, `Value`, `Expr`, `DataType`, `ColumnDef`), the store's column
    model (`ColumnType`, `Column`), cell values (`TableValue`), result frames
    and the errors the service reports. */
module SqlTypes {
  import opened Wrappers
  import opened Text
  import Int64
  import Hex

  /** An identifier as the parser produced it, with its quote character
      ('"' or '`' for this dialect) if it was delimited. */
  datatype Ident = Ident(value: string, quote: Option<char>)

  /** A possibly qualified name such as `schema.table`. */
  type ObjectName = seq<Ident>

  /** How the parser prints an identifier: delimited ones keep their quotes. */
  function IdentText(id: Ident): string {
    match id.quote
    case None => id.value
    case Some(q) => [q] + id.value + [q]
  }

  function IdentTexts(name: ObjectName): (r: seq<string>)
    ensures |r| == |name|
    ensures forall k :: 0 <= k < |name| ==> r[k] == IdentText(name[k])
  {
    seq(|name|, k requires 0 <= k < |name| => IdentText(name[k]))
  }

  /** How the parser prints a qualified name: parts joined by '.'. */
  function ObjectNameText(name: ObjectName): string {
    Join(IdentTexts(name), '.')
  }

  /** SQL literal values. */
  datatype Value =
    | Number(text: string)
    | SingleQuotedString(text: string)
    | NationalStringLiteral(text: string)
    | HexStringLiteral(text: string)
    | Boolean(b: bool)
    | Null

  datatype UnaryOperator = Plus | Minus | Not

  /** The expressions an INSERT cell or an index column can be; every other
      expression form is `OtherExpr`. */
  datatype Expr =
    | Identifier(ident: Ident)
    | ValueExpr(value: Value)
    | UnaryOp(op: UnaryOperator, expr: Expr)
    | OtherExpr(text: string)

  /** SQL column types as the parser produces them. */
  datatype DataType =
    | Char(length: Option<nat>)
    | Varchar(length: Option<nat>)
    | Uuid
    | Clob(size: nat)
    | Binary(size: nat)
    | Varbinary(size: nat)
    | Blob(size: nat)
    | Decimal(precision: Option<nat>, scale: Option<nat>)
    | Float(bits: Option<nat>)
    | SmallInt
    | Int
    | BigInt
    | Real
    | Double
    | Boolean
    | Date
    | Time
    | Timestamp
    | Interval
    | Regclass
    | Text
    | Bytea
    | Custom(name: ObjectName)
    | Array(element: DataType)

  datatype ColumnDef = ColumnDef(name: Ident, dataType: DataType)

  /** CubeStore's column types. */
  datatype ColumnType =
    | String
    | Int
    | Bytes
    | HyperLogLog
    | Timestamp
    | Boolean
    | Decimal(precision: int, scale: int)
    | Float

  /** A table column: its name, type and position in the table. */
  datatype Column = Column(name: string, columnType: ColumnType, index: nat)

  /** One stored cell. */
  datatype TableValue =
    | Null
    | String(s: string)
    | Int(n: int)
    | Decimal(text: string)
    | Float(text: string)
    | Bytes(bytes: seq<Byte>)
    | Timestamp(nanos: int)
    | Boolean(b: bool)

  /** A result set or a batch of rows for the write-ahead log. */
  datatype DataFrame = DataFrame(columns: seq<Column>, rows: seq<seq<TableValue>>)

  /** A Rust panic that aborts the request. */
  datatype Panic = IndexOutOfBounds | ZeroChunkSize

  /** Why an Int cell was refused: an expression form that is not a number,
      or the `ParseIntError` of the text. */
  datatype IntParseError = UnsupportedForm | ParseFailed(kind: Int64.IntErrorKind)

  /** The user errors of the service, one per message it can produce, and
      the failures of code outside the model. */
  datatype Error =
    | CustomTypeNotSupported(typeName: string)
    | RegclassNotSupported
    | SingleQuotedStringExpected(cell: Expr)
    | CantParseInt(cell: Expr, reason: IntParseError)
    | CannotConvertToBinary(value: Value)
    | InvalidHex(hex: Hex.HexError)
    | CorruptedData
    | CantParseTimestamp(cell: Expr)
    | CantParseBoolean(cell: Expr)
    | ColumnNotInTable(column: string, schema: string, table: string)
    | SchemaNameExpected(name: ObjectName)
    | InsertSchemaNameExpected(query: string)
    | DataExpected(query: string)
    | UnknownShow(variable: string)
    | UnsupportedIndexColumn(expr: Expr)
    | UnsupportedDrop
    | UnsupportedSql(query: string)
    | InsertJobFailed(message: string)
    | Foreign(message: string)
    | Panicked(panic: Panic)

  /** Code outside the model, passed in as total functions:
      `parse_decimal` followed by `f64::to_string` (floating point),
      datafusion's `string_to_timestamp_nanos`, and `HllSketch::read`
      (None when the sketch is valid). */
  datatype Oracles = Oracles(
    decimalText: Expr -> Result<string, Error>,
    timestampNanos: string -> Result<int, Error>,
    checkHll: seq<Byte> -> Option<Error>)
}
