/** Conversion of one INSERT cell to a stored value: `parse_binary_string`,
    `parse_hyper_log_log` and `extract_data` (rust/cubestore/src/sql/mod.rs). */
module Cells {
  import opened Wrappers
  import opened Text
  import opened SqlTypes
  import Hex
  import Int64

  /** The pieces of `s` between spaces, empty pieces dropped. */
  function Words(s: string): seq<string> {
    NonEmpty(Split(s, ' '))
  }

  function NonEmpty(pieces: seq<string>): (r: seq<string>)
    ensures forall k :: 0 <= k < |r| ==> r[k] != ""
  {
    if pieces == [] then []
    else if pieces[0] == "" then NonEmpty(pieces[1..])
    else [pieces[0]] + NonEmpty(pieces[1..])
  }

  /** Decodes every piece with `decode_byte`, failing on the first that is not
      a byte. */
  function DecodeAll(pieces: seq<string>): (r: Option<seq<Byte>>)
    ensures r.Some? <==> forall k :: 0 <= k < |pieces| ==> Hex.DecodeByte(pieces[k]).Some?
    ensures r.Some? ==> |r.value| == |pieces|
    ensures r.Some? ==> forall k :: 0 <= k < |pieces| ==> r.value[k] == Hex.DecodeByte(pieces[k]).value
  {
    if pieces == [] then Some([])
    else
      match Hex.DecodeByte(pieces[0])
      case None => None
      case Some(b) =>
        match DecodeAll(pieces[1..])
        case None => None
        case Some(rest) => Some([b] + rest)
  }

  /** `parse_binary_string`: a number literal stands for its own UTF-8 bytes,
      a quoted string for space-separated two-digit hex bytes, a hex literal
      for its hex digits; every other literal is refused. */
  function ParseBinaryString(v: Value): (r: Result<seq<Byte>, Error>)
    ensures v.Number? ==> r.Ok?
    ensures r.Ok? ==> v.Number? || v.SingleQuotedString? || v.HexStringLiteral?
    ensures r.Err? ==> r.error == CannotConvertToBinary(v) || (v.HexStringLiteral? && r.error.InvalidHex?)
  {
    match v
    case Number(s) => Ok(Utf8String(s))
    case SingleQuotedString(s) =>
      (match DecodeAll(Words(s))
       case None => Err(CannotConvertToBinary(v))
       case Some(bytes) => Ok(bytes))
    case HexStringLiteral(s) =>
      (match Hex.FromHex(Utf8String(s))
       case Err(e) => Err(InvalidHex(e))
       case Ok(bytes) => Ok(bytes))
    case _ => Err(CannotConvertToBinary(v))
  }

  /** A quoted byte string yields one byte per non-empty space-separated
      piece, each decoded by `decode_byte`, and fails iff some piece is not a
      two-digit hex byte. */
  lemma QuotedBinarySpec(s: string)
    ensures ParseBinaryString(SingleQuotedString(s)).Ok? <==>
      forall k :: 0 <= k < |Words(s)| ==> Hex.DecodeByte(Words(s)[k]).Some?
    ensures ParseBinaryString(SingleQuotedString(s)).Ok? ==>
      var bytes := ParseBinaryString(SingleQuotedString(s)).value;
      |bytes| == |Words(s)| &&
      forall k :: 0 <= k < |bytes| ==> bytes[k] == Hex.DecodeByte(Words(s)[k]).value
  {
  }

  /** The quoted form `ParseBinaryString` reads: bytes as two-digit hex,
      separated by single spaces. */
  function SpacedHex(bytes: seq<Byte>): string {
    Join(EncodedBytes(bytes), ' ')
  }

  function EncodedBytes(bytes: seq<Byte>): (r: seq<string>)
    ensures |r| == |bytes|
    ensures forall k :: 0 <= k < |bytes| ==> r[k] == Hex.EncodeByte(bytes[k])
  {
    seq(|bytes|, k requires 0 <= k < |bytes| => Hex.EncodeByte(bytes[k]))
  }

  lemma {:induction false} NonEmptyKeeps(pieces: seq<string>)
    requires forall k :: 0 <= k < |pieces| ==> pieces[k] != ""
    ensures NonEmpty(pieces) == pieces
  {
    if pieces != [] {
      NonEmptyKeeps(pieces[1..]);
      assert [pieces[0]] + pieces[1..] == pieces;
    }
  }

  /** Reading back bytes written as spaced hex gives the bytes again. */
  lemma BinaryStringRoundTrip(bytes: seq<Byte>)
    ensures ParseBinaryString(SingleQuotedString(SpacedHex(bytes))) == Ok(bytes)
  {
    var parts := EncodedBytes(bytes);
    if bytes == [] {
      assert SpacedHex(bytes) == "";
      assert Words("") == [];
    } else {
      forall k | 0 <= k < |parts| ensures ' ' !in parts[k] && parts[k] != "" {
        var e := Hex.EncodeByte(bytes[k]);
        Hex.DigitsAt(bytes[k] / 16);
        Hex.DigitsAt(bytes[k] % 16);
        assert e == [Hex.Digits[bytes[k] / 16], Hex.Digits[bytes[k] % 16]];
      }
      SplitJoin(parts, ' ');
      NonEmptyKeeps(parts);
      forall k | 0 <= k < |parts| ensures Hex.DecodeByte(parts[k]) == Some(bytes[k]) {
        Hex.DecodeEncodeByte(bytes[k]);
      }
      var r := DecodeAll(parts);
      assert r.Some? && r.value == bytes;
    }
  }

  lemma SpacedHexExample()
    ensures SpacedHex([0x01, 0xff, 0x1a]) == "01 ff 1a"
  {
    assert Hex.EncodeByte(0x01) == "01";
    assert Hex.EncodeByte(0xff) == "ff";
    assert Hex.EncodeByte(0x1a) == "1a";
    var parts := EncodedBytes([0x01, 0xff, 0x1a]);
    assert parts == ["01", "ff", "1a"];
    assert parts[1..] == ["ff", "1a"] && parts[1..][1..] == ["1a"];
  }

  /** '01 ff 1a' is the three bytes 0x01, 0xff, 0x1a. */
  lemma QuotedBinaryExample()
    ensures ParseBinaryString(SingleQuotedString("01 ff 1a")) == Ok([0x01, 0xff, 0x1a])
  {
    SpacedHexExample();
    BinaryStringRoundTrip([0x01, 0xff, 0x1a]);
  }

  /** The number 456 is the bytes of the text "456". */
  lemma NumberBinaryExample()
    ensures ParseBinaryString(Number("456")) == Ok([52, 53, 54])
  {
    Utf8StringAscii("456");
    assert ParseBinaryString(Number("456")).value == [52, 53, 54];
  }

  /** `parse_hyper_log_log`: a binary string that the sketch reader accepts. */
  function ParseHyperLogLog(o: Oracles, v: Value): (r: Result<seq<Byte>, Error>)
    ensures r.Ok? <==> ParseBinaryString(v).Ok? && o.checkHll(ParseBinaryString(v).value).None?
    ensures r.Ok? ==> r == ParseBinaryString(v)
    ensures ParseBinaryString(v).Err? ==> r == Err(ParseBinaryString(v).error)
    ensures ParseBinaryString(v).Ok? && o.checkHll(ParseBinaryString(v).value).Some? ==>
              r == Err(o.checkHll(ParseBinaryString(v).value).value)
  {
    match ParseBinaryString(v)
    case Err(e) => Err(e)
    case Ok(bytes) =>
      match o.checkHll(bytes)
      case Some(e) => Err(e)
      case None => Ok(bytes)
  }

  /** `v * -1` on an i64 as a release build computes it: the minimum wraps
      to itself. */
  function Negate64(v: int): (r: int)
    requires Int64.InRange(v)
    ensures Int64.InRange(r)
    ensures v != Int64.Min ==> r == -v
  {
    if v == Int64.Min then Int64.Min else -v
  }

  function ParsedInt(cell: Expr, s: string, negate: bool): (r: Result<int, Error>)
    ensures r.Ok? ==> Int64.InRange(r.value)
  {
    match Int64.ParseI64(s)
    case Err(k) => Err(CantParseInt(cell, ParseFailed(k)))
    case Ok(n) =>
      Int64.ParseI64InRange(s);
      Ok(if negate then Negate64(n) else n)
  }

  /** The Int branch of `extract_data`: a number or quoted string parsed as
      i64, or a negated number. */
  function IntCell(cell: Expr): (r: Result<int, Error>)
    ensures r.Ok? ==> Int64.InRange(r.value)
  {
    match cell
    case ValueExpr(Number(v)) => ParsedInt(cell, v, false)
    case ValueExpr(SingleQuotedString(v)) => ParsedInt(cell, v, false)
    case UnaryOp(Minus, ValueExpr(Number(v))) => ParsedInt(cell, v, true)
    case _ => Err(CantParseInt(cell, UnsupportedForm))
  }

  /** The stored value has the variant that goes with the column type. */
  predicate Fits(t: ColumnType, v: TableValue)
  {
    match t
    case String => v.String?
    case Int => v.Int? && Int64.InRange(v.n)
    case Decimal(_, _) => v.Decimal?
    case Bytes => v.Bytes?
    case HyperLogLog => v.Bytes?
    case Timestamp => v.Timestamp?
    case Boolean => v.Boolean?
    case Float => v.Float?
  }

  /** `extract_data`: the value of cell `i` for column `cols[i]`. NULL is
      accepted for every column type; `cols[i]` out of range is a panic. */
  function ExtractData(o: Oracles, cell: Expr, cols: seq<Column>, i: nat): (r: Result<TableValue, Error>)
    ensures r == Ok(TableValue.Null) <==> cell == ValueExpr(Value.Null)
    ensures cell != ValueExpr(Value.Null) && i >= |cols| ==> r == Err(Panicked(IndexOutOfBounds))
    ensures r.Ok? && cell != ValueExpr(Value.Null) ==> i < |cols| && Fits(cols[i].columnType, r.value)
  {
    if cell == ValueExpr(Value.Null) then Ok(TableValue.Null)
    else if i >= |cols| then Err(Panicked(IndexOutOfBounds))
    else
      match cols[i].columnType
      case String =>
        if cell.ValueExpr? && cell.value.SingleQuotedString? then Ok(TableValue.String(cell.value.text))
        else Err(SingleQuotedStringExpected(cell))
      case Int =>
        (match IntCell(cell)
         case Err(e) => Err(e)
         case Ok(n) => Ok(TableValue.Int(n)))
      case Decimal(_, _) =>
        (match o.decimalText(cell)
         case Err(e) => Err(e)
         case Ok(t) => Ok(TableValue.Decimal(t)))
      case Bytes =>
        if !cell.ValueExpr? then Err(CorruptedData)
        else
          (match ParseBinaryString(cell.value)
           case Err(e) => Err(e)
           case Ok(b) => Ok(TableValue.Bytes(b)))
      case HyperLogLog =>
        if !cell.ValueExpr? then Err(CorruptedData)
        else
          (match ParseHyperLogLog(o, cell.value)
           case Err(e) => Err(e)
           case Ok(b) => Ok(TableValue.Bytes(b)))
      case Timestamp =>
        if cell.ValueExpr? && cell.value.SingleQuotedString? then
          (match o.timestampNanos(cell.value.text)
           case Err(e) => Err(e)
           case Ok(n) => Ok(TableValue.Timestamp(n)))
        else Err(CantParseTimestamp(cell))
      case Boolean =>
        if cell.ValueExpr? && cell.value.SingleQuotedString? then
          Ok(TableValue.Boolean(ToLower(cell.value.text) == "true"))
        else if cell.ValueExpr? && cell.value.Boolean? then Ok(TableValue.Boolean(cell.value.b))
        else Err(CantParseBoolean(cell))
      case Float =>
        match o.decimalText(cell)
        case Err(e) => Err(e)
        case Ok(t) => Ok(TableValue.Float(t))
  }

  /** A NULL literal is stored as Null whatever the column type and even
      past the end of the column list. */
  lemma NullForEveryColumn(o: Oracles, cols: seq<Column>, i: nat)
    ensures ExtractData(o, ValueExpr(Value.Null), cols, i) == Ok(TableValue.Null)
  {
  }

  /** An Int column stores exactly the i64 a decimal literal denotes, written
      bare or quoted, and its negation when the literal is negated. */
  lemma IntColumnRoundTrip(o: Oracles, cols: seq<Column>, i: nat, n: int)
    requires i < |cols| && cols[i].columnType == ColumnType.Int
    requires Int64.InRange(n)
    ensures ExtractData(o, ValueExpr(Number(Int64.FormatI64(n))), cols, i) == Ok(TableValue.Int(n))
    ensures ExtractData(o, ValueExpr(SingleQuotedString(Int64.FormatI64(n))), cols, i) == Ok(TableValue.Int(n))
    ensures n > Int64.Min ==>
      ExtractData(o, UnaryOp(Minus, ValueExpr(Number(Int64.FormatI64(n)))), cols, i) == Ok(TableValue.Int(-n))
  {
    Int64.ParseFormat(n);
  }

  /** On an Int column every accepted cell is NULL, a number, a quoted
      string or a negated number, and the stored value fits in an i64. */
  lemma IntColumnAccepts(o: Oracles, cell: Expr, cols: seq<Column>, i: nat)
    requires i < |cols| && cols[i].columnType == ColumnType.Int
    requires ExtractData(o, cell, cols, i).Ok?
    ensures cell == ValueExpr(Value.Null) || (cell.ValueExpr? && (cell.value.Number? || cell.value.SingleQuotedString?))
      || (cell.UnaryOp? && cell.op == Minus && cell.expr.ValueExpr? && cell.expr.value.Number?)
    ensures cell != ValueExpr(Value.Null) ==>
      ExtractData(o, cell, cols, i).value.Int? && Int64.InRange(ExtractData(o, cell, cols, i).value.n)
  {
  }

  /** -153 into an Int column is stored as Int(-153). */
  lemma NegativeNumberExample(o: Oracles)
    ensures ExtractData(o, UnaryOp(Minus, ValueExpr(Number("153"))), [Column("int_value", ColumnType.Int, 0)], 0)
      == Ok(TableValue.Int(-153))
  {
    IntColumnRoundTrip(o, [Column("int_value", ColumnType.Int, 0)], 0, 153);
    assert Int64.FormatI64(153) == "153";
  }

  /** A Boolean column: a quoted string is true iff it lower-cases to
      "true", a boolean literal is itself; other non-NULL cells are errors. */
  lemma BooleanColumn(o: Oracles, cell: Expr, cols: seq<Column>, i: nat)
    requires i < |cols| && cols[i].columnType == ColumnType.Boolean
    requires cell != ValueExpr(Value.Null)
    ensures cell.ValueExpr? && cell.value.SingleQuotedString? ==>
      ExtractData(o, cell, cols, i) == Ok(TableValue.Boolean(ToLower(cell.value.text) == "true"))
    ensures cell.ValueExpr? && cell.value.Boolean? ==> ExtractData(o, cell, cols, i) == Ok(TableValue.Boolean(cell.value.b))
    ensures ExtractData(o, cell, cols, i).Ok? <==>
      cell.ValueExpr? && (cell.value.SingleQuotedString? || cell.value.Boolean?)
  {
  }

  /** A String column accepts exactly NULL and single-quoted strings, and
      stores the string's text. */
  lemma StringColumn(o: Oracles, cell: Expr, cols: seq<Column>, i: nat)
    requires i < |cols| && cols[i].columnType == ColumnType.String
    ensures ExtractData(o, cell, cols, i).Ok? <==>
      cell == ValueExpr(Value.Null) || (cell.ValueExpr? && cell.value.SingleQuotedString?)
    ensures cell.ValueExpr? && cell.value.SingleQuotedString? ==>
      ExtractData(o, cell, cols, i) == Ok(TableValue.String(cell.value.text))
    ensures ExtractData(o, cell, cols, i).Err? ==> ExtractData(o, cell, cols, i).error == SingleQuotedStringExpected(cell)
  {
  }
}
