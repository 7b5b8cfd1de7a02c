/** `convert_columns_type` (rust/cubestore/src/sql/mod.rs): the column
    definitions of CREATE TABLE become CubeStore columns. */
module ColumnConversion {
  import opened Wrappers
  import opened Text
  import opened SqlTypes

  /** The DECIMAL mapping: defaults (18, 5), precision clamped to 18, a
      scale above 5 replaced by 10, and precision raised to the scale. */
  function DecimalType(precision: Option<nat>, scale: Option<nat>): (r: ColumnType)
    ensures r.Decimal?
    ensures 0 <= r.scale <= r.precision <= 18
    ensures r.scale <= 5 || r.scale == 10
    ensures precision.None? && scale.None? ==> r == ColumnType.Decimal(18, 5)
  {
    var p := if precision.Some? then precision.value else 18;
    var s := if scale.Some? then scale.value else 5;
    var p1 := if p > 18 then 18 else p;
    var s1 := if s > 5 then 10 else s;
    var p2 := if s1 > p1 then s1 else p1;
    ColumnType.Decimal(p2, s1)
  }

  /** A DECIMAL that is already within the limits is kept as written. */
  lemma DecimalTypeKeepsSupported(p: nat, s: nat)
    requires p <= 18 && s <= 5 && s <= p
    ensures DecimalType(Some(p), Some(s)) == ColumnType.Decimal(p, s)
  {
  }

  /** A scale above 5 always becomes 10, whatever the precision. */
  lemma DecimalTypeLargeScale(precision: Option<nat>, s: nat)
    requires s > 5
    ensures DecimalType(precision, Some(s)).scale == 10
    ensures DecimalType(precision, Some(s)).precision >= 10
  {
  }

  /** The CubeStore type of one SQL type; RegClass and unknown custom types
      are refused. Custom names are compared lower-cased. */
  function ColumnTypeOf(dt: DataType): (r: Result<ColumnType, Error>)
    ensures r.Err? <==>
      (dt.Regclass? || (dt.Custom? && ToLower(ObjectNameText(dt.name)) !in {"mediumint", "varbinary", "hyperloglog"}))
    ensures r.Ok? && r.value.HyperLogLog? ==> dt.Custom?
    ensures r.Ok? && r.value.Decimal? ==> dt.Decimal? && 0 <= r.value.scale <= r.value.precision <= 18
  {
    match dt
    case Date | Time | Char(_) | Varchar(_) | Clob(_) | Text => Ok(ColumnType.String)
    case Uuid | Binary(_) | Varbinary(_) | Blob(_) | Bytea | Array(_) => Ok(ColumnType.Bytes)
    case Decimal(p, s) => Ok(DecimalType(p, s))
    case SmallInt | Int | BigInt | Interval => Ok(ColumnType.Int)
    case Boolean => Ok(ColumnType.Boolean)
    case Float(_) | Real | Double => Ok(ColumnType.Float)
    case Timestamp => Ok(ColumnType.Timestamp)
    case Custom(name) =>
      var lowered := ToLower(ObjectNameText(name));
      if lowered == "mediumint" then Ok(ColumnType.Int)
      else if lowered == "varbinary" then Ok(ColumnType.Bytes)
      else if lowered == "hyperloglog" then Ok(ColumnType.HyperLogLog)
      else Err(CustomTypeNotSupported(ObjectNameText(name)))
    case Regclass => Err(RegclassNotSupported)
  }

  /** Custom type names are case-insensitive: MEDIUMINT is an Int column. */
  lemma CustomTypeCaseInsensitive(name: ObjectName, other: ObjectName)
    requires ToLower(ObjectNameText(name)) == ToLower(ObjectNameText(other))
    requires ColumnTypeOf(DataType.Custom(name)).Ok?
    ensures ColumnTypeOf(DataType.Custom(other)) == ColumnTypeOf(DataType.Custom(name))
  {
  }

  /** The index of the first definition whose type is refused. */
  predicate FirstRefused(columns: seq<ColumnDef>, k: int) {
    0 <= k < |columns| && ColumnTypeOf(columns[k].dataType).Err? &&
    forall j :: 0 <= j < k ==> ColumnTypeOf(columns[j].dataType).Ok?
  }

  /** The first position at or after `from` whose type is refused, or
      `|columns|` when there is none. */
  function FirstRefusedFrom(columns: seq<ColumnDef>, from: nat): (k: nat)
    requires from <= |columns|
    ensures from <= k <= |columns|
    ensures forall j :: from <= j < k ==> ColumnTypeOf(columns[j].dataType).Ok?
    ensures k < |columns| ==> ColumnTypeOf(columns[k].dataType).Err?
    decreases |columns| - from
  {
    if from == |columns| then from
    else if ColumnTypeOf(columns[from].dataType).Err? then from
    else FirstRefusedFrom(columns, from + 1)
  }

  /** What `convert_columns_type` returns, for use by the statement model. */
  function ConvertedColumns(columns: seq<ColumnDef>): (r: Result<seq<Column>, Error>)
    ensures r.Ok? <==> forall k :: 0 <= k < |columns| ==> ColumnTypeOf(columns[k].dataType).Ok?
    ensures r.Ok? ==> |r.value| == |columns|
    ensures r.Ok? ==> forall k :: 0 <= k < |columns| ==>
      r.value[k].name == columns[k].name.value && r.value[k].index == k
    ensures r.Ok? ==> forall k :: 0 <= k < |columns| ==>
      r.value[k].columnType == ColumnTypeOf(columns[k].dataType).value
    ensures r.Err? ==> exists k :: FirstRefused(columns, k) && r.error == ColumnTypeOf(columns[k].dataType).error
  {
    var k := FirstRefusedFrom(columns, 0);
    if k < |columns| then Err(ColumnTypeOf(columns[k].dataType).error)
    else Ok(seq(|columns|, j requires 0 <= j < |columns| =>
                 Column(columns[j].name.value, ColumnTypeOf(columns[j].dataType).value, j)))
  }

  /** `convert_columns_type`: either the first refused type's error, or one
      column per definition, keeping its name, with index = position. */
  method ConvertColumnsType(columns: seq<ColumnDef>) returns (r: Result<seq<Column>, Error>)
    ensures r.Ok? <==> forall k :: 0 <= k < |columns| ==> ColumnTypeOf(columns[k].dataType).Ok?
    ensures r.Ok? ==> |r.value| == |columns|
    ensures r.Ok? ==> forall k :: 0 <= k < |columns| ==>
      r.value[k] == Column(columns[k].name.value, ColumnTypeOf(columns[k].dataType).value, k)
    ensures r.Err? ==> exists k :: FirstRefused(columns, k) && r.error == ColumnTypeOf(columns[k].dataType).error
    ensures r == ConvertedColumns(columns)
  {
    var converted: seq<Column> := [];
    var i := 0;
    while i < |columns|
      invariant 0 <= i <= |columns|
      invariant |converted| == i
      invariant forall k :: 0 <= k < i ==> ColumnTypeOf(columns[k].dataType).Ok?
      invariant forall k :: 0 <= k < i ==>
        converted[k] == Column(columns[k].name.value, ColumnTypeOf(columns[k].dataType).value, k)
    {
      var t := ColumnTypeOf(columns[i].dataType);
      if t.Err? {
        assert FirstRefused(columns, i);
        assert FirstRefusedFrom(columns, 0) == i;
        return Err(t.error);
      }
      converted := converted + [Column(columns[i].name.value, t.value, i)];
      i := i + 1;
    }
    assert FirstRefusedFrom(columns, 0) == |columns|;
    assert converted == ConvertedColumns(columns).value;
    return Ok(converted);
  }
}
