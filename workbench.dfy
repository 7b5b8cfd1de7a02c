/** `handle_workbench_queries` (rust/cubestore/src/sql/mod.rs): fixed answers
    to the probes MySQL clients and workbenches send on connecting, given
    before the query is parsed. */
module Workbench {
  import opened Wrappers
  import opened Text
  import opened SqlTypes

  function StringColumn(name: string, index: nat): Column {
    Column(name, ColumnType.String, index)
  }

  function VariableFrame(name: string, value: string): DataFrame {
    DataFrame([StringColumn("Variable_name", 0), StringColumn("Value", 1)],
              [[TableValue.String(name), TableValue.String(value)]])
  }

  function SingleValueFrame(column: string, value: string): DataFrame {
    DataFrame([StringColumn(column, 0)], [[TableValue.String(value)]])
  }

  const EmptyFrame := DataFrame([], [])

  /** The two probes matched exactly, case included. */
  const ExactProbes: set<string> := {
    "SHOW SESSION VARIABLES LIKE 'lower_case_table_names'",
    "SHOW SESSION VARIABLES LIKE 'sql_mode'"
  }

  /** The probes matched after lower-casing the query. */
  const LowerCaseProbes: set<string> := {
    "select current_user()",
    "select connection_id()",
    "select connection_id() as connectionid",
    "set character set utf8",
    "set names utf8",
    "show character set where charset = 'utf8mb4'"
  }

  function HandleWorkbenchQueries(q: string): (r: Option<DataFrame>)
    ensures r.Some? ==> WellFormed(r.value) && |r.value.rows| <= 1
  {
    if q == "SHOW SESSION VARIABLES LIKE 'lower_case_table_names'" then
      Some(VariableFrame("lower_case_table_names", "2"))
    else if q == "SHOW SESSION VARIABLES LIKE 'sql_mode'" then
      Some(VariableFrame("sql_mode", "TRADITIONAL"))
    else
      var lq := ToLower(q);
      if lq == "select current_user()" then Some(SingleValueFrame("user", "root"))
      else if lq == "select connection_id()" then Some(SingleValueFrame("connection_id", "1"))
      else if lq == "select connection_id() as connectionid" then Some(SingleValueFrame("connectionId", "1"))
      else if lq == "set character set utf8" then Some(EmptyFrame)
      else if lq == "set names utf8" then Some(EmptyFrame)
      else if lq == "show character set where charset = 'utf8mb4'" then Some(EmptyFrame)
      else None
  }

  /** A frame whose `k`-th column has index `k` and whose rows are all as wide
      as its column list. */
  predicate WellFormed(f: DataFrame) {
    (forall k :: 0 <= k < |f.columns| ==> f.columns[k].index == k) &&
    (forall r :: 0 <= r < |f.rows| ==> |f.rows[r]| == |f.columns|)
  }

  /** A query is answered here iff it is one of the exact probes or
      lower-cases to one of the others, and every answer is a well-formed
      frame of String columns with at most one row. */
  lemma WorkbenchAnswers(q: string)
    ensures HandleWorkbenchQueries(q).Some? <==> q in ExactProbes || ToLower(q) in LowerCaseProbes
    ensures HandleWorkbenchQueries(q).Some? ==>
      var f := HandleWorkbenchQueries(q).value;
      WellFormed(f) && |f.rows| <= 1 &&
      (forall k :: 0 <= k < |f.columns| ==> f.columns[k].columnType == ColumnType.String)
  {
  }

  /** Apart from the two exact probes, the answer depends only on the query's
      lower-cased text. */
  lemma WorkbenchIgnoresCase(q1: string, q2: string)
    requires ToLower(q1) == ToLower(q2)
    requires q1 !in ExactProbes && q2 !in ExactProbes
    ensures HandleWorkbenchQueries(q1) == HandleWorkbenchQueries(q2)
  {
  }
}
