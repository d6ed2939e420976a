/**
 * What `execute_query` computes, as functions of the loaded tables and the query:
 * resolve the table, filter by the WHERE condition, then COUNT or project.
 * The `Database` class runs the same pipeline with loops and is proved equal to it.
 */
module Semantics {
  import opened Wrappers
  import opened Text
  import opened Numbers
  import opened Values
  import opened Query

  /** Why `execute_query` raises. */
  datatype ExecError =
    | TableNotLoaded(name: string, available: set<string>)
    | NoFirstRow
    | WhereColumnMissing(col: string, table: string)
    | CountColumnMissing(arg: string)
    | ColumnMissing(name: string)

  // ---- WHERE ----

  /** `val_type(row_val)`: `int()`, `float()` or `str()` of a row value; `None` where it raises. */
  function CoerceTo(v: Value, t: LitType): (r: Option<Literal>)
    ensures r.Some? ==> r.value.Type() == t
  {
    match t
    case IntType =>
      (match v
       case VInt(i) => Some(LInt(i))
       case VFloat(f) => Some(LInt(Truncate(f)))
       case VText(s) => (match ParseInt(s) case Some(i) => Some(LInt(i)) case None => None)
       case VNull => None)
    case FloatType =>
      (match v
       case VInt(i) => Some(LFloat(Decimal(i, 0)))
       case VFloat(f) => Some(LFloat(f))
       case VText(s) => (match ParseFloat(s) case Some(f) => Some(LFloat(f)) case None => None)
       case VNull => None)
    case TextType =>
      (match v
       case VInt(i) => Some(LText(IntToStr(i)))
       case VFloat(f) => Some(LText(FloatToStr(f)))
       case VText(s) => Some(LText(s))
       case VNull => Some(LText("None")))
  }

  datatype Ordering = Less | Equal | Greater

  /** Python's ordering of two values of the same type: numbers by value, strings lexicographically. */
  function Compare(a: Literal, b: Literal): Ordering
    requires a.Type() == b.Type()
  {
    match a
    case LInt(x) => if x < b.i then Less else if x == b.i then Equal else Greater
    case LFloat(x) =>
      if RealOf(x) < RealOf(b.f) then Less else if RealOf(x) == RealOf(b.f) then Equal else Greater
    case LText(x) => if LexLess(x, b.s) then Less else if x == b.s then Equal else Greater
  }

  /** `row_val op val`. */
  predicate Holds(op: Op, a: Literal, b: Literal)
    requires a.Type() == b.Type()
  {
    match op
    case Eq => Compare(a, b) == Equal
    case Ne => Compare(a, b) != Equal
    case Gt => Compare(a, b) == Greater
    case Lt => Compare(a, b) == Less
    case Ge => Compare(a, b) != Less
    case Le => Compare(a, b) != Greater
  }

  /** The filter keeps a row whose value is present, not null, coerces to the literal's type and satisfies the operator. */
  predicate Keep(row: Row, c: Condition) {
    var col := Upper(c.col);
    && col in row
    && row[col] != VNull
    && CoerceTo(row[col], c.lit.Type()).Some?
    && Holds(c.op, CoerceTo(row[col], c.lit.Type()).value, c.lit)
  }

  /** The rows the condition keeps, in table order. */
  function FilterRows(rows: seq<Row>, c: Condition): seq<Row> {
    if rows == [] then []
    else
      var last := rows[|rows| - 1];
      FilterRows(rows[..|rows| - 1], c) + if Keep(last, c) then [last] else []
  }

  /** The WHERE stage: the column must be in the first row (so the table must have one) before any row is filtered. */
  function ApplyWhere(rows: seq<Row>, where: Option<Condition>, table: string): Result<seq<Row>, ExecError> {
    match where
    case None => Ok(rows)
    case Some(c) =>
      if rows == [] then Err(NoFirstRow)
      else if Upper(c.col) !in rows[0] then Err(WhereColumnMissing(c.col, table))
      else Ok(FilterRows(rows, c))
  }

  // ---- COUNT and projection ----

  /** The select list as the parser hands it over: `['*']`, `['COUNT(arg)']` or the column names. */
  function SelectList(s: SelectSpec): seq<string> {
    match s
    case Star => ["*"]
    case Count(arg) => ["COUNT(" + arg + ")"]
    case Columns(cols) => cols
  }

  /** The number of rows whose value in `col` is present and not null. */
  function CountNonNull(rows: seq<Row>, col: string): (n: nat)
    ensures n <= |rows|
  {
    if rows == [] then 0
    else
      var last := rows[|rows| - 1];
      CountNonNull(rows[..|rows| - 1], col) + if col in last && last[col] != VNull then 1 else 0
  }

  function CountRow(n: nat): Row {
    map["COUNT" := VInt(n)]
  }

  /** The COUNT stage, given the argument between the parentheses. */
  function ApplyCount(rows: seq<Row>, arg: string): Result<seq<Row>, ExecError> {
    if arg == "*" then Ok([CountRow(|rows|)])
    else if rows == [] then Err(NoFirstRow)
    else if Upper(arg) !in rows[0] then Err(CountColumnMissing(arg))
    else Ok([CountRow(CountNonNull(rows, Upper(arg)))])
  }

  function UpperEach(select: seq<string>): (r: seq<string>)
    ensures |r| == |select| && forall k :: 0 <= k < |select| ==> r[k] == Upper(select[k])
  {
    seq(|select|, k requires 0 <= k < |select| => Upper(select[k]))
  }

  /** `xs.index(x)`: the first position of `x`. */
  function IndexIn(xs: seq<string>, x: string): (k: nat)
    requires x in xs
    ensures k < |xs| && xs[k] == x && forall j :: 0 <= j < k ==> xs[j] != x
  {
    if xs[0] == x then 0 else 1 + IndexIn(xs[1..], x)
  }

  /** The output name of the `k`-th selected column: the first selected name with the same upper case. */
  function Label(select: seq<string>, k: nat): string
    requires k < |select|
  {
    select[IndexIn(UpperEach(select), Upper(select[k]))]
  }

  /** The first `n` selected columns of one row, keyed by their labels. */
  function ProjectRowUpTo(row: Row, select: seq<string>, n: nat): Result<Row, ExecError>
    requires n <= |select|
  {
    if n == 0 then Ok(map[])
    else
      var partial :- ProjectRowUpTo(row, select, n - 1);
      var col := Upper(select[n - 1]);
      if col !in row then Err(ColumnMissing(Label(select, n - 1)))
      else Ok(partial[Label(select, n - 1) := row[col]])
  }

  function ProjectRow(row: Row, select: seq<string>): Result<Row, ExecError> {
    ProjectRowUpTo(row, select, |select|)
  }

  /** Every row projected, in order; the first missing column (row by row) raises. */
  function ProjectRows(rows: seq<Row>, select: seq<string>): Result<seq<Row>, ExecError> {
    if rows == [] then Ok([])
    else
      var init :- ProjectRows(rows[..|rows| - 1], select);
      var last :- ProjectRow(rows[|rows| - 1], select);
      Ok(init + [last])
  }

  /** The select stage, deciding on the list the way the source does. */
  function ApplySelect(rows: seq<Row>, select: seq<string>): Result<seq<Row>, ExecError> {
    if |select| == 1 && StartsWith(select[0], "COUNT(") then
      ApplyCount(rows, Strip(SliceBetween(select[0], 6, 1)))
    else if select == ["*"] then Ok(rows)
    else ProjectRows(rows, select)
  }

  /** `execute_query`. */
  function Execute(tables: map<string, seq<Row>>, q: Query): Result<seq<Row>, ExecError> {
    if q.table !in tables then Err(TableNotLoaded(q.table, tables.Keys))
    else
      var rows :- ApplyWhere(tables[q.table], q.where, q.table);
      ApplySelect(rows, SelectList(q.select))
  }
}
