/** The structured query `parse_sql` produces and `execute_query` consumes. */
module Query {
  import opened Wrappers
  import opened Numbers
  import opened Text

  /** The comparison operators of a WHERE condition. */
  datatype Op = Eq | Ne | Gt | Lt | Ge | Le

  /** The Python type a condition compares in: `int`, `float` or `str`. */
  datatype LitType = IntType | FloatType | TextType

  /** A parsed literal; its variant is the type the row values are coerced to. */
  datatype Literal = LInt(i: int) | LFloat(f: Decimal) | LText(s: string) {
    function Type(): LitType {
      match this
      case LInt(_) => IntType
      case LFloat(_) => FloatType
      case LText(_) => TextType
    }
  }

  /** `col op literal`, with the column name upper-cased. */
  datatype Condition = Condition(col: string, op: Op, lit: Literal)

  /**
   * The select list: `['*']`, `['COUNT(arg)']` (arg is `*` or a word, in its original case),
   * or the column names in their original case and order.
   */
  datatype SelectSpec = Star | Count(arg: string) | Columns(cols: seq<string>)

  datatype Query = Query(select: SelectSpec, table: string, where: Option<Condition>)

  /** Why `parse_sql` rejects a query; each is a `ValueError` in the source. */
  datatype ParseError =
    | NotSelect
    | MalformedFrom
    | MalformedWhere
    | InvalidTableName
    | InvalidCountArgument
    | InvalidColumnName(col: string)
    | InvalidCondition
    | InvalidValue(text: string)

  /** The shape of every query the parser accepts. */
  predicate WellFormedSelect(s: SelectSpec) {
    match s
    case Star => true
    case Count(arg) => arg == "*" || IsWord(arg)
    case Columns(cols) => |cols| > 0 && forall k :: 0 <= k < |cols| ==> IsWord(cols[k])
  }

  predicate WellFormed(q: Query) {
    && IsWord(q.table)
    && WellFormedSelect(q.select)
    && (q.where.Some? ==> IsWord(q.where.value.col) && Upper(q.where.value.col) == q.where.value.col)
  }
}
