/**
 * `parse_sql`: the query text to a structured query, or the reason it is rejected.
 * The regular expressions of the source are replaced by scans whose results are the
 * matches Python's `re` finds (with `\s` and `\w` on ASCII).
 */
module Parser {
  import opened Wrappers
  import opened Text
  import opened Numbers
  import opened Query

  /** The query stripped, then one trailing `;` and the white space before it removed. */
  function StripSemicolon(query: string): string {
    var q := Strip(query);
    if EndsWith(q, ";") then Strip(q[..|q| - 1]) else q
  }

  /**
   * Whether `\s+KW\s+` (ignoring case) matches at `i`, and where the match ends. The first
   * `\s+` can only stop at the end of the white-space run, since `KW` starts with a letter;
   * the second one takes the whole run that follows.
   */
  function KeywordMatch(s: string, kw: string, i: nat): (e: Option<nat>)
    requires i <= |s|
    ensures e.Some? ==> i < e.value <= |s|
  {
    if i < |s| && IsSpace(s[i]) then
      var j := SpaceRunEnd(s, i);
      var k := j + |kw|;
      if k < |s| && Upper(s[j..k]) == kw && IsSpace(s[k]) then Some(SpaceRunEnd(s, k)) else None
    else None
  }

  /** No match of the keyword pattern starts in `[from, to)`. */
  predicate NoMatchIn(s: string, kw: string, from: nat, to: nat)
    requires to <= |s|
  {
    forall i :: from <= i < to ==> KeywordMatch(s, kw, i).None?
  }

  /**
   * `re.split(r'\s+KW\s+', s, flags=re.IGNORECASE)` from position `i` on, the current piece
   * starting at `start`: the leftmost match is taken, scanning resumes at its end.
   */
  function SplitScan(s: string, kw: string, start: nat, i: nat): (parts: seq<string>)
    requires start <= i <= |s|
    ensures |parts| >= 1
    decreases |s| - i
  {
    if i == |s| then [s[start..]]
    else
      match KeywordMatch(s, kw, i)
      case Some(e) => [s[start..i]] + SplitScan(s, kw, e, e)
      case None => SplitScan(s, kw, start, i + 1)
  }

  function SplitKeyword(s: string, kw: string): (parts: seq<string>)
    ensures |parts| >= 1
  {
    SplitScan(s, kw, 0, 0)
  }

  /** `rest` split at a WHERE keyword, which is looked for only when `' WHERE '` occurs literally. */
  function SplitWhere(rest: string): Result<(string, Option<string>), ParseError> {
    if Contains(Upper(rest), " WHERE ") then
      var parts := SplitKeyword(rest, "WHERE");
      if |parts| == 2 then Ok((parts[0], Some(parts[1]))) else Err(MalformedWhere)
    else Ok((rest, None))
  }

  function StripEach(parts: seq<string>): (r: seq<string>)
    ensures |r| == |parts| && forall k :: 0 <= k < |parts| ==> r[k] == Strip(parts[k])
  {
    seq(|parts|, k requires 0 <= k < |parts| => Strip(parts[k]))
  }

  /** The first item that is not a word, if any. */
  function FirstNonWord(items: seq<string>): (r: Option<string>)
    ensures r.None? <==> forall k :: 0 <= k < |items| ==> IsWord(items[k])
    ensures r.Some? ==>
      exists k :: 0 <= k < |items| && items[k] == r.value && !IsWord(r.value) && AllWords(items[..k])
  {
    if items == [] then None
    else if !IsWord(items[0]) then
      assert AllWords(items[..0]);
      Some(items[0])
    else
      var r := FirstNonWord(items[1..]);
      assert r.Some? ==> exists k :: 1 <= k < |items| && items[k] == r.value && AllWords(items[..k]) by {
        if r.Some? {
          var k :| 0 <= k < |items[1..]| && items[1..][k] == r.value && AllWords(items[1..][..k]);
          assert items[..k + 1] == [items[0]] + items[1..][..k];
        }
      }
      r
  }

  predicate AllWords(items: seq<string>) {
    forall k :: 0 <= k < |items| ==> IsWord(items[k])
  }

  /** The select list: `*`, `COUNT(*)` or `COUNT(word)` (any case), or comma-separated words. */
  function ParseSelect(part: string): Result<SelectSpec, ParseError> {
    var upper := Upper(part);
    if upper == "*" then Ok(Star)
    else if StartsWith(upper, "COUNT(") && EndsWith(upper, ")") then
      var arg := Strip(SliceBetween(part, 6, 1));
      if arg == "*" || IsWord(Upper(arg)) then Ok(Count(arg)) else Err(InvalidCountArgument)
    else
      var cols := StripEach(Split(part, ','));
      match FirstNonWord(cols)
      case Some(col) => Err(InvalidColumnName(col))
      case None => Ok(Columns(cols))
  }

  /**
   * What `\s*(.+)$` captures of `u`: `\s*` as long as it can be while something free
   * of newlines is left for `.+`; `$` sits at the very end, since the text is stripped.
   */
  function ValueGroup(u: string): Option<string> {
    var l := SpaceRunEnd(u, 0);
    if l < |u| then (if '\n' in u[l..] then None else Some(u[l..]))
    else if |u| > 0 && u[|u| - 1] != '\n' then Some(u[|u| - 1..])
    else None
  }

  function OpText(op: Op): string {
    match op
    case Eq => "="
    case Ne => "!="
    case Ge => ">="
    case Le => "<="
    case Gt => ">"
    case Lt => "<"
  }

  /** The operator alternative `op` matches at the start of `t`, and so does the value after it. */
  predicate OpMatches(t: string, op: Op) {
    StartsWith(t, OpText(op)) && ValueGroup(t[|OpText(op)|..]).Some?
  }

  /** The alternatives `= != >= <= > <` in this order; the first whose whole pattern matches wins. */
  function MatchOperator(t: string): Option<(Op, string)> {
    if OpMatches(t, Eq) then Some((Eq, ValueGroup(t[1..]).value))
    else if OpMatches(t, Ne) then Some((Ne, ValueGroup(t[2..]).value))
    else if OpMatches(t, Ge) then Some((Ge, ValueGroup(t[2..]).value))
    else if OpMatches(t, Le) then Some((Le, ValueGroup(t[2..]).value))
    else if OpMatches(t, Gt) then Some((Gt, ValueGroup(t[1..]).value))
    else if OpMatches(t, Lt) then Some((Lt, ValueGroup(t[1..]).value))
    else None
  }

  /** A literal: quoted text, a float when it holds a point, an int otherwise. */
  function ParseLiteral(text: string): Result<Literal, ParseError> {
    var v := Strip(text);
    if StartsWith(v, "'") && EndsWith(v, "'") then Ok(LText(if |v| >= 2 then v[1..|v| - 1] else []))
    else if '.' in v then
      match ParseFloat(v)
      case Some(d) => Ok(LFloat(d))
      case None => Err(InvalidValue(v))
    else
      match ParseInt(v)
      case Some(i) => Ok(LInt(i))
      case None => Err(InvalidValue(v))
  }

  /** `^(\w+)\s*(=|!=|>=|<=|>|<)\s*(.+)$` on the WHERE text, then the literal. */
  function ParseCondition(text: string): Result<Condition, ParseError> {
    var col := WordPrefix(text);
    if col == [] then Err(InvalidCondition)
    else
      match MatchOperator(TrimLeft(text[|col|..]))
      case None => Err(InvalidCondition)
      case Some((op, value)) =>
        var lit :- ParseLiteral(value);
        Ok(Condition(Upper(col), op, lit))
  }

  /** An empty WHERE text means no condition. */
  function ParseWhere(text: string): Result<Option<Condition>, ParseError> {
    if text == [] then Ok(None)
    else
      var c :- ParseCondition(text);
      Ok(Some(c))
  }

  /** `parse_sql`: the query text without its trailing `;` is parsed. */
  function Parse(query: string): Result<Query, ParseError> {
    ParseStatement(StripSemicolon(query))
  }

  /** The statement, stripped and without its `;`, checked and split the way `parse_sql` does. */
  function ParseStatement(q: string): Result<Query, ParseError> {
    if !StartsWith(Upper(q), "SELECT ") then Err(NotSelect)
    else
      var parts := SplitKeyword(q, "FROM");
      if |parts| != 2 then Err(MalformedFrom)
      else
        var split :- SplitWhere(Strip(parts[1]));
        ParseClauses(Strip(From(parts[0], 6)), split)
  }

  /** The table name, then the select list, then the condition, from the parts of the statement. */
  function ParseClauses(selectPart: string, split: (string, Option<string>)): Result<Query, ParseError> {
    var table := WordPrefix(Strip(split.0));
    var whereText := if split.1.Some? then Strip(split.1.value) else [];
    if table == [] then Err(InvalidTableName)
    else
      var select :- ParseSelect(selectPart);
      var where :- ParseWhere(whereText);
      Ok(Query(select, table, where))
  }
}
