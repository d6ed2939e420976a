/** What `parse_sql` promises about the queries it accepts and rejects. */
module ParserFacts {
  import opened Wrappers
  import opened Text
  import opened Numbers
  import opened Query
  import opened Parser

  // ---- The trailing semicolon ----

  /** One `;` at the end, with any white space around it, is removed. */
  lemma StripSemicolonTerminated(q: string, w: string)
    requires !EndsWith(Strip(q), ";") && AllSpace(w)
    ensures StripSemicolon(q + ";" + w) == Strip(q)
    ensures StripSemicolon(q) == Strip(q)
  {
    var x := Strip(q);
    var i := StripParts(q);
    var w1, w2 := q[..i], q[i + |x|..];
    assert q == w1 + x + w2;
    if x == [] {
      SemicolonAlone(w1, w2, w);
    } else {
      SemicolonAfterText(w1, x, w2, w);
    }
  }

  lemma SemicolonAlone(w1: string, w2: string, w: string)
    requires AllSpace(w1) && AllSpace(w2) && AllSpace(w)
    ensures StripSemicolon(w1 + w2 + ";" + w) == []
  {
    assert AllSpace(w1 + w2) by {
      assert forall k :: 0 <= k < |w1| ==> (w1 + w2)[k] == w1[k];
      assert forall k :: |w1| <= k < |w1 + w2| ==> (w1 + w2)[k] == w2[k - |w1|];
    }
    StripPadded(w1 + w2, ";", w);
  }

  lemma SemicolonAfterText(w1: string, x: string, w2: string, w: string)
    requires AllSpace(w1) && AllSpace(w2) && AllSpace(w) && Trimmed(x) && x != []
    ensures StripSemicolon(w1 + x + w2 + ";" + w) == x
  {
    var y := x + w2 + ";";
    SemicolonTail(x, w2);
    assert w1 + x + w2 + ";" + w == w1 + y + w;
    StripPadded(w1, y, w);
  }

  /** Text, white space and a `;` is trimmed, and dropping the `;` strips back to the text. */
  lemma SemicolonTail(x: string, w2: string)
    requires AllSpace(w2) && Trimmed(x) && x != []
    ensures var y := x + w2 + ";";
      Trimmed(y) && EndsWith(y, ";") && Strip(y[..|y| - 1]) == x
  {
    var y := x + w2 + ";";
    assert y[0] == x[0];
    assert y[..|y| - 1] == [] + x + w2;
    StripPadded([], x, w2);
  }

  /** `Q` and `Q;` are the same query. */
  lemma SemicolonInsensitive(q: string, w: string)
    requires !EndsWith(Strip(q), ";") && AllSpace(w)
    ensures Parse(q + ";" + w) == Parse(q)
  {
    StripSemicolonTerminated(q, w);
  }

  // ---- Splitting at a keyword ----

  lemma {:induction false} SplitScanNoMatch(s: string, kw: string, start: nat, i: nat)
    requires start <= i <= |s| && NoMatchIn(s, kw, i, |s|)
    ensures SplitScan(s, kw, start, i) == [s[start..]]
    decreases |s| - i
  {
    if i < |s| {
      SplitScanNoMatch(s, kw, start, i + 1);
    }
  }

  lemma {:induction false} SplitScanSkip(s: string, kw: string, start: nat, i: nat, m: nat)
    requires start <= i <= m <= |s| && NoMatchIn(s, kw, i, m)
    ensures SplitScan(s, kw, start, i) == SplitScan(s, kw, start, m)
    decreases m - i
  {
    if i < m {
      SplitScanSkip(s, kw, start, i + 1, m);
    }
  }

  /** With no match anywhere, the split gives the whole text as its one part. */
  lemma SplitKeywordNone(s: string, kw: string)
    requires NoMatchIn(s, kw, 0, |s|)
    ensures SplitKeyword(s, kw) == [s]
  {
    SplitScanNoMatch(s, kw, 0, 0);
  }

  /** With exactly one match, from `m` to `e`, the split gives the text before and after it. */
  lemma SplitKeywordOnce(s: string, kw: string, m: nat, e: nat)
    requires m <= |s| && NoMatchIn(s, kw, 0, m) && KeywordMatch(s, kw, m) == Some(e)
    requires NoMatchIn(s, kw, e, |s|)
    ensures SplitKeyword(s, kw) == [s[..m], s[e..]]
  {
    SplitScanSkip(s, kw, 0, 0, m);
    SplitScanNoMatch(s, kw, e, e);
  }

  /** Two parts come only from exactly one match: the parts are what lies before and after it. */
  lemma {:induction false} SplitScanTwo(s: string, kw: string, start: nat, i: nat) returns (m: nat, e: nat)
    requires start <= i <= |s| && |SplitScan(s, kw, start, i)| == 2
    ensures i <= m < e <= |s| && NoMatchIn(s, kw, i, m) && KeywordMatch(s, kw, m) == Some(e)
    ensures NoMatchIn(s, kw, e, |s|) && SplitScan(s, kw, start, i) == [s[start..m], s[e..]]
    decreases |s| - i
  {
    var k := KeywordMatch(s, kw, i);
    if k.Some? {
      m, e := i, k.value;
      SplitScanOne(s, kw, e, e);
    } else {
      m, e := SplitScanTwo(s, kw, start, i + 1);
    }
  }

  lemma {:induction false} SplitScanOne(s: string, kw: string, start: nat, i: nat)
    requires start <= i <= |s| && |SplitScan(s, kw, start, i)| == 1
    ensures NoMatchIn(s, kw, i, |s|) && SplitScan(s, kw, start, i) == [s[start..]]
    decreases |s| - i
  {
    if i < |s| && KeywordMatch(s, kw, i).None? {
      SplitScanOne(s, kw, start, i + 1);
    }
  }

  /** The split has two parts exactly when the pattern matches once. */
  lemma SplitKeywordTwoParts(s: string, kw: string)
    requires |SplitKeyword(s, kw)| == 2
    ensures exists m: nat, e: nat ::
      (m < e <= |s| && NoMatchIn(s, kw, 0, m) && KeywordMatch(s, kw, m) == Some(e)
       && NoMatchIn(s, kw, e, |s|) && SplitKeyword(s, kw) == [s[..m], s[e..]])
  {
    var m, e := SplitScanTwo(s, kw, 0, 0);
  }

  // ---- The select list ----

  lemma UpperWord(s: string)
    ensures IsWord(Upper(s)) <==> IsWord(s)
  {
    assert forall i :: 0 <= i < |s| ==> (IsWordChar(Upper(s)[i]) <==> IsWordChar(s[i]));
  }

  lemma StripWord(s: string)
    requires IsWord(s)
    ensures Strip(s) == s
  {
    StripTrimmed(s);
  }

  /** `*` is the star list, and only `*` is. */
  lemma SelectStar(part: string)
    ensures ParseSelect(part) == Ok(Star) <==> part == "*"
  {
    if part == "*" {
      assert Upper(part) == "*";
    }
  }

  /** `COUNT(` … `)` in any case holds `*` or a word, stripped and in its own case. */
  lemma SelectCount(part: string)
    requires part != "*" && StartsWith(Upper(part), "COUNT(") && EndsWith(Upper(part), ")")
    ensures var arg := Strip(SliceBetween(part, 6, 1));
      && (ParseSelect(part).Ok? <==> arg == "*" || IsWord(arg))
      && (ParseSelect(part).Ok? ==> ParseSelect(part) == Ok(Count(arg)))
      && (ParseSelect(part).Err? ==> ParseSelect(part) == Err(InvalidCountArgument))
  {
    UpperWord(Strip(SliceBetween(part, 6, 1)));
    assert Upper(part) != "*" by {
      assert |Upper(part)| >= 6;
    }
  }

  /**
   * Any other list is split on commas and each item stripped; it is accepted exactly when
   * every item is a word, in order and case, and otherwise rejected on the first bad item.
   */
  lemma SelectColumns(part: string)
    requires Upper(part) != "*" && !(StartsWith(Upper(part), "COUNT(") && EndsWith(Upper(part), ")"))
    ensures var cols := StripEach(Split(part, ','));
      && (ParseSelect(part).Ok? <==> AllWords(cols))
      && (ParseSelect(part).Ok? ==> ParseSelect(part) == Ok(Columns(cols)))
      && (ParseSelect(part).Err? ==>
            exists k :: 0 <= k < |cols| && !IsWord(cols[k]) && AllWords(cols[..k])
              && ParseSelect(part) == Err(InvalidColumnName(cols[k])))
  {
  }

  /** Words joined by commas are read back as that column list. */
  lemma SelectColumnsRoundTrip(cols: seq<string>)
    requires |cols| > 0 && AllWords(cols)
    ensures ParseSelect(Join(cols, ',')) == Ok(Columns(cols))
  {
    var part := Join(cols, ',');
    SplitWords(cols);
    JoinNoParen(cols);
    NotCountOrStar(part);
  }

  /** Text without `(` and `*` is neither the star nor a COUNT. */
  lemma NotCountOrStar(part: string)
    requires forall i :: 0 <= i < |part| ==> part[i] != '(' && part[i] != '*'
    ensures Upper(part) != "*" && !StartsWith(Upper(part), "COUNT(")
  {
    if |part| >= 6 {
      assert Upper(part)[5] == UpperChar(part[5]) != '(';
      assert Upper(part)[..6][5] != "COUNT("[5];
    }
    if |part| == 1 {
      assert Upper(part)[0] == UpperChar(part[0]) != '*';
    }
  }

  /** Splitting words joined by commas and stripping each piece gives the words. */
  lemma SplitWords(cols: seq<string>)
    requires |cols| > 0 && AllWords(cols)
    ensures StripEach(Split(Join(cols, ','), ',')) == cols
  {
    forall k | 0 <= k < |cols| ensures ',' !in cols[k] {
      assert forall j :: 0 <= j < |cols[k]| ==> IsWordChar(cols[k][j]);
    }
    SplitJoin(cols, ',');
    forall k | 0 <= k < |cols| ensures Strip(cols[k]) == cols[k] {
      StripWord(cols[k]);
    }
  }

  /** Words joined by commas hold neither `(` nor `*`. */
  lemma {:induction false} JoinNoParen(cols: seq<string>)
    requires AllWords(cols)
    ensures forall i :: 0 <= i < |Join(cols, ',')| ==> Join(cols, ',')[i] != '(' && Join(cols, ',')[i] != '*'
  {
    if |cols| > 1 {
      JoinNoParen(cols[1..]);
      var tail := Join(cols[1..], ',');
      var s := cols[0] + [','] + tail;
      assert forall i :: 0 <= i < |cols[0]| ==> s[i] == cols[0][i];
      assert forall i :: |cols[0]| < i < |s| ==> s[i] == tail[i - |cols[0]| - 1];
    }
  }

  // ---- The WHERE condition ----

  /** The operator found is an alternative that matches, with the value after it; none found means none matches. */
  lemma MatchOperatorSound(t: string)
    ensures MatchOperator(t).Some? ==> var (op, v) := MatchOperator(t).value;
      StartsWith(t, OpText(op)) && ValueGroup(t[|OpText(op)|..]) == Some(v)
    ensures MatchOperator(t).None? <==> forall op: Op :: !OpMatches(t, op)
  {
    MatchOperatorFound(t);
    MatchOperatorNone(t);
  }

  lemma MatchOperatorFound(t: string)
    ensures MatchOperator(t).Some? ==> var (op, v) := MatchOperator(t).value;
      StartsWith(t, OpText(op)) && ValueGroup(t[|OpText(op)|..]) == Some(v)
  {
    if OpMatches(t, Eq) {
      assert MatchOperator(t) == Some((Eq, ValueGroup(t[1..]).value));
    } else if OpMatches(t, Ne) {
      assert MatchOperator(t) == Some((Ne, ValueGroup(t[2..]).value));
    } else if OpMatches(t, Ge) {
      assert MatchOperator(t) == Some((Ge, ValueGroup(t[2..]).value));
    } else if OpMatches(t, Le) {
      assert MatchOperator(t) == Some((Le, ValueGroup(t[2..]).value));
    } else if OpMatches(t, Gt) {
      assert MatchOperator(t) == Some((Gt, ValueGroup(t[1..]).value));
    } else if OpMatches(t, Lt) {
      assert MatchOperator(t) == Some((Lt, ValueGroup(t[1..]).value));
    }
  }

  lemma MatchOperatorNone(t: string)
    ensures MatchOperator(t).None? <==> forall op: Op :: !OpMatches(t, op)
  {
    if MatchOperator(t).None? {
      forall op: Op ensures !OpMatches(t, op) {
        match op
        case Eq =>
        case Ne =>
        case Ge =>
        case Le =>
        case Gt =>
        case Lt =>
      }
    }
  }

  /** The two-character operators are tried before `>` and `<`. */
  lemma OperatorPrecedence(t: string)
    ensures OpMatches(t, Ge) ==> MatchOperator(t) == Some((Ge, ValueGroup(t[2..]).value))
    ensures OpMatches(t, Le) ==> MatchOperator(t) == Some((Le, ValueGroup(t[2..]).value))
    ensures OpMatches(t, Ne) ==> MatchOperator(t) == Some((Ne, ValueGroup(t[2..]).value))
  {
    if StartsWith(t, ">=") || StartsWith(t, "<=") || StartsWith(t, "!=") {
      assert t[0] != '=';
      assert !StartsWith(t, "=");
    }
    if StartsWith(t, "<=") {
      assert !StartsWith(t, ">=") by { assert t[0] == '<'; }
    }
  }

  /** An accepted condition names its column by an upper-cased word. */
  lemma ConditionColumn(text: string)
    ensures ParseCondition(text).Ok? ==>
      var c := ParseCondition(text).value;
      c.col == Upper(WordPrefix(text)) && IsWord(c.col) && Upper(c.col) == c.col
  {
    UpperWord(WordPrefix(text));
    UpperIdempotent(WordPrefix(text));
  }

  // ---- Literals ----

  /** A quoted value is text without its quotes. */
  lemma LiteralQuoted(s: string)
    ensures ParseLiteral("'" + s + "'") == Ok(LText(s))
  {
    var v := "'" + s + "'";
    StripTrimmed(v);
    assert v[1..|v| - 1] == s;
  }

  /** The literal `str(i)` of an int is that int. */
  lemma LiteralInt(i: int)
    ensures ParseLiteral(IntToStr(i)) == Ok(LInt(i))
  {
    var v := IntToStr(i);
    IntRoundTrip(i);
    assert Trimmed(v);
    StripTrimmed(v);
    assert v[0] != '\'';
    assert '.' !in v by {
      if i < 0 {
        assert v[1..] == NatToStr(-i);
        assert forall k :: 1 <= k < |v| ==> v[k] == NatToStr(-i)[k - 1];
      }
    }
  }

  /** A float's literal is read back as that very float. */
  lemma LiteralFloat(d: Decimal)
    ensures ParseLiteral(FloatLexeme(d)) == Ok(LFloat(d))
  {
    FloatLexemeRoundTrip(d);
    FloatLexemeShape(d);
    LiteralPointText(FloatLexeme(d), d);
  }

  lemma LiteralPointText(v: string, d: Decimal)
    requires Trimmed(v) && '.' in v && ParseFloat(v) == Some(d) && v[0] in "-0123456789"
    ensures ParseLiteral(v) == Ok(LFloat(d))
  {
    StripTrimmed(v);
  }

  /** Which literal a value gives: quoted text, then a float when it holds a point, then an int. */
  lemma LiteralKinds(text: string)
    ensures var v := Strip(text);
      && (ParseLiteral(text).Ok? && ParseLiteral(text).value.LText? <==> StartsWith(v, "'") && EndsWith(v, "'"))
      && (ParseLiteral(text).Ok? && ParseLiteral(text).value.LFloat? ==> '.' in v && ParseFloat(v) == Some(ParseLiteral(text).value.f))
      && (ParseLiteral(text).Ok? && ParseLiteral(text).value.LInt? ==> '.' !in v && ParseInt(v) == Some(ParseLiteral(text).value.i))
      && (ParseLiteral(text).Err? <==>
            !(StartsWith(v, "'") && EndsWith(v, "'")) && (if '.' in v then ParseFloat(v).None? else ParseInt(v).None?))
  {
  }

  // ---- Whole queries ----

  /** The rejections in the order the source checks them. */
  lemma ParseRejections(query: string)
    ensures var q := StripSemicolon(query);
      && (!StartsWith(Upper(q), "SELECT ") ==> Parse(query) == Err(NotSelect))
      && (StartsWith(Upper(q), "SELECT ") && |SplitKeyword(q, "FROM")| != 2 ==> Parse(query) == Err(MalformedFrom))
  {
  }

  /** An accepted select part is a well-formed select list. */
  lemma ParseSelectWellFormed(part: string)
    ensures ParseSelect(part).Ok? ==> WellFormedSelect(ParseSelect(part).value)
  {
    var upper := Upper(part);
    if upper != "*" && StartsWith(upper, "COUNT(") && EndsWith(upper, ")") {
      UpperWord(Strip(SliceBetween(part, 6, 1)));
    } else if upper != "*" {
      assert |Split(part, ',')| > 0;
    }
  }

  /** An accepted WHERE text names an upper-cased word as its column. */
  lemma ParseWhereWellFormed(text: string)
    ensures ParseWhere(text).Ok? && ParseWhere(text).value.Some? ==>
      var c := ParseWhere(text).value.value;
      IsWord(c.col) && Upper(c.col) == c.col
  {
    if text != [] {
      ConditionColumn(text);
    }
  }

  /** In stripped text split once at a keyword, something other than white space follows the keyword. */
  lemma SplitTrimmedTail(s: string, kw: string)
    requires Trimmed(s) && |SplitKeyword(s, kw)| == 2
    ensures Strip(SplitKeyword(s, kw)[1]) != []
  {
    var m, e := SplitScanTwo(s, kw, 0, 0);
    var j := SpaceRunEnd(s, m);
    var k := j + |kw|;
    assert k < |s| && IsSpace(s[k]) && e == SpaceRunEnd(s, k);
    assert !IsSpace(s[|s| - 1]);
    assert e < |s|;
    assert s[e..][0] == s[e];
    StripNonBlank(s[e..]);
  }

  /** The table is the leading word of the text after FROM, in its own case; no leading word is InvalidTableName. */
  lemma TableIsPrefixClauses(selectPart: string, split: (string, Option<string>))
    ensures var t := WordPrefix(Strip(split.0));
      && (t == [] <==> ParseClauses(selectPart, split) == Err(InvalidTableName))
      && (ParseClauses(selectPart, split).Ok? ==> ParseClauses(selectPart, split).value.table == t)
  {
  }

  lemma TableIsPrefixStatement(q: string)
    requires StartsWith(Upper(q), "SELECT ") && |SplitKeyword(q, "FROM")| == 2
    requires SplitWhere(Strip(SplitKeyword(q, "FROM")[1])).Ok?
    ensures var t := WordPrefix(Strip(SplitWhere(Strip(SplitKeyword(q, "FROM")[1])).value.0));
      && (t == [] <==> ParseStatement(q) == Err(InvalidTableName))
      && (ParseStatement(q).Ok? ==> ParseStatement(q).value.table == t)
  {
    var parts := SplitKeyword(q, "FROM");
    TableIsPrefixClauses(Strip(From(parts[0], 6)), SplitWhere(Strip(parts[1])).value);
  }

  lemma TableIsPrefix(query: string)
    requires var q := StripSemicolon(query);
      StartsWith(Upper(q), "SELECT ") && |SplitKeyword(q, "FROM")| == 2
      && SplitWhere(Strip(SplitKeyword(q, "FROM")[1])).Ok?
    ensures var q := StripSemicolon(query);
      var t := WordPrefix(Strip(SplitWhere(Strip(SplitKeyword(q, "FROM")[1])).value.0));
      && (t == [] <==> Parse(query) == Err(InvalidTableName))
      && (Parse(query).Ok? ==> Parse(query).value.table == t)
  {
    TableIsPrefixStatement(StripSemicolon(query));
  }

  /** An accepted statement has a condition exactly when `' WHERE '` occurs in the text after FROM. */
  lemma WhereOnlyAfterKeywordStatement(q: string)
    requires StartsWith(Upper(q), "SELECT ") && |SplitKeyword(q, "FROM")| == 2
    ensures ParseStatement(q).Ok? ==>
      (ParseStatement(q).value.where.Some? <==> Contains(Upper(Strip(SplitKeyword(q, "FROM")[1])), " WHERE "))
  {
    var parts := SplitKeyword(q, "FROM");
    var rest := Strip(parts[1]);
    if SplitWhere(rest).Ok? {
      var split := SplitWhere(rest).value;
      WhereClause(Strip(From(parts[0], 6)), split);
      if Contains(Upper(rest), " WHERE ") {
        SplitTrimmedTail(rest, "WHERE");
        assert split.1.Some? && Strip(split.1.value) != [];
      } else {
        assert split.1.None?;
      }
    }
  }

  /** The condition is present exactly when the text after the WHERE keyword is not blank. */
  lemma WhereClause(selectPart: string, split: (string, Option<string>))
    ensures ParseClauses(selectPart, split).Ok? ==>
      (ParseClauses(selectPart, split).value.where.Some? <==> split.1.Some? && Strip(split.1.value) != [])
  {
  }

  lemma WhereOnlyAfterKeyword(query: string)
    requires var q := StripSemicolon(query);
      StartsWith(Upper(q), "SELECT ") && |SplitKeyword(q, "FROM")| == 2
    ensures var q := StripSemicolon(query);
      Parse(query).Ok? ==>
        (Parse(query).value.where.Some? <==> Contains(Upper(Strip(SplitKeyword(q, "FROM")[1])), " WHERE "))
  {
    WhereOnlyAfterKeywordStatement(StripSemicolon(query));
  }

  /** Every accepted query is well formed. */
  lemma ParseWellFormed(query: string)
    ensures Parse(query).Ok? ==> WellFormed(Parse(query).value)
  {
    ParseStatementWellFormed(StripSemicolon(query));
  }

  lemma ParseStatementWellFormed(q: string)
    ensures ParseStatement(q).Ok? ==> WellFormed(ParseStatement(q).value)
  {
    if ParseStatement(q).Ok? {
      var parts := SplitKeyword(q, "FROM");
      var selectPart := Strip(From(parts[0], 6));
      var split := SplitWhere(Strip(parts[1])).value;
      var whereText := if split.1.Some? then Strip(split.1.value) else [];
      ParseSelectWellFormed(selectPart);
      ParseWhereWellFormed(whereText);
    }
  }
}
