/** What `execute_query` promises: the filter, COUNT and projection stages, and the resolved table. */
module SemanticsFacts {
  import opened Wrappers
  import opened Text
  import opened Numbers
  import opened Values
  import opened Query
  import opened Semantics

  // ---- WHERE ----

  /** `xs` is `ys` with some elements left out, the rest in their order. */
  predicate SubsequenceOf(xs: seq<Row>, ys: seq<Row>)
    decreases |ys|
  {
    if xs == [] then true
    else if ys == [] then false
    else if xs[|xs| - 1] == ys[|ys| - 1] then SubsequenceOf(xs[..|xs| - 1], ys[..|ys| - 1])
    else SubsequenceOf(xs, ys[..|ys| - 1])
  }

  lemma {:induction false} SubsequenceAppend(xs: seq<Row>, ys: seq<Row>, y: Row)
    requires SubsequenceOf(xs, ys)
    ensures SubsequenceOf(xs, ys + [y])
    decreases |ys|, 1
  {
    var zs := ys + [y];
    assert zs[..|zs| - 1] == ys;
    if xs != [] && xs[|xs| - 1] == y {
      SubsequenceDropLast(xs, ys);
    }
  }

  lemma {:induction false} SubsequenceDropLast(xs: seq<Row>, ys: seq<Row>)
    requires xs != [] && SubsequenceOf(xs, ys)
    ensures SubsequenceOf(xs[..|xs| - 1], ys)
    decreases |ys|, 0
  {
    var init, last := ys[..|ys| - 1], ys[|ys| - 1];
    assert ys == init + [last];
    if xs[|xs| - 1] == last {
      SubsequenceAppend(xs[..|xs| - 1], init, last);
    } else {
      SubsequenceDropLast(xs, init);
      SubsequenceAppend(xs[..|xs| - 1], init, last);
    }
  }

  /** The filtered rows are an order-preserving subsequence of the table's rows. */
  lemma {:induction false} FilterSubsequence(rows: seq<Row>, c: Condition)
    ensures SubsequenceOf(FilterRows(rows, c), rows)
  {
    if rows != [] {
      var init, last := rows[..|rows| - 1], rows[|rows| - 1];
      FilterSubsequence(init, c);
      var f := FilterRows(init, c);
      if Keep(last, c) {
        assert (f + [last])[..|f|] == f;
      } else {
        assert f + [] == f;
        SubsequenceAppend(f, init, last);
      }
      assert init + [last] == rows;
    }
  }

  /** A row is in the result exactly when it is in the table and the condition keeps it. */
  lemma {:induction false} FilterMembership(rows: seq<Row>, c: Condition)
    ensures forall r :: r in FilterRows(rows, c) <==> r in rows && Keep(r, c)
  {
    if rows != [] {
      var init, last := rows[..|rows| - 1], rows[|rows| - 1];
      FilterMembership(init, c);
      assert rows == init + [last];
    }
  }

  /** The number of rows kept is the number of rows satisfying the condition. */
  function KeptCount(rows: seq<Row>, c: Condition): nat {
    if rows == [] then 0
    else KeptCount(rows[..|rows| - 1], c) + if Keep(rows[|rows| - 1], c) then 1 else 0
  }

  lemma {:induction false} FilterLength(rows: seq<Row>, c: Condition)
    ensures |FilterRows(rows, c)| == KeptCount(rows, c) <= |rows|
  {
    if rows != [] {
      FilterLength(rows[..|rows| - 1], c);
    }
  }

  /** A null, a missing value, or text the literal's type cannot read never passes the filter. */
  lemma KeepNeedsValue(row: Row, c: Condition)
    ensures Upper(c.col) !in row ==> !Keep(row, c)
    ensures Upper(c.col) in row && row[Upper(c.col)] == VNull ==> !Keep(row, c)
    ensures (Upper(c.col) in row && Canonical(row[Upper(c.col)]) && row[Upper(c.col)].VText?
             && c.lit.Type() != TextType) ==> !Keep(row, c)
  {
  }

  /** With an int literal a float value is truncated toward zero, `int(row_val)`, before comparing. */
  lemma FloatUnderIntLiteral(row: Row, c: Condition)
    requires Upper(c.col) in row && row[Upper(c.col)].VFloat? && c.lit.LInt?
    ensures Keep(row, c) <==> Holds(c.op, LInt(Truncate(row[Upper(c.col)].f)), c.lit)
  {
  }

  /** With a text literal an int is compared as its text, `str(row_val)`. */
  lemma IntUnderTextLiteral(row: Row, c: Condition)
    requires Upper(c.col) in row && row[Upper(c.col)].VInt? && c.lit.LText?
    ensures Keep(row, c) <==> Holds(c.op, LText(IntToStr(row[Upper(c.col)].i)), c.lit)
    ensures Keep(row, c) <==> Holds(c.op, CoerceTo(VInt(row[Upper(c.col)].i), TextType).value, c.lit)
  {
  }

  /** With a text literal a float is compared as its text, `str(row_val)`. */
  lemma FloatUnderTextLiteral(row: Row, c: Condition)
    requires Upper(c.col) in row && row[Upper(c.col)].VFloat? && c.lit.LText?
    ensures Keep(row, c) <==> Holds(c.op, LText(FloatToStr(row[Upper(c.col)].f)), c.lit)
  {
  }

  /** An instance of the truncation: `29.9 = 29` holds. */
  lemma FloatMeetsIntLiteral()
    ensures Keep(map["PRICE" := VFloat(Decimal(299, 1))], Condition("PRICE", Eq, LInt(29)))
  {
    assert Upper("PRICE") == "PRICE";
    FloatUnderIntLiteral(map["PRICE" := VFloat(Decimal(299, 1))], Condition("PRICE", Eq, LInt(29)));
    assert Truncate(Decimal(299, 1)) == 29;
  }

  /** An instance of the text comparison: `10 < '9'` holds and `10 > '9'` does not. */
  lemma IntMeetsTextLiteral()
    ensures Keep(map["AGE" := VInt(10)], Condition("AGE", Lt, LText("9")))
    ensures !Keep(map["AGE" := VInt(10)], Condition("AGE", Gt, LText("9")))
  {
    assert Upper("AGE") == "AGE";
    TenAsText();
    assert LexLess("10", "9");
  }

  /** Swapping the operands of a comparison swaps less and greater, so `>` and `<` mirror each other. */
  lemma CompareFlip(a: Literal, b: Literal)
    requires a.Type() == b.Type()
    ensures Compare(a, b) == Less <==> Compare(b, a) == Greater
    ensures Compare(a, b) == Equal <==> Compare(b, a) == Equal
  {
    if a.LText? {
      LexTrichotomy(a.s, b.s);
      LexTrichotomy(b.s, a.s);
    }
  }

  lemma TenAsText()
    ensures CoerceTo(VInt(10), TextType) == Some(LText("10"))
  {
    assert NatToStr(1) == "1";
    assert NatToStr(10) == NatToStr(1) + [DigitChar(0)] == "10";
  }

  /** The WHERE stage looks at the first row's columns before anything is filtered. */
  lemma WhereColumnChecked(rows: seq<Row>, c: Condition, table: string)
    ensures rows == [] ==> ApplyWhere(rows, Some(c), table) == Err(NoFirstRow)
    ensures rows != [] && Upper(c.col) !in rows[0] ==> ApplyWhere(rows, Some(c), table) == Err(WhereColumnMissing(c.col, table))
    ensures rows != [] && Upper(c.col) in rows[0] ==> ApplyWhere(rows, Some(c), table) == Ok(FilterRows(rows, c))
  {
  }

  // ---- COUNT ----

  /** The non-null count is the number of rows whose value is present and not null, up to the row count. */
  lemma {:induction false} CountNonNullMembership(rows: seq<Row>, col: string)
    ensures CountNonNull(rows, col) <= |rows|
    ensures CountNonNull(rows, col) == |rows| <==> forall k :: 0 <= k < |rows| ==> col in rows[k] && rows[k][col] != VNull
    ensures CountNonNull(rows, col) == 0 <==> forall k :: 0 <= k < |rows| ==> col !in rows[k] || rows[k][col] == VNull
  {
    if rows != [] {
      var init := rows[..|rows| - 1];
      CountNonNullMembership(init, col);
      assert forall k :: 0 <= k < |init| ==> init[k] == rows[k];
    }
  }

  /** `COUNT(*)` is the number of rows; `COUNT(col)` counts non-nulls, so it is never larger. */
  lemma CountResults(rows: seq<Row>, arg: string)
    ensures arg == "*" ==> ApplyCount(rows, arg) == Ok([CountRow(|rows|)])
    ensures ApplyCount(rows, arg).Ok? ==> exists n: nat :: n <= |rows| && ApplyCount(rows, arg) == Ok([CountRow(n)])
    ensures arg != "*" && rows == [] ==> ApplyCount(rows, arg) == Err(NoFirstRow)
    ensures arg != "*" && rows != [] && Upper(arg) !in rows[0] ==> ApplyCount(rows, arg) == Err(CountColumnMissing(arg))
    ensures arg != "*" && rows != [] && Upper(arg) in rows[0] ==>
      ApplyCount(rows, arg) == Ok([CountRow(CountNonNull(rows, Upper(arg)))])
  {
  }

  // ---- Projection ----

  /** The label of a selected column has the same upper case as the column. */
  lemma LabelUpper(select: seq<string>, k: nat)
    requires k < |select|
    ensures Upper(Label(select, k)) == Upper(select[k])
    ensures Label(select, k) in select
    ensures exists j :: (0 <= j <= k && Label(select, k) == select[j] &&
      forall i :: 0 <= i < j ==> Upper(select[i]) != Upper(select[k]))
  {
    var u := UpperEach(select);
    assert u[k] == Upper(select[k]);
    var j := IndexIn(u, Upper(select[k]));
    assert Upper(select[j]) == u[j];
    assert forall i :: 0 <= i < j ==> Upper(select[i]) == u[i];
  }

  /** Adding the `n`-th selected column to the projection of the first `n - 1`: the keys. */
  lemma ProjectStepKeys(m: Row, select: seq<string>, n: nat, v: Value)
    requires 0 < n <= |select|
    requires m.Keys == (set k | 0 <= k < n - 1 :: Label(select, k))
    ensures m[Label(select, n - 1) := v].Keys == (set k | 0 <= k < n :: Label(select, k))
  {
    assert (set k | 0 <= k < n :: Label(select, k)) == (set k | 0 <= k < n - 1 :: Label(select, k)) + {Label(select, n - 1)};
  }

  /** The same step: the values. */
  lemma ProjectStepValues(m: Row, row: Row, select: seq<string>, n: nat)
    requires 0 < n <= |select| && forall k :: 0 <= k < n ==> Upper(select[k]) in row
    requires forall k :: 0 <= k < n - 1 ==> Label(select, k) in m && m[Label(select, k)] == row[Upper(select[k])]
    ensures var m' := m[Label(select, n - 1) := row[Upper(select[n - 1])]];
      forall k :: 0 <= k < n ==> m'[Label(select, k)] == row[Upper(select[k])]
  {
    var m' := m[Label(select, n - 1) := row[Upper(select[n - 1])]];
    LabelUpper(select, n - 1);
    forall k | 0 <= k < n - 1 ensures m'[Label(select, k)] == row[Upper(select[k])] {
      LabelUpper(select, k);
    }
  }

  /** Projecting the first `n` columns succeeds exactly when each is in the row. */
  lemma {:induction false} ProjectRowUpToOk(row: Row, select: seq<string>, n: nat)
    requires n <= |select|
    ensures ProjectRowUpTo(row, select, n).Ok? <==> forall k :: 0 <= k < n ==> Upper(select[k]) in row
  {
    if n > 0 {
      ProjectRowUpToOk(row, select, n - 1);
      ProjectRowUpToStep(row, select, n);
      ColumnsUpToStep(row, select, n);
    }
  }

  lemma ColumnsUpToStep(row: Row, select: seq<string>, n: nat)
    requires 0 < n <= |select|
    ensures (forall k :: 0 <= k < n ==> Upper(select[k]) in row) <==>
      (forall k :: 0 <= k < n - 1 ==> Upper(select[k]) in row) && Upper(select[n - 1]) in row
  {
  }

  /** One more column projects exactly when the ones before did and it is in the row. */
  lemma ProjectRowUpToStep(row: Row, select: seq<string>, n: nat)
    requires 0 < n <= |select|
    ensures ProjectRowUpTo(row, select, n).Ok? <==>
      ProjectRowUpTo(row, select, n - 1).Ok? && Upper(select[n - 1]) in row
  {
  }

  /**
   * The projection of the first `n` columns has their labels as keys and holds
   * `row[name.upper()]` under each label.
   */
  lemma {:induction false} ProjectRowUpToSpec(row: Row, select: seq<string>, n: nat)
    requires n <= |select| && ProjectRowUpTo(row, select, n).Ok?
    ensures forall k :: 0 <= k < n ==> Upper(select[k]) in row
    ensures var m := ProjectRowUpTo(row, select, n).value;
      && m.Keys == (set k | 0 <= k < n :: Label(select, k))
      && forall k :: 0 <= k < n ==> m[Label(select, k)] == row[Upper(select[k])]
  {
    ProjectRowUpToOk(row, select, n);
    if n > 0 {
      ProjectRowUpToSpec(row, select, n - 1);
      var m := ProjectRowUpTo(row, select, n - 1).value;
      ProjectStepKeys(m, select, n, row[Upper(select[n - 1])]);
      ProjectStepValues(m, row, select, n);
    }
  }

  /** The whole-row form. */
  lemma ProjectRowSpec(row: Row, select: seq<string>)
    ensures ProjectRow(row, select).Ok? <==> forall k :: 0 <= k < |select| ==> Upper(select[k]) in row
    ensures ProjectRow(row, select).Ok? ==>
      var m := ProjectRow(row, select).value;
      && m.Keys == (set k | 0 <= k < |select| :: Label(select, k))
      && forall k :: 0 <= k < |select| ==> m[Label(select, k)] == row[Upper(select[k])]
  {
    ProjectRowUpToOk(row, select, |select|);
    if ProjectRow(row, select).Ok? {
      ProjectRowUpToSpec(row, select, |select|);
    }
  }

  /** One result row per input row, in order, each the projection of its row. */
  lemma {:induction false} ProjectRowsSpec(rows: seq<Row>, select: seq<string>)
    ensures ProjectRows(rows, select).Ok? <==> forall i :: 0 <= i < |rows| ==> ProjectRow(rows[i], select).Ok?
    ensures ProjectRows(rows, select).Ok? ==>
      var out := ProjectRows(rows, select).value;
      |out| == |rows| && forall i :: 0 <= i < |rows| ==> ProjectRow(rows[i], select) == Ok(out[i])
  {
    if rows != [] {
      var init := rows[..|rows| - 1];
      ProjectRowsSpec(init, select);
      assert forall i :: 0 <= i < |init| ==> init[i] == rows[i];
    }
  }

  // ---- The select list as the parser builds it ----

  /** A well-formed select list reaches the stage it names. */
  lemma SelectDispatch(rows: seq<Row>, s: SelectSpec)
    requires WellFormedSelect(s)
    ensures s.Star? ==> ApplySelect(rows, SelectList(s)) == Ok(rows)
    ensures s.Count? ==> ApplySelect(rows, SelectList(s)) == ApplyCount(rows, s.arg)
    ensures s.Columns? ==> ApplySelect(rows, SelectList(s)) == ProjectRows(rows, s.cols)
  {
    match s
    case Star =>
    case Count(arg) =>
      var item := "COUNT(" + arg + ")";
      assert item[..6] == "COUNT(";
      assert SliceBetween(item, 6, 1) == arg;
      StripTrimmed(arg);
    case Columns(cols) =>
      if |cols| == 1 {
        assert IsWord(cols[0]);
        assert IsWordChar(cols[0][0]);
        assert cols[0] != "*";
        if |cols[0]| >= 6 {
          assert cols[0][..6][5] != "COUNT("[5];
        }
      }
  }

  // ---- The whole query ----

  /** Querying a table that is not loaded fails with the loaded names, and that is the only way to get this error. */
  lemma UnknownTable(tables: map<string, seq<Row>>, q: Query)
    ensures Execute(tables, q).Err? && Execute(tables, q).error.TableNotLoaded? <==> q.table !in tables
    ensures q.table !in tables ==> Execute(tables, q) == Err(TableNotLoaded(q.table, tables.Keys))
  {
    if q.table in tables {
      var rows := tables[q.table];
      var w := ApplyWhere(rows, q.where, q.table);
      if w.Ok? {
        var sel := SelectList(q.select);
        if |sel| == 1 && StartsWith(sel[0], "COUNT(") {
        } else if sel != ["*"] {
          ProjectRowsNoTableError(w.value, sel);
        }
      }
    }
  }

  lemma {:induction false} ProjectRowsNoTableError(rows: seq<Row>, select: seq<string>)
    ensures ProjectRows(rows, select).Err? ==> ProjectRows(rows, select).error.ColumnMissing?
  {
    if rows != [] {
      ProjectRowsNoTableError(rows[..|rows| - 1], select);
      ProjectRowUpToError(rows[|rows| - 1], select, |select|);
    }
  }

  lemma {:induction false} ProjectRowUpToError(row: Row, select: seq<string>, n: nat)
    requires n <= |select|
    ensures ProjectRowUpTo(row, select, n).Err? ==> ProjectRowUpTo(row, select, n).error.ColumnMissing?
  {
    if n > 0 {
      ProjectRowUpToError(row, select, n - 1);
    }
  }

  /** `SELECT *` with a WHERE returns an order-preserving subsequence of the table, every row satisfying the condition. */
  lemma StarWhere(tables: map<string, seq<Row>>, table: string, c: Condition)
    ensures var r := Execute(tables, Query(Star, table, Some(c)));
      r.Ok? ==> SubsequenceOf(r.value, tables[table]) && forall row :: row in r.value ==> Keep(row, c)
  {
    if table in tables {
      var rows := tables[table];
      if rows != [] && Upper(c.col) in rows[0] {
        FilterSubsequence(rows, c);
        FilterMembership(rows, c);
        SelectDispatch(FilterRows(rows, c), Star);
      }
    }
  }

  /** A query without WHERE works on all of the table's rows. */
  lemma NoWhere(tables: map<string, seq<Row>>, q: Query)
    requires q.table in tables && q.where.None?
    ensures Execute(tables, q) == ApplySelect(tables[q.table], SelectList(q.select))
  {
  }

  /** `SELECT COUNT(*)` is one row holding the number of rows that passed the filter. */
  lemma CountStar(tables: map<string, seq<Row>>, table: string, where: Option<Condition>)
    requires table in tables && ApplyWhere(tables[table], where, table).Ok?
    ensures Execute(tables, Query(Count("*"), table, where))
      == Ok([CountRow(|ApplyWhere(tables[table], where, table).value|)])
  {
    SelectDispatch(ApplyWhere(tables[table], where, table).value, Count("*"));
  }

  /** `SELECT COUNT(col)`: no filtered row or a column missing from the first one fails; otherwise the non-null values are counted. */
  lemma CountColumn(tables: map<string, seq<Row>>, table: string, arg: string, where: Option<Condition>)
    requires IsWord(arg)
    requires table in tables && ApplyWhere(tables[table], where, table).Ok?
    ensures var rows := ApplyWhere(tables[table], where, table).value;
      var r := Execute(tables, Query(Count(arg), table, where));
      && (rows == [] ==> r == Err(NoFirstRow))
      && (rows != [] && Upper(arg) !in rows[0] ==> r == Err(CountColumnMissing(arg)))
      && (rows != [] && Upper(arg) in rows[0] ==> r == Ok([CountRow(CountNonNull(rows, Upper(arg)))]))
  {
    var rows := ApplyWhere(tables[table], where, table).value;
    SelectDispatch(rows, Count(arg));
    assert arg != "*" by { assert IsWordChar(arg[0]); }
    CountResults(rows, arg);
  }

  /** A column list gives one row per filtered row, keyed by the labels, holding the row's values. */
  lemma ColumnsResult(tables: map<string, seq<Row>>, table: string, cols: seq<string>, where: Option<Condition>)
    requires WellFormedSelect(Columns(cols))
    requires table in tables && ApplyWhere(tables[table], where, table).Ok?
    ensures var rows := ApplyWhere(tables[table], where, table).value;
      var r := Execute(tables, Query(Columns(cols), table, where));
      && (r.Ok? <==> forall i, k :: 0 <= i < |rows| && 0 <= k < |cols| ==> Upper(cols[k]) in rows[i])
      && (r.Ok? ==> |r.value| == |rows| && forall i :: 0 <= i < |rows| ==>
            r.value[i].Keys == (set k | 0 <= k < |cols| :: Label(cols, k))
            && forall k :: 0 <= k < |cols| ==> r.value[i][Label(cols, k)] == rows[i][Upper(cols[k])])
  {
    var rows := ApplyWhere(tables[table], where, table).value;
    SelectDispatch(rows, Columns(cols));
    ProjectRowsSpec(rows, cols);
    forall i | 0 <= i < |rows| {
      ProjectRowSpec(rows[i], cols);
    }
  }
}
