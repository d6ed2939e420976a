/**
 * The in-memory store: `Database` holds the loaded tables, `LoadTable` adds one from a CSV
 * file's records, and `ExecuteQuery` runs a parsed query over them with the loops of the
 * source, proved to compute `Semantics.Execute`.
 */
module Engine {
  import opened Wrappers
  import opened Text
  import opened Values
  import opened Query
  import opened Semantics
  import opened Loader

  /** How `load_table` ends. */
  datatype LoadOutcome =
    | FileNotFound(path: string)
    | AlreadyLoaded(name: string)
    | RecordTooLong(name: string)
    | Loaded(name: string, count: nat)

  /** A row as the loader leaves it: upper-case keys and canonical values. */
  predicate NormalizedRow(row: Row) {
    forall k :: k in row ==> Upper(k) == k && Canonical(row[k])
  }

  predicate NormalizedTable(rows: seq<Row>) {
    forall i :: 0 <= i < |rows| ==> NormalizedRow(rows[i])
  }

  lemma NormalizedAppend(rows: seq<Row>, row: Row)
    requires NormalizedTable(rows) && NormalizedRow(row)
    ensures NormalizedTable(rows + [row])
  {
  }

  /** Once projecting a row fails, projecting more of its columns fails in the same way. */
  lemma {:induction false} ProjectRowUpToStops(row: Row, select: seq<string>, n: nat, m: nat)
    requires n <= m <= |select| && ProjectRowUpTo(row, select, n).Err?
    ensures ProjectRowUpTo(row, select, m) == ProjectRowUpTo(row, select, n)
    decreases m - n
  {
    if n < m {
      ProjectRowUpToFailed(row, select, n);
      ProjectRowUpToStops(row, select, n + 1, m);
    }
  }

  lemma ProjectRowUpToFailed(row: Row, select: seq<string>, n: nat)
    requires n < |select| && ProjectRowUpTo(row, select, n).Err?
    ensures ProjectRowUpTo(row, select, n + 1) == ProjectRowUpTo(row, select, n)
  {
  }

  /** Once projecting the first rows fails, projecting all of them fails in the same way. */
  lemma {:induction false} ProjectRowsStops(rows: seq<Row>, select: seq<string>, n: nat)
    requires n <= |rows| && ProjectRows(rows[..n], select).Err?
    ensures ProjectRows(rows, select) == ProjectRows(rows[..n], select)
    decreases |rows| - n
  {
    if n < |rows| {
      assert rows[..n + 1][..n] == rows[..n];
      ProjectRowsStops(rows, select, n + 1);
    } else {
      assert rows[..n] == rows;
    }
  }

  /** The normalization loop of one record: every item keyed by its name upper-cased and coerced. */
  method NormalizeRecord(header: seq<string>, record: seq<string>) returns (normalized: Row)
    ensures normalized == RecordRow(header, record)
    ensures NormalizedRow(normalized)
  {
    var items := ReaderItems(header, record, |header|);
    normalized := map[];
    var t := 0;
    while t < |items|
      invariant t <= |items|
      invariant normalized == Normalize(items, t)
    {
      var (key, value) := items[t];
      normalized := normalized[Upper(key) := Coerce(value)];
      t := t + 1;
    }
    RecordRowShape(header, record);
  }

  /**
   * One record of the reader: a blank one is skipped, a data record that fits the header is
   * normalized and appended, and one longer than the header stops the load (`None`).
   */
  method ReadRecord(header: seq<string>, records: seq<seq<string>>, i: nat, rows: seq<Row>)
    returns (extended: Option<seq<Row>>)
    requires i < |records| && rows == Rows(header, records[..i]) && NormalizedTable(rows)
    ensures extended.None? <==> |records[i]| > |header|
    ensures extended.Some? ==>
      extended.value == Rows(header, records[..i + 1]) && NormalizedTable(extended.value)
  {
    var record := records[i];
    if record == [] {
      RowsBlank(header, records, i);
      return Some(rows);
    }
    if |record| > |header| {
      return None;
    }
    RowsRecord(header, records, i);
    var normalized := NormalizeRecord(header, record);
    NormalizedAppend(rows, normalized);
    return Some(rows + [normalized]);
  }

  /** The loop over the reader: one normalized row per data record, or `None` at a record longer than the header. */
  method ReadRows(header: seq<string>, records: seq<seq<string>>) returns (result: Option<seq<Row>>)
    ensures result == BuildRows(header, records)
    ensures result.Some? ==> NormalizedTable(result.value)
  {
    var rows: seq<Row> := [];
    var i := 0;
    while i < |records|
      invariant i <= |records|
      invariant !TooLong(header, records[..i])
      invariant rows == Rows(header, records[..i])
      invariant NormalizedTable(rows)
    {
      TooLongNext(header, records, i);
      var extended := ReadRecord(header, records, i, rows);
      if extended.None? {
        TooLongPrefix(header, records, i + 1);
        return None;
      }
      rows := extended.value;
      i := i + 1;
    }
    assert records[..i] == records;
    return Some(rows);
  }

  /** The filter loop: the rows the condition keeps, in order. */
  method FilterLoop(rows: seq<Row>, c: Condition) returns (filtered: seq<Row>)
    ensures filtered == FilterRows(rows, c)
  {
    var col := Upper(c.col);
    filtered := [];
    var i := 0;
    while i < |rows|
      invariant i <= |rows|
      invariant filtered == FilterRows(rows[..i], c)
    {
      var row := rows[i];
      if col in row && row[col] != VNull {
        var coerced := CoerceTo(row[col], c.lit.Type());
        if coerced.Some? && Holds(c.op, coerced.value, c.lit) {
          filtered := filtered + [row];
        }
      }
      assert rows[..i + 1][..i] == rows[..i];
      i := i + 1;
    }
    assert rows[..i] == rows;
  }

  /** The counting loop of `COUNT(col)`: the rows whose value is present and not null. */
  method CountLoop(rows: seq<Row>, col: string) returns (count: nat)
    ensures count == CountNonNull(rows, col)
  {
    count := 0;
    var i := 0;
    while i < |rows|
      invariant i <= |rows|
      invariant count == CountNonNull(rows[..i], col)
    {
      if col in rows[i] && rows[i][col] != VNull {
        count := count + 1;
      }
      assert rows[..i + 1][..i] == rows[..i];
      i := i + 1;
    }
    assert rows[..i] == rows;
  }

  /** The inner projection loop: one row's selected columns under their labels. */
  method ProjectLoop(row: Row, select: seq<string>, projectedCols: seq<string>) returns (result: Result<Row, ExecError>)
    requires projectedCols == UpperEach(select)
    ensures result == ProjectRow(row, select)
  {
    var newRow: Row := map[];
    var k := 0;
    while k < |projectedCols|
      invariant k <= |select|
      invariant ProjectRowUpTo(row, select, k) == Ok(newRow)
    {
      var col := projectedCols[k];
      var outName := select[IndexIn(projectedCols, col)];
      if col !in row {
        ProjectRowUpToStops(row, select, k + 1, |select|);
        return Err(ColumnMissing(outName));
      }
      newRow := newRow[outName := row[col]];
      k := k + 1;
    }
    return Ok(newRow);
  }

  /** The outer projection loop: every row projected, stopping at the first missing column. */
  method ProjectRowsLoop(rows: seq<Row>, select: seq<string>) returns (result: Result<seq<Row>, ExecError>)
    ensures result == ProjectRows(rows, select)
  {
    var projectedCols := UpperEach(select);
    var projected: seq<Row> := [];
    var i := 0;
    while i < |rows|
      invariant i <= |rows|
      invariant ProjectRows(rows[..i], select) == Ok(projected)
    {
      var newRow := ProjectLoop(rows[i], select, projectedCols);
      assert rows[..i + 1][..i] == rows[..i];
      if newRow.Err? {
        ProjectRowsStops(rows, select, i + 1);
        return Err(newRow.error);
      }
      projected := projected + [newRow.value];
      i := i + 1;
    }
    assert rows[..i] == rows;
    return Ok(projected);
  }

  class Database {
    /** Table name to its rows, in file order. */
    var tables: map<string, seq<Row>>

    ghost predicate Valid()
      reads this
    {
      forall name :: name in tables ==> NormalizedTable(tables[name])
    }

    constructor()
      ensures tables == map[] && Valid()
    {
      tables := map[];
    }

    /**
     * `load_table`: whether the file exists, and its header and records as the CSV reader
     * hands them over, are parameters. A table already loaded is left as it is; otherwise the
     * table name gets exactly the rows of the file's data records.
     */
    method LoadTable(path: string, fileExists: bool, header: seq<string>, records: seq<seq<string>>)
      returns (outcome: LoadOutcome)
      requires Valid()
      modifies this
      ensures Valid()
      ensures !fileExists ==> outcome == FileNotFound(path) && tables == old(tables)
      ensures fileExists && TableName(path) in old(tables) ==>
        outcome == AlreadyLoaded(TableName(path)) && tables == old(tables)
      ensures fileExists && TableName(path) !in old(tables) ==>
        match BuildRows(header, records)
        case None => outcome == RecordTooLong(TableName(path)) && tables == old(tables)
        case Some(rows) =>
          outcome == Loaded(TableName(path), |rows|) && tables == old(tables)[TableName(path) := rows]
    {
      if !fileExists {
        return FileNotFound(path);
      }
      var name := TableName(path);
      if name in tables {
        return AlreadyLoaded(name);
      }
      var read := ReadRows(header, records);
      if read.None? {
        return RecordTooLong(name);
      }
      var rows := read.value;
      tables := tables[name := rows];
      return Loaded(name, |rows|);
    }

    /** `execute_query`: the same result as `Execute`, and the tables are not touched. */
    method ExecuteQuery(q: Query) returns (result: Result<seq<Row>, ExecError>)
      ensures result == Execute(tables, q)
    {
      if q.table !in tables {
        return Err(TableNotLoaded(q.table, tables.Keys));
      }
      var rows := tables[q.table];
      if q.where.Some? {
        var c := q.where.value;
        if rows == [] {
          return Err(NoFirstRow);
        }
        if Upper(c.col) !in rows[0] {
          return Err(WhereColumnMissing(c.col, q.table));
        }
        rows := FilterLoop(rows, c);
      }
      assert ApplyWhere(tables[q.table], q.where, q.table) == Ok(rows);

      var select := SelectList(q.select);
      if |select| == 1 && StartsWith(select[0], "COUNT(") {
        var arg := Strip(SliceBetween(select[0], 6, 1));
        if arg == "*" {
          return Ok([CountRow(|rows|)]);
        }
        if rows == [] {
          return Err(NoFirstRow);
        }
        if Upper(arg) !in rows[0] {
          return Err(CountColumnMissing(arg));
        }
        var count := CountLoop(rows, Upper(arg));
        return Ok([CountRow(count)]);
      }
      if select == ["*"] {
        return Ok(rows);
      }
      result := ProjectRowsLoop(rows, select);
    }
  }
}
