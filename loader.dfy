/**
 * What `load_table` builds from a CSV file: the table name derived from the path, and one
 * row per data record, as `csv.DictReader` hands the records over and the loader normalizes them.
 */
module Loader {
  import opened Wrappers
  import opened Text
  import opened Values

  // ---- The table name ----

  /** The position of the last `c` in `s`. */
  function LastIndex(s: string, c: char): (r: Option<nat>)
    ensures r.None? <==> c !in s
    ensures r.Some? ==> r.value < |s| && s[r.value] == c && c !in s[r.value + 1..]
  {
    if s == [] then None
    else if s[|s| - 1] == c then Some(|s| - 1)
    else LastIndex(s[..|s| - 1], c)
  }

  /** `os.path.basename`: what follows the last `/`. */
  function BaseName(path: string): string {
    match LastIndex(path, '/')
    case None => path
    case Some(k) => path[k + 1..]
  }

  /** `rsplit('.', 1)[0]`: what precedes the last `.`, or all of it when there is none. */
  function DropExtension(base: string): string {
    match LastIndex(base, '.')
    case None => base
    case Some(k) => base[..k]
  }

  /** The file name without directory and without its last extension. */
  function TableName(path: string): string {
    DropExtension(BaseName(path))
  }

  /** The last `c` of `s + [c] + t` is the one between them when `t` has none. */
  lemma LastIndexAt(s: string, c: char, t: string)
    requires c !in t
    ensures LastIndex(s + [c] + t, c) == Some(|s|)
  {
    var u := s + [c] + t;
    assert u[|s|] == c;
    assert u[|s| + 1..] == t;
  }

  /** `dir/base` has the base name `base` when `base` holds no `/`. */
  lemma BaseNameOf(dir: string, base: string)
    requires '/' !in base
    ensures BaseName(dir + "/" + base) == base
  {
    LastIndexAt(dir, '/', base);
    assert (dir + "/" + base)[|dir| + 1..] == base;
  }

  /** `stem.ext` drops `.ext` when `ext` holds no `.`. */
  lemma DropExtensionOf(stem: string, ext: string)
    requires '.' !in ext
    ensures DropExtension(stem + "." + ext) == stem
  {
    LastIndexAt(stem, '.', ext);
    assert (stem + "." + ext)[..|stem|] == stem;
  }

  lemma NoSlash(stem: string, ext: string)
    requires '/' !in stem && '/' !in ext
    ensures '/' !in stem + "." + ext
  {
    var base := stem + "." + ext;
    assert forall i :: 0 <= i < |base| ==> base[i] == if i < |stem| then stem[i] else if i == |stem| then '.' else ext[i - |stem| - 1];
  }

  /** A directory and an extension do not reach the table name: `dir/stem.ext` loads as `stem`. */
  lemma TableNameOfFile(dir: string, stem: string, ext: string)
    requires '/' !in stem && '/' !in ext && '.' !in ext
    ensures TableName(dir + "/" + (stem + "." + ext)) == stem
  {
    NoSlash(stem, ext);
    BaseNameOf(dir, stem + "." + ext);
    DropExtensionOf(stem, ext);
  }

  /** Without a directory the same holds. */
  lemma TableNameOfBareFile(stem: string, ext: string)
    requires '/' !in stem && '/' !in ext && '.' !in ext
    ensures TableName(stem + "." + ext) == stem
  {
    NoSlash(stem, ext);
    DropExtensionOf(stem, ext);
  }

  // ---- One record as DictReader hands it over ----

  /** A dict in insertion order: each key once, with its value. */
  type Items = seq<(string, Option<string>)>

  /** Where `k` sits, or `|items|` when it is absent. */
  function KeyIndex(items: Items, k: string): (j: nat)
    ensures j <= |items|
    ensures j < |items| ==> items[j].0 == k
    ensures forall t :: 0 <= t < j ==> items[t].0 != k
  {
    if items == [] then 0
    else if items[0].0 == k then 0
    else 1 + KeyIndex(items[1..], k)
  }

  /** `d[k] = v`: a present key keeps its place and takes the new value; a new key goes last. */
  function Put(items: Items, k: string, v: Option<string>): Items {
    var j := KeyIndex(items, k);
    if j < |items| then items[j := (k, v)] else items + [(k, v)]
  }

  /** The field at position `p`, or the `restval` `None` for a record shorter than the header. */
  function Field(record: seq<string>, p: nat): Option<string> {
    if p < |record| then Some(record[p]) else None
  }

  /** The dict DictReader builds from the first `n` header names: `zip`, then the missing fields as `None`. */
  function ReaderItems(header: seq<string>, record: seq<string>, n: nat): Items
    requires n <= |header|
  {
    if n == 0 then []
    else Put(ReaderItems(header, record, n - 1), header[n - 1], Field(record, n - 1))
  }

  /** The first `n` items, keyed by their upper-cased names and coerced, later items overwriting. */
  function Normalize(items: Items, n: nat): Row
    requires n <= |items|
  {
    if n == 0 then map[]
    else Normalize(items, n - 1)[Upper(items[n - 1].0) := Coerce(items[n - 1].1)]
  }

  /** The row a data record becomes. */
  function RecordRow(header: seq<string>, record: seq<string>): Row {
    var items := ReaderItems(header, record, |header|);
    Normalize(items, |items|)
  }

  // ---- The whole file ----

  /** The rows of the records that are not blank, in file order. */
  function Rows(header: seq<string>, records: seq<seq<string>>): seq<Row> {
    if records == [] then []
    else
      var last := records[|records| - 1];
      Rows(header, records[..|records| - 1]) + if last == [] then [] else [RecordRow(header, last)]
  }

  /** Some record has more fields than the header. */
  predicate TooLong(header: seq<string>, records: seq<seq<string>>) {
    exists i :: 0 <= i < |records| && |records[i]| > |header|
  }

  /** The file's rows, or `None` when a record longer than the header makes the load fail before anything is stored. */
  function BuildRows(header: seq<string>, records: seq<seq<string>>): Option<seq<Row>> {
    if TooLong(header, records) then None else Some(Rows(header, records))
  }

  /** The records that are not blank, in file order. */
  function DataRecords(records: seq<seq<string>>): seq<seq<string>> {
    if records == [] then []
    else
      var last := records[|records| - 1];
      DataRecords(records[..|records| - 1]) + if last == [] then [] else [last]
  }

  /** Blank records have no fields, so only a data record can be too long. */
  lemma {:induction false} DataRecordsFit(header: seq<string>, records: seq<seq<string>>)
    ensures TooLong(header, records) <==>
      exists i :: 0 <= i < |DataRecords(records)| && |DataRecords(records)[i]| > |header|
  {
    if records != [] {
      var init, last := records[..|records| - 1], records[|records| - 1];
      DataRecordsFit(header, init);
      var d0, d := DataRecords(init), DataRecords(records);
      assert forall i :: 0 <= i < |d0| ==> d[i] == d0[i];
      assert forall i :: 0 <= i < |init| ==> records[i] == init[i];
      if last != [] {
        assert d[|d| - 1] == last;
      }
    }
  }

  /**
   * The load succeeds exactly when no data record is longer than the header; then there is one
   * row per data record, in file order, each the row that record becomes.
   */
  lemma LoadedRows(header: seq<string>, records: seq<seq<string>>)
    ensures BuildRows(header, records).Some? <==>
      forall i :: 0 <= i < |DataRecords(records)| ==> |DataRecords(records)[i]| <= |header|
    ensures BuildRows(header, records).Some? ==>
      var rows := BuildRows(header, records).value;
      && |rows| == |DataRecords(records)|
      && forall i :: 0 <= i < |rows| ==> rows[i] == RecordRow(header, DataRecords(records)[i])
  {
    DataRecordsFit(header, records);
    RowsOfData(header, records);
  }

  /** One more record is too long itself or leaves the verdict as it was. */
  lemma TooLongNext(header: seq<string>, records: seq<seq<string>>, i: nat)
    requires i < |records|
    ensures TooLong(header, records[..i + 1]) <==> TooLong(header, records[..i]) || |records[i]| > |header|
  {
    var a, b := records[..i], records[..i + 1];
    assert forall j :: 0 <= j < i ==> a[j] == b[j];
    assert b[i] == records[i];
  }

  /** A record too long in a prefix is too long in the whole file. */
  lemma TooLongPrefix(header: seq<string>, records: seq<seq<string>>, n: nat)
    requires n <= |records| && TooLong(header, records[..n])
    ensures TooLong(header, records)
  {
    var j :| 0 <= j < n && |records[..n][j]| > |header|;
    assert records[j] == records[..n][j];
  }

  /** A blank record adds no row. */
  lemma RowsBlank(header: seq<string>, records: seq<seq<string>>, i: nat)
    requires i < |records| && records[i] == []
    ensures Rows(header, records[..i + 1]) == Rows(header, records[..i])
  {
    assert records[..i + 1][..i] == records[..i];
  }

  /** A data record adds its row. */
  lemma RowsRecord(header: seq<string>, records: seq<seq<string>>, i: nat)
    requires i < |records| && records[i] != []
    ensures Rows(header, records[..i + 1]) == Rows(header, records[..i]) + [RecordRow(header, records[i])]
  {
    assert records[..i + 1][..i] == records[..i];
  }

  lemma {:induction false} RowsOfData(header: seq<string>, records: seq<seq<string>>)
    ensures |Rows(header, records)| == |DataRecords(records)|
    ensures forall i :: 0 <= i < |Rows(header, records)| ==>
      Rows(header, records)[i] == RecordRow(header, DataRecords(records)[i])
  {
    if records != [] {
      var init := records[..|records| - 1];
      RowsOfData(header, init);
    }
  }

  // ---- What a row looks like ----

  /** The keys of a dict. */
  function Names(items: Items): set<string> {
    set t | 0 <= t < |items| :: items[t].0
  }

  lemma NamesAppend(items: Items, x: (string, Option<string>))
    ensures Names(items + [x]) == Names(items) + {x.0}
  {
    var a := items + [x];
    assert a[|items|].0 == x.0;
    forall y | y in Names(a) ensures y in Names(items) + {x.0} {
      var t :| 0 <= t < |a| && a[t].0 == y;
      if t < |items| {
        assert a[t] == items[t];
      }
    }
    forall y | y in Names(items) ensures y in Names(a) {
      var t :| 0 <= t < |items| && items[t].0 == y;
      assert a[t] == items[t];
    }
  }

  lemma NamesUpdate(items: Items, j: nat, v: Option<string>)
    requires j < |items|
    ensures Names(items[j := (items[j].0, v)]) == Names(items)
  {
    var a := items[j := (items[j].0, v)];
    assert forall t :: 0 <= t < |a| ==> a[t].0 == items[t].0;
  }

  /** The dict's keys are the header names. */
  lemma {:induction false} ReaderItemsKeys(header: seq<string>, record: seq<string>, n: nat)
    requires n <= |header|
    ensures Names(ReaderItems(header, record, n)) == (set p | 0 <= p < n :: header[p])
  {
    if n > 0 {
      ReaderItemsKeys(header, record, n - 1);
      var items := ReaderItems(header, record, n - 1);
      var k := header[n - 1];
      var j := KeyIndex(items, k);
      assert (set p | 0 <= p < n :: header[p]) == (set p | 0 <= p < n - 1 :: header[p]) + {k};
      if j < |items| {
        NamesUpdate(items, j, Field(record, n - 1));
      } else {
        NamesAppend(items, (k, Field(record, n - 1)));
      }
    }
  }

  /** Each key appears once. */
  predicate DistinctKeys(items: Items) {
    forall i, j :: 0 <= i < j < |items| ==> items[i].0 != items[j].0
  }

  /** Putting into a dictionary keeps its keys distinct. */
  lemma PutDistinct(items: Items, k: string, v: Option<string>)
    requires DistinctKeys(items)
    ensures DistinctKeys(Put(items, k, v))
  {
    var after := Put(items, k, v);
    if KeyIndex(items, k) < |items| {
      assert forall t :: 0 <= t < |after| ==> after[t].0 == items[t].0;
    } else {
      assert forall t :: 0 <= t < |items| ==> after[t] == items[t] && items[t].0 != k;
    }
  }

  lemma {:induction false} ReaderItemsDistinct(header: seq<string>, record: seq<string>, n: nat)
    requires n <= |header|
    ensures DistinctKeys(ReaderItems(header, record, n))
  {
    if n > 0 {
      ReaderItemsDistinct(header, record, n - 1);
      PutDistinct(ReaderItems(header, record, n - 1), header[n - 1], Field(record, n - 1));
    }
  }

  /** The keys of the first `n` normalized items are their names upper-cased. */
  lemma {:induction false} NormalizeKeys(items: Items, n: nat)
    requires n <= |items|
    ensures Normalize(items, n).Keys == (set j | 0 <= j < n :: Upper(items[j].0))
  {
    if n > 0 {
      NormalizeKeys(items, n - 1);
      assert (set j | 0 <= j < n :: Upper(items[j].0)) == (set j | 0 <= j < n - 1 :: Upper(items[j].0)) + {Upper(items[n - 1].0)};
    }
  }

  /** Every value is one `Coerce` can produce: null, a number, or text no number grammar reads. */
  lemma {:induction false} NormalizeCanonical(items: Items, n: nat)
    requires n <= |items|
    ensures forall k :: k in Normalize(items, n) ==> Canonical(Normalize(items, n)[k])
  {
    if n > 0 {
      NormalizeCanonical(items, n - 1);
      CoerceCanonical(items[n - 1].1);
    }
  }

  /** Upper-casing the names of a dict whose keys are the header names gives the upper-cased header names. */
  lemma UpperNames(items: Items, header: seq<string>)
    requires Names(items) == (set p | 0 <= p < |header| :: header[p])
    ensures (set j | 0 <= j < |items| :: Upper(items[j].0)) == (set p | 0 <= p < |header| :: Upper(header[p]))
  {
    forall j | 0 <= j < |items| ensures Upper(items[j].0) in set p | 0 <= p < |header| :: Upper(header[p]) {
      assert items[j].0 in Names(items);
      var p :| 0 <= p < |header| && header[p] == items[j].0;
    }
    forall p | 0 <= p < |header| ensures Upper(header[p]) in set j | 0 <= j < |items| :: Upper(items[j].0) {
      assert header[p] in Names(items);
      var j :| 0 <= j < |items| && items[j].0 == header[p];
    }
  }

  /** A row's keys are the header names upper-cased. */
  lemma RecordRowKeys(header: seq<string>, record: seq<string>)
    ensures RecordRow(header, record).Keys == (set p | 0 <= p < |header| :: Upper(header[p]))
  {
    var items := ReaderItems(header, record, |header|);
    ReaderItemsKeys(header, record, |header|);
    NormalizeKeys(items, |items|);
    UpperNames(items, header);
  }

  /** Each key of a row is upper case and each value is canonical. */
  lemma RecordRowShape(header: seq<string>, record: seq<string>)
    ensures forall k :: k in RecordRow(header, record) ==> Upper(k) == k && Canonical(RecordRow(header, record)[k])
  {
    var items := ReaderItems(header, record, |header|);
    NormalizeKeys(items, |items|);
    NormalizeCanonical(items, |items|);
    forall k | k in RecordRow(header, record) ensures Upper(k) == k {
      var j :| 0 <= j < |items| && k == Upper(items[j].0);
      UpperIdempotent(items[j].0);
    }
  }

  /** Header names that stay distinct when upper-cased. */
  predicate DistinctUpper(header: seq<string>) {
    forall p, q :: 0 <= p < q < |header| ==> Upper(header[p]) != Upper(header[q])
  }

  /** With such a header the dict is the header zipped with the fields, padded with `None`. */
  lemma {:induction false} ReaderItemsZip(header: seq<string>, record: seq<string>, n: nat)
    requires n <= |header| && DistinctUpper(header)
    ensures var items := ReaderItems(header, record, n);
      |items| == n && forall p :: 0 <= p < n ==> items[p] == (header[p], Field(record, p))
  {
    if n > 0 {
      ReaderItemsZip(header, record, n - 1);
      var items := ReaderItems(header, record, n - 1);
      assert forall p :: 0 <= p < n - 1 ==> items[p].0 != header[n - 1];
    }
  }

  /** Normalizing items whose upper-cased names differ keeps each value under its own name. */
  lemma {:induction false} NormalizeValues(items: Items, n: nat)
    requires n <= |items|
    requires forall i, j :: 0 <= i < j < n ==> Upper(items[i].0) != Upper(items[j].0)
    ensures forall p :: 0 <= p < n ==>
      (Upper(items[p].0) in Normalize(items, n) && Normalize(items, n)[Upper(items[p].0)] == Coerce(items[p].1))
  {
    if n > 0 {
      NormalizeValues(items, n - 1);
    }
  }

  /** With such a header, the row holds each field coerced under its upper-cased header name. */
  lemma RecordRowValues(header: seq<string>, record: seq<string>)
    requires DistinctUpper(header)
    ensures forall p :: 0 <= p < |header| ==>
      (Upper(header[p]) in RecordRow(header, record) && RecordRow(header, record)[Upper(header[p])] == Coerce(Field(record, p)))
  {
    ReaderItemsZip(header, record, |header|);
    NormalizeValues(ReaderItems(header, record, |header|), |header|);
  }
}
