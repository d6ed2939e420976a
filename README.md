# A mini SQL engine, modelled in Dafny

The system is a small in-memory SQL engine over CSV files. `parse_sql` turns one query string
of the form `SELECT <list> FROM <table> [WHERE <col> <op> <value>]` into a structured query.
A `Database` holds the loaded tables. `load_table` reads a CSV file into a table named after the
file, upper-casing the column names and coercing every field to null, int, float or text.
`execute_query` resolves the table, filters by the one condition, then counts or projects.

The model follows the same split:

- `wrappers.dfy`: `Option` and `Result`.
- `text.dfy`: ASCII `\s`, `\w`, `str.upper()`, `str.strip()`, `str.split`, `str.startswith`/`endswith`, and string ordering.
- `numbers.dfy`: Python's `int()` and `float()` on text, plus `str()` of ints and floats. Floats are exact decimals (`Decimal(mantissa, scale)`).
- `values.dfy`: the value datatype and the load-time coercion of a field.
- `query.dfy`: the structured query that `parse_sql` returns.
- `parser.dfy`: `parse_sql` as a function returning `Result<Query, ParseError>`. The regular expressions become scans that find the same matches Python's `re` finds.
- `parser_facts.dfy`: what the parser promises.
- `loader.dfy`: the table name derived from a path, and the rows `csv.DictReader` plus the normalization loop build from a file's records.
- `semantics.dfy`: `execute_query` as functions of the tables and the query.
- `semantics_facts.dfy`: what the query pipeline promises.
- `engine.dfy`: the `Database` class. Its `tables` field is a `map<string, seq<Row>>`. `LoadTable` and `ExecuteQuery` run the source's loops, with invariants tying them to `loader.dfy` and `semantics.dfy`.

### Behaviour modelled as the code has it

- A WHERE clause on an empty table fails, because the column check reads `rows[0]`. `COUNT(col)` fails the same way when no row survives the filter. Both give `NoFirstRow`.
- The table name is only the leading word of whatever follows FROM. Anything after it is ignored.
- `SELECT` counts only when followed by a literal space, and WHERE is looked for only when `' WHERE '` occurs literally (in upper case). A second WHERE bounded by white space on both sides makes the query fail; `WHERE WHERE = 5` still parses, with the column `WHERE`, because the split resumes after the first match's trailing space.
- With a text literal, numbers in the table are compared by their `str()` text, so `10 < '9'` holds. With an int literal, a float value is truncated first, so `29.9 = 29` holds.
- `x >= ` followed by nothing parses as the operator `>` with the value `=`, because the regular expression backtracks. The value then fails as a literal.
- The output name of a projected column is the first selected name with the same upper case. Selecting a column twice therefore yields one key.

## Model

| member | source | states |
|---|---|---|
| ParserFacts.StripSemicolonTerminated | parser.py:9-13 | one trailing `;` and the white space on both sides of it is removed; text without one is only stripped |
| ParserFacts.SemicolonInsensitive | parser.py:9-13 | `Q` and `Q;` (with any trailing white space) parse to the same result |
| ParserFacts.ParseRejections | parser.py:15-22 | a query whose upper-cased, stripped text does not start with `SELECT ` is rejected as NotSelect; one whose FROM split does not give two parts is rejected as MalformedFrom |
| ParserFacts.SplitKeywordNone | parser.py:20 | with no `\s+KW\s+` match, the split is the whole text |
| ParserFacts.SplitKeywordOnce | parser.py:20 | with exactly one match, the split is the text before it and the text after it |
| ParserFacts.SplitKeywordTwoParts | parser.py:20-22 | a two-part split comes only from exactly one match, and the parts are what lies on either side of it |
| ParserFacts.SelectStar | parser.py:48-49 | the select part gives the star list exactly when it is `*` |
| ParserFacts.SelectCount | parser.py:50-56 | `COUNT(arg)` in any case is accepted exactly when the stripped arg is `*` or a word, keeping the arg's case; otherwise it is InvalidCountArgument |
| ParserFacts.SelectColumns | parser.py:57-63 | any other select part is split on commas and each item stripped; it is accepted exactly when all items are words, in order and case, and otherwise rejected naming the first bad item |
| ParserFacts.SelectColumnsRoundTrip | parser.py:57-63 | words joined by commas are read back as exactly that column list |
| ParserFacts.MatchOperatorSound | parser.py:69-74 | the operator found matches at the start of the text and is followed by the captured value; when none is found, no alternative matches |
| ParserFacts.OperatorPrecedence | parser.py:70 | `>=`, `<=` and `!=` are chosen before `>`, `<` and `=` whenever they match |
| ParserFacts.ConditionColumn | parser.py:80-81 | the condition's column is the leading word of the WHERE text, upper-cased |
| ParserFacts.LiteralQuoted | parser.py:87-89 | a quoted value is text with the quotes removed |
| ParserFacts.LiteralInt | parser.py:95-97 | the text of an int is read back as that int |
| ParserFacts.LiteralFloat | parser.py:93-97 | the positional text of a float is read back as that float |
| ParserFacts.LiteralKinds | parser.py:84-99 | quoted text is text; otherwise a value with `.` is a float and one without is an int; it fails exactly when neither quoted nor readable by the chosen grammar |
| ParserFacts.ParseWellFormed | parser.py:39-63 | every accepted query has a word as its table, a well-formed select list, and an upper-cased word as its WHERE column |
| ParserFacts.TableIsPrefix | parser.py:39-42 | the table is the leading word of the text after FROM (and before WHERE), in its original case; when that text has no leading word the query fails exactly with InvalidTableName |
| ParserFacts.WhereOnlyAfterKeyword | parser.py:28-36 | an accepted query has a condition exactly when `' WHERE '` occurs in the upper-cased text after FROM; otherwise its condition is absent |
| Values.CoerceOutcomes | engine.py:29-39 | a field coerces to exactly one of null (blank or missing), an int (`int()` reads it), a float (`float()` reads it, `int()` does not) or the stripped text |
| Values.CoerceCanonical | engine.py:29-39 | a coerced text is never blank, never padded, and never readable by `int()` or `float()` |
| Values.CoerceIgnoresPadding | engine.py:29 | padding a field with white space does not change its value |
| Values.CoerceIntText | engine.py:33-34 | a field holding `str(i)` loads as the int `i` |
| Values.CoerceFloatText | engine.py:36-37 | a field holding `str(x)` of a float loads as a float equal to `x` |
| Numbers.IntRoundTrip | engine.py:34 | `int(str(i)) == i` |
| Numbers.FloatToStrRoundTrip | engine.py:37 | `float(str(x)) == x` |
| Numbers.TruncateTowardZero | engine.py:76 | `int()` of a float drops its fraction toward zero |
| Loader.TableNameOfFile | engine.py:17 | `dir/stem.ext` is loaded as table `stem`, even when the stem holds dots |
| Loader.TableNameOfBareFile | engine.py:17 | `stem.ext` without a directory is loaded as table `stem` |
| Loader.LoadedRows | engine.py:22-40 | the load succeeds exactly when no data record is longer than the header; it then gives one row per non-blank record, in file order |
| Loader.RecordRowKeys | engine.py:27-31 | a row's keys are exactly the header names, upper-cased |
| Loader.RecordRowShape | engine.py:27-39 | a row's keys are upper case and its values canonical |
| Loader.RecordRowValues | engine.py:28-39 | with header names distinct in upper case, each column holds its own field coerced, null where the record is short |
| Engine.NormalizeRecord | engine.py:27-39 | the normalization loop builds exactly the row of the record |
| Loader.ReaderItemsDistinct | engine.py:24-28 | the dict the reader hands over for a record holds each header name once |
| Engine.ReadRecord | engine.py:25-40 | one record is skipped when blank, appended as its row when it fits the header, and stops the load exactly when it is longer than the header |
| Engine.ReadRows | engine.py:22-40 | the reading loop builds exactly the rows of the file, or fails at a record longer than the header |
| Engine.FilterLoop | engine.py:66-98 | the filter loop keeps exactly the rows the condition keeps, in order |
| Engine.CountLoop | engine.py:112 | the counting loop counts exactly the rows whose value is present and not null |
| Engine.ProjectLoop | engine.py:123-127 | the inner projection loop builds the projected row, or fails at the first missing column |
| Engine.ProjectRowsLoop | engine.py:120-128 | the outer projection loop projects every row in order, or fails at the first row missing a column |
| Engine.Database.constructor | engine.py:5-6 | a new database has no tables |
| Engine.Database.LoadTable | engine.py:8-43 | a missing file fails and a loaded name is left alone, both with the tables unchanged; otherwise the new name gets exactly the file's rows and nothing else changes; every table keeps upper-case keys and canonical values |
| Engine.Database.ExecuteQuery | engine.py:45-129 | the result is `Execute` of the tables and the query, and the tables are not modified |
| SemanticsFacts.UnknownTable | engine.py:49-51 | a query on a name not loaded fails listing the loaded names, and this error arises in no other way |
| SemanticsFacts.WhereColumnChecked | engine.py:56-64 | with a condition, an empty table or a column missing from the first row fails before any row is filtered; otherwise the filter runs |
| SemanticsFacts.FilterSubsequence | engine.py:66-98 | the filtered rows are an order-preserving subsequence of the table |
| SemanticsFacts.FilterMembership | engine.py:66-98 | a row is in the result exactly when it is in the table and the condition keeps it |
| SemanticsFacts.FilterLength | engine.py:66-98 | the result has one row per kept row, so never more rows than the table |
| SemanticsFacts.KeepNeedsValue | engine.py:68-78 | a missing or null value never passes, and neither does loaded text under an int or float literal |
| SemanticsFacts.FloatUnderIntLiteral | engine.py:75-93 | with an int literal, a float value passes exactly when its truncation toward zero satisfies the operator against the literal |
| SemanticsFacts.FloatMeetsIntLiteral | engine.py:76 | an instance of that rule: `29.9 = 29` holds |
| SemanticsFacts.IntUnderTextLiteral | engine.py:75-93 | with a text literal, an int value passes exactly when its `str()` text satisfies the operator against the literal text |
| SemanticsFacts.FloatUnderTextLiteral | engine.py:75-93 | with a text literal, a float value passes exactly when its `str()` text satisfies the operator against the literal text |
| SemanticsFacts.IntMeetsTextLiteral | engine.py:76-93 | an instance of the text comparison: `10 < '9'` holds and `10 > '9'` does not |
| SemanticsFacts.CompareFlip | engine.py:82-93 | swapping the operands of a comparison of two values of one type swaps less and greater and keeps equality, so `>` and `<` mirror each other on ints, floats and text |
| SemanticsFacts.CountResults | engine.py:104-113 | `COUNT(*)` is the row count; `COUNT(col)` fails with NoFirstRow when no row is left, fails when the column is missing from the first row, and otherwise is the number of rows whose upper-cased column is present and not null; any count is at most the row count |
| SemanticsFacts.CountNonNullMembership | engine.py:112 | the non-null count equals the row count exactly when every row holds a non-null value, and is zero exactly when none does |
| SemanticsFacts.CountStar | engine.py:104-107 | `SELECT COUNT(*)` gives one row holding the number of filtered rows |
| SemanticsFacts.CountColumn | engine.py:104-113 | `SELECT COUNT(col)` fails when no row passed the filter or the first one lacks the column, and otherwise gives one row holding the number of filtered rows with a non-null value there |
| SemanticsFacts.SelectDispatch | engine.py:104-118 | the select list of a well-formed query reaches the stage it names: the star list returns the rows, a count counts, a column list projects |
| SemanticsFacts.StarWhere | engine.py:66-117 | `SELECT *` with a WHERE returns an order-preserving subsequence of the table whose every row satisfies the condition |
| SemanticsFacts.NoWhere | engine.py:53-57 | without a WHERE the select stage sees all of the table's rows |
| SemanticsFacts.LabelUpper | engine.py:120-127 | a column's output name is the first selected name, at or before it, with the same upper case |
| SemanticsFacts.ProjectRowSpec | engine.py:122-127 | a row projects exactly when all selected columns are in it; the new row's keys are the output names, each holding `row[name.upper()]` |
| SemanticsFacts.ProjectRowsSpec | engine.py:121-128 | projection succeeds exactly when every row projects, and gives one projected row per row, in order |
| SemanticsFacts.ColumnsResult | engine.py:118-128 | a column-list query gives one row per filtered row, keyed by the output names and holding the row's values, and fails exactly when a selected column is missing from some row |

## Left out

- File I/O: whether the file exists, and the header and records the CSV reader returns, are parameters of `LoadTable`. CSV tokenizing (quotes, delimiters, newlines) is not modelled.
- The `print` calls in `load_table` are not modelled; `LoadTable` returns an outcome value instead.
- `cli.py` is not part of this model: it is the interactive loop and the result formatting.
- `\s`, `\w` and `str.upper()` are modelled on ASCII only. Python's Unicode white space, word characters and case mapping are not.
- `int()` is modelled without underscores and without non-ASCII digits.
- `float()` is modelled without `inf`, `nan` and underscores. Floats are exact decimals, so IEEE rounding is absent. For the same reason `int()` of an infinite float, which raises OverflowError, cannot arise. In the other direction, `float()` of an int beyond the double range raises OverflowError in the source, which the filter does not catch, so the query fails; the model converts every int to a float exactly.
- Numbers.FloatToStrRoundTrip: `str(float)` is modelled as positional notation with at least one fraction digit. Python's switch to exponent notation for very large or small floats is not modelled, and the round trip is stated for the exact decimal, not for IEEE doubles.
- Dict key order is not modelled: rows are maps. Only the key set and the values matter to the queries.
- A record longer than the header makes DictReader put the list of extra fields under the key `None`, and `value.strip()` on that list then raises AttributeError. The model treats this as a load that fails with `RecordTooLong`, leaving the tables unchanged as the source does.
- Loader.RecordRowValues: stated only for headers whose names stay distinct when upper-cased. With repeated names, the later column wins; `RecordRowKeys` still gives the key set in that case.
- ParserFacts.ParseWellFormed: states only the shape of an accepted query. Which word becomes the table and when a condition is present are stated by `TableIsPrefix` and `WhereOnlyAfterKeyword`.
