# Mini database: a Dafny model of the `Database` class

`dbms1.cpp` is a small in-memory database driven by one-line commands. Its
`Database` class keeps a list of tables. Each table has a name, an ordered
list of columns (a name and a free-text type name) and rows of text cells.
The class has five storage operations: `createTable`, `insertRecord`,
`updateRecord`, `deleteRecord` and `viewRecords`. A query interpreter,
`processQuery`, reads `CREATE`, `INSERT` and `VIEW` commands from a line with
a `stringstream`. The validator `isValidType` checks a cell against its
column's type name.

The model has six modules:

- `Text`: the C locale's whitespace class and the words `>>` reads. It also
  has the fields that `getline` with a delimiter reads, the split at the
  first colon, and decimal digits. Each has its round trips.
- `Streams`: a `stringstream` as its text, read position, end-of-file flag
  and failure flag. `>>` into a string and `getline` are state transitions,
  and lemmas relate each to the words or fields of the unread text.
- `Types`: `isValidType`. `int` means leading whitespace, an optional sign,
  digits to the end of the text, and a value within the 32-bit range. `float`
  means leading whitespace, then decimal floating-point syntax to the end.
  `string` accepts everything, and any other type name accepts nothing.
- `Store`: tables, columns and errors, with each storage operation as a
  function from the old tables to the new tables or to the error it throws.
  Every lookup takes the first table with the name.
- `Query`: `processQuery` as a function from the tables and a line to the new
  tables and what the line prints.
- `Dbms`: the `Database` class. Its field `tables` is updated in place, and
  each method keeps the loops of the C++ code. Every method is proved against
  the function that specifies it. The class invariant says that every stored
  row has one cell per column and that each cell is valid for its column.

A thrown `runtime_error` is an `Err` result carrying an `Error` value.
`Message` gives its `what()` text. Text written to `cout` is returned as a
string.

## Model

| member | source | states |
|---|---|---|
| Text.LeadingSpace | dbms1.cpp:98 | `>>` skips exactly the whitespace at the start of the text: every skipped character is whitespace and the next one is not |
| Text.WordLength | dbms1.cpp:98 | a word read by `>>` stops exactly at the first whitespace character |
| Text.DropWord | dbms1.cpp:98 | reading a word never lengthens the unread text, and shortens it whenever a word is there |
| Text.FirstWord | dbms1.cpp:98 | definition: the word one `>>` reads, after the leading whitespace; its properties are stated by `Text.WordThenRest`, `Text.WordsStep` and `Streams.ExtractStops` |
| Text.DropWords | dbms1.cpp:117 | definition: the unread text after `n` successive `>>` reads of a word; `Query.InsertQuery` and `Dbms.Database.RunInsert` state its properties |
| Text.Words | dbms1.cpp:96-98 | definition: the words successive `>>` reads yield, in order; its properties are stated by `Text.AllWords`, `Text.WordsStep`, `Text.WordsSkipSpace` and `Text.WordsOfJoin` |
| Text.AllWords | dbms1.cpp:98 | every word `>>` yields is non-empty and holds no whitespace |
| Text.WordsStep | dbms1.cpp:98 | there are no words exactly when only whitespace is left; one read yields the first word and leaves the remaining words |
| Text.WordsSkipSpace | dbms1.cpp:96-98 | whitespace in front of a line does not change its words |
| Text.WordThenRest | dbms1.cpp:98 | a word followed by whitespace or by the end is read whole and leaves exactly what follows |
| Text.WordsOfJoin | dbms1.cpp:96-98 | round trip: the words of a blank-joined list of words are that list |
| Text.Find | dbms1.cpp:107 | `find` gives the first occurrence, or `npos` (the length) when there is none |
| Text.GetlineSplit | dbms1.cpp:120-122 | repeated `getline` yields no value exactly when the text is empty |
| Text.FieldsAvoidDelim | dbms1.cpp:120-122 | no value `getline` yields holds the delimiter |
| Text.SplitStep | dbms1.cpp:120 | one `getline` yields the text up to the first delimiter and continues after it; with no delimiter it yields the whole rest |
| Text.JoinOfSplit | dbms1.cpp:120-122 | rejoining the values with the delimiter gives the text back, except a delimiter at the very end, which `getline` drops |
| Text.SplitOfJoin | dbms1.cpp:120-122 | delimiter-free values, the last non-empty, are split back into exactly themselves |
| Text.SplitAtColon | dbms1.cpp:107-110 | no split exactly when there is no colon; otherwise name, colon and type rebuild the definition, and the name holds no colon |
| Text.DigitRun | dbms1.cpp:156-160 | the maximal run of decimal digits at the start of the text |
| Text.NatToStringValue | dbms1.cpp:30 | `to_string` of a count writes only digits, with no leading zero, and reads back as the count |
| Streams.Open | dbms1.cpp:96 | a fresh `stringstream` is good and has the whole line unread |
| Streams.Extract | dbms1.cpp:98 | `>>` keeps the stream consistent: a stream that is not good has nothing left to read |
| Streams.ExtractStops | dbms1.cpp:98 | `>>` yields the first word, or nothing on a blank rest, and leaves the text after that word |
| Streams.ExtractReadsWord | dbms1.cpp:98 | `>>` yields the next word or fails when none is left; the remaining words are the rest of the list, and the unread text shrinks |
| Streams.Getline | dbms1.cpp:120 | `getline` keeps the stream consistent |
| Streams.GetlineStops | dbms1.cpp:120 | `getline` yields the text up to the delimiter and leaves what follows it; at the end of the text it yields nothing |
| Streams.GetlineReadsField | dbms1.cpp:120-122 | `getline` yields the next field, or nothing when none is left, leaves the later fields, and shrinks the unread text |
| Types.ScanInt | dbms1.cpp:155-157 | an accepted int text reads as a value in the 32-bit range and ends in a digit; `Types.ScanIntOfText` and `Types.ScanIntForm` together state exactly which texts it accepts and with what value |
| Types.ScanSigned | dbms1.cpp:156-157 | the int read once the whitespace is skipped: in range, and the text ends in a digit |
| Types.SignedForm | dbms1.cpp:156-157 | a text `ScanSigned` accepts is an optional `+` or `-` followed only by one or more digits, and its value is the number they denote under that sign |
| Types.ScanIntOfText | dbms1.cpp:155-157 | whitespace, an optional `+` or `-` and one or more digits, leading zeros allowed, read as the number they denote when it fits in a 32-bit `int`, and are rejected when it does not |
| Types.ScanIntForm | dbms1.cpp:155-157 | the converse of `Types.ScanIntOfText`: every accepted int text is whitespace, then an optional `+` or `-`, then one or more digits up to the end, and reads as the number they denote |
| Types.IntRejectsMisplaced | dbms1.cpp:155-157 | an int column rejects `4 2`, `1-2`, `--1` and `- 1` |
| Types.IntRejectsOutOfRange | dbms1.cpp:155-157 | an int column rejects digits whose value lies outside the `int` range, whatever whitespace and sign come before them |
| Types.ScanIntOfDecimal | dbms1.cpp:155-157 | round trip: whitespace, an optional minus and the `to_string` digits of an in-range magnitude are read back as exactly that number |
| Types.IntTextCharacters | dbms1.cpp:155-157 | an accepted int text holds only whitespace, signs and digits |
| Types.IntRejectsCharacter | dbms1.cpp:155-157 | any other character anywhere makes an int column reject the value |
| Types.IntAcceptsExamples | dbms1.cpp:155-157 | an int column accepts `42` and ` 42` |
| Types.IntRejectsExamples | dbms1.cpp:155-157 | an int column rejects `42.5`, `42abc`, `42 ` and the empty text |
| Types.IntTextIsFloatText | dbms1.cpp:155-160 | every value an int column accepts, a float column accepts too |
| Types.ScanFloatOfFraction | dbms1.cpp:158-160 | digits, a point and digits (at least one digit in all) after any whitespace are a valid float |
| Types.FloatTextEnd | dbms1.cpp:158-160 | an accepted float text ends in a digit or a point, so trailing letters or blanks are rejected |
| Types.FloatAcceptsExamples | dbms1.cpp:158-160 | a float column accepts `42` and `42.5` |
| Types.FloatRejectsExample | dbms1.cpp:158-160 | a float column rejects `42.5abc` |
| Types.ScanFloat | dbms1.cpp:158-160 | definition: leading whitespace, then decimal floating-point syntax up to the end of the text; its properties are stated by `Types.ScanFloatOfFraction`, `Types.FloatTextEnd` and `Types.IntTextIsFloatText` |
| Types.IsValidType | dbms1.cpp:153-165 | definition: dispatch on the exact type names `int`, `float` and `string`, with any other name rejecting; its properties are stated by `Types.ScanIntOfText`, `Types.StringAndUnknownTypes` and the example lemmas |
| Types.StringAndUnknownTypes | dbms1.cpp:161-164 | `string` accepts every value, the empty one included; any other unknown type name rejects every value |
| Store.Message | dbms1.cpp:16 | definition: the `what()` text of each error, as thrown at dbms1.cpp lines 16, 30, 34, 41, 49, 54, 57, 67, 70, 92, 108 and 132; `Query.NamedMessageInline`, `Query.CountMessageInline` and `Query.FailureIsOneLine` state that each message a query can print stays on one line |
| Store.TypedIsShaped | dbms1.cpp:139-151 | when every row fits its table's types, every row has one cell per column |
| Store.FindTable | dbms1.cpp:27-28 | the lookup loop finds the first table with the name, or reports that none has it |
| Store.Columns | dbms1.cpp:20-22 | definition: the columns paired up from the names and the types, in order; `Store.Create` and `Dbms.Database.CreateTable` state its properties |
| Store.Create | dbms1.cpp:14-24 | a length mismatch fails and changes nothing; otherwise exactly one table is appended, with the given name, columns in order and no rows, the earlier tables untouched and validity kept |
| Store.CreateShadows | dbms1.cpp:14-24 | a table created under a taken name is never found by that name; under a new name it is found at the end, and other lookups do not change |
| Store.FindTableAppend | dbms1.cpp:23 | how a lookup changes when a table is appended |
| Store.FirstInvalid | dbms1.cpp:32-36 | the validation loop stops at the first value its column rejects; every value before it is valid |
| Store.Insert | dbms1.cpp:26-42 | an unknown table fails; a wrong count fails naming the column count; otherwise it succeeds exactly when every value is valid, appending the values verbatim as the last row of the first table with the name and nothing else; an invalid value fails naming the first rejected column |
| Store.Update | dbms1.cpp:44-58 | an unknown table, a row or column out of range, or a value invalid for the column each fail with their own error; otherwise exactly one cell of the first table with the name changes; row widths and validity are kept |
| Store.Delete | dbms1.cpp:60-71 | an unknown table or an index out of range fails; otherwise exactly that row goes, the others keep their order, and the other tables are untouched |
| Store.Cells | dbms1.cpp:84-86 | definition: each value followed by a tab; `Store.CellsRoundTrip` and `Dbms.PrintLine` state its properties |
| Store.Line | dbms1.cpp:77-81 | definition: one printed line, a tab, the cells, then the line end; `Store.LineRoundTrip` and `Dbms.PrintLine` state its properties |
| Store.Lines | dbms1.cpp:82-88 | definition: the printed lines of the rows, in order; `Store.ViewAfterInsert` and `Dbms.PrintTable` state its properties |
| Store.Render | dbms1.cpp:76-88 | definition: the name line, the tab-led column-name line and one tab-led line per row; `Store.LineRoundTrip` and `Store.ViewAfterInsert` state its properties |
| Store.View | dbms1.cpp:73-93 | definition: the rendering of the first table with the name, or table-not-found; `Store.ViewAfterInsert` and `Query.InsertThenView` state its properties |
| Store.CellsRoundTrip | dbms1.cpp:84-86 | the printed cells of a row, read back with a tab delimiter, are the values themselves when none holds a tab |
| Store.LineRoundTrip | dbms1.cpp:83-87 | a printed row line read back with a tab delimiter is an empty field followed by the values |
| Store.ViewAfterInsert | dbms1.cpp:37 | after a successful insert, viewing the table prints what it printed before plus one line of the new values |
| Query.Output | dbms1.cpp:113 | definition: the text printed for each reply (dbms1.cpp lines 113, 124, 129 and 135); `Query.FailureIsOneLine` and `Query.EmptyLine` state its properties |
| Query.ColumnDefs | dbms1.cpp:104-111 | the definitions fail exactly when one lacks a colon, with the missing-colon error; otherwise name and type rebuild each definition in order |
| Query.ColumnDefsExtend | dbms1.cpp:106-111 | reading one more definition extends both lists or fails the whole command |
| Query.Execute | dbms1.cpp:95-137 | a failed query or a view leaves the tables as they were; a query never reports a name/type mismatch; queries keep every stored row valid |
| Query.Unsupported | dbms1.cpp:131-133 | a first word other than CREATE, INSERT and VIEW fails naming that word and changes nothing |
| Query.EmptyLine | dbms1.cpp:96-98 | a blank line is an unsupported command with an empty name |
| Query.CreateNeedsColons | dbms1.cpp:106-112 | a CREATE fails with the missing-colon error exactly when one of its definitions lacks a colon, and then creates nothing |
| Query.CreateSplitsDefinitions | dbms1.cpp:101-113 | a CREATE whose definitions all hold a colon appends one empty table named by the third word; each column's name is its definition before the first colon and its type is what follows |
| Query.ExecuteCreate | dbms1.cpp:101-114 | unfolds the CREATE branch of `Query.Execute`, as a proof step for `Dbms.Database.RunCreate`; the properties are stated by `Query.CreateSplitsDefinitions` and `Query.CreateNeedsColons` |
| Query.ExecuteInsert | dbms1.cpp:115-125 | unfolds the INSERT branch of `Query.Execute`, as a proof step for `Dbms.Database.RunInsert`; the property is stated by `Query.InsertQuery` |
| Query.InsertValues | dbms1.cpp:117-122 | definition: the comma-separated fields of the text after the fourth word; `Query.InsertQuery` and `Dbms.ReadValues` state its properties |
| Query.InsertQuery | dbms1.cpp:115-124 | for any words, `INSERT a t b rest` inserts into `t` the untrimmed comma-separated fields of `rest` |
| Query.SplitExample | dbms1.cpp:120-122 | the text after `INSERT INTO t VALUES` in `INSERT INTO t VALUES 5,hello` gives the values ` 5` and `hello` |
| Query.SplitTwo | dbms1.cpp:120-122 | two delimiter-free fields, the second non-empty, joined by the delimiter read back as those two fields |
| Query.ExecuteErrors | dbms1.cpp:100-136 | a query fails only with an unsupported command, a missing colon, an unknown INSERT table, a wrong count, an invalid value naming a stored column, or an unknown VIEW table |
| Query.FailureIsOneLine | dbms1.cpp:134-136 | every failure prints exactly one line starting with `Query Error: `, provided no stored column name holds a line break |
| Query.ExecuteKeepsNamesInline | dbms1.cpp:101-113 | queries only ever create column names without line breaks |
| Query.InsertThenView | dbms1.cpp:115-130 | after a successful INSERT, a VIEW of that table prints the earlier view plus one line of the inserted values |
| Dbms.NextWord | dbms1.cpp:98 | `ss >> word` yields the next word of the unread text, or nothing, and leaves the words after it |
| Dbms.NextField | dbms1.cpp:120 | `getline(ss, field, delim)` yields the next field, or nothing, and leaves the fields after it |
| Dbms.ReadWord | dbms1.cpp:103 | the n-th `>>` of a line yields its n-th word, or leaves the target's prior contents when the words have run out |
| Dbms.ReadColumnDefs | dbms1.cpp:104-111 | the `while (ss >> col)` loop computes the column definitions of the remaining words, stopping at the first one without a colon |
| Dbms.ReadValues | dbms1.cpp:118-122 | the `while (getline(...))` loop collects every comma-separated field of the rest of the line |
| Dbms.CheckRow | dbms1.cpp:32-36 | the validation loop finds the first invalid value, if any |
| Dbms.PrintTable | dbms1.cpp:76-88 | the printing loop writes the table's name line, its column names line and one line per row |
| Dbms.PrintLine | dbms1.cpp:77-81 | one printed line: a tab, each value followed by a tab, then the line end |
| Dbms.Database.constructor | dbms1.cpp:12 | a new database holds no tables |
| Dbms.Database.CreateTable | dbms1.cpp:14-24 | reports and commits exactly what `Store.Create` specifies, keeping the class invariant |
| Dbms.Database.InsertRecord | dbms1.cpp:26-42 | reports and commits exactly what `Store.Insert` specifies; on failure the tables are unchanged |
| Dbms.Database.UpdateRecord | dbms1.cpp:44-58 | reports and commits exactly what `Store.Update` specifies |
| Dbms.Database.DeleteRecord | dbms1.cpp:60-71 | reports and commits exactly what `Store.Delete` specifies |
| Dbms.Database.ViewRecords | dbms1.cpp:73-93 | prints the rendering of the first table with the name, or fails with table-not-found |
| Dbms.Database.ProcessQuery | dbms1.cpp:95-137 | the new tables and the printed text are exactly those of `Query.Execute` |
| Dbms.Database.RunCreate | dbms1.cpp:101-114 | the CREATE branch matches `Query.Execute` |
| Dbms.Database.CreateFrom | dbms1.cpp:112-113 | a missing colon is reported with no change; otherwise the table is created and announced |
| Dbms.Database.RunInsert | dbms1.cpp:115-125 | the INSERT branch matches `Query.Execute` |
| Dbms.Database.RunView | dbms1.cpp:126-130 | the VIEW branch matches `Query.Execute` and changes nothing |

## Left out

- The `main` read–eval loop is not modelled: the banner, the `>> ` prompt, `getline` from standard input and the `exit` check (dbms1.cpp:168-179). It is interactive I/O. `processQuery` is modelled on one given line.
- Output is not written to `cout`. Each method returns the text it would print, and `endl` is a line break; flushing is not modelled.
- Types.ScanFloat: follows libstdc++'s `num_get`, which accepts no hexadecimal floats, `inf` or `nan`; other C++ libraries may accept more. The `int` range is that of a 32-bit `int`, as on the usual platforms.
- Types.ScanFloat: checks decimal syntax only. `float` extraction also fails on a value outside the range of `float` (for example `1e999`), and the model accepts such values. Floating-point conversion and range are not modelled.
- The `stringstream` is modelled only as its text, read position, end-of-file flag and failure flag. Locales other than the C locale, `badbit`, field widths and exceptions on stream errors are not modelled.
- Store.Update: requires every row to have one cell per column. The class invariant guarantees this. On a shorter row the C++ code would index past the end of the row.
- Exception classes are not modelled. A failure carries only the error that its `what()` text is built from, which is what `processQuery` prints.
- Integers are unbounded. The row and column indexes are `int` parameters compared against container sizes after a non-negative check, so no wrap-around can occur there.
