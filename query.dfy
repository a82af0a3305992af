/**
 * The command interpreter (`processQuery`) as a function: from the tables and
 * one line of input to the new tables and the reply the line prints. The
 * first word picks the command; a thrown failure becomes one
 * `Query Error: ` line and leaves the tables as they were.
 */
module Query {
  import opened Wrappers
  import opened Text
  import opened Types
  import opened Store

  /** What one query prints. */
  datatype Reply =
    | Created(table: string)
    | Inserted(table: string)
    | Viewed(text: string)
    | Failed(error: Error)

  /** The text printed for a reply. */
  function Output(reply: Reply): string {
    match reply
    case Created(t) => "Table '" + t + "' created.\n"
    case Inserted(t) => "Inserted into " + t + "\n"
    case Viewed(text) => text
    case Failed(e) => "Query Error: " + Message(e) + "\n"
  }

  /**
   * The column definitions of a CREATE, each split at its first colon into a
   * name and a type; one definition without a colon fails the whole command.
   */
  function ColumnDefs(defs: seq<string>): (r: Result<(seq<string>, seq<string>)>)
    ensures r.Err? <==> exists k | 0 <= k < |defs| :: !HasColon(defs[k])
    ensures r.Err? ==> r.error == MissingColon
    ensures r.Ok? ==> |r.value.0| == |defs| && |r.value.1| == |defs|
    ensures r.Ok? ==> forall k | 0 <= k < |defs| ::
      r.value.0[k] + ":" + r.value.1[k] == defs[k] && !HasColon(r.value.0[k])
  {
    if defs == [] then Ok(([], []))
    else
      var init := defs[..|defs| - 1];
      assert forall k | 0 <= k < |init| :: init[k] == defs[k];
      match ColumnDefs(init)
      case Err(e) => Err(e)
      case Ok((names, types)) =>
        match SplitAtColon(defs[|defs| - 1])
        case None => Err(MissingColon)
        case Some((n, t)) => Ok((names + [n], types + [t]))
  }

  /** One more column definition read after `read` of them. */
  lemma ColumnDefsExtend(defs: seq<string>, read: nat)
    requires read < |defs| && ColumnDefs(defs[..read]).Ok?
    ensures var prior := ColumnDefs(defs[..read]).value;
      ColumnDefs(defs[..read + 1])
      == match SplitAtColon(defs[read])
         case None => Err(MissingColon)
         case Some((n, t)) => Ok((prior.0 + [n], prior.1 + [t]))
    ensures SplitAtColon(defs[read]).None? ==> ColumnDefs(defs) == Err(MissingColon)
  {
    assert defs[..read + 1][..read] == defs[..read];
    if SplitAtColon(defs[read]).None? {
      assert !HasColon(defs[read]);
    }
  }

  predicate HasColon(s: string) {
    ':' in s
  }

  /** The words of a query after the first `n`, as the reads that follow `n` reads of a word see them. */
  function WordsFrom(ws: seq<string>, n: nat): seq<string> {
    if n <= |ws| then ws[n..] else []
  }

  /** The values of an INSERT: the text after its fourth word, split at each comma, untrimmed. */
  function InsertValues(query: string): seq<string> {
    GetlineSplit(DropWords(query, 4), ',')
  }

  /**
   * `processQuery`. CREATE takes the table name from the third word and the
   * column definitions from the words after it; INSERT takes the table name
   * from the third word and the values from the text after the fourth; VIEW
   * takes the table name from the second word. A word that is missing reads as
   * the empty string.
   */
  function Execute(tables: seq<Table>, query: string): (r: (seq<Table>, Reply))
    ensures r.1.Failed? || r.1.Viewed? ==> r.0 == tables
    ensures r.1.Failed? ==> !r.1.error.NameTypeMismatch?
    ensures Typed(tables) ==> Typed(r.0)
  {
    var ws := Words(query);
    var command := WordAt(ws, 0);
    if command == "CREATE" then
      var name := WordAt(ws, 2);
      match ColumnDefs(WordsFrom(ws, 3))
      case Err(e) => (tables, Failed(e))
      case Ok((names, types)) => (Create(tables, name, names, types).value, Created(name))
    else if command == "INSERT" then
      var name := WordAt(ws, 2);
      match Insert(tables, name, InsertValues(query))
      case Err(e) => (tables, Failed(e))
      case Ok(after) => (after, Inserted(name))
    else if command == "VIEW" then
      match View(tables, WordAt(ws, 1))
      case Err(e) => (tables, Failed(e))
      case Ok(text) => (tables, Viewed(text))
    else
      (tables, Failed(UnsupportedCommand(command)))
  }

  /**
   * A first word other than CREATE, INSERT and VIEW (the empty line
   * included) is reported as unsupported, naming that word.
   */
  lemma Unsupported(tables: seq<Table>, query: string)
    requires var c := WordAt(Words(query), 0); c != "CREATE" && c != "INSERT" && c != "VIEW"
    ensures Execute(tables, query) == (tables, Failed(UnsupportedCommand(WordAt(Words(query), 0))))
  {
  }

  /** An empty line is an unsupported command with an empty name. */
  lemma EmptyLine(tables: seq<Table>, query: string)
    requires forall i | 0 <= i < |query| :: IsSpace(query[i])
    ensures Execute(tables, query).0 == tables
    ensures Output(Execute(tables, query).1) == "Query Error: Unsupported command: \n"
  {
    WordsStep(query);
    assert WordAt(Words(query), 0) == "";
    Unsupported(tables, query);
    UnsupportedEmptyText();
  }

  lemma UnsupportedEmptyText()
    ensures Output(Failed(UnsupportedCommand(""))) == "Query Error: Unsupported command: \n"
  {
    assert "Unsupported command: " + "" == "Unsupported command: ";
    assert "Query Error: " + "Unsupported command: " == "Query Error: Unsupported command: ";
    assert "Query Error: Unsupported command: " + "\n" == "Query Error: Unsupported command: \n";
  }

  /**
   * A CREATE fails with the missing-colon error exactly when one of its
   * column definitions has no colon, and then creates nothing, even when
   * other definitions were well formed.
   */
  lemma CreateNeedsColons(tables: seq<Table>, query: string)
    ensures var ws := Words(query);
      Execute(tables, query).1 == Failed(MissingColon)
      <==> WordAt(ws, 0) == "CREATE" && exists k | 3 <= k < |ws| :: !HasColon(ws[k])
    ensures Execute(tables, query).1 == Failed(MissingColon) ==> Execute(tables, query).0 == tables
  {
    var ws := Words(query);
    if WordAt(ws, 0) == "CREATE" {
      DefsLackingColon(ws);
    }
  }

  lemma DefsLackingColon(ws: seq<string>)
    ensures (exists k | 0 <= k < |WordsFrom(ws, 3)| :: !HasColon(WordsFrom(ws, 3)[k]))
        <==> exists k | 3 <= k < |ws| :: !HasColon(ws[k])
  {
    var defs := WordsFrom(ws, 3);
    if exists k | 3 <= k < |ws| :: !HasColon(ws[k]) {
      var k :| 3 <= k < |ws| && !HasColon(ws[k]);
      assert defs[k - 3] == ws[k];
    }
    if exists k | 0 <= k < |defs| :: !HasColon(defs[k]) {
      var k :| 0 <= k < |defs| && !HasColon(defs[k]);
      assert defs == ws[3..];
      assert ws[k + 3] == defs[k];
    }
  }

  /**
   * A CREATE whose column definitions all have a colon appends one empty
   * table named by the third word; each column's name is its definition up
   * to the first colon and its type everything after that colon.
   */
  lemma CreateSplitsDefinitions(tables: seq<Table>, query: string)
    requires WordAt(Words(query), 0) == "CREATE"
    requires forall k | 3 <= k < |Words(query)| :: HasColon(Words(query)[k])
    ensures var ws := Words(query);
      var defs := WordsFrom(ws, 3);
      var (after, reply) := Execute(tables, query);
      && reply == Created(WordAt(ws, 2))
      && |after| == |tables| + 1 && after[..|tables|] == tables
      && after[|tables|].name == WordAt(ws, 2) && after[|tables|].data == []
      && |after[|tables|].columns| == |defs|
      && forall k | 0 <= k < |defs| ::
           var c := after[|tables|].columns[k];
           c.name + ":" + c.typeName == defs[k] && !HasColon(c.name)
  {
    var ws := Words(query);
    var defs := WordsFrom(ws, 3);
    forall k | 0 <= k < |defs| ensures HasColon(defs[k]) {
      assert defs[k] == ws[k + 3];
    }
  }

  /**
   * `INSERT <word> <table> <word><rest>` inserts into `<table>` the fields
   * `getline` splits `<rest>` into at each comma: the second and fourth words
   * are read and ignored, and nothing is trimmed.
   */
  lemma InsertQuery(tables: seq<Table>, into: string, name: string, keyword: string, rest: string)
    requires IsWord(into) && IsWord(name) && IsWord(keyword)
    requires rest == [] || IsSpace(rest[0])
    ensures var q := "INSERT" + ((" " + into) + ((" " + name) + ((" " + keyword) + rest)));
      var r := Insert(tables, name, GetlineSplit(rest, ','));
      Execute(tables, q) == if r.Ok? then (r.value, Inserted(name)) else (tables, Failed(r.error))
  {
    var q := "INSERT" + ((" " + into) + ((" " + name) + ((" " + keyword) + rest)));
    assert IsWord("INSERT");
    FourWords("INSERT", into, name, keyword, rest);
    ExecuteInsert(tables, q);
  }

  /**
   * An INSERT inserts into the table named by its third word the values
   * after its fourth word.
   */
  lemma ExecuteInsert(tables: seq<Table>, q: string)
    requires WordAt(Words(q), 0) == "INSERT"
    ensures var r := Insert(tables, WordAt(Words(q), 2), InsertValues(q));
      Execute(tables, q) == if r.Ok? then (r.value, Inserted(WordAt(Words(q), 2))) else (tables, Failed(r.error))
  {
  }

  /**
   * A CREATE makes the table named by its third word from the column
   * definitions in the words after it, unless one lacks a colon.
   */
  lemma ExecuteCreate(tables: seq<Table>, q: string)
    requires WordAt(Words(q), 0) == "CREATE"
    ensures var ws := Words(q);
      var defs := ColumnDefs(WordsFrom(ws, 3));
      Execute(tables, q)
      == if defs.Err? then (tables, Failed(defs.error))
         else (Create(tables, WordAt(ws, 2), defs.value.0, defs.value.1).value, Created(WordAt(ws, 2)))
  {
  }

  /** Four words separated by single blanks, then text that starts with whitespace or is empty. */
  lemma FourWords(a: string, b: string, c: string, d: string, rest: string)
    requires IsWord(a) && IsWord(b) && IsWord(c) && IsWord(d)
    requires rest == [] || IsSpace(rest[0])
    ensures var q := a + ((" " + b) + ((" " + c) + ((" " + d) + rest)));
      && |Words(q)| >= 4 && Words(q)[0] == a && Words(q)[2] == c
      && DropWords(q, 4) == rest
  {
    var r3 := (" " + d) + rest;
    var r2 := (" " + c) + r3;
    var r1 := (" " + b) + r2;
    BlankWord(b);
    BlankWord(c);
    BlankWord(d);
    SkipOneWord(" " + d, rest);
    SkipOneWord(" " + c, r3);
    SkipOneWord(" " + b, r2);
    WordThenRest(a, r1);
    var q := a + r1;
    assert DropWords(q, 1) == r1;
    assert DropWords(q, 2) == r2;
    assert DropWords(q, 3) == r3;
    assert Words(q)[1..] == Words(r1);
  }

  lemma BlankWord(w: string)
    requires IsWord(w)
    ensures |" " + w| > 1 && (" " + w)[0] == ' ' && (" " + w)[1..] == w
  {
  }

  /** Reading the word after one blank. */
  lemma SkipOneWord(w: string, rest: string)
    requires |w| > 1 && w[0] == ' ' && IsWord(w[1..])
    requires rest == [] || IsSpace(rest[0])
    ensures DropWord(w + rest) == rest
    ensures Words(w + rest) == [w[1..]] + Words(rest)
  {
    var t := w + rest;
    assert t[1..] == w[1..] + rest;
    WordThenRest(w[1..], rest);
    WordsSkipOne(t);
    assert LeadingSpace(t) == 1;
    assert t[1..][..WordLength(t[1..])] == w[1..];
  }

  /** The text after `INSERT INTO t VALUES` in `INSERT INTO t VALUES 5,hello` gives the values ` 5` and `hello`. */
  lemma SplitExample()
    ensures GetlineSplit(" 5,hello", ',') == [" 5", "hello"]
  {
    var a, b := " 5", "hello";
    assert ',' !in a && ',' !in b;
    SplitTwo(a, b, ',');
    assert a + [','] + b == " 5,hello";
  }

  /** Two delimiter-free fields, the second not empty, joined by the delimiter are read back as those two fields. */
  lemma SplitTwo(a: string, b: string, delim: char)
    requires delim !in a && delim !in b && b != []
    ensures GetlineSplit(a + [delim] + b, delim) == [a, b]
  {
    var s := a + [delim] + b;
    FindAfter(a, delim, b);
    SplitStep(s, delim);
    assert s[..|a|] == a && s[|a| + 1..] == b;
    FindAbsent(b, delim);
    SplitStep(b, delim);
  }

  /** No line break: the text stays on one output line. */
  predicate Inline(s: string) {
    forall i | 0 <= i < |s| :: s[i] != '\n'
  }

  /** Every column name of every table stays on one line. */
  predicate ColumnNamesInline(tables: seq<Table>) {
    forall i, k | 0 <= i < |tables| && 0 <= k < |tables[i].columns| :: Inline(tables[i].columns[k].name)
  }

  lemma InlineAppend(a: string, b: string)
    ensures Inline(a + b) <==> Inline(a) && Inline(b)
  {
    if Inline(a) && Inline(b) {
      forall i | 0 <= i < |a + b| ensures (a + b)[i] != '\n' {
        if i >= |a| {
          assert (a + b)[i] == b[i - |a|];
        }
      }
    }
    if Inline(a + b) {
      forall i | 0 <= i < |a| ensures a[i] != '\n' {
        assert (a + b)[i] == a[i];
      }
      forall i | 0 <= i < |b| ensures b[i] != '\n' {
        assert (a + b)[|a| + i] == b[i];
      }
    }
  }

  lemma WordAtInline(ws: seq<string>, k: nat)
    requires forall j | 0 <= j < |ws| :: IsWord(ws[j])
    ensures Inline(WordAt(ws, k))
  {
  }

  /** The failures a query can raise, and what each one names. */
  predicate QueryError(tables: seq<Table>, ws: seq<string>, e: Error) {
    || e == UnsupportedCommand(WordAt(ws, 0))
    || e == MissingColon
    || e == InsertTableNotFound(WordAt(ws, 2))
    || e.WrongValueCount?
    || (e.InvalidValue? && exists i, k | 0 <= i < |tables| && 0 <= k < |tables[i].columns| :: e.column == tables[i].columns[k].name)
    || e == TableNotFound(WordAt(ws, 1))
  }

  /**
   * A query fails only with one of the errors above: it never reports a
   * mismatch of names and types, nor an index error, which only the storage
   * operations called directly raise.
   */
  lemma ExecuteErrors(tables: seq<Table>, query: string)
    requires Execute(tables, query).1.Failed?
    ensures QueryError(tables, Words(query), Execute(tables, query).1.error)
  {
    var ws := Words(query);
    var command := WordAt(ws, 0);
    if command == "CREATE" {
      ExecuteCreate(tables, query);
    } else if command == "INSERT" {
      ExecuteInsert(tables, query);
      InsertErrors(tables, ws, InsertValues(query));
    }
  }

  lemma InsertErrors(tables: seq<Table>, ws: seq<string>, values: seq<string>)
    requires Insert(tables, WordAt(ws, 2), values).Err?
    ensures QueryError(tables, ws, Insert(tables, WordAt(ws, 2), values).error)
  {
    var name := WordAt(ws, 2);
    var r := Insert(tables, name, values);
    if r.error.InvalidValue? {
      var i := FindTable(tables, name).value;
      var k :| 0 <= k < |values| && k < |tables[i].columns| && r.error.column == tables[i].columns[k].name;
    }
  }

  lemma ErrorInline(tables: seq<Table>, ws: seq<string>, e: Error)
    requires ColumnNamesInline(tables)
    requires forall j | 0 <= j < |ws| :: IsWord(ws[j])
    requires QueryError(tables, ws, e)
    ensures Inline(Message(e))
  {
    if e.InvalidValue? {
      var i, k :| 0 <= i < |tables| && 0 <= k < |tables[i].columns| && e.column == tables[i].columns[k].name;
      NamedMessageInline(e);
    } else if e.WrongValueCount? {
      CountMessageInline(e.expected);
    } else {
      WordAtInline(ws, 0);
      WordAtInline(ws, 1);
      WordAtInline(ws, 2);
      NamedMessageInline(e);
    }
  }

  lemma CountMessageInline(n: nat)
    ensures Inline(Message(WrongValueCount(n)))
  {
    NatToStringValue(n);
    WrapInline("Error: Expected ", NatToString(n), " values.");
  }

  /** A message that names a table, a column or a command stays on one line when the name does. */
  lemma NamedMessageInline(e: Error)
    requires e.InvalidValue? || e.InsertTableNotFound? || e.TableNotFound? || e.UnsupportedCommand? || e.MissingColon?
    requires e.InvalidValue? ==> Inline(e.column)
    requires e.InsertTableNotFound? || e.TableNotFound? ==> Inline(e.table)
    requires e.UnsupportedCommand? ==> Inline(e.command)
    ensures Inline(Message(e))
  {
    match e
    case InvalidValue(c) => WrapInline("Error: Invalid type for column '", c, "'");
    case InsertTableNotFound(t) => WrapInline("Error: Table '", t, "' not found.");
    case TableNotFound(t) =>
      var a := "Table not found: ";
      WrapInline(a, t, "");
      assert a + t + "" == a + t;
    case UnsupportedCommand(c) =>
      var a := "Unsupported command: ";
      WrapInline(a, c, "");
      assert a + c + "" == a + c;
    case MissingColon =>
      var m := "Missing ':' in column definition.";
      WrapInline(m, "", "");
      assert m + "" + "" == m;
  }

  lemma WrapInline(a: string, m: string, b: string)
    requires Inline(a) && Inline(m) && Inline(b)
    ensures Inline(a + m + b)
  {
    InlineAppend(a, m);
    InlineAppend(a + m, b);
  }

  /**
   * Every failure prints exactly one line, starting `Query Error: `, as long
   * as the stored column names hold no line break.
   */
  lemma FailureIsOneLine(tables: seq<Table>, query: string)
    requires ColumnNamesInline(tables)
    requires Execute(tables, query).1.Failed?
    ensures var out := Output(Execute(tables, query).1);
      && |out| > 13 && out[..13] == "Query Error: " && out[|out| - 1] == '\n'
      && forall i | 0 <= i < |out| - 1 :: out[i] != '\n'
  {
    var reply := Execute(tables, query).1;
    AllWords(query);
    ExecuteErrors(tables, query);
    ErrorInline(tables, Words(query), reply.error);
    ErrorLine(reply);
  }

  lemma ErrorLine(reply: Reply)
    requires reply.Failed? && Inline(Message(reply.error))
    ensures var out := Output(reply);
      && |out| > 13 && out[..13] == "Query Error: " && out[|out| - 1] == '\n'
      && forall i | 0 <= i < |out| - 1 :: out[i] != '\n'
  {
    var m := Message(reply.error);
    InlineAppend("Query Error: ", m);
    var out := "Query Error: " + m + "\n";
    assert out == Output(reply);
    assert out[..|out| - 1] == "Query Error: " + m;
    forall i | 0 <= i < |out| - 1 ensures out[i] != '\n' {
      assert out[i] == out[..|out| - 1][i];
    }
  }

  /** Queries only ever create columns whose names are pieces of one word. */
  lemma ExecuteKeepsNamesInline(tables: seq<Table>, query: string)
    requires ColumnNamesInline(tables)
    ensures ColumnNamesInline(Execute(tables, query).0)
  {
    var ws := Words(query);
    var command := WordAt(ws, 0);
    if command == "CREATE" {
      ExecuteCreate(tables, query);
      var defs := WordsFrom(ws, 3);
      if ColumnDefs(defs).Ok? {
        AllWords(query);
        forall k | 0 <= k < |defs| ensures IsWord(defs[k]) {
          assert defs[k] == ws[k + 3];
        }
        CreateKeepsNamesInline(tables, WordAt(ws, 2), defs);
      }
    } else if command == "INSERT" {
      ExecuteInsert(tables, query);
      InsertKeepsColumns(tables, WordAt(ws, 2), InsertValues(query));
    }
  }

  /** A table created from definitions that are words gets column names without line breaks. */
  lemma CreateKeepsNamesInline(tables: seq<Table>, name: string, defs: seq<string>)
    requires ColumnNamesInline(tables)
    requires forall k | 0 <= k < |defs| :: IsWord(defs[k])
    requires ColumnDefs(defs).Ok?
    ensures ColumnNamesInline(Create(tables, name, ColumnDefs(defs).value.0, ColumnDefs(defs).value.1).value)
  {
    var names := ColumnDefs(defs).value.0;
    DefinedNamesInline(defs);
    CreateNamesInline(tables, name, names, ColumnDefs(defs).value.1);
  }

  /** The name part of a definition that is a word has no line break. */
  lemma DefinedNamesInline(defs: seq<string>)
    requires forall k | 0 <= k < |defs| :: IsWord(defs[k])
    requires ColumnDefs(defs).Ok?
    ensures forall k | 0 <= k < |ColumnDefs(defs).value.0| :: Inline(ColumnDefs(defs).value.0[k])
  {
    var (names, types) := ColumnDefs(defs).value;
    forall k | 0 <= k < |names| ensures Inline(names[k]) {
      assert names[k] + ":" + types[k] == defs[k];
      forall j | 0 <= j < |names[k]| ensures names[k][j] != '\n' {
        assert names[k][j] == defs[k][j];
      }
    }
  }

  /** Creating a table whose column names have no line break keeps every name on one line. */
  lemma CreateNamesInline(tables: seq<Table>, name: string, names: seq<string>, types: seq<string>)
    requires ColumnNamesInline(tables)
    requires |names| == |types|
    requires forall k | 0 <= k < |names| :: Inline(names[k])
    ensures ColumnNamesInline(Create(tables, name, names, types).value)
  {
    var after := Create(tables, name, names, types).value;
    assert forall i | 0 <= i < |tables| :: after[i] == tables[i];
    assert forall k | 0 <= k < |after[|tables|].columns| :: after[|tables|].columns[k].name == names[k];
  }

  /** An insert leaves every table's columns as they were. */
  lemma InsertKeepsColumns(tables: seq<Table>, name: string, values: seq<string>)
    requires ColumnNamesInline(tables)
    ensures ColumnNamesInline(Commit(tables, Insert(tables, name, values)))
  {
    var r := Insert(tables, name, values);
    if r.Ok? {
      var i := FindTable(tables, name).value;
      assert forall j | 0 <= j < |tables| :: r.value[j].columns == tables[j].columns;
    }
  }

  /**
   * After an INSERT succeeds, a VIEW of the same table prints what it printed
   * before plus one line holding the inserted values.
   */
  lemma InsertThenView(tables: seq<Table>, insert: string, view: string)
    requires Execute(tables, insert).1.Inserted?
    requires WordAt(Words(view), 0) == "VIEW"
    requires WordAt(Words(view), 1) == Execute(tables, insert).1.table
    ensures Execute(tables, view).1.Viewed?
    ensures Output(Execute(Execute(tables, insert).0, view).1)
         == Output(Execute(tables, view).1) + Line(InsertValues(insert))
  {
    var name := WordAt(Words(insert), 2);
    ViewAfterInsert(tables, name, InsertValues(insert));
  }
}
