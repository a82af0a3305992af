/**
 * The `Database` class: the tables it owns and updates in place, the four
 * storage operations, the table printer and the query interpreter. A thrown
 * failure is an `Err` result; what a method writes to standard output is
 * returned as text.
 */
module Dbms {
  import opened Wrappers
  import opened Text
  import opened Types
  import opened Streams
  import opened Store
  import opened Query

  /** `ss >> word`: the next word of the unread text, if there is one. */
  method NextWord(ss: Stream) returns (next: Stream, word: Option<string>)
    requires ss.Valid()
    ensures next.Valid() && next.Rest() == DropWord(ss.Rest())
    ensures var ws := Words(ss.Rest());
      && word == (if ws == [] then None else Some(ws[0]))
      && Words(next.Rest()) == (if ws == [] then [] else ws[1..])
      && (ws != [] ==> |next.Rest()| < |ss.Rest()|)
  {
    ExtractStops(ss);
    ExtractReadsWord(ss);
    next, word := Extract(ss).0, Extract(ss).1;
  }

  /** `getline(ss, field, delim)`: the next field of the unread text, if there is one. */
  method NextField(ss: Stream, delim: char) returns (next: Stream, field: Option<string>)
    requires ss.Valid()
    ensures next.Valid()
    ensures var fs := GetlineSplit(ss.Rest(), delim);
      && field == (if fs == [] then None else Some(fs[0]))
      && GetlineSplit(next.Rest(), delim) == (if fs == [] then [] else fs[1..])
      && (fs != [] ==> |next.Rest()| < |ss.Rest()|)
  {
    GetlineReadsField(ss, delim);
    next, field := Getline(ss, delim).0, Getline(ss, delim).1;
  }

  /**
   * One `>>` into a string after `n` of them: it yields the next word of the
   * line, or the prior contents of the target when there is none, and leaves
   * the stream after that word.
   */
  method ReadWord(ss: Stream, ghost query: string, ghost n: nat, prior: string) returns (next: Stream, word: string)
    requires ss.Valid() && Words(ss.Rest()) == WordsFrom(Words(query), n)
    ensures next.Valid() && next.Rest() == DropWord(ss.Rest())
    ensures Words(next.Rest()) == WordsFrom(Words(query), n + 1)
    ensures word == if n < |Words(query)| then Words(query)[n] else prior
  {
    var got;
    next, got := NextWord(ss);
    word := got.GetOr(prior);
  }

  /**
   * The `while (ss >> col)` loop of CREATE: reads the remaining words as
   * column definitions, splitting each at its first colon, and stops at the
   * first one without a colon.
   */
  method ReadColumnDefs(ss: Stream) returns (r: Result<(seq<string>, seq<string>)>)
    requires ss.Valid()
    ensures r == ColumnDefs(Words(ss.Rest()))
  {
    ghost var defs := Words(ss.Rest());
    var st := ss;
    var columns: seq<string> := [];
    var types: seq<string> := [];
    ghost var read := 0;
    while true
      invariant st.Valid() && read <= |defs|
      invariant Words(st.Rest()) == defs[read..]
      invariant ColumnDefs(defs[..read]) == Ok((columns, types))
      decreases |st.Rest()|
    {
      var next, got := NextWord(st);
      if got.None? {
        assert defs[read..] == [];
        assert defs[..read] == defs;
        break;
      }
      var col := got.value;
      assert col == defs[read];
      assert defs[read..][1..] == defs[read + 1..];
      st := next;
      ColumnDefsExtend(defs, read);
      var split := SplitAtColon(col);
      if split.None? {
        return Err(MissingColon);
      }
      columns := columns + [split.value.0];
      types := types + [split.value.1];
      read := read + 1;
    }
    return Ok((columns, types));
  }

  /** The `while (getline(ss, val, ','))` loop of INSERT: every field of the rest of the line. */
  method ReadValues(ss: Stream) returns (values: seq<string>)
    requires ss.Valid()
    ensures values == GetlineSplit(ss.Rest(), ',')
  {
    var st := ss;
    values := [];
    while true
      invariant st.Valid()
      invariant values + GetlineSplit(st.Rest(), ',') == GetlineSplit(ss.Rest(), ',')
      decreases |st.Rest()|
    {
      ghost var fields := GetlineSplit(st.Rest(), ',');
      var next, got := NextField(st, ',');
      if got.None? {
        assert values + fields == values;
        break;
      }
      assert fields == [got.value] + GetlineSplit(next.Rest(), ',');
      assert (values + [got.value]) + GetlineSplit(next.Rest(), ',') == values + fields;
      values := values + [got.value];
      st := next;
    }
  }

  class Database {
    /** The tables in creation order. */
    var tables: seq<Table>

    /** Every stored row has one cell per column, valid for that column's type. */
    ghost predicate Valid()
      reads this
      ensures Valid() ==> Shaped(tables)
    {
      Typed(tables)
    }

    constructor()
      ensures Valid() && tables == []
    {
      tables := [];
    }

    /** `createTable`. */
    method CreateTable(name: string, names: seq<string>, types: seq<string>) returns (r: Result<()>)
      requires Valid()
      modifies this
      ensures Valid()
      ensures r == Status(Create(old(tables), name, names, types))
      ensures tables == Commit(old(tables), Create(old(tables), name, names, types))
    {
      if |names| != |types| {
        return Err(NameTypeMismatch);
      }
      var columns: seq<Column> := [];
      var i := 0;
      while i < |names|
        invariant 0 <= i <= |names|
        invariant |columns| == i
        invariant forall k | 0 <= k < i :: columns[k] == Column(names[k], types[k])
      {
        columns := columns + [Column(names[i], types[i])];
        i := i + 1;
      }
      assert columns == Columns(names, types);
      tables := tables + [Table(name, columns, [])];
      return Ok(());
    }

    /** `insertRecord`. */
    method InsertRecord(name: string, values: seq<string>) returns (r: Result<()>)
      requires Valid()
      modifies this
      ensures Valid()
      ensures r == Status(Insert(old(tables), name, values))
      ensures tables == Commit(old(tables), Insert(old(tables), name, values))
    {
      var i := 0;
      while i < |tables|
        invariant 0 <= i <= |tables|
        invariant forall j | 0 <= j < i :: tables[j].name != name
      {
        if tables[i].name == name {
          var t := tables[i];
          assert FindTable(tables, name) == Some(i);
          if |values| != |t.columns| {
            return Err(WrongValueCount(|t.columns|));
          }
          var bad := CheckRow(t.columns, values);
          if bad.Some? {
            return Err(InvalidValue(t.columns[bad.value].name));
          }
          tables := tables[i := t.(data := t.data + [values])];
          return Ok(());
        }
        i := i + 1;
      }
      return Err(InsertTableNotFound(name));
    }

    /** `updateRecord`. */
    method UpdateRecord(name: string, row: int, col: int, value: string) returns (r: Result<()>)
      requires Valid()
      modifies this
      ensures Valid()
      ensures r == Status(Update(old(tables), name, row, col, value))
      ensures tables == Commit(old(tables), Update(old(tables), name, row, col, value))
    {
      var i := 0;
      while i < |tables|
        invariant 0 <= i <= |tables|
        invariant forall j | 0 <= j < i :: tables[j].name != name
      {
        if tables[i].name == name {
          var t := tables[i];
          assert FindTable(tables, name) == Some(i);
          if 0 <= row < |t.data| && 0 <= col < |t.columns| {
            if !IsValidType(value, t.columns[col].typeName) {
              return Err(InvalidUpdateValue);
            }
            var cells := t.data[row][col := value];
            tables := tables[i := t.(data := t.data[row := cells])];
            return Ok(());
          }
          return Err(BadRowOrColumn(name));
        }
        i := i + 1;
      }
      return Err(TableNotFound(name));
    }

    /** `deleteRecord`. */
    method DeleteRecord(name: string, row: int) returns (r: Result<()>)
      requires Valid()
      modifies this
      ensures Valid()
      ensures r == Status(Delete(old(tables), name, row))
      ensures tables == Commit(old(tables), Delete(old(tables), name, row))
    {
      var i := 0;
      while i < |tables|
        invariant 0 <= i <= |tables|
        invariant forall j | 0 <= j < i :: tables[j].name != name
      {
        if tables[i].name == name {
          var t := tables[i];
          assert FindTable(tables, name) == Some(i);
          if 0 <= row < |t.data| {
            tables := tables[i := Table(t.name, t.columns, t.data[..row] + t.data[row + 1..])];
            return Ok(());
          }
          return Err(BadRow(name));
        }
        i := i + 1;
      }
      return Err(TableNotFound(name));
    }

    /** `viewRecords`: the text it prints for the first table with the name. */
    method ViewRecords(name: string) returns (r: Result<string>)
      ensures r == View(tables, name)
    {
      var i := 0;
      while i < |tables|
        invariant 0 <= i <= |tables|
        invariant forall j | 0 <= j < i :: tables[j].name != name
      {
        if tables[i].name == name {
          var t := tables[i];
          assert FindTable(tables, name) == Some(i);
          var out := PrintTable(t);
          return Ok(out);
        }
        i := i + 1;
      }
      return Err(TableNotFound(name));
    }

    /**
     * `processQuery`: runs one line of input and returns what it prints. The
     * first word picks the command; each command's branch is a method below.
     */
    method ProcessQuery(query: string) returns (output: string)
      requires Valid()
      modifies this
      ensures Valid()
      ensures tables == Execute(old(tables), query).0
      ensures output == Output(Execute(old(tables), query).1)
    {
      var ss := Open(query);
      assert WordsFrom(Words(query), 0) == Words(query);
      var command;
      ss, command := ReadWord(ss, query, 0, "");
      assert command == WordAt(Words(query), 0);
      if command == "CREATE" {
        output := RunCreate(ss, query);
      } else if command == "INSERT" {
        output := RunInsert(ss, query);
      } else if command == "VIEW" {
        output := RunView(ss, query);
      } else {
        output := Output(Failed(UnsupportedCommand(command)));
      }
    }

    /** The CREATE branch of `processQuery`, once the command word is read. */
    method RunCreate(ss: Stream, ghost query: string) returns (output: string)
      requires Valid()
      requires ss.Valid() && Words(ss.Rest()) == WordsFrom(Words(query), 1)
      requires WordAt(Words(query), 0) == "CREATE"
      modifies this
      ensures Valid()
      ensures tables == Execute(old(tables), query).0
      ensures output == Output(Execute(old(tables), query).1)
    {
      var st, temp := ReadWord(ss, query, 1, "");
      var tableName;
      st, tableName := ReadWord(st, query, 2, "");
      assert tableName == WordAt(Words(query), 2);
      var defs := ReadColumnDefs(st);
      ExecuteCreate(tables, query);
      output := CreateFrom(tableName, defs);
    }

    /** The end of the CREATE branch: a definition without a colon is reported, else the table is created. */
    method CreateFrom(tableName: string, defs: Result<(seq<string>, seq<string>)>) returns (output: string)
      requires Valid()
      requires defs.Ok? ==> |defs.value.0| == |defs.value.1|
      modifies this
      ensures Valid()
      ensures defs.Err? ==> tables == old(tables) && output == Output(Failed(defs.error))
      ensures defs.Ok? ==> tables == Create(old(tables), tableName, defs.value.0, defs.value.1).value
      ensures defs.Ok? ==> output == Output(Created(tableName))
    {
      if defs.Err? {
        return Output(Failed(defs.error));
      }
      // Both lists come from the same definitions, so `createTable` cannot throw here.
      var r := CreateTable(tableName, defs.value.0, defs.value.1);
      return Output(Created(tableName));
    }

    /** The INSERT branch of `processQuery`, once the command word is read. */
    method RunInsert(ss: Stream, ghost query: string) returns (output: string)
      requires Valid()
      requires ss.Valid() && ss.Rest() == DropWords(query, 1)
      requires Words(ss.Rest()) == WordsFrom(Words(query), 1)
      requires WordAt(Words(query), 0) == "INSERT"
      modifies this
      ensures Valid()
      ensures tables == Execute(old(tables), query).0
      ensures output == Output(Execute(old(tables), query).1)
    {
      var st, temp := ReadWord(ss, query, 1, "");
      assert st.Rest() == DropWords(query, 2);
      var tableName;
      st, tableName := ReadWord(st, query, 2, "");
      assert st.Rest() == DropWords(query, 3);
      st, temp := ReadWord(st, query, 3, temp);
      assert st.Rest() == DropWords(query, 4);
      assert tableName == WordAt(Words(query), 2);
      var values := ReadValues(st);
      assert values == GetlineSplit(DropWords(query, 4), ',');
      ExecuteInsert(tables, query);
      var r := InsertRecord(tableName, values);
      if r.Err? {
        return Output(Failed(r.error));
      }
      return Output(Inserted(tableName));
    }

    /** The VIEW branch of `processQuery`, once the command word is read. */
    method RunView(ss: Stream, ghost query: string) returns (output: string)
      requires Valid()
      requires ss.Valid() && Words(ss.Rest()) == WordsFrom(Words(query), 1)
      requires WordAt(Words(query), 0) == "VIEW"
      ensures tables == Execute(tables, query).0
      ensures output == Output(Execute(tables, query).1)
    {
      var st, tableName := ReadWord(ss, query, 1, "");
      assert tableName == WordAt(Words(query), 1);
      var r := ViewRecords(tableName);
      if r.Err? {
        return Output(Failed(r.error));
      }
      return Output(Viewed(r.value));
    }
  }

  /** The validation loop of `insertRecord`: the first value its column's type rejects, if any. */
  method CheckRow(columns: seq<Column>, values: seq<string>) returns (bad: Option<nat>)
    requires |values| == |columns|
    ensures bad == FirstInvalid(columns, values, 0)
  {
    var k := 0;
    while k < |values|
      invariant 0 <= k <= |values|
      invariant FirstInvalid(columns, values, k) == FirstInvalid(columns, values, 0)
    {
      if !IsValidType(values[k], columns[k].typeName) {
        return Some(k);
      }
      k := k + 1;
    }
    return None;
  }

  /** What `viewRecords` prints for a table it found: the name, the column names, then each row. */
  method PrintTable(t: Table) returns (out: string)
    ensures out == Render(t)
  {
    var header := PrintLine(ColumnNames(t.columns));
    var rows := "";
    var j := 0;
    while j < |t.data|
      invariant 0 <= j <= |t.data|
      invariant rows == Lines(t.data[..j])
    {
      var line := PrintLine(t.data[j]);
      assert t.data[..j + 1][..j] == t.data[..j];
      rows := rows + line;
      j := j + 1;
    }
    assert t.data[..j] == t.data;
    out := t.name + "\n" + header + rows;
  }

  /** One printed line: a tab, then each value followed by a tab, then the end of the line. */
  method PrintLine(values: seq<string>) returns (line: string)
    ensures line == Line(values)
  {
    line := "\t";
    var k := 0;
    while k < |values|
      invariant 0 <= k <= |values|
      invariant line == "\t" + Cells(values[..k])
    {
      assert values[..k + 1][..k] == values[..k];
      line := line + values[k] + "\t";
      k := k + 1;
    }
    assert values[..k] == values;
    line := line + "\n";
  }
}
