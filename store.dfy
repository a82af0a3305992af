/**
 * The record store: tables of named, typed columns and rows of text cells,
 * kept in creation order, and what each storage operation of the `Database`
 * class does to them, as functions from the old tables to the new tables or
 * to the error the operation throws. Every operation resolves a table name
 * to the first table that has it; names need not be unique.
 */
module Store {
  import opened Wrappers
  import opened Text
  import opened Types

  /** A column: its name and the free-text name of its type. */
  datatype Column = Column(name: string, typeName: string)

  /** A table: its name, its columns in order, and its rows of cells. */
  datatype Table = Table(name: string, columns: seq<Column>, data: seq<seq<string>>)

  /** Every failure a storage operation or the interpreter throws. */
  datatype Error =
    | NameTypeMismatch
    | WrongValueCount(expected: nat)
    | InvalidValue(column: string)
    | InsertTableNotFound(table: string)
    | InvalidUpdateValue
    | BadRowOrColumn(table: string)
    | BadRow(table: string)
    | TableNotFound(table: string)
    | MissingColon
    | UnsupportedCommand(command: string)

  /** The text `what()` gives for each failure. */
  function Message(e: Error): string {
    match e
    case NameTypeMismatch => "Mismatch between column names and types."
    case WrongValueCount(n) => "Error: Expected " + NatToString(n) + " values."
    case InvalidValue(c) => "Error: Invalid type for column '" + c + "'"
    case InsertTableNotFound(t) => "Error: Table '" + t + "' not found."
    case InvalidUpdateValue => "Error: Invalid type for column update."
    case BadRowOrColumn(t) => "Invalid row or column index: " + t
    case BadRow(t) => "Invalid row index: " + t
    case TableNotFound(t) => "Table not found: " + t
    case MissingColon => "Missing ':' in column definition."
    case UnsupportedCommand(c) => "Unsupported command: " + c
  }

  /** A value, or the failure that was thrown instead. */
  datatype Result<T> = Ok(value: T) | Err(error: Error)

  /** The tables after an operation: the new ones on success, the old ones untouched on failure. */
  function Commit(prior: seq<Table>, r: Result<seq<Table>>): seq<Table> {
    if r.Ok? then r.value else prior
  }

  /** What an operation reports to its caller: success, or the failure. */
  function Status(r: Result<seq<Table>>): Result<()> {
    if r.Ok? then Ok(()) else Err(r.error)
  }

  /** A row fits a table's columns: one cell per column, each valid for its column's type. */
  predicate RowFits(columns: seq<Column>, row: seq<string>) {
    |row| == |columns| && forall k | 0 <= k < |row| :: IsValidType(row[k], columns[k].typeName)
  }

  /** Every row of every table has as many cells as its table has columns. */
  predicate Shaped(tables: seq<Table>) {
    forall i, r | 0 <= i < |tables| && 0 <= r < |tables[i].data| :: |tables[i].data[r]| == |tables[i].columns|
  }

  /** Every row of every table fits its table's columns. */
  predicate Typed(tables: seq<Table>) {
    forall i, r | 0 <= i < |tables| && 0 <= r < |tables[i].data| :: RowFits(tables[i].columns, tables[i].data[r])
  }

  lemma TypedIsShaped(tables: seq<Table>)
    requires Typed(tables)
    ensures Shaped(tables)
  {
  }

  /** The index of the first table named `name`, if any. */
  function FindTable(tables: seq<Table>, name: string): (r: Option<nat>)
    ensures r.Some? ==> r.value < |tables| && tables[r.value].name == name
    ensures r.Some? ==> forall j | 0 <= j < r.value :: tables[j].name != name
    ensures r.None? ==> forall j | 0 <= j < |tables| :: tables[j].name != name
  {
    if tables == [] then None
    else if tables[0].name == name then Some(0)
    else
      match FindTable(tables[1..], name)
      case None => None
      case Some(i) => Some(i + 1)
  }

  /** The columns paired up from a list of names and a list of types. */
  function Columns(names: seq<string>, types: seq<string>): seq<Column>
    requires |names| == |types|
  {
    seq(|names|, k requires 0 <= k < |names| => Column(names[k], types[k]))
  }

  /**
   * `createTable`: fails when the lists of names and types differ in length;
   * otherwise appends one table with the given name, the columns in the given
   * order and no rows, whether or not a table of that name exists.
   */
  function Create(tables: seq<Table>, name: string, names: seq<string>, types: seq<string>): (r: Result<seq<Table>>)
    ensures r.Err? <==> |names| != |types|
    ensures r.Err? ==> r.error == NameTypeMismatch
    ensures r.Ok? ==> |r.value| == |tables| + 1 && r.value[..|tables|] == tables
    ensures r.Ok? ==>
      var t := r.value[|tables|];
      && t.name == name && t.data == [] && |t.columns| == |names|
      && forall k | 0 <= k < |names| :: t.columns[k].name == names[k] && t.columns[k].typeName == types[k]
    ensures r.Ok? && Typed(tables) ==> Typed(r.value)
  {
    if |names| != |types| then Err(NameTypeMismatch)
    else
      var t := Table(name, Columns(names, types), []);
      assert (tables + [t])[..|tables|] == tables;
      Ok(tables + [t])
  }

  /**
   * A table created under a name that is already taken can never be found by
   * that name: lookups keep resolving to the older table. Under a new name it
   * is found at the end, and lookups of every other name are unchanged.
   */
  lemma CreateShadows(tables: seq<Table>, name: string, names: seq<string>, types: seq<string>, other: string)
    requires |names| == |types|
    ensures var after := Create(tables, name, names, types).value;
      && FindTable(after, name) == (if FindTable(tables, name).Some? then FindTable(tables, name) else Some(|tables|))
      && (other != name ==> FindTable(after, other) == FindTable(tables, other))
  {
    var after := Create(tables, name, names, types).value;
    FindTableAppend(tables, after[|tables|], name);
    FindTableAppend(tables, after[|tables|], other);
    assert after == tables + [after[|tables|]];
  }

  /** Looking up a name after appending a table. */
  lemma FindTableAppend(tables: seq<Table>, t: Table, name: string)
    ensures FindTable(tables + [t], name)
         == if FindTable(tables, name).Some? then FindTable(tables, name)
            else if t.name == name then Some(|tables|) else None
  {
    var after := tables + [t];
    var r := FindTable(after, name);
    if FindTable(tables, name).Some? {
      var i := FindTable(tables, name).value;
      assert after[i].name == name;
    } else if t.name == name {
      assert after[|tables|].name == name;
    }
  }

  /** The first index at or after `from` whose value is not valid for its column. */
  function FirstInvalid(columns: seq<Column>, values: seq<string>, from: nat): (r: Option<nat>)
    requires |values| == |columns| && from <= |values|
    ensures r.None? ==> forall k | from <= k < |values| :: IsValidType(values[k], columns[k].typeName)
    ensures r.Some? ==> from <= r.value < |values| && !IsValidType(values[r.value], columns[r.value].typeName)
    ensures r.Some? ==> forall k | from <= k < r.value :: IsValidType(values[k], columns[k].typeName)
    decreases |values| - from
  {
    if from == |values| then None
    else if !IsValidType(values[from], columns[from].typeName) then Some(from)
    else FirstInvalid(columns, values, from + 1)
  }

  /**
   * `insertRecord`: into the first table with the name, the values must be
   * one per column and each valid for its column's type; the first invalid
   * one is reported by its column's name. All values are checked before the
   * row is appended, verbatim, as the table's last row.
   */
  function Insert(tables: seq<Table>, name: string, values: seq<string>): (r: Result<seq<Table>>)
    ensures FindTable(tables, name).None? ==> r == Err(InsertTableNotFound(name))
    ensures FindTable(tables, name).Some? ==>
      var i := FindTable(tables, name).value;
      var t := tables[i];
      && (|values| != |t.columns| ==> r == Err(WrongValueCount(|t.columns|)))
      && (|values| == |t.columns| ==> (r.Ok? <==> RowFits(t.columns, values)))
      && (|values| == |t.columns| && FirstInvalid(t.columns, values, 0).Some? ==>
            r == Err(InvalidValue(t.columns[FirstInvalid(t.columns, values, 0).value].name)))
      && (r.Ok? ==> r.value == tables[i := t.(data := t.data + [values])])
    ensures r.Err? ==> r.error.InsertTableNotFound? || r.error.WrongValueCount? || r.error.InvalidValue?
    ensures r.Err? && r.error.InvalidValue? ==>
      var t := tables[FindTable(tables, name).value];
      exists k | 0 <= k < |values| && k < |t.columns| ::
        && r.error.column == t.columns[k].name
        && !IsValidType(values[k], t.columns[k].typeName)
        && forall m | 0 <= m < k :: IsValidType(values[m], t.columns[m].typeName)
    ensures r.Ok? && Typed(tables) ==> Typed(r.value)
  {
    match FindTable(tables, name)
    case None => Err(InsertTableNotFound(name))
    case Some(i) =>
      var t := tables[i];
      if |values| != |t.columns| then Err(WrongValueCount(|t.columns|))
      else
        match FirstInvalid(t.columns, values, 0)
        case Some(k) => Err(InvalidValue(t.columns[k].name))
        case None => Ok(tables[i := t.(data := t.data + [values])])
  }

  /**
   * `after` differs from `before` in one cell only: row `row`, column `col`
   * of table `i` now holds `value`.
   */
  predicate OnlyCellChanged(before: seq<Table>, after: seq<Table>, i: nat, row: nat, col: nat, value: string)
    requires i < |before|
  {
    && |after| == |before|
    && (forall j | 0 <= j < |before| && j != i :: after[j] == before[j])
    && after[i].name == before[i].name
    && after[i].columns == before[i].columns
    && |after[i].data| == |before[i].data|
    && (forall r | 0 <= r < |before[i].data| :: |after[i].data[r]| == |before[i].data[r]|)
    && (forall r, c | 0 <= r < |before[i].data| && 0 <= c < |before[i].data[r]| ::
          after[i].data[r][c] == if r == row && c == col then value else before[i].data[r][c])
  }

  /**
   * `updateRecord`: in the first table with the name, the row and column
   * indexes must be in range and the value valid for that column's type; then
   * exactly that one cell takes the value.
   */
  function Update(tables: seq<Table>, name: string, row: int, col: int, value: string): (r: Result<seq<Table>>)
    requires Shaped(tables)
    ensures FindTable(tables, name).None? ==> r == Err(TableNotFound(name))
    ensures FindTable(tables, name).Some? ==>
      var i := FindTable(tables, name).value;
      var t := tables[i];
      && (!(0 <= row < |t.data| && 0 <= col < |t.columns|) ==> r == Err(BadRowOrColumn(name)))
      && (0 <= row < |t.data| && 0 <= col < |t.columns| ==>
            if IsValidType(value, t.columns[col].typeName)
            then r.Ok? && OnlyCellChanged(tables, r.value, i, row, col, value)
            else r == Err(InvalidUpdateValue))
    ensures r.Ok? ==> Shaped(r.value)
    ensures r.Ok? && Typed(tables) ==> Typed(r.value)
  {
    match FindTable(tables, name)
    case None => Err(TableNotFound(name))
    case Some(i) =>
      var t := tables[i];
      if !(0 <= row < |t.data| && 0 <= col < |t.columns|) then Err(BadRowOrColumn(name))
      else if !IsValidType(value, t.columns[col].typeName) then Err(InvalidUpdateValue)
      else
        var cells := t.data[row][col := value];
        Ok(tables[i := t.(data := t.data[row := cells])])
  }

  /**
   * `after` is `before` with row `row` of table `i` removed; the rows after it
   * move up one place and keep their order.
   */
  predicate OnlyRowRemoved(before: seq<Table>, after: seq<Table>, i: nat, row: nat)
    requires i < |before| && row < |before[i].data|
  {
    && |after| == |before|
    && (forall j | 0 <= j < |before| && j != i :: after[j] == before[j])
    && after[i].name == before[i].name
    && after[i].columns == before[i].columns
    && |after[i].data| == |before[i].data| - 1
    && (forall r | 0 <= r < row :: after[i].data[r] == before[i].data[r])
    && (forall r | row <= r < |after[i].data| :: after[i].data[r] == before[i].data[r + 1])
  }

  /**
   * `deleteRecord`: in the first table with the name, the row index must be in
   * range; then exactly that row is removed.
   */
  function Delete(tables: seq<Table>, name: string, row: int): (r: Result<seq<Table>>)
    ensures FindTable(tables, name).None? ==> r == Err(TableNotFound(name))
    ensures FindTable(tables, name).Some? ==>
      var i := FindTable(tables, name).value;
      var t := tables[i];
      && (!(0 <= row < |t.data|) ==> r == Err(BadRow(name)))
      && (0 <= row < |t.data| ==> r.Ok? && OnlyRowRemoved(tables, r.value, i, row))
    ensures r.Ok? && Shaped(tables) ==> Shaped(r.value)
    ensures r.Ok? && Typed(tables) ==> Typed(r.value)
  {
    match FindTable(tables, name)
    case None => Err(TableNotFound(name))
    case Some(i) =>
      var t := tables[i];
      if !(0 <= row < |t.data|) then Err(BadRow(name))
      else
        var data := t.data[..row] + t.data[row + 1..];
        assert forall r | 0 <= r < |data| :: data[r] == t.data[if r < row then r else r + 1];
        Ok(tables[i := Table(t.name, t.columns, data)])
  }

  /** Each value followed by a tab. */
  function Cells(vs: seq<string>): string {
    if vs == [] then "" else Cells(vs[..|vs| - 1]) + vs[|vs| - 1] + "\t"
  }

  /** One printed line of values: a tab, each value followed by a tab, then the end of the line. */
  function Line(vs: seq<string>): string {
    "\t" + Cells(vs) + "\n"
  }

  /** The printed lines of a list of rows, in order. */
  function Lines(rows: seq<seq<string>>): string {
    if rows == [] then "" else Lines(rows[..|rows| - 1]) + Line(rows[|rows| - 1])
  }

  function ColumnNames(columns: seq<Column>): seq<string> {
    seq(|columns|, k requires 0 <= k < |columns| => columns[k].name)
  }

  /** `viewRecords` output for one table: its name, the line of column names, then a line per row. */
  function Render(t: Table): string {
    t.name + "\n" + Line(ColumnNames(t.columns)) + Lines(t.data)
  }

  /** `viewRecords`: the rendering of the first table with the name. */
  function View(tables: seq<Table>, name: string): Result<string> {
    match FindTable(tables, name)
    case None => Err(TableNotFound(name))
    case Some(i) => Ok(Render(tables[i]))
  }

  lemma {:induction false} CellsCons(v: string, vs: seq<string>)
    ensures Cells([v] + vs) == v + "\t" + Cells(vs)
    decreases |vs|
  {
    if vs == [] {
      assert ([v] + vs)[..0] == [];
    } else {
      var init := vs[..|vs| - 1];
      CellsCons(v, init);
      assert ([v] + vs)[..|vs|] == [v] + init;
    }
  }

  /**
   * The printed cells give the values back, byte for byte, when read with a
   * tab delimiter, as long as no value holds a tab.
   */
  lemma {:induction false} CellsRoundTrip(vs: seq<string>)
    requires forall k, j | 0 <= k < |vs| && 0 <= j < |vs[k]| :: vs[k][j] != '\t'
    ensures GetlineSplit(Cells(vs), '\t') == vs
    decreases |vs|
  {
    if vs != [] {
      var v := vs[0];
      var rest := vs[1..];
      assert vs == [v] + rest;
      CellsCons(v, rest);
      CellsRoundTrip(rest);
      assert '\t' !in v by {
        forall j | 0 <= j < |v| ensures v[j] != '\t' {
          assert vs[0][j] != '\t';
        }
      }
      FindAfter(v, '\t', Cells(rest));
      var s := v + "\t" + Cells(rest);
      SplitStep(s, '\t');
      assert s[..|v|] == v;
      assert s[|v| + 1..] == Cells(rest);
    }
  }

  /** A printed row line, read back with a tab delimiter: an empty field, then the values. */
  lemma LineRoundTrip(vs: seq<string>)
    requires forall k, j | 0 <= k < |vs| && 0 <= j < |vs[k]| :: vs[k][j] != '\t'
    ensures GetlineSplit("\t" + Cells(vs), '\t') == [""] + vs
  {
    CellsRoundTrip(vs);
    var s := "\t" + Cells(vs);
    SplitStep(s, '\t');
    assert s[..0] == "" && s[1..] == Cells(vs);
  }

  /**
   * After a successful insert, viewing the table prints what it printed
   * before followed by one more line holding the inserted values verbatim.
   */
  lemma ViewAfterInsert(tables: seq<Table>, name: string, values: seq<string>)
    requires Insert(tables, name, values).Ok?
    ensures View(tables, name).Ok?
    ensures View(Insert(tables, name, values).value, name) == Ok(View(tables, name).value + Line(values))
  {
    var i := FindTable(tables, name).value;
    var t := tables[i];
    var after := Insert(tables, name, values).value;
    assert after[i].name == name;
    assert FindTable(after, name) == Some(i);
    var data := t.data + [values];
    assert data[..|data| - 1] == t.data;
    assert Lines(data) == Lines(t.data) + Line(values);
    assert Render(after[i]) == Render(t) + Line(values);
  }
}
