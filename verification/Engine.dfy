/** One table: its data file and the runtime that caches its schema, id index and next id.

    These are the functions that the imperative table runtime is proved against; what the
    engine promises over whole runs is proved about them. */
module Engine {
  import opened Common
  import opened BPTreeGraph
  import opened Decimal
  import opened RowCodec
  import opened DataFile
  import opened Ast

  datatype Error = SchemaError | StorageError | ExecError | IndexError

  type Schema = seq<string>

  /** What is kept in memory for a table.  Without an id column, idColumn is -1. */
  datatype Runtime = Runtime(schema: Schema, idColumn: int, ready: bool, nextId: Key, index: map<Key, int>)

  datatype Table = Table(rt: Runtime, file: string)

  /** The first position of a name, or -1. */
  function FindColumn(names: seq<string>, name: string): (i: int)
    ensures -1 <= i < |names|
    ensures i >= 0 ==> names[i] == name
    ensures forall j :: 0 <= j < (if i < 0 then |names| else i) ==> names[j] != name
  {
    if names == [] then -1
    else if names[0] == name then 0
    else
      var i := FindColumn(names[1..], name);
      if i < 0 then -1 else i + 1
  }

  // ----- Building the id index from the file -----

  datatype BuildState = BuildState(index: map<Key, int>, maxId: Key, sawRow: bool)

  /** The id that a stored row carries, if it has a well-formed one. */
  function IdOf(row: Row, idColumn: nat): Option<Key> {
    if idColumn >= |row| then None else ParseId(row[idColumn])
  }

  /** The scan callback: one row more in the index, unless its id is malformed or taken. */
  function BuildStep(state: BuildState, e: Entry, idColumn: nat): Option<BuildState> {
    var id := IdOf(e.row, idColumn);
    if id == None || id.value in state.index then None
    else
      var max := if !state.sawRow || id.value > state.maxId then id.value else state.maxId;
      Some(BuildState(state.index[id.value := e.offset], max, true))
  }

  const EMPTY_BUILD: BuildState := BuildState(map[], 0, false)

  function Build(entries: seq<Entry>, idColumn: nat): Option<BuildState> {
    if entries == [] then Some(EMPTY_BUILD)
    else
      var before := Build(entries[..|entries| - 1], idColumn);
      if before == None then None else BuildStep(before.value, entries[|entries| - 1], idColumn)
  }

  function Rebuild(schema: Schema, idColumn: nat, file: string): Option<BuildState> {
    var entries := Scan(file, 0, |schema|);
    if entries == None then None else Build(entries.value, idColumn)
  }

  /** The id after the largest one, in 64-bit arithmetic. */
  function NextId(state: BuildState): Key {
    if state.sawRow then (state.maxId + 1) % KEY_LIMIT else 1
  }

  /** Loading a table whose schema has been read. */
  function Load(schema: Schema, file: string): Result<Runtime, Error> {
    var idColumn := FindColumn(schema, "id");
    if idColumn < 0 then Ok(Runtime(schema, -1, false, 0, map[]))
    else
      var state := Rebuild(schema, idColumn, file);
      if state == None || (state.value.sawRow && state.value.maxId == UINT64_MAX) then Err(IndexError)
      else Ok(Runtime(schema, idColumn, true, NextId(state.value), state.value.index))
  }

  // ----- INSERT -----

  ghost predicate Distinct(names: seq<string>) {
    forall i, j :: 0 <= i < j < |names| ==> names[i] != names[j]
  }

  /** The columns and values of an INSERT fit the schema, and it does not give an id. */
  ghost predicate Fits(schema: Schema, idColumn: int, stmt: InsertStatement) {
    if stmt.columns == [] then |stmt.values| == |schema| - (if idColumn >= 0 then 1 else 0)
    else
      && |stmt.columns| == |stmt.values|
      && (forall i :: 0 <= i < |stmt.columns| ==>
            FindColumn(schema, stmt.columns[i]) >= 0 && FindColumn(schema, stmt.columns[i]) != idColumn)
      && Distinct(stmt.columns)
  }

  /** What goes into column j: the printed id, the value given for it, or nothing. */
  function FieldFor(schema: Schema, idColumn: int, stmt: InsertStatement, id: nat, j: nat): string
    requires j < |schema|
  {
    if j == idColumn then Print(id)
    else if stmt.columns == [] then
      var k := if idColumn >= 0 && j > idColumn then j - 1 else j;
      if k < |stmt.values| then stmt.values[k].text else ""
    else
      var k := FindColumn(stmt.columns, schema[j]);
      if 0 <= k < |stmt.values| then stmt.values[k].text else ""
  }

  function PlacedRow(schema: Schema, idColumn: int, stmt: InsertStatement, id: nat): (row: Row)
    ensures |row| == |schema|
    ensures forall j :: 0 <= j < |schema| ==> row[j] == FieldFor(schema, idColumn, stmt, id, j)
  {
    seq(|schema|, j requires 0 <= j < |schema| => FieldFor(schema, idColumn, stmt, id, j))
  }

  datatype InsertOutcome = Inserted(generatedId: Option<Key>) | Refused(error: Error)

  /** Executes an INSERT on a loaded table. */
  ghost function ExecInsert(t: Table, stmt: InsertStatement): (Table, InsertOutcome) {
    var rt := t.rt;
    if !Fits(rt.schema, rt.idColumn, stmt) || (rt.idColumn >= 0 && rt.nextId == 0) then (t, Refused(ExecError))
    else
      var row := PlacedRow(rt.schema, rt.idColumn, stmt, rt.nextId);
      if row == [] then (t, Refused(StorageError))
      else
        var written := t.(file := Append(t.file, row));
        if rt.idColumn < 0 then (written, Inserted(None))
        else
          var (after, outcome) := IndexInsert(rt, |t.file|);
          (written.(rt := after), outcome)
  }

  /** The second half of an INSERT: the new row goes into the index and the next id moves on. */
  function IndexInsert(rt: Runtime, offset: nat): (Runtime, InsertOutcome) {
    var id := rt.nextId;
    if id in rt.index then (rt, Refused(IndexError))
    else (rt.(index := rt.index[id := offset], nextId := (id + 1) % KEY_LIMIT, ready := true), Inserted(Some(id)))
  }

  // ----- SELECT -----

  datatype QueryResult = QueryResult(columns: seq<string>, rows: seq<Row>)

  predicate ValidSelect(schema: Schema, stmt: SelectStatement) {
    && (stmt.all ||
          (stmt.columns != [] && forall i :: 0 <= i < |stmt.columns| ==> FindColumn(schema, stmt.columns[i]) >= 0))
    && (stmt.filter.Where? ==> FindColumn(schema, stmt.filter.column) >= 0)
  }

  function Header(schema: Schema, stmt: SelectStatement): seq<string> {
    if stmt.all then schema else stmt.columns
  }

  function ProjectField(schema: Schema, stmt: SelectStatement, row: Row, i: nat): string
    requires i < |Header(schema, stmt)|
  {
    var j := if stmt.all then i else FindColumn(schema, stmt.columns[i]);
    if 0 <= j < |row| then row[j] else ""
  }

  function Project(schema: Schema, stmt: SelectStatement, row: Row): Row {
    var n := |Header(schema, stmt)|;
    seq(n, i requires 0 <= i < n => ProjectField(schema, stmt, row, i))
  }

  /** The WHERE test compares texts. */
  predicate Matches(stmt: SelectStatement, whereIndex: int, row: Row) {
    match stmt.filter
    case NoWhere => true
    case Where(_, value) => 0 <= whereIndex < |row| && row[whereIndex] == value.text
  }

  function WhereIndex(schema: Schema, stmt: SelectStatement): int {
    if stmt.filter.Where? then FindColumn(schema, stmt.filter.column) else -1
  }

  /** The projected rows of the entries that match, in file order. */
  function Selected(schema: Schema, stmt: SelectStatement, entries: seq<Entry>): seq<Row> {
    if entries == [] then []
    else
      var before := Selected(schema, stmt, entries[..|entries| - 1]);
      var row := entries[|entries| - 1].row;
      if Matches(stmt, WhereIndex(schema, stmt), row) then before + [Project(schema, stmt, row)] else before
  }

  function FullScan(t: Table, stmt: SelectStatement): Result<QueryResult, Error> {
    match Scan(t.file, 0, |t.rt.schema|)
    case None => Err(StorageError)
    case Some(entries) => Ok(QueryResult(Header(t.rt.schema, stmt), Selected(t.rt.schema, stmt, entries)))
  }

  /** The id to look up when the index can serve the statement. */
  function IndexKey(rt: Runtime, stmt: SelectStatement): Option<Key> {
    if rt.idColumn >= 0 && rt.ready && stmt.filter.Where? && stmt.filter.column == "id"
    then ParseId(stmt.filter.value.text)
    else None
  }

  function IndexLookup(t: Table, stmt: SelectStatement, id: Key): Result<QueryResult, Error> {
    var header := Header(t.rt.schema, stmt);
    if id !in t.rt.index then Ok(QueryResult(header, []))
    else
      var offset := t.rt.index[id];
      var row := if offset < 0 then None else ReadRow(t.file, offset, |t.rt.schema|);
      if row == None then Err(StorageError)
      else if !Matches(stmt, t.rt.idColumn, row.value) then Ok(QueryResult(header, []))
      else Ok(QueryResult(header, [Project(t.rt.schema, stmt, row.value)]))
  }

  /** Executes a SELECT on a loaded table: through the index where possible, else by a scan. */
  function ExecSelect(t: Table, stmt: SelectStatement): Result<QueryResult, Error> {
    if !ValidSelect(t.rt.schema, stmt) then Err(ExecError)
    else
      match IndexKey(t.rt, stmt)
      case Some(id) => IndexLookup(t, stmt, id)
      case None => FullScan(t, stmt)
  }
}
