/** What the engine answers, in terms of the names in the schema, the texts in the file and the literals in the statement. */
module EngineAnswers {
  import opened Common
  import opened BPTreeGraph
  import opened Decimal
  import opened RowCodec
  import opened DataFile
  import opened Ast
  import opened Engine
  import opened EngineFacts

  // ----- Columns -----

  /** j is the first column with the name. */
  ghost predicate IsColumn(schema: Schema, name: string, j: int) {
    0 <= j < |schema| && schema[j] == name && forall i :: 0 <= i < j ==> schema[i] != name
  }

  lemma ColumnExact(schema: Schema, name: string, j: int)
    ensures IsColumn(schema, name, j) <==> FindColumn(schema, name) == j >= 0
    ensures FindColumn(schema, name) >= 0 <==> name in schema
  {
    hide FindColumn;
    var i := FindColumn(schema, name);
    if i >= 0 {
      assert schema[i] == name;
    }
  }

  // ----- SELECT -----

  /** Every column that the statement names exists. */
  ghost predicate NamesKnown(schema: Schema, stmt: SelectStatement) {
    && (stmt.all || (stmt.columns != [] && forall i :: 0 <= i < |stmt.columns| ==> stmt.columns[i] in schema))
    && (stmt.filter.Where? ==> stmt.filter.column in schema)
  }

  lemma ValidExact(schema: Schema, stmt: SelectStatement)
    ensures ValidSelect(schema, stmt) <==> NamesKnown(schema, stmt)
  {
    hide FindColumn;
    forall name: string ensures FindColumn(schema, name) >= 0 <==> name in schema {
      ColumnExact(schema, name, 0);
    }
  }

  /** There is no filter, or the row has the literal's text in the column that the filter names. */
  ghost predicate Wanted(schema: Schema, filter: WhereClause, row: Row) {
    match filter
    case NoWhere => true
    case Where(column, value) => exists j :: IsColumn(schema, column, j) && j < |row| && row[j] == value.text
  }

  /** The answer for one row: the row itself, or for each listed name the field of the column with that name. */
  ghost predicate Shows(schema: Schema, stmt: SelectStatement, row: Row, shown: Row) {
    if stmt.all then shown == row
    else
      && |shown| == |stmt.columns|
      && forall i, j :: 0 <= i < |stmt.columns| && IsColumn(schema, stmt.columns[i], j) && j < |row| ==> shown[i] == row[j]
  }

  lemma WantedExact(schema: Schema, stmt: SelectStatement, row: Row)
    ensures Matches(stmt, WhereIndex(schema, stmt), row) <==> Wanted(schema, stmt.filter, row)
  {
    hide FindColumn;
    if stmt.filter.Where? {
      var k := FindColumn(schema, stmt.filter.column);
      ColumnExact(schema, stmt.filter.column, k);
      forall j ensures IsColumn(schema, stmt.filter.column, j) <==> k == j >= 0 {
        ColumnExact(schema, stmt.filter.column, j);
      }
    }
  }

  lemma ProjectShows(schema: Schema, stmt: SelectStatement, row: Row)
    requires |row| == |schema|
    ensures Shows(schema, stmt, row, Project(schema, stmt, row))
  {
    hide FindColumn;
    var shown := Project(schema, stmt, row);
    if stmt.all {
      assert shown == row;
    } else {
      forall i, j | 0 <= i < |stmt.columns| && IsColumn(schema, stmt.columns[i], j) && j < |row| ensures shown[i] == row[j] {
        ColumnExact(schema, stmt.columns[i], j);
      }
    }
  }

  /** The rows are what the entries at rising positions p show, and those are the positions of all wanted entries. */
  ghost predicate Answers(schema: Schema, stmt: SelectStatement, entries: seq<Entry>, rows: seq<Row>, p: seq<nat>) {
    && |rows| == |p|
    && (forall k, l :: 0 <= k < l < |p| ==> p[k] < p[l])
    && (forall k :: 0 <= k < |p| ==> p[k] < |entries| && Shows(schema, stmt, entries[p[k]].row, rows[k]))
    && (forall i :: 0 <= i < |entries| ==> (i in p <==> Wanted(schema, stmt.filter, entries[i].row)))
  }

  lemma {:induction false} SelectedAnswers(schema: Schema, stmt: SelectStatement, entries: seq<Entry>) returns (p: seq<nat>)
    requires forall i :: 0 <= i < |entries| ==> |entries[i].row| == |schema|
    ensures Answers(schema, stmt, entries, Selected(schema, stmt, entries), p)
  {
    hide Matches, Project, Wanted, Shows;
    if entries == [] {
      p := [];
    } else {
      var n := |entries| - 1;
      var row := entries[n].row;
      var before := SelectedAnswers(schema, stmt, entries[..n]);
      WantedExact(schema, stmt, row);
      ProjectShows(schema, stmt, row);
      p := if Wanted(schema, stmt.filter, row) then before + [n] else before;
      AnswersSnoc(schema, stmt, entries, Selected(schema, stmt, entries[..n]), before, Project(schema, stmt, row));
    }
  }

  lemma AnswersSnoc(schema: Schema, stmt: SelectStatement, entries: seq<Entry>, rows: seq<Row>, p: seq<nat>, shown: Row)
    requires entries != [] && Answers(schema, stmt, entries[..|entries| - 1], rows, p)
    requires Shows(schema, stmt, entries[|entries| - 1].row, shown)
    ensures var n := |entries| - 1;
            if Wanted(schema, stmt.filter, entries[n].row) then Answers(schema, stmt, entries, rows + [shown], p + [n])
            else Answers(schema, stmt, entries, rows, p)
  {
    hide Wanted, Shows;
    var n := |entries| - 1;
    assert forall i :: 0 <= i < n ==> entries[..n][i] == entries[i];
    assert n !in p;
    assert forall i :: i in p + [n] <==> i in p || i == n;
  }

  lemma {:induction false} ScanWidth(file: string, pos: nat, count: nat, i: nat)
    requires Scan(file, pos, count).Some? && i < |Scan(file, pos, count).value|
    ensures |Scan(file, pos, count).value[i].row| == count
  {
    EntryReads(file, pos, count, i);
  }

  /** A full scan answers with every wanted row, once, in file order, under the names asked for. */
  lemma FullScanAnswers(t: Table, stmt: SelectStatement) returns (p: seq<nat>)
    ensures Scan(t.file, 0, |t.rt.schema|).None? ==> FullScan(t, stmt) == Err(StorageError)
    ensures Scan(t.file, 0, |t.rt.schema|).Some? ==>
      && FullScan(t, stmt).Ok?
      && FullScan(t, stmt).value.columns == (if stmt.all then t.rt.schema else stmt.columns)
      && Answers(t.rt.schema, stmt, Scan(t.file, 0, |t.rt.schema|).value, FullScan(t, stmt).value.rows, p)
  {
    hide Scan, Selected, Answers;
    p := [];
    if Scan(t.file, 0, |t.rt.schema|).Some? {
      var entries := Scan(t.file, 0, |t.rt.schema|).value;
      forall i | 0 <= i < |entries| ensures |entries[i].row| == |t.rt.schema| {
        ScanWidth(t.file, 0, |t.rt.schema|, i);
      }
      p := SelectedAnswers(t.rt.schema, stmt, entries);
    }
  }

  /** What a SELECT is to be answered: an error if a name is unknown or, in a table without ids, a line cannot be read;
      else the wanted rows, under the names asked for. */
  ghost predicate AnsweredWell(t: Table, stmt: SelectStatement, answer: Result<QueryResult, Error>, p: seq<nat>) {
    var entries := Scan(t.file, 0, |t.rt.schema|);
    if !NamesKnown(t.rt.schema, stmt) then answer == Err(ExecError)
    else if entries.None? then answer == Err(StorageError) && "id" !in t.rt.schema
    else
      && answer.Ok? && answer.value.columns == (if stmt.all then t.rt.schema else stmt.columns)
      && Answers(t.rt.schema, stmt, entries.value, answer.value.rows, p)
  }

  /** The id of a lookup: the statement asks for equality of the column `id` with the printed form of that id. */
  lemma IndexKeyExact(rt: Runtime, stmt: SelectStatement, id: nat)
    ensures (id < KEY_LIMIT && IndexKey(rt, stmt) == Some(id)) <==>
            && rt.idColumn >= 0 && rt.ready && 1 <= id < KEY_LIMIT
            && stmt.filter.Where? && stmt.filter.column == "id" && stmt.filter.value.text == Print(id)
  {
    hide ParseId, Print;
    if stmt.filter.Where? {
      ParseIdExact(stmt.filter.value.text, id);
    }
  }

  // ----- INSERT -----

  /** The statement has a value for everything that it names, names no column twice, and leaves the id alone. */
  ghost predicate Acceptable(schema: Schema, stmt: InsertStatement) {
    if stmt.columns == [] then |stmt.values| == |schema| - (if "id" in schema then 1 else 0)
    else
      && |stmt.values| == |stmt.columns|
      && (forall i, j :: 0 <= i < j < |stmt.columns| ==> stmt.columns[i] != stmt.columns[j])
      && (forall i :: 0 <= i < |stmt.columns| ==> stmt.columns[i] in schema && stmt.columns[i] != "id")
  }

  lemma FitsExact(schema: Schema, stmt: InsertStatement)
    ensures Fits(schema, FindColumn(schema, "id"), stmt) <==> Acceptable(schema, stmt)
  {
    hide FindColumn;
    ColumnExact(schema, "id", 0);
    forall i | 0 <= i < |stmt.columns|
      ensures FindColumn(schema, stmt.columns[i]) >= 0 <==> stmt.columns[i] in schema
      ensures FindColumn(schema, stmt.columns[i]) >= 0 ==>
        (FindColumn(schema, stmt.columns[i]) == FindColumn(schema, "id") <==> stmt.columns[i] == "id")
    {
      ColumnExact(schema, stmt.columns[i], 0);
    }
  }

  /** An INSERT is accepted exactly when the statement is acceptable and, in a table with ids, 2^64-1 is not stored yet;
      a refused one changes nothing. */
  lemma InsertExact(t: Table, stmt: InsertStatement)
    requires t.rt.schema != [] && t.rt.idColumn == FindColumn(t.rt.schema, "id")
    requires "id" in t.rt.schema ==> Consistent(t)
    ensures var (after, outcome) := ExecInsert(t, stmt);
            && (outcome.Inserted? <==>
                  Acceptable(t.rt.schema, stmt) && ("id" in t.rt.schema ==> UINT64_MAX !in t.rt.index))
            && (outcome.Refused? ==> after == t && outcome.error == ExecError)
            && (outcome.Inserted? ==> (outcome.generatedId.Some? <==> "id" in t.rt.schema))
  {
    hide FindColumn, Fits, Consistent, PlacedRow, Append, Acceptable;
    ColumnExact(t.rt.schema, "id", 0);
    FitsExact(t.rt.schema, stmt);
    if "id" in t.rt.schema {
      InsertKeepsConsistent(t, stmt);
      NextIdIsNew(t);
    }
  }

  /** The row has the values where the statement puts them, and nothing anywhere else. */
  ghost predicate Places(schema: Schema, stmt: InsertStatement, id: nat, row: Row) {
    && |row| == |schema|
    && (forall j :: IsColumn(schema, "id", j) ==> row[j] == Print(id))
    && (stmt.columns == [] ==>
          if "id" in schema then exists j :: IsColumn(schema, "id", j) && j <= |stmt.values| && row == Texts(stmt.values)[..j] + [Print(id)] + Texts(stmt.values)[j..]
          else row == Texts(stmt.values))
    && (stmt.columns != [] ==>
          && |stmt.values| == |stmt.columns|
          && (forall i, j :: 0 <= i < |stmt.columns| && IsColumn(schema, stmt.columns[i], j) ==> row[j] == stmt.values[i].text)
          && (forall j :: 0 <= j < |schema| && schema[j] != "id" && schema[j] !in stmt.columns ==> row[j] == ""))
  }

  lemma PlacedRowPlaces(schema: Schema, stmt: InsertStatement, id: nat)
    requires Acceptable(schema, stmt)
    ensures Places(schema, stmt, id, PlacedRow(schema, FindColumn(schema, "id"), stmt, id))
  {
    hide FindColumn, Print, Fits;
    var idColumn := FindColumn(schema, "id");
    ColumnExact(schema, "id", idColumn);
    FitsExact(schema, stmt);
    var row := PlacedRow(schema, idColumn, stmt, id);
    forall j | IsColumn(schema, "id", j) ensures row[j] == Print(id) {
      ColumnExact(schema, "id", j);
    }
    if stmt.columns == [] {
      if "id" in schema {
        PlacedByPosition(schema, idColumn, stmt, id);
        assert IsColumn(schema, "id", idColumn);
      } else {
        PlacedWithoutId(schema, stmt, id);
      }
    } else {
      NamedPlaces(schema, stmt, id);
    }
  }

  lemma PlacedWithoutId(schema: Schema, stmt: InsertStatement, id: nat)
    requires "id" !in schema && stmt.columns == [] && Acceptable(schema, stmt)
    ensures PlacedRow(schema, FindColumn(schema, "id"), stmt, id) == Texts(stmt.values)
  {
    hide FindColumn, Print;
    ColumnExact(schema, "id", 0);
  }

  lemma NamedPlaces(schema: Schema, stmt: InsertStatement, id: nat)
    requires stmt.columns != [] && Acceptable(schema, stmt)
    ensures var row := PlacedRow(schema, FindColumn(schema, "id"), stmt, id);
            && |stmt.values| == |stmt.columns|
            && (forall i, j :: 0 <= i < |stmt.columns| && IsColumn(schema, stmt.columns[i], j) ==> row[j] == stmt.values[i].text)
            && (forall j :: 0 <= j < |schema| && schema[j] != "id" && schema[j] !in stmt.columns ==> row[j] == "")
  {
    hide FindColumn, Print, PlacedRow, IsColumn;
    var row := PlacedRow(schema, FindColumn(schema, "id"), stmt, id);
    forall i, j | 0 <= i < |stmt.columns| && IsColumn(schema, stmt.columns[i], j)
      ensures 0 <= j < |schema| && row[j] == stmt.values[i].text
    {
      NamedValue(schema, stmt, id, i, j);
    }
    forall j | 0 <= j < |schema| && schema[j] != "id" && schema[j] !in stmt.columns ensures row[j] == "" {
      NotNamed(schema, stmt, id, j);
    }
  }

  lemma NamedValue(schema: Schema, stmt: InsertStatement, id: nat, i: nat, j: int)
    requires stmt.columns != [] && Acceptable(schema, stmt) && i < |stmt.columns| && IsColumn(schema, stmt.columns[i], j)
    ensures 0 <= j < |schema| && |stmt.values| == |stmt.columns|
    ensures PlacedRow(schema, FindColumn(schema, "id"), stmt, id)[j] == stmt.values[i].text
  {
    hide FindColumn, Print;
    ColumnExact(schema, "id", j);
    ColumnExact(stmt.columns, schema[j], i);
    assert IsColumn(stmt.columns, schema[j], i);
  }

  lemma NotNamed(schema: Schema, stmt: InsertStatement, id: nat, j: nat)
    requires stmt.columns != [] && j < |schema| && schema[j] != "id" && schema[j] !in stmt.columns
    ensures PlacedRow(schema, FindColumn(schema, "id"), stmt, id)[j] == ""
  {
    hide FindColumn, Print;
    ColumnExact(schema, "id", j);
    ColumnExact(stmt.columns, schema[j], 0);
  }

  /** An accepted INSERT appends one line to the file and nothing else: a row with every value in its place.  A scan then
      gives the old rows and that one, up to one carriage return at the end of the last field. */
  lemma InsertStores(t: Table, stmt: InsertStatement) returns (row: Row)
    requires t.rt.schema != [] && t.rt.idColumn == FindColumn(t.rt.schema, "id") && WellEnded(t.file)
    requires ExecInsert(t, stmt).1.Inserted?
    ensures var (after, outcome) := ExecInsert(t, stmt);
            && row != [] && Places(t.rt.schema, stmt, t.rt.nextId, row)
            && outcome.generatedId == (if "id" in t.rt.schema then Some(t.rt.nextId) else None)
            && after.file == t.file + Join(row) + ['\n'] && after.rt.schema == t.rt.schema
            && (Scan(t.file, 0, |t.rt.schema|).Some? ==>
                  Scan(after.file, 0, |t.rt.schema|) ==
                    Some(Scan(t.file, 0, |t.rt.schema|).value + [Entry(|t.file|, DropCr(row))]))
  {
    hide FindColumn, Fits, Acceptable, Places, Scan, DropCr, Join, WellEnded, PlacedRow;
    ColumnExact(t.rt.schema, "id", 0);
    FitsExact(t.rt.schema, stmt);
    PlacedRowPlaces(t.rt.schema, stmt, t.rt.nextId);
    row := PlacedRow(t.rt.schema, t.rt.idColumn, stmt, t.rt.nextId);
    AppendedRow(t.file, row);
    AppendTail(t.file, row);
    ScanAppended(t.file, Join(row) + ['\n'], 0, |t.rt.schema|);
  }

  // ----- Loading -----

  /** The row has a well-formed id in the column. */
  ghost predicate HasId(row: Row, idColumn: nat, id: nat) {
    idColumn < |row| && 1 <= id < KEY_LIMIT && row[idColumn] == Print(id)
  }

  ghost predicate IdKnown(row: Row, idColumn: nat) {
    exists id: nat :: HasId(row, idColumn, id)
  }

  ghost predicate IdsApart(a: Row, b: Row, idColumn: nat) {
    forall id: nat :: HasId(a, idColumn, id) ==> !HasId(b, idColumn, id)
  }

  ghost predicate IdsGood(entries: seq<Entry>, idColumn: nat) {
    && (forall i :: 0 <= i < |entries| ==> IdKnown(entries[i].row, idColumn))
    && (forall i, j :: 0 <= i < j < |entries| ==> IdsApart(entries[i].row, entries[j].row, idColumn))
  }

  lemma IdOfExact(row: Row, idColumn: nat, id: nat)
    ensures (id < KEY_LIMIT && IdOf(row, idColumn) == Some(id)) <==> HasId(row, idColumn, id)
  {
    hide ParseId, Print;
    if idColumn < |row| {
      ParseIdExact(row[idColumn], id);
    }
  }

  lemma IdOfKnown(row: Row, idColumn: nat)
    ensures IdOf(row, idColumn).Some? <==> IdKnown(row, idColumn)
  {
    hide HasId, IdOf;
    if IdOf(row, idColumn).Some? {
      IdOfExact(row, idColumn, IdOf(row, idColumn).value);
    }
    if id: nat :| HasId(row, idColumn, id) {
      IdOfExact(row, idColumn, id);
    }
  }

  lemma IdOfApart(a: Row, b: Row, idColumn: nat)
    ensures IdsApart(a, b, idColumn) <==> IdOf(a, idColumn) == None || IdOf(a, idColumn) != IdOf(b, idColumn)
  {
    hide HasId, IdOf;
    forall id: nat
      ensures HasId(a, idColumn, id) <==> id < KEY_LIMIT && IdOf(a, idColumn) == Some(id)
      ensures HasId(b, idColumn, id) <==> id < KEY_LIMIT && IdOf(b, idColumn) == Some(id)
    {
      IdOfExact(a, idColumn, id);
      IdOfExact(b, idColumn, id);
    }
    if IdOf(a, idColumn).Some? && IdOf(a, idColumn) == IdOf(b, idColumn) {
      assert HasId(a, idColumn, IdOf(a, idColumn).value);
    }
  }

  /** The index can be built exactly when every row has a well-formed id and no id comes twice; the order is free. */
  lemma {:induction false} BuildExact(entries: seq<Entry>, idColumn: nat)
    ensures Build(entries, idColumn).Some? <==> IdsGood(entries, idColumn)
  {
    hide IdOf, HasId, BuildStep, IdsGood;
    if entries == [] {
      NoIds(idColumn);
    } else {
      var n := |entries| - 1;
      var front, e := entries[..n], entries[n];
      BuildExact(front, idColumn);
      assert entries == front + [e];
      IdsGoodSnoc(front, e, idColumn);
      if Build(front, idColumn).Some? {
        StepExact(front, e, idColumn);
      }
    }
  }

  lemma NoIds(idColumn: nat)
    ensures IdsGood([], idColumn)
  {
  }

  /** The new row has an id that no earlier row has. */
  ghost predicate NewId(front: seq<Entry>, e: Entry, idColumn: nat) {
    && IdKnown(e.row, idColumn)
    && (forall i :: 0 <= i < |front| ==> IdsApart(front[i].row, e.row, idColumn))
  }

  lemma IdsGoodSnoc(front: seq<Entry>, e: Entry, idColumn: nat)
    ensures IdsGood(front + [e], idColumn) <==> IdsGood(front, idColumn) && NewId(front, e, idColumn)
  {
    hide IdKnown, IdsApart;
    var all, n := front + [e], |front|;
    assert all[n] == e && forall i :: 0 <= i < n ==> all[i] == front[i];
    if IdsGood(all, idColumn) {
      assert forall i :: 0 <= i < n ==> IdsApart(all[i].row, all[n].row, idColumn);
      assert forall i :: 0 <= i < n ==> IdKnown(all[i].row, idColumn);
      assert forall i, j :: 0 <= i < j < n ==> IdsApart(all[i].row, all[j].row, idColumn);
    }
  }

  lemma StepExact(front: seq<Entry>, e: Entry, idColumn: nat)
    requires Build(front, idColumn).Some?
    ensures BuildStep(Build(front, idColumn).value, e, idColumn).Some? <==> NewId(front, e, idColumn)
  {
    hide Build, IdOf, IdKnown, IdsApart;
    var index := Build(front, idColumn).value.index;
    BuildAccurate(front, idColumn);
    IdOfKnown(e.row, idColumn);
    forall i | 0 <= i < |front|
      ensures Indexed(front[i], idColumn, index)
      ensures IdsApart(front[i].row, e.row, idColumn) <==> IdOf(front[i].row, idColumn) != IdOf(e.row, idColumn)
    {
      IdOfApart(front[i].row, e.row, idColumn);
    }
    var id := IdOf(e.row, idColumn);
    if id.Some? && id.value in index {
      var i := Position(id.value, front, idColumn);
      assert !IdsApart(front[i].row, e.row, idColumn);
    }
  }

  /** Some row has the id. */
  ghost predicate Carries(entries: seq<Entry>, j: nat, id: nat) {
    exists i :: 0 <= i < |entries| && HasId(entries[i].row, j, id)
  }

  /** What a load makes of the scanned rows: their ids with their offsets, and the id after the largest. */
  ghost predicate Loaded(rt: Runtime, schema: Schema, j: nat, entries: seq<Entry>) {
    && rt.schema == schema && rt.idColumn == j && rt.ready
    && (forall i, id: nat :: 0 <= i < |entries| && HasId(entries[i].row, j, id) ==> id in rt.index && rt.index[id] == entries[i].offset)
    && (forall id :: id in rt.index ==> Carries(entries, j, id))
    && (if entries == [] then rt.nextId == 1
        else rt.nextId > 1 && rt.nextId - 1 in rt.index && forall id :: id in rt.index ==> id < rt.nextId)
  }

  /** A table with ids loads exactly when every line can be read, every row has a well-formed id, no id comes twice and
      the largest possible id is not among them. */
  lemma LoadExact(schema: Schema, file: string, j: nat)
    requires IsColumn(schema, "id", j)
    ensures var entries := Scan(file, 0, |schema|);
            && (Load(schema, file).Ok? <==>
                  entries.Some? && IdsGood(entries.value, j) && !Carries(entries.value, j, UINT64_MAX))
            && (Load(schema, file).Ok? ==> Loaded(Load(schema, file).value, schema, j, entries.value))
            && (Load(schema, file).Err? ==> Load(schema, file).error == IndexError)
  {
    hide FindColumn, Scan, Build, IdOf, HasId, IdsGood, Carries;
    ColumnExact(schema, "id", j);
    if Scan(file, 0, |schema|).Some? {
      var entries := Scan(file, 0, |schema|).value;
      BuildExact(entries, j);
      if Build(entries, j).Some? {
        BuiltIds(entries, j);
      }
    }
  }

  lemma CarriesExact(entries: seq<Entry>, j: nat, id: nat)
    requires Build(entries, j).Some?
    ensures Carries(entries, j, id) <==> id in Build(entries, j).value.index
  {
    hide Build, IdOf, HasId;
    BuildAccurate(entries, j);
    var s := Build(entries, j).value;
    if i :| 0 <= i < |entries| && HasId(entries[i].row, j, id) {
      IdOfExact(entries[i].row, j, id);
      assert Indexed(entries[i], j, s.index);
    }
    if id in s.index {
      var i := Position(id, entries, j);
      IdOfExact(entries[i].row, j, id);
    }
  }

  lemma BuiltIds(entries: seq<Entry>, j: nat)
    requires Build(entries, j).Some?
    ensures var s := Build(entries, j).value;
            && (forall i, id: nat :: 0 <= i < |entries| && HasId(entries[i].row, j, id) ==>
                  id in s.index && s.index[id] == entries[i].offset)
            && (forall id :: id in s.index ==> 1 <= id <= s.maxId && Carries(entries, j, id))
            && (s.sawRow <==> entries != []) && (s.sawRow ==> s.maxId in s.index)
            && (s.sawRow && s.maxId == UINT64_MAX <==> Carries(entries, j, UINT64_MAX))
  {
    hide Build, IdOf, HasId, Carries, Occurs;
    BuildAccurate(entries, j);
    var s := Build(entries, j).value;
    forall i, id: nat | 0 <= i < |entries| && HasId(entries[i].row, j, id)
      ensures id in s.index && s.index[id] == entries[i].offset
    {
      IdOfExact(entries[i].row, j, id);
      assert Indexed(entries[i], j, s.index);
    }
    forall id: nat ensures Carries(entries, j, id) <==> id in s.index {
      CarriesExact(entries, j, id);
    }
    CarriesExact(entries, j, UINT64_MAX);
  }

  /** A table without ids always loads. */
  lemma LoadWithoutId(schema: Schema, file: string)
    requires "id" !in schema
    ensures Load(schema, file) == Ok(Runtime(schema, -1, false, 0, map[]))
  {
    hide FindColumn;
    ColumnExact(schema, "id", 0);
  }
}
