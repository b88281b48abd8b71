/** Which statements succeed, and with which error the others fail: in terms of the schemas, the data files and what is
    in the cache. */
module DbAnswers {
  import opened Common
  import opened BPTreeGraph
  import opened Decimal
  import opened Ast
  import opened RowCodec
  import opened DataFile
  import opened Engine
  import opened EngineFacts
  import opened EngineAnswers
  import opened Database
  import opened DbProtocol
  import opened DbConsistency

  /** A row of the file has this id. */
  ghost predicate Stored(schema: Schema, file: string, id: nat) {
    exists j: nat :: IsColumn(schema, "id", j) && StoredAt(schema, file, j, id)
  }

  ghost predicate StoredAt(schema: Schema, file: string, j: nat, id: nat) {
    Scan(file, 0, |schema|).Some? && Carries(Scan(file, 0, |schema|).value, j, id)
  }

  /** Every line can be read, every row has a well-formed id and no id comes twice. */
  ghost predicate FileGood(schema: Schema, file: string) {
    && Scan(file, 0, |schema|).Some?
    && forall j: nat :: IsColumn(schema, "id", j) ==> IdsGood(Scan(file, 0, |schema|).value, j)
  }

  /** A table with ids that is not in the cache yet cannot be loaded. */
  ghost predicate LoadRefused(db: Db, name: string)
    requires name in db.schemas
  {
    var schema, file := db.schemas[name], FileOf(db, name);
    Lookup(db.tables, name).None? && "id" in schema && !(FileGood(schema, file) && !Stored(schema, file, UINT64_MAX))
  }

  /** The error of a statement, or that it succeeds. */
  ghost function Verdict(db: Db, stmt: Statement): Option<Error> {
    var name := if stmt.Select? then stmt.select.table else stmt.insert.table;
    if name !in db.schemas then Some(SchemaError)
    else if LoadRefused(db, name) then Some(IndexError)
    else
      var schema, file := db.schemas[name], FileOf(db, name);
      match stmt
      case Insert(insert) =>
        if !Acceptable(schema, insert) || ("id" in schema && Stored(schema, file, UINT64_MAX)) then Some(ExecError) else None
      case Select(select) =>
        if !NamesKnown(schema, select) then Some(ExecError)
        else if Scan(file, 0, |schema|).None? then Some(StorageError)
        else None
  }

  function ErrorOf(response: Response): Option<Error> {
    match response
    case InsertDone(outcome) => if outcome.Refused? then Some(outcome.error) else None
    case SelectDone(result) => if result.Err? then Some(result.error) else None
  }

  lemma LoadVerdict(schema: Schema, file: string)
    ensures Load(schema, file).Err? <==> "id" in schema && !(FileGood(schema, file) && !Stored(schema, file, UINT64_MAX))
  {
    hide Load, Scan, IdsGood, Carries, IsColumn, FindColumn;
    var i := FindColumn(schema, "id");
    ColumnExact(schema, "id", i);
    if "id" !in schema {
      LoadWithoutId(schema, file);
    } else {
      LoadExact(schema, file, i);
      forall j: nat ensures IsColumn(schema, "id", j) <==> i == j {
        ColumnExact(schema, "id", j);
      }
      assert Stored(schema, file, UINT64_MAX) <==> StoredAt(schema, file, i, UINT64_MAX);
    }
  }

  /** In a consistent table an id is in the index exactly when it is in the file. */
  lemma IndexHasStored(t: Table, id: Key)
    requires Consistent(t)
    ensures id in t.rt.index <==> Stored(t.rt.schema, t.file, id)
  {
    hide Scan, Build, Carries, IsColumn, FindColumn;
    var schema, i := t.rt.schema, t.rt.idColumn;
    CarriesExact(Scan(t.file, 0, |schema|).value, i, id);
    forall j: nat ensures IsColumn(schema, "id", j) <==> i == j {
      ColumnExact(schema, "id", j);
    }
    assert Stored(schema, t.file, id) <==> StoredAt(schema, t.file, i, id);
  }

  /** What finding or loading a table gives. */
  lemma TableFound(db: Db, name: string)
    requires DbOk(db)
    ensures var (loaded, r) := GetOrLoad(db, name);
            && (r.Err? <==> name !in db.schemas || LoadRefused(db, name))
            && (r.Err? ==> r.error == if name in db.schemas then IndexError else SchemaError)
            && (r.Ok? ==>
                  && TableOk(r.value, FileOf(loaded, name)) && FileOf(loaded, name) == FileOf(db, name)
                  && r.value.schema == db.schemas[name])
  {
    hide TableOk, Load, Lookup, FileOf, FileGood, Stored, WellEnded;
    GetOrLoadSpec(db, name, name);
    GetOrLoadOk(db, name);
    assert NameOk(db, name) && NameOk(GetOrLoad(db, name).0, name);
    if name in db.schemas {
      LoadVerdict(db.schemas[name], FileOf(db, name));
    }
  }

  lemma InsertVerdict(t: Table, insert: InsertStatement)
    requires TableOk(t.rt, t.file)
    ensures ErrorOf(InsertDone(ExecInsert(t, insert).1)) ==
      if !Acceptable(t.rt.schema, insert) || ("id" in t.rt.schema && Stored(t.rt.schema, t.file, UINT64_MAX)) then Some(ExecError)
      else None
  {
    hide Consistent, ExecInsert, FindColumn, Acceptable, Stored;
    ColumnExact(t.rt.schema, "id", 0);
    InsertExact(t, insert);
    if t.rt.idColumn >= 0 {
      IndexHasStored(t, UINT64_MAX);
    }
  }

  /** Every statement on a consistent database fails with exactly the error that the schemas and the files call for. */
  lemma ErrorExact(db: Db, stmt: Statement)
    requires DbOk(db)
    ensures ErrorOf(Execute(db, stmt).1) == Verdict(db, stmt)
  {
    hide DbOk, TableOk, GetOrLoad, ExecInsert, ExecSelect, Store, FileOf, LoadRefused, Acceptable, NamesKnown, Stored, Answers, Scan;
    var name := if stmt.Select? then stmt.select.table else stmt.insert.table;
    TableFound(db, name);
    var (loaded, r) := GetOrLoad(db, name);
    if r.Ok? {
      var t := Table(r.value, FileOf(loaded, name));
      if stmt.Insert? {
        InsertVerdict(t, stmt.insert);
      } else {
        var p := SelectAnswer(t, stmt.select);
      }
    }
  }

  /** The answer of a SELECT that succeeds: every wanted row of the file, once, in file order, under the names asked for. */
  ghost predicate RowsAnswered(db: Db, select: SelectStatement, response: Response, p: seq<nat>) {
    && select.table in db.schemas
    && var schema, file := db.schemas[select.table], FileOf(db, select.table);
       && Scan(file, 0, |schema|).Some? && response.SelectDone? && response.result.Ok?
       && response.result.value.columns == (if select.all then schema else select.columns)
       && Answers(schema, select, Scan(file, 0, |schema|).value, response.result.value.rows, p)
  }

  lemma RowsExact(db: Db, select: SelectStatement) returns (p: seq<nat>)
    requires DbOk(db) && Verdict(db, Select(select)).None?
    ensures RowsAnswered(db, select, Execute(db, Select(select)).1, p)
  {
    hide DbOk, TableOk, GetOrLoad, ExecSelect, FileOf, LoadRefused, NamesKnown, Answers, Scan;
    TableFound(db, select.table);
    var (loaded, r) := GetOrLoad(db, select.table);
    p := SelectAnswer(Table(r.value, FileOf(loaded, select.table)), select);
  }

  /** An INSERT that succeeds appends one line to the file of its table: a row with every value in its place and, in a
      table with ids, an id that no row had.  Every other file reads as before. */
  lemma InsertStored(db: Db, insert: InsertStatement) returns (row: Row, id: nat)
    requires DbOk(db) && Verdict(db, Insert(insert)).None?
    ensures insert.table in db.schemas
    ensures var schema, file := db.schemas[insert.table], FileOf(db, insert.table);
            var (after, response) := Execute(db, Insert(insert));
            && (if "id" in schema then id < KEY_LIMIT && response == InsertDone(Inserted(Some(id))) && !Stored(schema, file, id)
                else response == InsertDone(Inserted(None)))
            && row != [] && Places(schema, insert, id, row)
            && FileOf(after, insert.table) == file + Join(row) + ['\n']
            && (forall other :: other != insert.table ==> FileOf(after, other) == FileOf(db, other))
  {
    hide DbOk, TableOk, GetOrLoad, ExecInsert, FileOf, Lookup, LoadRefused, Acceptable, Places, Stored, Consistent, WellEnded, Join, FindColumn;
    ErrorExact(db, Insert(insert));
    TableFound(db, insert.table);
    FileEnded(db, insert.table);
    var (loaded, r) := GetOrLoad(db, insert.table);
    var t := Table(r.value, FileOf(loaded, insert.table));
    id := t.rt.nextId;
    row := TableStored(t, insert);
    forall other ensures FileOf(loaded, other) == FileOf(db, other) {
      GetOrLoadSpec(db, insert.table, other);
    }
    forall other ensures FileOf(Store(loaded, insert.table, ExecInsert(t, insert).0), other)
                         == if other == insert.table then ExecInsert(t, insert).0.file else FileOf(loaded, other) {
      FileStored(loaded, insert.table, ExecInsert(t, insert).0, other);
    }
  }

  lemma FileStored(db: Db, name: string, t: Table, other: string)
    ensures FileOf(Store(db, name, t), other) == if other == name then t.file else FileOf(db, other)
  {
  }

  lemma TableStored(t: Table, insert: InsertStatement) returns (row: Row)
    requires TableOk(t.rt, t.file) && WellEnded(t.file) && ExecInsert(t, insert).1.Inserted?
    ensures row != [] && Places(t.rt.schema, insert, t.rt.nextId, row)
    ensures ExecInsert(t, insert).0.file == t.file + Join(row) + ['\n']
    ensures ExecInsert(t, insert).1 == Inserted(if "id" in t.rt.schema then Some(t.rt.nextId) else None)
    ensures "id" in t.rt.schema ==> !Stored(t.rt.schema, t.file, t.rt.nextId)
  {
    hide ExecInsert, Places, Stored, Consistent, WellEnded, Join, FindColumn, Scan;
    row := InsertStores(t, insert);
    ColumnExact(t.rt.schema, "id", 0);
    if t.rt.idColumn >= 0 {
      InsertKeepsConsistent(t, insert);
      NextIdIsNew(t);
      IndexHasStored(t, t.rt.nextId);
    }
  }

  /** In every concurrent run over files that were well ended at the start, each logged statement has the error that the
      state at its place in the order calls for, or it succeeded; and a SELECT that succeeded has its rows. */
  lemma ConcurrentAnswer(s: System, schedule: seq<nat>, i: nat) returns (p: seq<nat>)
    requires Initial(s) && DbOk(s.db) && i < |Run(s, schedule).log|
    ensures var e, before := Run(s, schedule).log[i], Replay(s.db, Run(s, schedule).log[..i]);
            && ErrorOf(e.response) == Verdict(before, e.stmt)
            && (e.stmt.Select? && ErrorOf(e.response).None? ==> RowsAnswered(before, e.stmt.select, e.response, p))
  {
    hide Run, Replay, DbOk, Execute, Verdict, RowsAnswered, ErrorOf, Ahead;
    Linearizable(s, schedule);
    var log := Run(s, schedule).log;
    var before := Replay(s.db, log[..i]);
    assert Execute(before, log[i].stmt).1 == log[i].response;
    ReplayOk(s.db, log[..i]);
    ErrorExact(before, log[i].stmt);
    p := [];
    if log[i].stmt.Select? && Verdict(before, log[i].stmt).None? {
      p := RowsExact(before, log[i].stmt.select);
    }
  }
}
