/** The database as a whole: its indexes agree with its files in every state that concurrent requests
    can bring it to, so every answer is the answer of a full scan. */
module DbConsistency {
  import opened Common
  import opened BPTreeGraph
  import opened Ast
  import opened RowCodec
  import opened DataFile
  import opened Engine
  import opened EngineFacts
  import opened EngineAnswers
  import opened Database
  import opened DbProtocol

  /** A cached table is what its schema and file say. */
  ghost predicate TableOk(rt: Runtime, file: string) {
    && rt.schema != [] && rt.idColumn == FindColumn(rt.schema, "id")
    && (rt.idColumn >= 0 ==> Consistent(Table(rt, file)))
  }

  ghost predicate DbOk(db: Db) {
    && (forall name :: name in db.schemas ==> db.schemas[name] != [])
    && (forall name :: WellEnded(FileOf(db, name)))
    && (forall name :: NameOk(db, name))
  }

  ghost predicate NameOk(db: Db, name: string) {
    var rt := Lookup(db.tables, name);
    rt.Some? ==> TableOk(rt.value, FileOf(db, name)) && name in db.schemas && rt.value.schema == db.schemas[name]
  }

  lemma LoadOk(schema: Schema, file: string)
    requires schema != [] && WellEnded(file) && Load(schema, file).Ok?
    ensures TableOk(Load(schema, file).value, file) && Load(schema, file).value.schema == schema
  {
    if FindColumn(schema, "id") >= 0 {
      LoadConsistent(schema, file);
    }
  }

  lemma GetOrLoadOk(db: Db, name: string)
    requires DbOk(db)
    ensures DbOk(GetOrLoad(db, name).0)
    ensures GetOrLoad(db, name).1.Ok? ==> TableOk(GetOrLoad(db, name).1.value, FileOf(GetOrLoad(db, name).0, name))
    ensures GetOrLoad(db, name).1.Ok? ==> Lookup(GetOrLoad(db, name).0.tables, name) == Some(GetOrLoad(db, name).1.value)
  {
    hide Load, Lookup, FileOf, GetOrLoad, TableOk, WellEnded;
    var (after, r) := GetOrLoad(db, name);
    GetOrLoadSpec(db, name, name);
    assert NameOk(db, name) && WellEnded(FileOf(db, name));
    if r.Ok? && Lookup(db.tables, name).None? {
      LoadOk(db.schemas[name], FileOf(db, name));
    }
    forall other
      ensures WellEnded(FileOf(after, other)) && NameOk(after, other)
    {
      GetOrLoadSpec(db, name, other);
      assert NameOk(db, other) && WellEnded(FileOf(db, other));
    }
  }

  lemma InsertOk(t: Table, insert: InsertStatement)
    requires TableOk(t.rt, t.file) && WellEnded(t.file)
    ensures var after := ExecInsert(t, insert).0;
            TableOk(after.rt, after.file) && WellEnded(after.file) && after.rt.schema == t.rt.schema
  {
    hide Fits, PlacedRow, Rebuild, Join;
    if t.rt.idColumn >= 0 {
      InsertKeepsConsistent(t, insert);
    }
  }

  lemma StoreOk(db: Db, name: string, t: Table)
    requires DbOk(db) && TableOk(t.rt, t.file) && WellEnded(t.file)
    requires Lookup(db.tables, name).Some? && Lookup(db.tables, name).value.schema == t.rt.schema
    ensures DbOk(Store(db, name, t))
  {
    hide Lookup, Replace, TableOk, WellEnded;
    var after := Store(db, name, t);
    forall other
      ensures WellEnded(FileOf(after, other)) && NameOk(after, other)
    {
      LookupReplace(db.tables, name, t.rt, other);
      assert NameOk(db, other) && WellEnded(FileOf(db, other));
    }
  }

  /** Every statement keeps the whole database consistent. */
  lemma ExecuteOk(db: Db, stmt: Statement)
    requires DbOk(db)
    ensures DbOk(Execute(db, stmt).0)
  {
    hide DbOk, TableOk, GetOrLoad, ExecInsert, ExecSelect, Store, FileOf, Lookup, WellEnded;
    var name := if stmt.Select? then stmt.select.table else stmt.insert.table;
    GetOrLoadOk(db, name);
    var (loaded, r) := GetOrLoad(db, name);
    if stmt.Insert? && r.Ok? {
      FileEnded(loaded, name);
      var t := Table(r.value, FileOf(loaded, name));
      InsertOk(t, stmt.insert);
      StoreOk(loaded, name, ExecInsert(t, stmt.insert).0);
    }
  }

  lemma FileEnded(db: Db, name: string)
    requires DbOk(db)
    ensures WellEnded(FileOf(db, name))
  {
  }

  lemma {:induction false} ReplayOk(db: Db, log: seq<LogEntry>)
    requires DbOk(db)
    ensures DbOk(Replay(db, log))
  {
    hide DbOk, Execute;
    if log != [] {
      ReplayOk(db, log[..|log| - 1]);
      ExecuteOk(Replay(db, log[..|log| - 1]), log[|log| - 1].stmt);
    }
  }

  /** A SELECT on a consistent table is answered as a scan would answer it, index or not. */
  lemma SelectIsScan(t: Table, select: SelectStatement)
    requires TableOk(t.rt, t.file) && ValidSelect(t.rt.schema, select)
    ensures ExecSelect(t, select) == FullScan(t, select)
  {
    hide Consistent, FullScan, IndexLookup, FindColumn, ValidSelect;
    if IndexKey(t.rt, select).Some? {
      IndexEqualsScan(t, select, IndexKey(t.rt, select).value);
    }
  }

  /** In any concurrent run over files that were well ended at the start, every SELECT that was answered
      got the answer of a full scan of the sequential state at its place in the order. */
  lemma ConcurrentSelectIsScan(s: System, schedule: seq<nat>, i: nat)
    requires Initial(s) && DbOk(s.db) && i < |Run(s, schedule).log| && Run(s, schedule).log[i].stmt.Select?
    ensures var e := Run(s, schedule).log[i];
            var (db, r) := GetOrLoad(Replay(s.db, Run(s, schedule).log[..i]), e.stmt.select.table);
            r.Ok? && ValidSelect(r.value.schema, e.stmt.select) ==>
              e.response == SelectDone(FullScan(Table(r.value, FileOf(db, e.stmt.select.table)), e.stmt.select))
  {
    hide Run, Replay, DbOk, TableOk, GetOrLoad, ExecSelect, FullScan, FileOf, Lookup, ValidSelect, Ahead;
    Linearizable(s, schedule);
    var log := Run(s, schedule).log;
    var before, select := Replay(s.db, log[..i]), log[i].stmt.select;
    assert Execute(before, log[i].stmt).1 == log[i].response;
    ReplayOk(s.db, log[..i]);
    GetOrLoadOk(before, select.table);
    var (db, r) := GetOrLoad(before, select.table);
    if r.Ok? && ValidSelect(r.value.schema, select) {
      SelectIsScan(Table(r.value, FileOf(db, select.table)), select);
    }
  }

  /** Every SELECT on a consistent table is answered well, through the index or not. */
  lemma SelectAnswer(t: Table, select: SelectStatement) returns (p: seq<nat>)
    requires TableOk(t.rt, t.file)
    ensures AnsweredWell(t, select, ExecSelect(t, select), p)
  {
    hide Consistent, FullScan, FindColumn, IndexKey, IndexLookup, ValidSelect, NamesKnown, Answers, Scan;
    ValidExact(t.rt.schema, select);
    p := FullScanAnswers(t, select);
    ColumnExact(t.rt.schema, "id", 0);
    if ValidSelect(t.rt.schema, select) {
      SelectIsScan(t, select);
    }
    if t.rt.idColumn >= 0 {
      ConsistentScan(t);
    }
  }

  lemma ConsistentScan(t: Table)
    requires Consistent(t)
    ensures Scan(t.file, 0, |t.rt.schema|).Some?
  {
  }
}
