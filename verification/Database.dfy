/** The execution context shared by all requests: the files on disk and the cache of table runtimes,
    and the execution of one statement on it. */
module Database {
  import opened Common
  import opened BPTreeGraph
  import opened Ast
  import opened RowCodec
  import opened DataFile
  import opened Engine

  datatype Cached = Cached(name: string, rt: Runtime)

  /** Schemas never change.  A data file that does not exist yet reads as empty. */
  datatype Db = Db(schemas: map<string, Schema>, files: map<string, string>, tables: seq<Cached>)

  function FileOf(db: Db, name: string): string {
    if name in db.files then db.files[name] else ""
  }

  /** The runtime of a table, by a walk of the cache. */
  function Lookup(tables: seq<Cached>, name: string): Option<Runtime> {
    if tables == [] then None
    else if tables[0].name == name then Some(tables[0].rt)
    else Lookup(tables[1..], name)
  }

  /** The cache with the runtime of a table replaced. */
  function Replace(tables: seq<Cached>, name: string, rt: Runtime): seq<Cached> {
    if tables == [] then []
    else if tables[0].name == name then [Cached(name, rt)] + tables[1..]
    else [tables[0]] + Replace(tables[1..], name, rt)
  }

  /** Finds the runtime of a table or loads it, which creates the data file and grows the cache. */
  function GetOrLoad(db: Db, name: string): (r: (Db, Result<Runtime, Error>))
  {
    match Lookup(db.tables, name)
    case Some(rt) => (db, Ok(rt))
    case None =>
      if name !in db.schemas then (db, Err(SchemaError))
      else
        var touched := db.(files := db.files[name := FileOf(db, name)]);
        match Load(db.schemas[name], FileOf(db, name))
        case Err(_) => (touched, Err(IndexError))
        case Ok(rt) => (touched.(tables := db.tables + [Cached(name, rt)]), Ok(rt))
  }

  datatype Response = InsertDone(outcome: InsertOutcome) | SelectDone(result: Result<QueryResult, Error>)

  /** One statement executed by itself. */
  ghost function Execute(db: Db, stmt: Statement): (Db, Response)
  {
    match stmt
    case Insert(insert) =>
      var (loaded, rt) := GetOrLoad(db, insert.table);
      if rt.Err? then (loaded, InsertDone(Refused(rt.error)))
      else
        var (after, outcome) := ExecInsert(Table(rt.value, FileOf(loaded, insert.table)), insert);
        (Store(loaded, insert.table, after), InsertDone(outcome))
    case Select(select) =>
      var (loaded, rt) := GetOrLoad(db, select.table);
      if rt.Err? then (loaded, SelectDone(Err(rt.error)))
      else (loaded, SelectDone(ExecSelect(Table(rt.value, FileOf(loaded, select.table)), select)))
  }

  /** The database with one table changed. */
  function Store(db: Db, name: string, t: Table): Db {
    db.(files := db.files[name := t.file], tables := Replace(db.tables, name, t.rt))
  }

  // ----- The cache -----

  lemma {:induction false} LookupReplace(tables: seq<Cached>, name: string, rt: Runtime, other: string)
    ensures Lookup(Replace(tables, name, rt), other) ==
      if other == name && Lookup(tables, name).Some? then Some(rt) else Lookup(tables, other)
  {
    if tables != [] {
      var r := Replace(tables, name, rt);
      if tables[0].name == name {
        assert r[1..] == tables[1..];
      } else {
        assert r[1..] == Replace(tables[1..], name, rt);
        LookupReplace(tables[1..], name, rt, other);
      }
    }
  }

  lemma {:induction false} LookupAdd(tables: seq<Cached>, name: string, rt: Runtime, other: string)
    requires Lookup(tables, name) == None
    ensures Lookup(tables + [Cached(name, rt)], other) == if other == name then Some(rt) else Lookup(tables, other)
  {
    if tables != [] {
      assert (tables + [Cached(name, rt)])[1..] == tables[1..] + [Cached(name, rt)];
      LookupAdd(tables[1..], name, rt, other);
    }
  }

  /** After a load the table is in the cache; every other table and every file reads as before. */
  lemma GetOrLoadSpec(db: Db, name: string, other: string)
    ensures var (after, r) := GetOrLoad(db, name);
            && FileOf(after, other) == FileOf(db, other) && after.schemas == db.schemas
            && Lookup(after.tables, other) ==
                 (if other == name && r.Ok? then Some(r.value) else Lookup(db.tables, other))
            && (Lookup(db.tables, name).None? && r.Ok? ==>
                  name in db.schemas && Load(db.schemas[name], FileOf(db, name)) == r)
            && (r.Err? ==>
                  && Lookup(db.tables, name).None?
                  && if name !in db.schemas then r.error == SchemaError && after == db
                     else r.error == IndexError && Load(db.schemas[name], FileOf(db, name)).Err?)
            && (Lookup(db.tables, name).Some? ==> after == db && r == Ok(Lookup(db.tables, name).value))
  {
    hide Load;
    var (after, r) := GetOrLoad(db, name);
    if Lookup(db.tables, name).None? && r.Ok? {
      LookupAdd(db.tables, name, r.value, other);
    }
  }

  lemma LoadedIsCached(db: Db, name: string)
    ensures GetOrLoad(db, name).1.Ok? ==> Lookup(GetOrLoad(db, name).0.tables, name) == Some(GetOrLoad(db, name).1.value)
  {
    GetOrLoadSpec(db, name, name);
  }

  // ----- Two databases that differ only in what has been loaded early -----

  /** `ahead` reads the same files and has everything cached that `db` has; what it has cached besides
      is what loading would give now. */
  ghost predicate Ahead(ahead: Db, db: Db) {
    && ahead.schemas == db.schemas
    && (forall name :: FileOf(ahead, name) == FileOf(db, name))
    && (forall name :: AheadAt(ahead, db, name))
  }

  ghost predicate AheadAt(ahead: Db, db: Db, name: string) {
    var a, b := Lookup(ahead.tables, name), Lookup(db.tables, name);
    || a == b
    || (b == None && name in db.schemas && Load(db.schemas[name], FileOf(db, name)) == Ok(a.value))
  }

  lemma AheadRefl(db: Db)
    ensures Ahead(db, db)
  {
  }

  /** Loading a table early keeps the databases alike. */
  lemma PreloadAhead(ahead: Db, db: Db, name: string)
    requires Ahead(ahead, db)
    ensures Ahead(GetOrLoad(ahead, name).0, db)
  {
    hide Load, Lookup, FileOf, GetOrLoad;
    var after := GetOrLoad(ahead, name).0;
    forall other
      ensures FileOf(after, other) == FileOf(db, other) && AheadAt(after, db, other)
    {
      GetOrLoadSpec(ahead, name, other);
      GetOrLoadSpec(ahead, name, name);
      assert AheadAt(ahead, db, other) && AheadAt(ahead, db, name);
    }
    GetOrLoadSpec(ahead, name, name);
  }

  /** A load finds the same runtime in both. */
  lemma SameRuntime(ahead: Db, db: Db, name: string)
    requires Ahead(ahead, db)
    ensures GetOrLoad(ahead, name).1 == GetOrLoad(db, name).1
    ensures Ahead(GetOrLoad(ahead, name).0, GetOrLoad(db, name).0)
  {
    hide Load, Lookup, FileOf;
    assert AheadAt(ahead, db, name);
    var a, b := GetOrLoad(ahead, name).0, GetOrLoad(db, name).0;
    GetOrLoadSpec(ahead, name, name);
    GetOrLoadSpec(db, name, name);
    forall other
      ensures FileOf(a, other) == FileOf(b, other) && AheadAt(a, b, other)
    {
      GetOrLoadSpec(ahead, name, other);
      GetOrLoadSpec(db, name, other);
      assert AheadAt(ahead, db, other);
    }
  }

  /** Changing the same table in the same way keeps the databases alike. */
  lemma StoreAhead(ahead: Db, db: Db, name: string, t: Table)
    requires Ahead(ahead, db) && Lookup(ahead.tables, name).Some? && Lookup(db.tables, name).Some?
    ensures Ahead(Store(ahead, name, t), Store(db, name, t))
  {
    hide Load, Lookup, Replace;
    var a, b := Store(ahead, name, t), Store(db, name, t);
    forall other
      ensures FileOf(a, other) == FileOf(b, other) && AheadAt(a, b, other)
    {
      assert FileOf(ahead, other) == FileOf(db, other);
      LookupReplace(ahead.tables, name, t.rt, other);
      LookupReplace(db.tables, name, t.rt, other);
      assert AheadAt(ahead, db, other);
    }
  }

  /** Storing a table as it is changes nothing that can be read. */
  lemma StoreSame(ahead: Db, db: Db, name: string, t: Table)
    requires Lookup(ahead.tables, name) == Some(t.rt) && FileOf(ahead, name) == t.file
    requires Ahead(Store(ahead, name, t), db)
    ensures Ahead(ahead, db)
  {
    hide Load, Lookup, Replace;
    var a := Store(ahead, name, t);
    forall other
      ensures FileOf(ahead, other) == FileOf(db, other) && AheadAt(ahead, db, other)
    {
      assert FileOf(a, other) == FileOf(db, other);
      LookupReplace(ahead.tables, name, t.rt, other);
      assert AheadAt(a, db, other);
    }
  }

  /** A failed load is the answer in both, for either kind of statement. */
  lemma FailAhead(ahead: Db, db: Db, stmt: Statement)
    requires Ahead(ahead, db)
    ensures var name := if stmt.Select? then stmt.select.table else stmt.insert.table;
            var (after, r) := GetOrLoad(ahead, name);
            r.Err? ==>
              && Execute(db, stmt).1 == (if stmt.Select? then SelectDone(Err(r.error)) else InsertDone(Refused(r.error)))
              && Ahead(after, Execute(db, stmt).0)
  {
    hide Load, Lookup, GetOrLoad, ExecInsert, ExecSelect, Ahead, Store;
    var name := if stmt.Select? then stmt.select.table else stmt.insert.table;
    SameRuntime(ahead, db, name);
  }

  /** A SELECT on a loaded table gets the answer that it would get by itself, and changes nothing. */
  lemma SelectAhead(ahead: Db, db: Db, select: SelectStatement, rt: Runtime)
    requires Ahead(ahead, db) && Lookup(ahead.tables, select.table) == Some(rt)
    ensures Execute(db, Select(select)).1 == SelectDone(ExecSelect(Table(rt, FileOf(ahead, select.table)), select))
    ensures Ahead(ahead, Execute(db, Select(select)).0)
  {
    hide Load, Lookup, ExecSelect;
    var name := select.table;
    SameRuntime(ahead, db, name);
    GetOrLoadSpec(ahead, name, name);
    GetOrLoadSpec(db, name, name);
  }

  /** An INSERT on a loaded table gets the answer and has the effect that it would have by itself. */
  lemma InsertAhead(ahead: Db, db: Db, insert: InsertStatement, rt: Runtime)
    requires Ahead(ahead, db) && Lookup(ahead.tables, insert.table) == Some(rt)
    ensures var (after, outcome) := ExecInsert(Table(rt, FileOf(ahead, insert.table)), insert);
            && Execute(db, Insert(insert)).1 == InsertDone(outcome)
            && Ahead(Store(ahead, insert.table, after), Execute(db, Insert(insert)).0)
  {
    hide Load, Lookup, ExecInsert, Store;
    var name := insert.table;
    SameRuntime(ahead, db, name);
    GetOrLoadSpec(ahead, name, name);
    GetOrLoadSpec(db, name, name);
    var loaded := GetOrLoad(db, name).0;
    StoreAhead(ahead, loaded, name, ExecInsert(Table(rt, FileOf(ahead, name)), insert).0);
  }
}
