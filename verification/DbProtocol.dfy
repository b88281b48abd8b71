/** Requests that run concurrently on one database under a readers-writer lock.

    A SELECT has two critical sections: it loads its table under the write lock and then
    executes under the read lock.  An INSERT has one, under the write lock.  Between taking
    and releasing a lock a request takes several steps, and the steps of different requests
    interleave in any order.  Every run is shown to be equivalent to executing the statements
    one at a time. */
module DbProtocol {
  import opened Common
  import opened BPTreeGraph
  import opened Ast
  import opened RowCodec
  import opened DataFile
  import opened Engine
  import opened Database

  /** How far a request has got. */
  datatype Pc =
    | NotStarted(stmt: Statement)
    // SELECT, under the write lock
    | WantPreload(select: SelectStatement)
    | InPreload(select: SelectStatement)
    | LeavePreload(select: SelectStatement, failure: Option<Response>)
    // SELECT, under the read lock
    | WantRead(select: SelectStatement)
    | InRead(select: SelectStatement)
    | Found(select: SelectStatement, rt: Runtime)
    | Located(select: SelectStatement, rt: Runtime, id: Key)
    | LeaveRead(response: Response)
    // INSERT, under the write lock
    | WantWrite(insert: InsertStatement)
    | InWrite(insert: InsertStatement)
    | Prepared(insert: InsertStatement)
    | Appended(insert: InsertStatement, offset: nat, before: Db)
    | LeaveWrite(response: Response)
    | Done(response: Response)

  datatype LogEntry = LogEntry(thread: nat, stmt: Statement, response: Response)

  /** The shared state.  `log` records each statement at the step that decides its answer, and `spec`
      is the database that results from executing the log one statement at a time. */
  datatype System = System(
    db: Db,
    writer: Option<nat>,
    readers: set<nat>,
    pcs: map<nat, Pc>,
    log: seq<LogEntry>,
    spec: Db)

  /** The request is between taking and releasing the write lock. */
  predicate Writing(pc: Pc) {
    pc.InPreload? || pc.LeavePreload? || pc.InWrite? || pc.Prepared? || pc.Appended? || pc.LeaveWrite?
  }

  predicate Reading(pc: Pc) {
    pc.InRead? || pc.Found? || pc.Located? || pc.LeaveRead?
  }

  /** The answer of the request has been decided. */
  predicate Decided(pc: Pc) {
    (pc.LeavePreload? && pc.failure.Some?) || pc.LeaveRead? || pc.LeaveWrite? || pc.Done?
  }

  function Answer(pc: Pc): Response
    requires Decided(pc)
  {
    if pc.LeavePreload? then pc.failure.value else pc.response
  }

  /** The statement of a request that is still under way. */
  function StmtOf(pc: Pc): Statement
    requires !Decided(pc)
  {
    match pc
    case NotStarted(stmt) => stmt
    case WantPreload(select) => Select(select)
    case InPreload(select) => Select(select)
    case LeavePreload(select, _) => Select(select)
    case WantRead(select) => Select(select)
    case InRead(select) => Select(select)
    case Found(select, _) => Select(select)
    case Located(select, _, _) => Select(select)
    case WantWrite(insert) => Insert(insert)
    case InWrite(insert) => Insert(insert)
    case Prepared(insert) => Insert(insert)
    case Appended(insert, _, _) => Insert(insert)
  }

  /** What one step of a request does to itself, the lock and the database. */
  datatype Change = Change(pc: Pc, writer: Option<nat>, readers: set<nat>, db: Db)

  function Goto(s: System, pc: Pc): Change {
    Change(pc, s.writer, s.readers, s.db)
  }

  predicate WriteLockFree(s: System) {
    s.writer == None && s.readers == {}
  }

  /** The next step of request t; nothing happens while it has to wait for a lock. */
  ghost function Effect(s: System, t: nat): Change
    requires t in s.pcs
  {
    match s.pcs[t]
    case NotStarted(stmt) =>
      Goto(s, if stmt.Select? then WantPreload(stmt.select) else WantWrite(stmt.insert))
    case WantPreload(select) =>
      if WriteLockFree(s) then Goto(s, InPreload(select)).(writer := Some(t)) else Goto(s, s.pcs[t])
    case InPreload(select) => Preload(s, select)
    case LeavePreload(select, failure) =>
      Goto(s, if failure.Some? then Done(failure.value) else WantRead(select)).(writer := None)
    case WantRead(select) =>
      if s.writer == None then Goto(s, InRead(select)).(readers := s.readers + {t}) else Goto(s, s.pcs[t])
    case InRead(select) => Find(s, select)
    case Found(select, rt) => Look(s, select, rt)
    case Located(select, rt, id) =>
      Goto(s, LeaveRead(SelectDone(IndexLookup(Table(rt, FileOf(s.db, select.table)), select, id))))
    case LeaveRead(response) => Goto(s, Done(response)).(readers := s.readers - {t})
    case WantWrite(insert) =>
      if WriteLockFree(s) then Goto(s, InWrite(insert)).(writer := Some(t)) else Goto(s, s.pcs[t])
    case InWrite(insert) => Prepare(s, insert)
    case Prepared(insert) => AppendToFile(s, insert)
    case Appended(insert, offset, before) => AddToIndex(s, insert, offset)
    case LeaveWrite(response) => Goto(s, Done(response)).(writer := None)
    case Done(_) => Goto(s, s.pcs[t])
  }

  /** Loads the table; a failure is the answer. */
  ghost function Preload(s: System, select: SelectStatement): Change {
    var (db, r) := GetOrLoad(s.db, select.table);
    Goto(s, LeavePreload(select, if r.Err? then Some(SelectDone(Err(r.error))) else None)).(db := db)
  }

  /** The executor looks the table up again, and would load it if it were missing. */
  ghost function Find(s: System, select: SelectStatement): Change {
    var (db, r) := GetOrLoad(s.db, select.table);
    Goto(s, if r.Err? then LeaveRead(SelectDone(Err(r.error))) else Found(select, r.value)).(db := db)
  }

  /** Chooses between the index and the full scan, and does the scan. */
  ghost function Look(s: System, select: SelectStatement, rt: Runtime): Change {
    if ValidSelect(rt.schema, select) && IndexKey(rt, select).Some?
    then Goto(s, Located(select, rt, IndexKey(rt, select).value))
    else Goto(s, LeaveRead(SelectDone(ExecSelect(Table(rt, FileOf(s.db, select.table)), select))))
  }

  ghost function Prepare(s: System, insert: InsertStatement): Change {
    var (db, r) := GetOrLoad(s.db, insert.table);
    Goto(s, if r.Err? then LeaveWrite(InsertDone(Refused(r.error))) else Prepared(insert)).(db := db)
  }

  /** Checks the statement and appends the row to the file. */
  ghost function AppendToFile(s: System, insert: InsertStatement): Change {
    var name := insert.table;
    match Lookup(s.db.tables, name)
    case None => Goto(s, Prepared(insert))
    case Some(rt) =>
      var (after, outcome) := ExecInsert(Table(rt, FileOf(s.db, name)), insert);
      if outcome.Refused? && after.file == FileOf(s.db, name) then Goto(s, LeaveWrite(InsertDone(outcome)))
      else
        Goto(s, Appended(insert, |FileOf(s.db, name)|, s.db)).(db := s.db.(files := s.db.files[name := after.file]))
  }

  /** Puts the row into the index and moves the next id on. */
  ghost function AddToIndex(s: System, insert: InsertStatement, offset: nat): Change {
    var name := insert.table;
    match Lookup(s.db.tables, name)
    case None => Goto(s, LeaveWrite(InsertDone(Inserted(None))))
    case Some(rt) =>
      var (after, outcome) := if rt.idColumn < 0 then (rt, Inserted(None)) else IndexInsert(rt, offset);
      Goto(s, LeaveWrite(InsertDone(outcome))).(db := s.db.(tables := Replace(s.db.tables, name, after)))
  }

  /** The step that decides an answer also records it, and the sequential database moves on. */
  ghost function Step(s: System, t: nat): System
    requires t in s.pcs
  {
    var pc, c := s.pcs[t], Effect(s, t);
    var moved := System(c.db, c.writer, c.readers, s.pcs[t := c.pc], s.log, s.spec);
    if Decided(pc) || !Decided(c.pc) then moved
    else moved.(log := s.log + [LogEntry(t, StmtOf(pc), Answer(c.pc))], spec := Execute(s.spec, StmtOf(pc)).0)
  }

  // ----- The invariant -----

  /** The database as the request found it, if it is in the middle of an insert. */
  ghost function Base(db: Db, pc: Pc): Db {
    if pc.Appended? then pc.before else db
  }

  /** The database as it was before the insert that is under way, if one is. */
  ghost function Settled(s: System): Db {
    if s.writer.Some? && s.writer.value in s.pcs then Base(s.db, s.pcs[s.writer.value]) else s.db
  }

  ghost predicate LockOk(s: System) {
    && (s.writer.Some? ==> s.readers == {})
    && (forall t :: t in s.pcs ==> (Writing(s.pcs[t]) <==> s.writer == Some(t)))
    && (forall t :: t in s.pcs ==> (Reading(s.pcs[t]) <==> t in s.readers))
    && (s.writer.Some? ==> s.writer.value in s.pcs)
    && (forall t :: t in s.readers ==> t in s.pcs)
  }

  /** What a request knows about the database at its program point. */
  ghost predicate Knows(db: Db, pc: Pc) {
    match pc
    case LeavePreload(select, None) => Lookup(db.tables, select.table).Some?
    case WantRead(select) => Lookup(db.tables, select.table).Some?
    case InRead(select) => Lookup(db.tables, select.table).Some?
    case Found(select, rt) => Lookup(db.tables, select.table) == Some(rt)
    case Located(select, rt, id) =>
      Lookup(db.tables, select.table) == Some(rt) && ValidSelect(rt.schema, select) && IndexKey(rt, select) == Some(id)
    case Prepared(insert) => Lookup(db.tables, insert.table).Some?
    case Appended(insert, offset, before) => AppendedOk(db, insert, offset, before)
    case _ => true
  }

  ghost predicate AppendedOk(db: Db, insert: InsertStatement, offset: nat, before: Db) {
    var rt := Lookup(before.tables, insert.table);
    && rt.Some? && offset == |FileOf(before, insert.table)|
    && var (after, outcome) := ExecInsert(Table(rt.value, FileOf(before, insert.table)), insert);
       && !(outcome.Refused? && after.file == FileOf(before, insert.table))
       && db == before.(files := before.files[insert.table := after.file])
  }

  /** Executing the statements of the log one after the other. */
  ghost function Replay(db: Db, log: seq<LogEntry>): Db {
    if log == [] then db else Execute(Replay(db, log[..|log| - 1]), log[|log| - 1].stmt).0
  }

  /** Every answer in the log is the one that sequential execution gives at that point. */
  ghost predicate Faithful(db: Db, log: seq<LogEntry>) {
    forall i :: 0 <= i < |log| ==> Execute(Replay(db, log[..i]), log[i].stmt).1 == log[i].response
  }

  ghost predicate Logged(s: System, t: nat) {
    exists i :: 0 <= i < |s.log| && s.log[i].thread == t
  }

  ghost predicate LogOk(s: System, start: Db) {
    && s.spec == Replay(start, s.log) && Faithful(start, s.log)
    && (forall i :: 0 <= i < |s.log| ==>
          s.log[i].thread in s.pcs && Decided(s.pcs[s.log[i].thread]) && Answer(s.pcs[s.log[i].thread]) == s.log[i].response)
    && (forall i, j :: 0 <= i < j < |s.log| ==> s.log[i].thread != s.log[j].thread)
    && (forall t :: t in s.pcs && Decided(s.pcs[t]) ==> Logged(s, t))
  }

  ghost predicate Inv(s: System, start: Db) {
    && LockOk(s)
    && (forall t :: t in s.pcs ==> Knows(s.db, s.pcs[t]))
    && Ahead(Settled(s), s.spec)
    && LogOk(s, start)
  }

  // ----- Every step keeps the invariant -----

  /** How a step may change the sections that a request is in: it enters or leaves with the lock. */
  lemma EffectLocks(s: System, t: nat)
    requires t in s.pcs && LockOk(s)
    ensures var pc, c := s.pcs[t], Effect(s, t);
            && (Writing(c.pc) == Writing(pc) ==> c.writer == s.writer)
            && (Reading(c.pc) == Reading(pc) ==> c.readers == s.readers)
            && (Writing(c.pc) && !Writing(pc) ==> WriteLockFree(s) && c.writer == Some(t) && !c.pc.Appended?)
            && (!Writing(c.pc) && Writing(pc) ==> c.writer == None)
            && (Reading(c.pc) && !Reading(pc) ==> s.writer == None && c.readers == s.readers + {t})
            && (!Reading(c.pc) && Reading(pc) ==> c.readers == s.readers - {t})
            && !(Reading(c.pc) && Writing(c.pc))
  {
    hide GetOrLoad, Execute, ExecInsert, ExecSelect, IndexLookup, IndexInsert, ValidSelect, IndexKey, Lookup, Replace, FileOf;
  }

  /** Locks: a writer is alone, and a request is in a section exactly when it holds the lock. */
  lemma StepLocks(s: System, t: nat)
    requires LockOk(s) && t in s.pcs
    ensures LockOk(Step(s, t))
  {
    hide Effect, Execute;
    EffectLocks(s, t);
  }

  /** An answer never changes once decided. */
  lemma AnswerKept(s: System, t: nat)
    requires t in s.pcs && Decided(s.pcs[t])
    ensures Decided(Effect(s, t).pc) && Answer(Effect(s, t).pc) == Answer(s.pcs[t])
  {
    hide GetOrLoad, Execute, ExecInsert, ExecSelect, IndexLookup, IndexInsert, ValidSelect, IndexKey, Lookup, Replace, FileOf;
  }

  lemma FaithfulExtended(db: Db, log: seq<LogEntry>, e: LogEntry)
    requires Faithful(db, log) && Execute(Replay(db, log), e.stmt).1 == e.response
    ensures Faithful(db, log + [e]) && Replay(db, log + [e]) == Execute(Replay(db, log), e.stmt).0
  {
    hide Execute;
    var longer := log + [e];
    assert longer[..|log|] == log;
    forall i | 0 <= i < |longer|
      ensures Execute(Replay(db, longer[..i]), longer[i].stmt).1 == longer[i].response
    {
      if i < |log| {
        assert longer[..i] == log[..i];
      }
    }
  }

  /** The log stays good: a deciding step records the answer that sequential execution gives. */
  lemma StepLog(s: System, t: nat, start: Db)
    requires LogOk(s, start) && t in s.pcs
    requires !Decided(s.pcs[t]) && Decided(Effect(s, t).pc) ==>
      Execute(s.spec, StmtOf(s.pcs[t])).1 == Answer(Effect(s, t).pc)
    ensures LogOk(Step(s, t), start)
  {
    hide Replay, Faithful, Decided, Answer, Execute, Effect, StmtOf;
    var after := Step(s, t);
    if Decided(s.pcs[t]) {
      AnswerKept(s, t);
    } else if Decided(Effect(s, t).pc) {
      FaithfulExtended(start, s.log, LogEntry(t, StmtOf(s.pcs[t]), Answer(Effect(s, t).pc)));
      assert after.log[|s.log|].thread == t;
    }
    forall u | u in after.pcs && Decided(after.pcs[u])
      ensures Logged(after, u)
    {
      if u != t || Decided(s.pcs[t]) {
        assert Logged(s, u);
        var i :| 0 <= i < |s.log| && s.log[i].thread == u;
        assert after.log[i].thread == u;
      }
    }
  }

  /** Outside the write lock no step changes the database: in particular a SELECT that is past its
      preload finds its table in the cache and never loads it under the read lock. */
  lemma ReadersNeverWrite(s: System, t: nat)
    requires t in s.pcs && Knows(s.db, s.pcs[t]) && !Writing(s.pcs[t])
    ensures Effect(s, t).db == s.db
  {
    hide Execute, ExecInsert, ExecSelect, IndexLookup, IndexInsert, ValidSelect, IndexKey, Lookup, Replace, FileOf, GetOrLoad;
    if s.pcs[t].InRead? {
      GetOrLoadSpec(s.db, s.pcs[t].select.table, s.pcs[t].select.table);
    }
  }

  /** Tables stay in the cache. */
  lemma CacheGrows(s: System, t: nat, name: string)
    requires t in s.pcs && Lookup(s.db.tables, name).Some?
    ensures Lookup(Effect(s, t).db.tables, name).Some?
  {
    hide Execute, ExecInsert, ExecSelect, IndexLookup, IndexInsert, ValidSelect, IndexKey, Lookup, Replace, FileOf, GetOrLoad;
    match s.pcs[t]
    case InPreload(select) => GetOrLoadSpec(s.db, select.table, name);
    case InRead(select) => GetOrLoadSpec(s.db, select.table, name);
    case InWrite(insert) => GetOrLoadSpec(s.db, insert.table, name);
    case Appended(insert, offset, before) =>
      var rt := Lookup(s.db.tables, insert.table);
      if rt.Some? {
        LookupReplace(s.db.tables, insert.table,
                      if rt.value.idColumn < 0 then rt.value else IndexInsert(rt.value, offset).0, name);
      }
    case _ =>
  }

  /** What another request knows still holds after a step of t. */
  lemma OthersKnow(s: System, t: nat, u: nat)
    requires LockOk(s) && t in s.pcs && u in s.pcs && u != t && Knows(s.db, s.pcs[t]) && Knows(s.db, s.pcs[u])
    ensures Knows(Effect(s, t).db, s.pcs[u])
  {
    hide Effect, Lookup, AppendedOk, ValidSelect, IndexKey;
    if !Writing(s.pcs[t]) {
      ReadersNeverWrite(s, t);
    } else if s.pcs[u].WantRead? {
      CacheGrows(s, t, s.pcs[u].select.table);
    }
  }

  /** What a request knows after its own step. */
  lemma OwnKnows(s: System, t: nat)
    requires t in s.pcs && Knows(s.db, s.pcs[t])
    ensures Knows(Effect(s, t).db, Effect(s, t).pc)
  {
    hide Execute, ExecInsert, ExecSelect, IndexLookup, IndexInsert, ValidSelect, IndexKey, Lookup, Replace, GetOrLoad;
    match s.pcs[t]
    case InPreload(select) => LoadedIsCached(s.db, select.table);
    case InRead(select) => LoadedIsCached(s.db, select.table);
    case InWrite(insert) => LoadedIsCached(s.db, insert.table);
    case _ =>
  }

  /** Which database is the settled one before and after a step. */
  lemma SettledStep(s: System, t: nat)
    requires LockOk(s) && t in s.pcs && Knows(s.db, s.pcs[t])
    ensures var pc, c := s.pcs[t], Effect(s, t);
            && (Writing(pc) ==> Settled(s) == Base(s.db, pc) && Settled(Step(s, t)) == Base(c.db, c.pc))
            && (!Writing(pc) ==> Settled(Step(s, t)) == Settled(s))
            && (Reading(pc) ==> Settled(s) == s.db)
  {
    hide Effect, Execute, Lookup, AppendedOk, ValidSelect, IndexKey;
    EffectLocks(s, t);
    if !Writing(s.pcs[t]) {
      ReadersNeverWrite(s, t);
    }
  }

  /** An INSERT is its two halves, one after the other. */
  lemma InsertStages(t: Table, insert: InsertStatement)
    ensures var (after, outcome) := ExecInsert(t, insert);
            if outcome.Refused? && after.file == t.file then after == t
            else (after.rt, outcome) == if t.rt.idColumn < 0 then (t.rt, Inserted(None)) else IndexInsert(t.rt, |t.file|)
  {
    hide Fits, PlacedRow, Join;
  }

  /** What it takes for the sequential database to follow a step of t. */
  ghost predicate Follows(s: System, t: nat)
    requires t in s.pcs
  {
    var pc, c := s.pcs[t], Effect(s, t);
    if !Decided(pc) && Decided(c.pc) then
      && Execute(s.spec, StmtOf(pc)).1 == Answer(c.pc)
      && Ahead(Base(c.db, c.pc), Execute(s.spec, StmtOf(pc)).0)
    else Ahead(Base(c.db, c.pc), s.spec)
  }

  lemma FollowLoads(s: System, t: nat)
    requires t in s.pcs && (s.pcs[t].InPreload? || s.pcs[t].InWrite?) && Ahead(s.db, s.spec)
    ensures Follows(s, t)
  {
    hide GetOrLoad, Execute, Ahead;
    var stmt := StmtOf(s.pcs[t]);
    FailAhead(s.db, s.spec, stmt);
    PreloadAhead(s.db, s.spec, if stmt.Select? then stmt.select.table else stmt.insert.table);
  }

  lemma FollowReads(s: System, t: nat)
    requires t in s.pcs && (s.pcs[t].Found? || s.pcs[t].Located?) && Knows(s.db, s.pcs[t]) && Ahead(s.db, s.spec)
    ensures Follows(s, t)
  {
    hide GetOrLoad, Execute, Ahead, IndexLookup, FullScan, IndexKey, ValidSelect, Lookup, FileOf;
    SelectAhead(s.db, s.spec, s.pcs[t].select, s.pcs[t].rt);
  }

  lemma FollowAppend(s: System, t: nat)
    requires t in s.pcs && s.pcs[t].Prepared? && Knows(s.db, s.pcs[t]) && Ahead(s.db, s.spec)
    ensures Follows(s, t)
  {
    hide GetOrLoad, Execute, Ahead, ExecInsert, Lookup, FileOf, Store;
    var insert := s.pcs[t].insert;
    var rt := Lookup(s.db.tables, insert.table).value;
    var table := Table(rt, FileOf(s.db, insert.table));
    var (after, outcome) := ExecInsert(table, insert);
    InsertAhead(s.db, s.spec, insert, rt);
    InsertStages(table, insert);
    if outcome.Refused? && after.file == table.file {
      StoreSame(s.db, Execute(s.spec, Insert(insert)).0, insert.table, table);
    }
  }

  lemma FollowIndex(s: System, t: nat)
    requires t in s.pcs && s.pcs[t].Appended? && Knows(s.db, s.pcs[t]) && Ahead(s.pcs[t].before, s.spec)
    ensures Follows(s, t)
  {
    hide GetOrLoad, Execute, Ahead, ExecInsert, IndexInsert, Lookup, FileOf, Replace;
    var insert, before := s.pcs[t].insert, s.pcs[t].before;
    var rt := Lookup(before.tables, insert.table).value;
    var table := Table(rt, FileOf(before, insert.table));
    InsertAhead(before, s.spec, insert, rt);
    InsertStages(table, insert);
    assert Effect(s, t).db == Store(before, insert.table, ExecInsert(table, insert).0);
  }

  lemma FollowElse(s: System, t: nat)
    requires t in s.pcs && LockOk(s) && Knows(s.db, s.pcs[t]) && Ahead(Settled(s), s.spec)
    requires var pc := s.pcs[t];
             !(pc.InPreload? || pc.InWrite? || pc.Found? || pc.Located? || pc.Prepared? || pc.Appended?)
    ensures Decided(Effect(s, t).pc) ==> Decided(s.pcs[t])
    ensures Writing(s.pcs[t]) ==> Effect(s, t).db == s.db && !Effect(s, t).pc.Appended?
  {
    hide GetOrLoad, Execute, Ahead, ExecInsert, ExecSelect, IndexLookup, IndexInsert, Lookup, FileOf, Replace;
    if s.pcs[t].InRead? {
      GetOrLoadSpec(s.db, s.pcs[t].select.table, s.pcs[t].select.table);
    }
  }

  /** The sequential database follows every step. */
  lemma StepFollows(s: System, t: nat, start: Db)
    requires Inv(s, start) && t in s.pcs
    ensures !Decided(s.pcs[t]) && Decided(Effect(s, t).pc) ==>
      Execute(s.spec, StmtOf(s.pcs[t])).1 == Answer(Effect(s, t).pc)
    ensures Ahead(Settled(Step(s, t)), Step(s, t).spec)
  {
    hide Effect, Execute, Ahead, LogOk, AppendedOk, Lookup, ValidSelect, IndexKey;
    SettledStep(s, t);
    var pc := s.pcs[t];
    if pc.InPreload? || pc.InWrite? {
      FollowLoads(s, t);
    } else if pc.Found? || pc.Located? {
      FollowReads(s, t);
      ReadersNeverWrite(s, t);
      EffectLocks(s, t);
    } else if pc.Prepared? {
      FollowAppend(s, t);
    } else if pc.Appended? {
      FollowIndex(s, t);
    } else {
      FollowElse(s, t);
    }
  }

  /** Every step of every request keeps the invariant. */
  lemma StepKeepsInv(s: System, t: nat, start: Db)
    requires Inv(s, start) && t in s.pcs
    ensures Inv(Step(s, t), start)
  {
    hide Effect, Execute, Ahead, LogOk, LockOk, Knows, StmtOf, Decided, Answer, Settled;
    StepLocks(s, t);
    StepFollows(s, t, start);
    StepLog(s, t, start);
    var after := Step(s, t);
    forall u | u in after.pcs
      ensures Knows(after.db, after.pcs[u])
    {
      if u == t {
        OwnKnows(s, t);
      } else {
        OthersKnow(s, t, u);
      }
    }
  }

  // ----- Whole runs -----

  /** Requests that have not started, on a database that nobody is using. */
  ghost predicate Initial(s: System) {
    && s.writer == None && s.readers == {} && s.log == [] && s.spec == s.db
    && (forall t :: t in s.pcs ==> s.pcs[t].NotStarted?)
  }

  /** The requests take steps in the given order. */
  ghost function Run(s: System, schedule: seq<nat>): System
    decreases |schedule|
  {
    if schedule == [] then s
    else Run(if schedule[0] in s.pcs then Step(s, schedule[0]) else s, schedule[1..])
  }

  lemma {:induction false} RunConcat(s: System, first: seq<nat>, later: seq<nat>)
    ensures Run(s, first + later) == Run(Run(s, first), later)
    decreases |first|
  {
    hide Step;
    if first == [] {
      assert first + later == later;
    } else {
      assert (first + later)[1..] == first[1..] + later;
      RunConcat(if first[0] in s.pcs then Step(s, first[0]) else s, first[1..], later);
    }
  }

  lemma InitialInv(s: System)
    requires Initial(s)
    ensures Inv(s, s.db)
  {
    AheadRefl(s.db);
  }

  lemma {:induction false} RunKeepsInv(s: System, schedule: seq<nat>, start: Db)
    requires Inv(s, start)
    ensures Inv(Run(s, schedule), start)
    decreases |schedule|
  {
    hide Inv, Step;
    if schedule != [] {
      if schedule[0] in s.pcs {
        StepKeepsInv(s, schedule[0], start);
        RunKeepsInv(Step(s, schedule[0]), schedule[1..], start);
      } else {
        RunKeepsInv(s, schedule[1..], start);
      }
    }
  }

  /** Linearizability.  However the steps interleave, executing the logged statements one at a time
      gives every request the answer it got; each request is logged once at most, and once it is done
      exactly once; and when no insert is under way the files are those of the sequential execution. */
  lemma Linearizable(s: System, schedule: seq<nat>)
    requires Initial(s)
    ensures var after := Run(s, schedule);
            && Faithful(s.db, after.log)
            && (forall i, j :: 0 <= i < j < |after.log| ==> after.log[i].thread != after.log[j].thread)
            && (forall t :: t in after.pcs && after.pcs[t].Done? ==>
                  exists i :: 0 <= i < |after.log| && after.log[i].thread == t && after.log[i].response == after.pcs[t].response)
            && Ahead(Settled(after), Replay(s.db, after.log))
  {
    hide Ahead, Faithful, Replay, Run, Knows, LockOk;
    InitialInv(s);
    RunKeepsInv(s, schedule, s.db);
    var after := Run(s, schedule);
    forall t | t in after.pcs && after.pcs[t].Done?
      ensures exists i :: 0 <= i < |after.log| && after.log[i].thread == t && after.log[i].response == after.pcs[t].response
    {
      assert Logged(after, t);
      var i :| 0 <= i < |after.log| && after.log[i].thread == t;
      assert after.log[i].response == after.pcs[t].response;
    }
  }

  /** Nothing is taken back from the log, so a request that is done before another one starts comes
      before it in the sequential order. */
  lemma {:induction false} LogGrows(s: System, schedule: seq<nat>)
    ensures s.log <= Run(s, schedule).log
    decreases |schedule|
  {
    hide Effect, Execute, StmtOf, Decided, Answer;
    if schedule != [] {
      LogGrows(if schedule[0] in s.pcs then Step(s, schedule[0]) else s, schedule[1..]);
    }
  }

  lemma RealTimeOrder(s: System, first: seq<nat>, later: seq<nat>, a: nat, b: nat)
    requires Initial(s)
    requires var mid := Run(s, first);
             a in mid.pcs && mid.pcs[a].Done? && b in mid.pcs && mid.pcs[b].NotStarted?
    ensures var mid := Run(s, first);
            var log := Run(mid, later).log;
            forall i, j :: 0 <= i < |log| && 0 <= j < |log| && log[i].thread == a && log[j].thread == b ==> i < j
  {
    hide Run, Ahead, Faithful, Replay, Knows, LockOk;
    var mid := Run(s, first);
    InitialInv(s);
    RunKeepsInv(s, first, s.db);
    RunKeepsInv(mid, later, s.db);
    LogGrows(mid, later);
    var log := Run(mid, later).log;
    assert Logged(mid, a);
    var k :| 0 <= k < |mid.log| && mid.log[k].thread == a;
    assert log[k].thread == a;
    assert forall j :: 0 <= j < |mid.log| ==> log[j] == mid.log[j] && log[j].thread != b;
  }

  // ----- From the start of the server -----

  /** Requests arrive at a database on which nothing has run yet. */
  function Start(db: Db, requests: map<nat, Statement>): (s: System) {
    System(db, None, {}, map t | t in requests :: NotStarted(requests[t]), [], db)
  }

  /** A request works on its own statement, and is logged with it. */
  ghost predicate Own(requests: map<nat, Statement>, s: System) {
    && s.pcs.Keys == requests.Keys
    && (forall t :: t in s.pcs && !Decided(s.pcs[t]) ==> StmtOf(s.pcs[t]) == requests[t])
    && (forall i :: 0 <= i < |s.log| ==> s.log[i].thread in requests && s.log[i].stmt == requests[s.log[i].thread])
  }

  lemma EffectOwn(s: System, t: nat)
    requires t in s.pcs
    ensures Decided(s.pcs[t]) ==> Decided(Effect(s, t).pc)
    ensures !Decided(Effect(s, t).pc) ==> StmtOf(Effect(s, t).pc) == StmtOf(s.pcs[t])
  {
    hide GetOrLoad, ExecInsert, ExecSelect, IndexLookup, IndexInsert, ValidSelect, IndexKey, Lookup, Replace, FileOf;
  }

  lemma StepOwn(requests: map<nat, Statement>, s: System, t: nat)
    requires Own(requests, s) && t in s.pcs
    ensures Own(requests, Step(s, t))
  {
    hide Effect, Execute, StmtOf, Decided, Answer;
    EffectOwn(s, t);
  }

  lemma {:induction false} RunOwn(requests: map<nat, Statement>, s: System, schedule: seq<nat>)
    requires Own(requests, s)
    ensures Own(requests, Run(s, schedule))
    decreases |schedule|
  {
    hide Own, Step;
    if schedule != [] {
      if schedule[0] in s.pcs {
        StepOwn(requests, s, schedule[0]);
        RunOwn(requests, Step(s, schedule[0]), schedule[1..]);
      } else {
        RunOwn(requests, s, schedule[1..]);
      }
    }
  }

  /** The whole statement: whatever the requests and the schedule, the log is a sequential execution of
      statements that requests asked for, none twice, and a request that is done is in it with its answer. */
  lemma ServerLinearizable(db: Db, requests: map<nat, Statement>, schedule: seq<nat>)
    ensures var after := Run(Start(db, requests), schedule);
            && Faithful(db, after.log)
            && (forall i :: 0 <= i < |after.log| ==>
                  after.log[i].thread in requests && after.log[i].stmt == requests[after.log[i].thread])
            && (forall i, j :: 0 <= i < j < |after.log| ==> after.log[i].thread != after.log[j].thread)
            && (forall t :: t in requests && t in after.pcs && after.pcs[t].Done? ==>
                  LogEntry(t, requests[t], after.pcs[t].response) in after.log)
  {
    hide Run, Faithful, Ahead, Replay;
    var s := Start(db, requests);
    Linearizable(s, schedule);
    RunOwn(requests, s, schedule);
  }

  /** In every reachable state a request outside the write lock leaves the database as it is, and
      a request that holds the write lock is alone. */
  lemma ReadersNeverWriteInRuns(db: Db, requests: map<nat, Statement>, schedule: seq<nat>, t: nat)
    requires t in requests
    ensures var now := Run(Start(db, requests), schedule);
            && t in now.pcs
            && (!Writing(now.pcs[t]) ==> Effect(now, t).db == now.db)
            && (Writing(now.pcs[t]) ==>
                  now.readers == {} && forall u :: u in now.pcs && u != t ==> !Writing(now.pcs[u]) && !Reading(now.pcs[u]))
  {
    hide Run, Effect, LogOk, Ahead, Knows;
    var s := Start(db, requests);
    InitialInv(s);
    RunKeepsInv(s, schedule, db);
    RunOwn(requests, s, schedule);
    var now := Run(s, schedule);
    if !Writing(now.pcs[t]) {
      ReadersNeverWrite(now, t);
    }
  }
}
