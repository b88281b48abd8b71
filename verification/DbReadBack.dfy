/** A sequential execution of the whole database is, for every table, a run of that table; so what holds for the runs
    of one table holds inside concurrent executions. */
module DbReadBack {
  import opened Common
  import opened BPTreeGraph
  import opened Decimal
  import opened Ast
  import opened RowCodec
  import opened DataFile
  import opened Engine
  import opened EngineFacts
  import EngineAnswers
  import EngineRuns
  import opened Database
  import opened DbProtocol

  type State = EngineRuns.State
  type Action = EngineRuns.Action

  /** What a database has of a table: its runtime if it is cached, else its schema and file. */
  function StateOf(db: Db, name: string): State
    requires name in db.schemas
  {
    match Lookup(db.tables, name)
    case Some(rt) => EngineRuns.Up(Table(rt, FileOf(db, name)))
    case None => EngineRuns.Down(db.schemas[name], FileOf(db, name))
  }

  function TableOf(stmt: Statement): string {
    match stmt
    case Insert(insert) => insert.table
    case Select(select) => select.table
  }

  function ActionOf(stmt: Statement): Action {
    match stmt
    case Insert(insert) => EngineRuns.DoInsert(insert)
    case Select(select) => EngineRuns.DoSelect(select)
  }

  /** What the table answers. */
  ghost function ResponseOf(s: State, stmt: Statement): Response {
    match stmt
    case Insert(insert) =>
      var outcome := EngineRuns.Act(s, EngineRuns.DoInsert(insert)).1;
      InsertDone(if outcome.Some? then outcome.value else Refused(IndexError))
    case Select(select) => SelectDone(EngineRuns.Query(s, select))
  }

  /** Finding or loading a table is opening it. */
  lemma GetOrLoadOpens(db: Db, name: string)
    requires name in db.schemas
    ensures var (loaded, r) := GetOrLoad(db, name);
            var found := EngineRuns.Open(StateOf(db, name));
            && (r.Ok? <==> found.Ok?)
            && (r.Err? ==> r.error == found.error && StateOf(loaded, name) == StateOf(db, name))
            && (r.Ok? ==> found == Ok(Table(r.value, FileOf(loaded, name))) && StateOf(loaded, name) == EngineRuns.Up(found.value))
            && loaded.schemas == db.schemas
  {
    hide Lookup, FileOf;
    GetOrLoadSpec(db, name, name);
  }

  /** A statement acts on its own table as the table's run does, and on no other. */
  lemma ExecuteActs(db: Db, stmt: Statement, name: string)
    requires name in db.schemas
    ensures var (after, response) := Execute(db, stmt);
            && after.schemas == db.schemas
            && StateOf(after, name) == (if TableOf(stmt) == name then EngineRuns.Act(StateOf(db, name), ActionOf(stmt)).0
                                        else StateOf(db, name))
            && (TableOf(stmt) == name ==> response == ResponseOf(StateOf(db, name), stmt))
  {
    hide Load, Lookup, Replace, FileOf, GetOrLoad, ExecInsert, ExecSelect;
    var own := TableOf(stmt);
    GetOrLoadSpec(db, own, own);
    GetOrLoadSpec(db, own, name);
    if own == name {
      GetOrLoadOpens(db, name);
    }
    var (loaded, r) := GetOrLoad(db, own);
    if r.Ok? && stmt.Insert? {
      var t := ExecInsert(Table(r.value, FileOf(loaded, own)), stmt.insert).0;
      StoreState(loaded, own, t, name);
    }
  }

  lemma StoreState(db: Db, own: string, t: Table, name: string)
    requires name in db.schemas && Lookup(db.tables, own).Some?
    ensures Store(db, own, t).schemas == db.schemas
    ensures StateOf(Store(db, own, t), name) == if own == name then EngineRuns.Up(t) else StateOf(db, name)
  {
    LookupReplace(db.tables, own, t.rt, name);
  }

  /** The actions that a log takes on one table. */
  function ActionsOn(log: seq<LogEntry>, name: string): seq<Action> {
    if log == [] then []
    else
      var last := log[|log| - 1].stmt;
      ActionsOn(log[..|log| - 1], name) + (if TableOf(last) == name then [ActionOf(last)] else [])
  }

  lemma {:induction false} ReplayRuns(db: Db, log: seq<LogEntry>, name: string)
    requires name in db.schemas
    ensures Replay(db, log).schemas == db.schemas
    ensures StateOf(Replay(db, log), name) == EngineRuns.Run(StateOf(db, name), ActionsOn(log, name)).state
  {
    hide Execute, StateOf, EngineRuns.Act, EngineRuns.Run, TableOf, ActionOf;
    var s, as_ := StateOf(db, name), ActionsOn(log, name);
    if log == [] {
      EngineRuns.RunNothing(s);
    } else {
      var n := |log| - 1;
      ReplayRuns(db, log[..n], name);
      ExecuteActs(Replay(db, log[..n]), log[n].stmt, name);
      if TableOf(log[n].stmt) == name {
        EngineRuns.RunLast(s, ActionsOn(log[..n], name), ActionOf(log[n].stmt));
      } else {
        assert as_ == ActionsOn(log[..n], name);
      }
    }
  }

  lemma {:induction false} ActionsConcat(log: seq<LogEntry>, i: nat, j: nat, name: string) returns (later: seq<Action>)
    requires i < j <= |log| && TableOf(log[i].stmt) == name
    ensures ActionsOn(log[..j], name) == ActionsOn(log[..i], name) + [ActionOf(log[i].stmt)] + later
    decreases j
  {
    hide TableOf, ActionOf;
    var front := log[..j];
    assert front[..j - 1] == log[..j - 1] && front[j - 1] == log[j - 1];
    if j == i + 1 {
      later := [];
      assert forall x: seq<Action> :: x + [] == x;
    } else {
      var before := ActionsConcat(log, i, j - 1, name);
      var last := if TableOf(log[j - 1].stmt) == name then [ActionOf(log[j - 1].stmt)] else [];
      later := before + last;
    }
  }

  lemma {:induction false} NoRestarts(log: seq<LogEntry>, name: string)
    ensures forall a :: a in ActionsOn(log, name) ==> !a.Restart?
  {
    if log != [] {
      NoRestarts(log[..|log| - 1], name);
    }
  }

  /** The response is one row: what the query asks for of the row with every value of the INSERT in its place. */
  ghost predicate GetsRow(response: Response, schema: Schema, insert: InsertStatement, g: Key, query: SelectStatement) {
    var row := PlacedRow(schema, FindColumn(schema, "id"), insert, g);
    && row != [] && EngineAnswers.Places(schema, insert, g, row)
    && response.SelectDone? && EngineRuns.IsRow(response.result, schema, query, DropCr(row))
  }

  /** In a faithful log, a SELECT by an id that comes after the INSERT that returned the id gets the row. */
  lemma LoggedReadBack(db: Db, log: seq<LogEntry>, i: nat, j: nat, insert: InsertStatement, g: Key, query: SelectStatement)
    requires db.tables == [] && Faithful(db, log) && i < j < |log|
    requires insert.table in db.schemas && FindColumn(db.schemas[insert.table], "id") >= 0
    requires WellEnded(FileOf(db, insert.table))
    requires log[i].stmt == Insert(insert) && log[i].response == InsertDone(Inserted(Some(g)))
    requires log[j].stmt == Select(query) && query.table == insert.table
    requires EngineRuns.AsksFor(query, db.schemas[insert.table], g)
    ensures GetsRow(log[j].response, db.schemas[insert.table], insert, g, query)
  {
    hide EngineRuns.AsksFor, EngineRuns.IsRow, EngineAnswers.Places, Execute, Replay, EngineRuns.Run, EngineRuns.Act, EngineRuns.RestartAfterLast, Load, FindColumn, PlacedRow, DropCr, WellEnded, EngineRuns.Query, ActionsOn;
    var name := insert.table;
    var schema, file, s := db.schemas[name], FileOf(db, name), EngineRuns.Down(db.schemas[name], FileOf(db, name));
    assert StateOf(db, name) == s;
    ReplayRuns(db, log[..i], name);
    ReplayRuns(db, log[..j], name);
    ExecuteActs(Replay(db, log[..i]), log[i].stmt, name);
    ExecuteActs(Replay(db, log[..j]), log[j].stmt, name);
    var before := ActionsOn(log[..i], name);
    var later := ActionsConcat(log, i, j, name);
    var actions := before + [EngineRuns.DoInsert(insert)] + later;
    NoRestarts(log[..j], name);
    NeverRestarted(s, actions);
    LoadedBefore(schema, file, before, insert, g);
    EngineRuns.ReadYourWrites(schema, file, before, insert, later, g, query);
  }

  lemma NeverRestarted(s: State, actions: seq<Action>)
    requires forall a :: a in actions ==> !a.Restart?
    ensures !EngineRuns.RestartAfterLast(s, actions)
  {
    hide EngineRuns.Run;
    forall k | 0 <= k < |actions| ensures !EngineRuns.LastThenRestart(s, actions, k) {
      assert actions[k] in actions;
    }
  }

  /** An INSERT succeeds only in a table that can be loaded. */
  lemma LoadedBefore(schema: Schema, file: string, before: seq<Action>, insert: InsertStatement, g: Key)
    requires FindColumn(schema, "id") >= 0 && WellEnded(file)
    requires EngineRuns.Act(EngineRuns.Run(EngineRuns.Down(schema, file), before).state, EngineRuns.DoInsert(insert)).1
             == Some(Inserted(Some(g)))
    ensures EngineRuns.Loadable(schema, file)
  {
    hide EngineRuns.Run, EngineRuns.Act, Load, FindColumn, WellEnded;
    var s := EngineRuns.Down(schema, file);
    EngineRuns.DownSound(schema, file);
    if EngineRuns.Open(s).Err? {
      EngineRuns.ClosedStays(s, before);
      EngineRuns.ClosedAct(s, EngineRuns.DoInsert(insert));
    }
  }

  /** Read your writes between requests.  Whatever else runs and in whatever order: a SELECT by an id, as a number or in
      quotes, that starts after the INSERT that returned the id is done, is answered with what it asks for of that row. */
  lemma ConcurrentReadBack(db: Db, requests: map<nat, Statement>, first: seq<nat>, later: seq<nat>,
                           a: nat, b: nat, insert: InsertStatement, g: Key, query: SelectStatement)
    requires db.tables == [] && insert.table in db.schemas && FindColumn(db.schemas[insert.table], "id") >= 0
    requires WellEnded(FileOf(db, insert.table))
    requires a in requests && requests[a] == Insert(insert)
    requires b in requests && requests[b] == Select(query) && query.table == insert.table
    requires EngineRuns.AsksFor(query, db.schemas[insert.table], g)
    requires var mid := Run(Start(db, requests), first);
             && a in mid.pcs && mid.pcs[a] == Done(InsertDone(Inserted(Some(g))))
             && b in mid.pcs && mid.pcs[b].NotStarted?
    requires var last := Run(Run(Start(db, requests), first), later); b in last.pcs && last.pcs[b].Done?
    ensures GetsRow(Run(Run(Start(db, requests), first), later).pcs[b].response, db.schemas[insert.table], insert, g, query)
  {
    hide GetsRow, EngineRuns.AsksFor, Run, Faithful, FindColumn, PlacedRow, DropCr, WellEnded, FileOf;
    var s := Start(db, requests);
    var mid := Run(s, first);
    var last := Run(mid, later);
    ServerLinearizable(db, requests, first);
    ServerLinearizable(db, requests, first + later);
    RunConcat(s, first, later);
    LogGrows(mid, later);
    RealTimeOrder(s, first, later, a, b);
    var i :| 0 <= i < |mid.log| && mid.log[i] == LogEntry(a, requests[a], mid.pcs[a].response);
    var j :| 0 <= j < |last.log| && last.log[j] == LogEntry(b, requests[b], last.pcs[b].response);
    assert last.log[i] == mid.log[i];
    LoggedReadBack(db, last.log, i, j, insert, g, query);
  }
}
