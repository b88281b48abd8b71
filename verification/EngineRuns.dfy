/** Whole runs of a table: any sequence of statements and restarts of the process. */
module EngineRuns {
  import opened Common
  import opened BPTreeGraph
  import opened Decimal
  import opened RowCodec
  import opened DataFile
  import opened Ast
  import opened Engine
  import opened EngineFacts
  import opened EngineAnswers

  /** A table is in the cache, or it is only a schema and a file, as when the process starts. */
  datatype State = Up(t: Table) | Down(schema: Schema, file: string)

  datatype Action = DoInsert(insert: InsertStatement) | DoSelect(select: SelectStatement) | Restart

  function SchemaIn(s: State): Schema {
    if s.Up? then s.t.rt.schema else s.schema
  }

  function FileIn(s: State): string {
    if s.Up? then s.t.file else s.file
  }

  /** Every statement first finds the table in the cache or loads it; a failed load leaves nothing behind. */
  function Open(s: State): Result<Table, Error> {
    match s
    case Up(t) => Ok(t)
    case Down(schema, file) =>
      match Load(schema, file)
      case Ok(rt) => Ok(Table(rt, file))
      case Err(e) => Err(e)
  }

  ghost function Act(s: State, a: Action): (State, Option<InsertOutcome>) {
    match a
    case DoInsert(stmt) =>
      (match Open(s)
       case Err(e) => (s, Some(Refused(e)))
       case Ok(t) => (Up(ExecInsert(t, stmt).0), Some(ExecInsert(t, stmt).1)))
    case DoSelect(_) => (if Open(s).Ok? then Up(Open(s).value) else s, None)
    case Restart => (Down(SchemaIn(s), FileIn(s)), None)
  }

  /** What a SELECT is answered. */
  function Query(s: State, stmt: SelectStatement): Result<QueryResult, Error> {
    match Open(s)
    case Err(e) => Err(e)
    case Ok(t) => ExecSelect(t, stmt)
  }

  function GeneratedBy(outcome: Option<InsertOutcome>): seq<Key> {
    if outcome.Some? && outcome.value.Inserted? && outcome.value.generatedId.Some?
    then [outcome.value.generatedId.value]
    else []
  }

  /** The state after some actions, and the ids they generated, in order. */
  datatype Ran = Ran(state: State, ids: seq<Key>)

  ghost function Run(s: State, actions: seq<Action>): Ran
    decreases |actions|
  {
    if actions == [] then Ran(s, [])
    else
      var before := Run(s, actions[..|actions| - 1]);
      var (next, outcome) := Act(before.state, actions[|actions| - 1]);
      Ran(next, before.ids + GeneratedBy(outcome))
  }

  // ----- The invariant of all states -----

  ghost predicate Sound(s: State) {
    match s
    case Up(t) => Consistent(t)
    case Down(schema, file) => FindColumn(schema, "id") >= 0 && WellEnded(file)
  }

  lemma OpenConsistent(s: State)
    requires Sound(s)
    ensures Open(s).Ok? ==>
      && Consistent(Open(s).value) && Open(s).value.rt.schema == SchemaIn(s) && Open(s).value.file == FileIn(s)
      && Open(s).value.rt.idColumn == FindColumn(SchemaIn(s), "id")
      && (s.Down? ==> Open(s).value.rt.nextId != 0)
    ensures Open(s).Err? ==> s.Down? && Open(s).error == IndexError
  {
    hide Rebuild, WellEnded;
    if s.Down? && Open(s).Ok? {
      LoadConsistent(s.schema, s.file);
      LoadedNextId(s.schema, s.file);
    }
  }

  lemma LoadedNextId(schema: Schema, file: string)
    requires FindColumn(schema, "id") >= 0 && Load(schema, file).Ok?
    ensures Load(schema, file).value.nextId != 0
  {
    hide Rebuild;
  }

  /** A table that was opened stays as it is until an INSERT succeeds, or until the process restarts
      after the last id was handed out: from then on it cannot be opened. */
  lemma ActKeeps(s: State, a: Action)
    requires Sound(s)
    ensures var (next, outcome) := Act(s, a);
            && Sound(next) && SchemaIn(next) == SchemaIn(s)
            && (GeneratedBy(outcome) == [] ==>
                  && FileIn(next) == FileIn(s)
                  && Open(next) == if Open(s).Ok? && a.Restart? && Open(s).value.rt.nextId == 0
                                   then Err(IndexError) else Open(s))
            && (GeneratedBy(outcome) != [] ==>
                  && a.DoInsert? && Open(s).Ok? && Open(s).value.rt.nextId != 0
                  && GeneratedBy(outcome) == [Open(s).value.rt.nextId]
                  && next == Up(Extended(Open(s).value, a.insert)))
  {
    hide Consistent, Load, ExecInsert, WellEnded, FindColumn;
    OpenConsistent(s);
    match a
    case DoInsert(stmt) =>
      if Open(s).Ok? {
        InsertStep(Open(s).value, stmt);
      }
    case DoSelect(_) =>
    case Restart =>
      RestartReloads(s);
  }

  lemma RestartReloads(s: State)
    requires Sound(s)
    ensures Sound(Act(s, Restart).0)
    ensures Open(Act(s, Restart).0)
            == if Open(s).Ok? && Open(s).value.rt.nextId == 0 then Err(IndexError) else Open(s)
  {
    hide Consistent, Load, WellEnded, FindColumn;
    OpenConsistent(s);
    if s.Up? {
      ReloadGivesRuntime(s.t);
      ConsistentSchema(s.t);
    }
  }

  /** The table after a successful INSERT. */
  ghost function Extended(t: Table, stmt: InsertStatement): Table {
    var id := t.rt.nextId;
    var row := PlacedRow(t.rt.schema, t.rt.idColumn, stmt, id);
    Table(t.rt.(index := t.rt.index[id := |t.file|], nextId := (id + 1) % KEY_LIMIT, ready := true),
          if row == [] then t.file else Append(t.file, row))
  }

  lemma InsertStep(t: Table, stmt: InsertStatement)
    requires Consistent(t)
    ensures var (after, outcome) := ExecInsert(t, stmt);
            && Consistent(after)
            && (GeneratedBy(Some(outcome)) == [] ==> after == t)
            && (GeneratedBy(Some(outcome)) != [] ==>
                  GeneratedBy(Some(outcome)) == [t.rt.nextId] && t.rt.nextId != 0 && after == Extended(t, stmt))
  {
    hide Consistent, Append, PlacedRow, Fits;
    ConsistentSchema(t);
    InsertKeepsConsistent(t, stmt);
    NextIdIsNew(t);
  }

  lemma ConsistentSchema(t: Table)
    requires Consistent(t)
    ensures t.rt.schema != [] && 0 <= t.rt.idColumn < |t.rt.schema| && t.rt.ready && WellEnded(t.file)
    ensures t.rt.idColumn == FindColumn(t.rt.schema, "id")
  {
  }

  // ----- Runs -----

  lemma RunLast(s: State, actions: seq<Action>, a: Action)
    ensures var before, after := Run(s, actions), Run(s, actions + [a]);
            && after.state == Act(before.state, a).0
            && after.ids == before.ids + GeneratedBy(Act(before.state, a).1)
  {
    assert (actions + [a])[..|actions|] == actions;
  }

  lemma RunNothing(s: State)
    ensures Run(s, []) == Ran(s, [])
  {
  }

  /** Nothing happens to a table that cannot be opened. */
  lemma {:induction false} ClosedStays(s: State, actions: seq<Action>)
    requires Sound(s) && Open(s).Err?
    ensures Run(s, actions) == Ran(s, [])
    decreases |actions|
  {
    hide Sound, Open;
    if actions != [] {
      var n := |actions| - 1;
      ClosedStays(s, actions[..n]);
      ClosedAct(s, actions[n]);
    }
  }

  lemma ClosedAct(s: State, a: Action)
    requires Sound(s) && Open(s).Err?
    ensures Act(s, a).0 == s && GeneratedBy(Act(s, a).1) == []
    ensures a.DoInsert? ==> Act(s, a).1 == Some(Refused(IndexError))
    ensures forall q :: Query(s, q) == Err(IndexError)
  {
    hide Load, Sound;
    OpenConsistent(s);
  }

  /** What a run has done so far to a table that could be opened at its start: the ids are consecutive from
      the next id on and never wrap around, the file and the index have only grown, and the next id has moved
      on by the number of ids. */
  ghost predicate Progress(t: Table, r: Ran) {
    && Sound(r.state) && SchemaIn(r.state) == t.rt.schema && t.file <= FileIn(r.state)
    && (forall i :: 0 <= i < |r.ids| ==> r.ids[i] == t.rt.nextId + i)
    && (t.rt.nextId == 0 ==> r.ids == [])
    && t.rt.nextId + |r.ids| <= KEY_LIMIT
    && (Open(r.state).Ok? ==>
          && Open(r.state).value.rt.nextId == (t.rt.nextId + |r.ids|) % KEY_LIMIT
          && forall id :: id in t.rt.index ==>
               id in Open(r.state).value.rt.index && Open(r.state).value.rt.index[id] == t.rt.index[id])
  }

  lemma ProgressStep(t: Table, r: Ran, a: Action)
    requires Consistent(t) && Progress(t, r)
    ensures Progress(t, Ran(Act(r.state, a).0, r.ids + GeneratedBy(Act(r.state, a).1)))
  {
    hide Sound, Act, SchemaIn, FileIn, Consistent, Extended, GeneratedBy;
    ActKeeps(r.state, a);
    var (next, outcome) := Act(r.state, a);
    var ids := GeneratedBy(outcome);
    if ids == [] {
      assert r.ids + ids == r.ids;
    } else {
      ProgressInsert(t, r, a.insert);
    }
  }

  /** A successful INSERT moves the table on. */
  lemma ExtendedFacts(t: Table, stmt: InsertStatement)
    requires Consistent(t) && t.rt.nextId != 0
    ensures var next := Extended(t, stmt);
            && t.file <= next.file && next.rt.schema == t.rt.schema && next.rt.idColumn == t.rt.idColumn
            && next.rt.nextId == (if t.rt.nextId == UINT64_MAX then 0 else t.rt.nextId + 1)
            && t.rt.nextId !in t.rt.index && next.rt.index == t.rt.index[t.rt.nextId := |t.file|]
  {
    hide Consistent, PlacedRow, Append;
    ConsistentSchema(t);
    NextIdIsNew(t);
    SmallMod(t.rt.nextId + 1);
    AppendTail(t.file, PlacedRow(t.rt.schema, t.rt.idColumn, stmt, t.rt.nextId));
  }

  lemma ProgressInsert(t: Table, r: Ran, stmt: InsertStatement)
    requires Consistent(t) && Progress(t, r) && Open(r.state).Ok? && Open(r.state).value.rt.nextId != 0
    requires Sound(Up(Extended(Open(r.state).value, stmt)))
    ensures var now := Open(r.state).value;
            Progress(t, Ran(Up(Extended(now, stmt)), r.ids + [now.rt.nextId]))
  {
    hide Consistent, Extended, Load;
    OpenConsistent(r.state);
    var now := Open(r.state).value;
    ExtendedFacts(now, stmt);
    SmallMod(t.rt.nextId + |r.ids|);
    SmallMod(t.rt.nextId + |r.ids| + 1);
  }

  lemma SmallMod(n: nat)
    requires n <= KEY_LIMIT
    ensures n % KEY_LIMIT == if n == KEY_LIMIT then 0 else n
  {
  }

  lemma {:induction false} RunProgress(s: State, actions: seq<Action>)
    requires Sound(s) && Open(s).Ok?
    ensures Progress(Open(s).value, Run(s, actions))
    decreases |actions|
  {
    hide Act, Progress;
    OpenConsistent(s);
    if actions == [] {
      NoProgress(s);
    } else {
      var n := |actions| - 1;
      RunProgress(s, actions[..n]);
      ProgressStep(Open(s).value, Run(s, actions[..n]), actions[n]);
    }
  }

  lemma NoProgress(s: State)
    requires Sound(s) && Open(s).Ok?
    ensures Progress(Open(s).value, Ran(s, []))
  {
    hide Consistent, Load;
    OpenConsistent(s);
    SmallMod(Open(s).value.rt.nextId);
  }

  // ----- What holds after every run from a load -----

  /** A file that can be loaded. */
  ghost predicate Loadable(schema: Schema, file: string) {
    FindColumn(schema, "id") >= 0 && WellEnded(file) && Load(schema, file).Ok?
  }

  /** The process was restarted at some time after the last id had been handed out. */
  ghost predicate RestartAfterLast(s: State, actions: seq<Action>) {
    exists k :: 0 <= k < |actions| && LastThenRestart(s, actions, k)
  }

  ghost predicate LastThenRestart(s: State, actions: seq<Action>, k: nat)
    requires k < |actions|
  {
    actions[k].Restart? && UINT64_MAX in Run(s, actions[..k]).ids
  }

  lemma RestartAfterLastSnoc(s: State, actions: seq<Action>)
    requires actions != []
    ensures var n := |actions| - 1;
            RestartAfterLast(s, actions) <==> RestartAfterLast(s, actions[..n]) || LastThenRestart(s, actions, n)
  {
    hide Run;
    var n := |actions| - 1;
    var front := actions[..n];
    forall k | 0 <= k < n ensures LastThenRestart(s, front, k) <==> LastThenRestart(s, actions, k) {
      assert front[..k] == actions[..k];
    }
    if RestartAfterLast(s, front) {
      var k :| 0 <= k < n && LastThenRestart(s, front, k);
      assert LastThenRestart(s, actions, k);
    }
  }

  /** The last id was handed out just when the next id is zero. */
  lemma LastIdHanded(t: Table, r: Ran)
    requires Progress(t, r) && t.rt.nextId != 0
    ensures UINT64_MAX in r.ids <==> t.rt.nextId + |r.ids| == KEY_LIMIT
    ensures Open(r.state).Ok? ==> (UINT64_MAX in r.ids <==> Open(r.state).value.rt.nextId == 0)
  {
    hide Open, Sound;
    SmallMod(t.rt.nextId + |r.ids|);
    if t.rt.nextId + |r.ids| == KEY_LIMIT {
      assert r.ids[|r.ids| - 1] == UINT64_MAX;
    }
  }

  /** The table can be opened at the end of a run exactly when no restart came after the last id. */
  lemma {:induction false} OpenExact(schema: Schema, file: string, actions: seq<Action>)
    requires Loadable(schema, file)
    ensures var s := Down(schema, file);
            && Progress(Open(s).value, Run(s, actions))
            && (Open(Run(s, actions).state).Err? <==> RestartAfterLast(s, actions))
            && (RestartAfterLast(s, actions) ==> UINT64_MAX in Run(s, actions).ids)
    decreases |actions|
  {
    hide Act, Progress, RestartAfterLast, Load, WellEnded, FindColumn;
    var s := Down(schema, file);
    RunProgress(s, actions);
    if actions == [] {
      assert !RestartAfterLast(s, actions) by { NoRestart(s); }
    } else {
      var n := |actions| - 1;
      OpenExact(schema, file, actions[..n]);
      RestartAfterLastSnoc(s, actions);
      OpenExactStep(s, actions);
    }
  }

  lemma NoRestart(s: State)
    ensures !RestartAfterLast(s, [])
  {
  }

  lemma OpenExactStep(s: State, actions: seq<Action>)
    requires Sound(s) && s.Down? && Open(s).Ok? && actions != []
    requires var front := actions[..|actions| - 1];
             && Progress(Open(s).value, Run(s, front))
             && (Open(Run(s, front).state).Err? ==> UINT64_MAX in Run(s, front).ids)
    ensures var n := |actions| - 1;
            && (Open(Run(s, actions).state).Err? <==>
                  Open(Run(s, actions[..n]).state).Err? || LastThenRestart(s, actions, n))
            && (UINT64_MAX in Run(s, actions[..n]).ids ==> UINT64_MAX in Run(s, actions).ids)
  {
    hide Act, Progress, Sound, Load, Extended;
    var n := |actions| - 1;
    var before := Run(s, actions[..n]);
    OpenConsistent(s);
    ProgressSound(Open(s).value, before);
    LastIdHanded(Open(s).value, before);
    ActKeeps(before.state, actions[n]);
  }

  lemma ProgressSound(t: Table, r: Ran)
    requires Progress(t, r)
    ensures Sound(r.state) && SchemaIn(r.state) == t.rt.schema && t.file <= FileIn(r.state)
  {
  }

  /** Rebuild equals live.  After any run from a load, loading the file afresh gives the index and the next id
      that are kept in memory, unless the last id has been handed out, in which case it is refused. */
  lemma RebuildEqualsLive(schema: Schema, file: string, actions: seq<Action>)
    requires Loadable(schema, file)
    ensures var r := Run(Down(schema, file), actions);
            && Load(schema, FileIn(r.state)).Err? == (UINT64_MAX in r.ids)
            && (r.state.Up? ==> Load(schema, FileIn(r.state)) ==
                                if r.state.t.rt.nextId == 0 then Err(IndexError) else Ok(r.state.t.rt))
  {
    hide Run, Load, RestartAfterLast, WellEnded, FindColumn, Consistent;
    var s := Down(schema, file);
    var r := Run(s, actions);
    OpenExact(schema, file, actions);
    OpenConsistent(s);
    LastIdHanded(Open(s).value, r);
    OpenConsistent(r.state);
    if r.state.Up? {
      ReloadGivesRuntime(r.state.t);
    }
  }

  /** Index equals scan.  After any run from a load, a SELECT that the index can serve gets from it the columns
      and the rows that a full scan of the file gives. */
  lemma IndexEqualsScanInRuns(schema: Schema, file: string, actions: seq<Action>, stmt: SelectStatement)
    requires Loadable(schema, file)
    ensures var r := Run(Down(schema, file), actions);
            Open(r.state).Ok? && ValidSelect(schema, stmt) ==>
              Query(r.state, stmt) == FullScan(Open(r.state).value, stmt)
  {
    hide Run, Load, RestartAfterLast, WellEnded, FindColumn, Consistent, FullScan, IndexLookup, ValidSelect;
    var r := Run(Down(schema, file), actions);
    OpenExact(schema, file, actions);
    OpenConsistent(Down(schema, file));
    OpenConsistent(r.state);
    if Open(r.state).Ok? && IndexKey(Open(r.state).value.rt, stmt).Some? {
      IndexEqualsScan(Open(r.state).value, stmt, IndexKey(Open(r.state).value.rt, stmt).value);
    }
  }

  /** Over any run the generated ids are consecutive, start after the largest stored id, and never wrap around. */
  lemma RunIds(schema: Schema, file: string, actions: seq<Action>)
    requires Loadable(schema, file)
    ensures var rt, ids := Load(schema, file).value, Run(Down(schema, file), actions).ids;
            && (forall i :: 0 <= i < |ids| ==> ids[i] == rt.nextId + i)
            && rt.nextId + |ids| <= KEY_LIMIT
            && (forall i, id :: 0 <= i < |ids| && id in rt.index ==> id < ids[i])
  {
    hide Run, Load, Sound, WellEnded, FindColumn, Consistent;
    var s := Down(schema, file);
    DownSound(schema, file);
    RunProgress(s, actions);
    OpenConsistent(s);
    NextIdIsNew(Open(s).value);
  }

  lemma DownSound(schema: Schema, file: string)
    requires FindColumn(schema, "id") >= 0 && WellEnded(file)
    ensures Sound(Down(schema, file))
  {
  }

  lemma {:induction false} RunConcat(s: State, first: seq<Action>, later: seq<Action>)
    ensures Run(s, first + later).state == Run(Run(s, first).state, later).state
    ensures Run(s, first + later).ids == Run(s, first).ids + Run(Run(s, first).state, later).ids
    decreases |later|
  {
    hide Act, GeneratedBy;
    if later == [] {
      assert first + later == first;
    } else {
      var n := |later| - 1;
      RunConcat(s, first, later[..n]);
      assert (first + later)[..|first| + n] == first + later[..n];
      assert (first + later)[|first| + n] == later[n];
    }
  }

  /** Once the largest id has been handed out no run generates another one or touches the file: an INSERT that
      would fit is refused as an overflow while the process lives, and for want of an index after a restart. */
  lemma ExhaustedRefuses(schema: Schema, file: string, first: seq<Action>, later: seq<Action>, stmt: InsertStatement)
    requires Loadable(schema, file) && UINT64_MAX in Run(Down(schema, file), first).ids
    ensures var s := Down(schema, file);
            var before, now := Run(s, first), Run(s, first + later);
            && now.ids == before.ids && FileIn(now.state) == FileIn(before.state)
            && Act(now.state, DoInsert(stmt)).1
               == Some(Refused(if RestartAfterLast(s, first + later) then IndexError else ExecError))
  {
    hide Run, Load, RestartAfterLast, WellEnded, FindColumn, Consistent, ExecInsert;
    var s := Down(schema, file);
    var before, now := Run(s, first), Run(s, first + later);
    OpenExact(schema, file, first);
    OpenExact(schema, file, first + later);
    OpenConsistent(s);
    OpenConsistent(now.state);
    RunConcat(s, first, later);
    LastIdHanded(Open(s).value, before);
    LastIdHanded(Open(s).value, now);
    assert now.ids == before.ids;
    SpentRun(before.state, later);
    if Open(now.state).Ok? {
      InsertKeepsConsistent(Open(now.state).value, stmt);
    }
  }

  /** Without ids left a run changes no file. */
  lemma {:induction false} SpentRun(s: State, actions: seq<Action>)
    requires Sound(s) && Run(s, actions).ids == []
    ensures Sound(Run(s, actions).state) && FileIn(Run(s, actions).state) == FileIn(s)
    decreases |actions|
  {
    hide Act, GeneratedBy, Sound, FileIn, Open, SchemaIn;
    if actions != [] {
      var n := |actions| - 1;
      SpentRun(s, actions[..n]);
      ActKeeps(Run(s, actions[..n]).state, actions[n]);
    }
  }

  // ----- Read your writes -----

  function SelectById(table: string, value: Literal): SelectStatement {
    SelectStatement(table, true, [], Where("id", value))
  }

  lemma ReadRowKept(file: string, later: string, offset: nat, count: nat)
    requires WellEnded(file) && file <= later && offset < |file|
    ensures ReadRow(later, offset, count) == ReadRow(file, offset, count)
  {
    assert later == file + later[|file|..];
    ReadLineKept(file, later[|file|..], offset);
  }

  /** Projecting everything is the row itself. */
  lemma ProjectAll(schema: Schema, stmt: SelectStatement, row: Row)
    requires stmt.all && |row| == |schema|
    ensures Project(schema, stmt, row) == row
  {
  }

  lemma AppendLonger(file: string, row: Row)
    requires row != []
    ensures |file| < |Append(file, row)|
  {
  }

  /** The table `now` still has what an INSERT into `t` has written: the file has only been extended and the index
      entry is the same. */
  ghost predicate Holds(t: Table, stmt: InsertStatement, now: Table) {
    && now.rt.schema == t.rt.schema && Extended(t, stmt).file <= now.file
    && t.rt.nextId in now.rt.index && now.rt.index[t.rt.nextId] == |t.file|
  }

  lemma HeldRowStored(t: Table, stmt: InsertStatement, now: Table)
    requires Consistent(t) && t.rt.nextId != 0 && Holds(t, stmt, now)
    ensures var row := PlacedRow(t.rt.schema, t.rt.idColumn, stmt, t.rt.nextId);
            ReadRow(now.file, |t.file|, |t.rt.schema|) == Some(DropCr(row)) && |DropCr(row)| == |t.rt.schema|
  {
    hide Consistent, DropCr, PlacedRow, Append, ReadRow, WellEnded, FindColumn;
    ConsistentSchema(t);
    var row := PlacedRow(t.rt.schema, t.rt.idColumn, stmt, t.rt.nextId);
    AppendedRow(t.file, row);
    AppendLonger(t.file, row);
    AppendTail(t.file, row);
    ReadRowKept(Append(t.file, row), now.file, |t.file|, |t.rt.schema|);
  }

  /** The statement asks for the row with the id g, under names that exist. */
  ghost predicate AsksFor(query: SelectStatement, schema: Schema, g: nat) {
    && query.filter.Where? && query.filter.column == "id" && query.filter.value.text == Print(g)
    && NamesKnown(schema, query)
  }

  /** The answer is one row, and it shows what was asked for of the given row. */
  ghost predicate IsRow(answer: Result<QueryResult, Error>, schema: Schema, query: SelectStatement, row: Row) {
    && answer.Ok? && answer.value.columns == (if query.all then schema else query.columns)
    && |answer.value.rows| == 1 && Shows(schema, query, row, answer.value.rows[0])
  }

  /** Then a SELECT with the id of that row, as a number or in quotes, returns exactly what it asks for of the row, of
      which at most a final carriage return is lost. */
  lemma HeldRowReads(t: Table, stmt: InsertStatement, now: Table, query: SelectStatement)
    requires Consistent(t) && ExecInsert(t, stmt).1.Inserted? && Consistent(now) && Holds(t, stmt, now)
    requires AsksFor(query, t.rt.schema, t.rt.nextId)
    ensures IsRow(ExecSelect(now, query), t.rt.schema, query, DropCr(PlacedRow(t.rt.schema, t.rt.idColumn, stmt, t.rt.nextId)))
  {
    hide Consistent, Project, DropCr, PlacedRow, Extended, ReadRow, FindColumn, ExecInsert, ParseId, IdOf, Fits, Print, Shows, NamesKnown, ValidSelect;
    ConsistentSchema(t);
    ConsistentSchema(now);
    InsertKeepsConsistent(t, stmt);
    var id := t.rt.nextId;
    var row := PlacedRow(t.rt.schema, t.rt.idColumn, stmt, id);
    ParseIdExact(query.filter.value.text, id);
    HeldRowStored(t, stmt, now);
    PlacedRowId(t.rt, stmt);
    TextIsNumber(DropCr(row), t.rt.idColumn, query.filter.value.text, id);
    ValidExact(t.rt.schema, query);
    ProjectShows(t.rt.schema, query, DropCr(row));
  }

  /** A run keeps it, as long as the table can be opened. */
  lemma {:induction false} RunHolds(t: Table, stmt: InsertStatement, later: seq<Action>)
    requires Consistent(t) && ExecInsert(t, stmt).1.Inserted?
    ensures var s := Up(ExecInsert(t, stmt).0);
            && Sound(s) && Progress(s.t, Run(s, later))
            && (Open(Run(s, later).state).Ok? ==> Holds(t, stmt, Open(Run(s, later).state).value))
  {
    hide Consistent, ExecInsert, Run, Extended, Load;
    InsertStep(t, stmt);
    InsertKeepsConsistent(t, stmt);
    ExtendedFacts(t, stmt);
    var s := Up(ExecInsert(t, stmt).0);
    RunProgress(s, later);
    OpenConsistent(Run(s, later).state);
  }

  /** Read your writes.  After an INSERT has returned an id, in any run from a load, a SELECT with that id is answered
      with what it asks for of the row that was given if and only if no restart came after the last id; otherwise the
      table cannot be opened any more.  The row has every value in its place, and nothing anywhere else. */
  lemma ReadYourWrites(schema: Schema, file: string, before: seq<Action>, stmt: InsertStatement, later: seq<Action>,
                       g: Key, query: SelectStatement)
    requires Loadable(schema, file) && AsksFor(query, schema, g)
    requires Act(Run(Down(schema, file), before).state, DoInsert(stmt)).1 == Some(Inserted(Some(g)))
    ensures var s, actions := Down(schema, file), before + [DoInsert(stmt)] + later;
            var row := PlacedRow(schema, FindColumn(schema, "id"), stmt, g);
            var answer := Query(Run(s, actions).state, query);
            && row != [] && Places(schema, stmt, g, row)
            && if RestartAfterLast(s, actions) then answer == Err(IndexError) else IsRow(answer, schema, query, DropCr(row))
  {
    hide Run, Load, RestartAfterLast, WellEnded, FindColumn, Consistent, ExecInsert, ExecSelect, PlacedRow, DropCr, Holds, Places, AsksFor, IsRow, Fits, Acceptable;
    var s, actions := Down(schema, file), before + [DoInsert(stmt)] + later;
    var mid := Run(s, before).state;
    OpenExact(schema, file, before);
    OpenExact(schema, file, actions);
    OpenConsistent(s);
    OpenConsistent(mid);
    var t := Open(mid).value;
    ConsistentSchema(t);
    InsertKeepsConsistent(t, stmt);
    FitsExact(schema, stmt);
    PlacedRowPlaces(schema, stmt, g);
    RunLast(s, before, DoInsert(stmt));
    RunConcat(s, before + [DoInsert(stmt)], later);
    RunHolds(t, stmt, later);
    OpenConsistent(Run(s, actions).state);
    if Open(Run(s, actions).state).Ok? {
      HeldRowReads(t, stmt, Open(Run(s, actions).state).value, query);
    }
  }

  /** In particular `SELECT c ... WHERE id = g` gives the value that the INSERT named for c: exactly, or without one final
      carriage return if c is the last column. */
  lemma ReadValueBack(schema: Schema, file: string, before: seq<Action>, stmt: InsertStatement, later: seq<Action>,
                      g: Key, query: SelectStatement, k: nat, j: nat)
    requires Loadable(schema, file) && AsksFor(query, schema, g)
    requires Act(Run(Down(schema, file), before).state, DoInsert(stmt)).1 == Some(Inserted(Some(g)))
    requires !RestartAfterLast(Down(schema, file), before + [DoInsert(stmt)] + later)
    requires k < |stmt.columns| && IsColumn(schema, stmt.columns[k], j) && !query.all && query.columns == [stmt.columns[k]]
    ensures k < |stmt.values|
    ensures var v := stmt.values[k].text;
            Query(Run(Down(schema, file), before + [DoInsert(stmt)] + later).state, query)
            == Ok(QueryResult([stmt.columns[k]], [[if j == |schema| - 1 then StripCr(v) else v]]))
  {
    hide Run, Act, Loadable, AsksFor, RestartAfterLast, FindColumn, PlacedRow, StripCr, DropCr, Query, Places, Shows, IsColumn;
    ReadYourWrites(schema, file, before, stmt, later, g, query);
    var row := PlacedRow(schema, FindColumn(schema, "id"), stmt, g);
    var r := Query(Run(Down(schema, file), before + [DoInsert(stmt)] + later).state, query).value;
    ValueShown(schema, stmt, g, row, query, k, j, r.rows[0]);
    assert r.rows == [r.rows[0]];
  }

  lemma ValueShown(schema: Schema, stmt: InsertStatement, g: nat, row: Row, query: SelectStatement, k: nat, j: nat, shown: Row)
    requires row != [] && Places(schema, stmt, g, row) && Shows(schema, query, DropCr(row), shown)
    requires k < |stmt.columns| && IsColumn(schema, stmt.columns[k], j) && !query.all && query.columns == [stmt.columns[k]]
    ensures k < |stmt.values|
    ensures var v := stmt.values[k].text; shown == [if j == |schema| - 1 then StripCr(v) else v]
  {
    hide StripCr, Print;
    assert IsColumn(schema, query.columns[0], j);
    assert shown[0] == DropCr(row)[j];
    assert row[j] == stmt.values[k].text;
  }

  // ----- The input on which reading back fails -----

  /** The file `18446744073709551614|x` with its newline: one id is left. */
  function LastButOne(): (file: string)
    ensures WellEnded(file)
  {
    Append("", [Print(UINT64_MAX - 1), "x"])
  }

  /** A file with one row loads, and the next id follows its id. */
  lemma OneRowLoads(schema: Schema, row: Row, n: Key)
    requires FindColumn(schema, "id") == 0 && |row| == |schema| && row[0] == Print(n) && 1 <= n < UINT64_MAX
    requires DropCr(row) == row
    ensures Load(schema, Append("", row)).Ok? && Load(schema, Append("", row)).value.nextId == n + 1
  {
    hide Scan, Append, Print, FindColumn, DropCr, ParseId;
    AppendedRow("", row);
    ParseIdExact(row[0], n);
    var e := Entry(0, row);
    assert [e][..0] == [] && Build([e][..0], 0) == Some(EMPTY_BUILD);
    assert Build([e], 0) == Some(BuildState(map[n := 0], n, true));
    SmallMod(n + 1);
  }

  lemma LastButOneLoads()
    ensures Loadable(["id", "v"], LastButOne()) && Load(["id", "v"], LastButOne()).value.nextId == UINT64_MAX
  {
    hide Load, Print, Append, WellEnded;
    assert FindColumn(["id", "v"], "id") == 0;
    OneRowLoads(["id", "v"], [Print(UINT64_MAX - 1), "x"], UINT64_MAX - 1);
  }

  lemma LastIdGiven(stmt: InsertStatement)
    requires stmt.columns == [] && |stmt.values| == 1
    ensures var s, a := Down(["id", "v"], LastButOne()), DoInsert(stmt);
            && Act(Run(s, []).state, a).1 == Some(Inserted(Some(UINT64_MAX))) && Run(s, [a]).ids == [UINT64_MAX]
            && RestartAfterLast(s, [] + [a] + [Restart]) && !RestartAfterLast(s, [] + [a] + [])
  {
    hide Load, ExecInsert, ExecSelect, Print, Append, WellEnded, Consistent, Run;
    var s, a := Down(["id", "v"], LastButOne()), DoInsert(stmt);
    LastButOneLoads();
    OpenConsistent(s);
    InsertKeepsConsistent(Open(s).value, stmt);
    RunNothing(s);
    RunLast(s, [], a);
    assert [] + [a] == [a] && [] + [a] + [] == [a] && [] + [a] + [Restart] == [a, Restart] && [a, Restart][..1] == [a];
    assert LastThenRestart(s, [a, Restart], 1);
  }

  /** One INSERT hands out the last id; its row is read back, until a restart after which every SELECT fails. */
  lemma LastIdExample(stmt: InsertStatement, table: string)
    requires stmt.columns == [] && |stmt.values| == 1
    ensures var s, query := Down(["id", "v"], LastButOne()), SelectById(table, NumberLiteral(Print(UINT64_MAX)));
            && Run(s, [DoInsert(stmt)]).ids == [UINT64_MAX]
            && Query(Run(s, [DoInsert(stmt)]).state, query).Ok?
            && Query(Run(s, [DoInsert(stmt), Restart]).state, query) == Err(IndexError)
  {
    hide Load, Act, Query, RestartAfterLast, Print, LastButOne, Run;
    var schema, a := ["id", "v"], DoInsert(stmt);
    LastButOneLoads();
    LastIdGiven(stmt);
    var query := SelectById(table, NumberLiteral(Print(UINT64_MAX)));
    assert schema[0] == "id" && AsksFor(query, schema, UINT64_MAX);
    ReadYourWrites(schema, LastButOne(), [], stmt, [], UINT64_MAX, query);
    ReadYourWrites(schema, LastButOne(), [], stmt, [Restart], UINT64_MAX, query);
    assert [] + [a] + [] == [a] && [] + [a] + [Restart] == [a, Restart];
  }
}
