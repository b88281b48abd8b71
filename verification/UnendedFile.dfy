/** Tables loaded from a file that need not end in a newline: the first row appended continues its last line.
    What then still holds, exactly. */
module UnendedFile {
  import opened Common
  import opened BPTreeGraph
  import opened Decimal
  import opened RowCodec
  import opened DataFile
  import opened Ast
  import opened Engine
  import opened EngineFacts
  import opened EngineRuns

  // ----- INSERTs into a table that may disagree with its file -----

  /** The part of the invariant that does not look at the file. */
  ghost predicate Ordered(t: Table) {
    && t.rt.schema != [] && t.rt.idColumn == FindColumn(t.rt.schema, "id") >= 0 && t.rt.ready
    && (t.rt.nextId != 0 ==> forall id :: id in t.rt.index ==> 1 <= id < t.rt.nextId)
  }

  lemma LoadOrdered(schema: Schema, file: string)
    requires FindColumn(schema, "id") >= 0 && Load(schema, file).Ok?
    ensures Ordered(Table(Load(schema, file).value, file)) && Load(schema, file).value.nextId != 0
  {
    hide Scan, Build, Occurs, Indexed;
    LoadedNextId(schema, file);
    BuildAccurate(Scan(file, 0, |schema|).value, FindColumn(schema, "id"));
  }

  /** An INSERT either changes nothing or appends its row and indexes it. */
  lemma OrderedStep(t: Table, stmt: InsertStatement)
    requires Ordered(t)
    ensures var (after, outcome) := ExecInsert(t, stmt);
            && Ordered(after) && after.rt.schema == t.rt.schema
            && (outcome.Refused? ==> after == t)
            && (outcome.Inserted? ==> t.rt.nextId != 0 && t.rt.nextId !in t.rt.index && after == Extended(t, stmt))
            && t.file <= after.file
            && (forall id :: id in t.rt.index ==> id in after.rt.index && after.rt.index[id] == t.rt.index[id])
  {
    hide FindColumn, Fits, PlacedRow, Append;
    SmallMod(t.rt.nextId + 1);
    AppendTail(t.file, PlacedRow(t.rt.schema, t.rt.idColumn, stmt, t.rt.nextId));
  }

  /** A run of INSERTs in one process. */
  ghost function Inserts(t: Table, stmts: seq<InsertStatement>): Table
    decreases |stmts|
  {
    if stmts == [] then t else Inserts(ExecInsert(t, stmts[0]).0, stmts[1..])
  }

  lemma {:induction false} InsertsGrow(t: Table, stmts: seq<InsertStatement>)
    requires Ordered(t)
    ensures var last := Inserts(t, stmts);
            && Ordered(last) && last.rt.schema == t.rt.schema && t.file <= last.file
            && (forall id :: id in t.rt.index ==> id in last.rt.index && last.rt.index[id] == t.rt.index[id])
    decreases |stmts|
  {
    hide Ordered, ExecInsert;
    if stmts != [] {
      OrderedStep(t, stmts[0]);
      InsertsGrow(ExecInsert(t, stmts[0]).0, stmts[1..]);
    }
  }

  lemma {:induction false} InsertsConsistent(t: Table, stmts: seq<InsertStatement>)
    requires Consistent(t)
    ensures Consistent(Inserts(t, stmts))
    decreases |stmts|
  {
    hide Consistent, ExecInsert;
    if stmts != [] {
      InsertStep(t, stmts[0]);
      InsertsConsistent(ExecInsert(t, stmts[0]).0, stmts[1..]);
    }
  }

  // ----- Rebuilding -----

  lemma NextLine(file: string, pos: nat)
    requires pos < |file|
    ensures ReadLine(file, pos).next == |file| || file[ReadLine(file, pos).next - 1] == '\n'
  {
  }

  lemma {:induction false} OffsetAfterNewline(file: string, pos: nat, count: nat, i: nat)
    requires Scan(file, pos, count).Some? && i < |Scan(file, pos, count).value|
    requires pos == 0 || (pos <= |file| && file[pos - 1] == '\n')
    ensures var o := Scan(file, pos, count).value[i].offset;
            o == 0 || (o <= |file| && file[o - 1] == '\n')
    decreases |file| - pos
  {
    hide Scan, ReadLine, ReadRow;
    ScanFirst(file, pos, count);
    if i > 0 {
      var next := ReadLine(file, pos).next;
      NextLine(file, pos);
      ScanFirst(file, next, count);
      OffsetAfterNewline(file, next, count, i - 1);
    }
  }

  /** Rebuilt offsets are where lines start. */
  lemma LoadedOffsets(schema: Schema, file: string, id: Key)
    requires FindColumn(schema, "id") >= 0 && Load(schema, file).Ok? && id in Load(schema, file).value.index
    ensures var o := Load(schema, file).value.index[id];
            o == 0 || (0 < o <= |file| && file[o - 1] == '\n')
  {
    hide Scan, Build, IdOf;
    var idColumn := FindColumn(schema, "id");
    var entries := Scan(file, 0, |schema|).value;
    BuildAccurate(entries, idColumn);
    assert Occurs(id, entries, idColumn);
    var k := Position(id, entries, idColumn);
    assert Indexed(entries[k], idColumn, Load(schema, file).value.index);
    OffsetAfterNewline(file, 0, |schema|, k);
  }

  /** The first INSERT into a file without its last newline leaves an index entry in the middle of a line. */
  lemma {:induction false} MidLineEntry(t: Table, stmts: seq<InsertStatement>)
    requires Ordered(t) && !WellEnded(t.file) && Inserts(t, stmts) != t
    ensures var last := Inserts(t, stmts);
            && t.file <= last.file && last.rt.schema == t.rt.schema
            && t.rt.nextId in last.rt.index && last.rt.index[t.rt.nextId] == |t.file|
    decreases |stmts|
  {
    hide ExecInsert, FindColumn, Append;
    var (after, outcome) := ExecInsert(t, stmts[0]);
    OrderedStep(t, stmts[0]);
    if outcome.Refused? {
      MidLineEntry(t, stmts[1..]);
    } else {
      InsertsGrow(after, stmts[1..]);
    }
  }

  /** After any INSERTs in one process, of which one succeeded, loading the file afresh gives what is in memory
      exactly when the file was empty or ended in a newline and ids are left. */
  lemma RebuildNeedsNewline(schema: Schema, file: string, stmts: seq<InsertStatement>)
    requires FindColumn(schema, "id") >= 0 && Load(schema, file).Ok?
    requires Inserts(Table(Load(schema, file).value, file), stmts) != Table(Load(schema, file).value, file)
    ensures var last := Inserts(Table(Load(schema, file).value, file), stmts);
            Load(schema, last.file) == Ok(last.rt) <==> WellEnded(file) && last.rt.nextId != 0
  {
    hide Inserts, Load, Consistent, FindColumn, Ordered;
    var t := Table(Load(schema, file).value, file);
    var last := Inserts(t, stmts);
    LoadOrdered(schema, file);
    InsertsGrow(t, stmts);
    LoadSchema(schema, file);
    if WellEnded(file) {
      LoadConsistent(schema, file);
      InsertsConsistent(t, stmts);
      ReloadGivesRuntime(last);
    } else {
      MidLineEntry(t, stmts);
      if Load(schema, last.file) == Ok(last.rt) {
        LoadedOffsets(schema, last.file, t.rt.nextId);
      }
    }
  }

  lemma LoadSchema(schema: Schema, file: string)
    requires Load(schema, file).Ok?
    ensures Load(schema, file).value.schema == schema
  {
  }

  // ----- The unfinished line -----

  /** Where the unfinished last line starts. */
  function LastLine(file: string): (o: nat)
    ensures o <= |file| && WellEnded(file[..o]) && forall i :: o <= i < |file| ==> file[i] != '\n'
    ensures !WellEnded(file) ==> o < |file|
  {
    if file == [] || file[|file| - 1] == '\n' then |file|
    else
      var o := LastLine(file[..|file| - 1]);
      assert file[..|file| - 1][..o] == file[..o];
      o
  }

  /** What a row appended to the file is read as, together with the unfinished line before it. */
  function ReadTogether(file: string, row: Row): Option<Row>
    requires row != []
  {
    ReadRow(Append(file, row), LastLine(file), |row|)
  }

  lemma ScanRest(file: string, pos: nat, count: nat)
    requires pos < |file| && ReadLine(file, pos).next == |file|
    ensures Scan(file, pos, count)
            == if ReadRow(file, pos, count).None? then None
               else Some([Entry(pos, ReadRow(file, pos, count).value)])
  {
    assert Scan(file, |file|, count) == Some([]);
    assert forall e: Entry :: [e] + [] == [e];
  }

  lemma LineReaches(file: string, pos: nat)
    requires pos < |file| && forall i :: pos <= i < |file| - 1 ==> file[i] != '\n'
    ensures ReadLine(file, pos).next == |file|
  {
  }

  /** A scan from the start reads the finished lines and then the rest. */
  lemma ScanUnended(file: string, later: string, count: nat)
    requires file <= later
    ensures Scan(later, 0, count) == Then(Scan(file[..LastLine(file)], 0, count), Scan(later, LastLine(file), count))
  {
    var o := LastLine(file);
    assert later == file[..o] + later[o..];
    ScanAppended(file[..o], later[o..], 0, count);
  }

  /** Scans before and after the first INSERT differ in the last entry only. */
  lemma ScansAroundInsert(file: string, row: Row)
    requires !WellEnded(file) && row != []
    ensures var o := LastLine(file);
            var front := Scan(file[..o], 0, |row|);
            && Scan(file, 0, |row|) == Then(front, One(o, ReadRow(file, o, |row|)))
            && Scan(Append(file, row), 0, |row|) == Then(front, One(o, ReadTogether(file, row)))
  {
    hide Scan, ReadLine, ReadRow, Then, LastLine;
    var o := LastLine(file);
    JoinOneLine(row);
    AppendTail(file, row);
    ScanUnended(file, file, |row|);
    ScanUnended(file, Append(file, row), |row|);
    LineReaches(file, o);
    ScanRest(file, o, |row|);
    AppendedNoNewline(file, row);
    LineReaches(Append(file, row), o);
    ScanRest(Append(file, row), o, |row|);
  }

  lemma AppendedNoNewline(file: string, row: Row)
    requires row != []
    ensures |Append(file, row)| > |file|
    ensures forall i :: LastLine(file) <= i < |Append(file, row)| - 1 ==> Append(file, row)[i] != '\n'
  {
    hide LastLine, Join;
    JoinOneLine(row);
  }

  function One(o: nat, row: Option<Row>): Option<seq<Entry>> {
    if row.None? then None else Some([Entry(o, row.value)])
  }

  // ----- The index against the scan -----

  /** The first row appended to an unended file, as it is stored. */
  ghost predicate FirstInsert(t: Table, first: InsertStatement, row: Row) {
    && Ordered(t) && t.rt.nextId != 0 && !WellEnded(t.file)
    && row == PlacedRow(t.rt.schema, t.rt.idColumn, first, t.rt.nextId)
  }

  /** The new row is found at the end of the old file, now and after any more INSERTs. */
  lemma NewRowReads(t: Table, first: InsertStatement, row: Row, file: string)
    requires FirstInsert(t, first, row) && Append(t.file, row) <= file
    ensures ReadRow(file, |t.file|, |row|) == Some(DropCr(row)) && |DropCr(row)| == |row|
    ensures IdOf(DropCr(row), t.rt.idColumn) == Some(t.rt.nextId)
    ensures ReadRow(file, LastLine(t.file), |row|) == ReadTogether(t.file, row)
  {
    hide Append, ReadRow, DropCr, PlacedRow, LastLine, FindColumn, IdOf;
    AppendedRow(t.file, row);
    AppendLonger(t.file, row);
    AppendTail(t.file, row);
    ReadRowKept(Append(t.file, row), file, |t.file|, |row|);
    ReadRowKept(Append(t.file, row), file, LastLine(t.file), |row|);
    PlacedRowId(t.rt, first);
  }

  /** The rows that INSERTs after the first one add carry other ids. */
  ghost predicate LaterIds(entries: seq<Entry>, from: nat, idColumn: nat, g: Key) {
    && from <= |entries|
    && forall i :: from <= i < |entries| ==> IdOf(entries[i].row, idColumn).Some? && IdOf(entries[i].row, idColumn) != Some(g)
  }

  ghost predicate ScanGrew(before: Option<seq<Entry>>, after: Option<seq<Entry>>, idColumn: nat, g: Key) {
    if before.None? then after.None?
    else after.Some? && before.value <= after.value && LaterIds(after.value, |before.value|, idColumn, g)
  }

  lemma {:induction false} InsertsScan(t: Table, stmts: seq<InsertStatement>, g: Key)
    requires Ordered(t) && WellEnded(t.file) && g in t.rt.index
    ensures var last := Inserts(t, stmts);
            && WellEnded(last.file)
            && ScanGrew(Scan(t.file, 0, |t.rt.schema|), Scan(last.file, 0, |t.rt.schema|), t.rt.idColumn, g)
    decreases |stmts|
  {
    hide ExecInsert, Scan, FindColumn, IdOf, Extended, WellEnded;
    if stmts != [] {
      var (next, outcome) := ExecInsert(t, stmts[0]);
      OrderedStep(t, stmts[0]);
      if outcome.Inserted? {
        ExtendedScan(t, stmts[0]);
      }
      InsertsScan(next, stmts[1..], g);
    }
  }

  lemma ExtendedScan(t: Table, stmt: InsertStatement)
    requires Ordered(t) && WellEnded(t.file) && t.rt.nextId != 0
    ensures var next := Extended(t, stmt);
            && WellEnded(next.file) && next.rt.idColumn == t.rt.idColumn
            && exists e: Entry :: IdOf(e.row, t.rt.idColumn) == Some(t.rt.nextId)
                 && Scan(next.file, 0, |t.rt.schema|) == Then(Scan(t.file, 0, |t.rt.schema|), Some([e]))
  {
    hide Scan, Append, PlacedRow, DropCr, FindColumn, IdOf, Then;
    var row := PlacedRow(t.rt.schema, t.rt.idColumn, stmt, t.rt.nextId);
    AppendedRow(t.file, row);
    AppendTail(t.file, row);
    ScanAppended(t.file, Join(row) + ['\n'], 0, |t.rt.schema|);
    PlacedRowId(t.rt, stmt);
  }

  /** A table loaded from an unended file and the first INSERT into it. */
  ghost predicate FirstAfterLoad(schema: Schema, file: string, t: Table, first: InsertStatement, row: Row) {
    && FindColumn(schema, "id") >= 0 && !WellEnded(file) && Load(schema, file) == Ok(t.rt) && t.file == file
    && ExecInsert(t, first).1.Inserted? && row == PlacedRow(schema, t.rt.idColumn, first, t.rt.nextId)
  }

  lemma FirstFacts(schema: Schema, file: string, t: Table, first: InsertStatement, row: Row)
    requires FirstAfterLoad(schema, file, t, first, row)
    ensures t.rt.schema == schema && t.rt.idColumn == FindColumn(schema, "id") && FirstInsert(t, first, row)
    ensures ExecInsert(t, first).0 == Extended(t, first) && Ordered(Extended(t, first))
    ensures Extended(t, first).file == Append(t.file, row) && |row| == |schema|
  {
    hide FindColumn, ExecInsert, Append;
    LoadOrdered(schema, file);
    OrderedStep(t, first);
  }

  /** The finished lines and the unfinished one, as they were loaded. */
  lemma LoadedEntries(schema: Schema, file: string, t: Table, first: InsertStatement, row: Row)
    returns (front: seq<Entry>, unfinished: Row)
    requires FirstAfterLoad(schema, file, t, first, row)
    ensures var o := LastLine(file);
            && Scan(file[..o], 0, |schema|) == Some(front) && ReadRow(file, o, |schema|) == Some(unfinished)
            && Scan(file, 0, |schema|) == Some(front + [Entry(o, unfinished)])
            && Build(front + [Entry(o, unfinished)], t.rt.idColumn).Some?
            && t.rt.index == Build(front + [Entry(o, unfinished)], t.rt.idColumn).value.index
            && Scan(Append(file, row), 0, |schema|) == After(front, One(o, ReadTogether(file, row)))
  {
    hide Scan, ReadRow, LastLine, Build, ExecInsert, FindColumn, Append;
    FirstFacts(schema, file, t, first, row);
    ScansAroundInsert(file, row);
    front := Scan(file[..LastLine(file)], 0, |schema|).value;
    unfinished := ReadRow(file, LastLine(file), |schema|).value;
  }

  /** No row that was loaded has the id of the new row. */
  lemma LoadedIdsDiffer(t: Table, entries: seq<Entry>, i: nat)
    requires Ordered(t) && t.rt.nextId != 0 && i < |entries|
    requires Build(entries, t.rt.idColumn).Some? && t.rt.index == Build(entries, t.rt.idColumn).value.index
    ensures IdOf(entries[i].row, t.rt.idColumn).Some? && IdOf(entries[i].row, t.rt.idColumn) != Some(t.rt.nextId)
  {
    hide Build, IdOf, FindColumn;
    BuildAccurate(entries, t.rt.idColumn);
    assert Indexed(entries[i], t.rt.idColumn, t.rt.index);
  }

  /** The query that tells: everything about the row with the first new id. */
  function Probe(g: nat): SelectStatement {
    SelectById("", NumberLiteral(Print(g)))
  }

  /** The index answers it with the new row. */
  lemma ProbeByIndex(t: Table, first: InsertStatement, row: Row, last: Table)
    requires FirstInsert(t, first, row) && Ordered(last) && last.rt.schema == t.rt.schema
    requires Append(t.file, row) <= last.file
    requires t.rt.nextId in last.rt.index && last.rt.index[t.rt.nextId] == |t.file|
    ensures ValidSelect(last.rt.schema, Probe(t.rt.nextId)) && IndexKey(last.rt, Probe(t.rt.nextId)) == Some(t.rt.nextId)
    ensures IndexLookup(last, Probe(t.rt.nextId), t.rt.nextId) == Ok(QueryResult(t.rt.schema, [DropCr(row)]))
  {
    hide FindColumn, Project, ReadRow, DropCr, PlacedRow, Print, ParseId, IdOf, Append, LastLine;
    var g := t.rt.nextId;
    ParseIdExact(Print(g), g);
    NewRowReads(t, first, row, last.file);
    TextIsNumber(DropCr(row), t.rt.idColumn, Print(g), g);
    ProjectAll(t.rt.schema, Probe(g), DropCr(row));
  }

  /** The scan answers it with what the unfinished line has become, or with nothing. */
  lemma ProbeByScan(t: Table, entries: seq<Entry>, k: nat, g: Key)
    requires Ordered(t) && k < |entries| && Scan(t.file, 0, |t.rt.schema|) == Some(entries)
    requires g != 0 && |entries[k].row| == |t.rt.schema|
    requires forall i :: 0 <= i < |entries| && i != k ==> OtherId(entries[i], t.rt.idColumn, g)
    ensures FullScan(t, Probe(g)) == Ok(QueryResult(t.rt.schema, []))
            || FullScan(t, Probe(g)) == Ok(QueryResult(t.rt.schema, [entries[k].row]))
  {
    hide FindColumn, Project, Scan, IdOf, Print, ParseId, Selected;
    var query := Probe(g);
    ParseIdExact(Print(g), g);
    forall i | 0 <= i < |entries| && i != k ensures !Matches(query, t.rt.idColumn, entries[i].row) {
      TextIsNumber(entries[i].row, t.rt.idColumn, Print(g), g);
    }
    if Matches(query, t.rt.idColumn, entries[k].row) {
      SelectedOne(t.rt.schema, query, entries, k);
      ProjectAll(t.rt.schema, query, entries[k].row);
    } else {
      SelectedNone(t.rt.schema, query, entries);
    }
  }

  /** The entry has an id, and another one. */
  ghost predicate OtherId(e: Entry, idColumn: nat, g: Key) {
    IdOf(e.row, idColumn).Some? && IdOf(e.row, idColumn) != Some(g)
  }

  /** If the unfinished line and the new row do not read as the new row, the two answers differ. */
  lemma ProbeTells(schema: Schema, file: string, t: Table, first: InsertStatement, row: Row, later: seq<InsertStatement>)
    requires FirstAfterLoad(schema, file, t, first, row) && row != [] && ReadTogether(file, row) != Some(DropCr(row))
    ensures var last, g := Inserts(ExecInsert(t, first).0, later), t.rt.nextId;
            && IndexKey(last.rt, Probe(g)) == Some(g)
            && IndexLookup(last, Probe(g), g) != FullScan(last, Probe(g))
  {
    hide ExecInsert, Inserts, Scan, Build, IndexLookup, FullScan, IndexKey, LastLine, Append, DropCr, IdOf, FindColumn, PlacedRow, Print, ReadRow;
    FirstFacts(schema, file, t, first, row);
    var next, g := Extended(t, first), t.rt.nextId;
    var last := Inserts(next, later);
    InsertsGrow(next, later);
    ProbeByIndex(t, first, row, last);
    var front, unfinished := LoadedEntries(schema, file, t, first, row);
    AppendTail(file, row);
    InsertsScan(next, later, g);
    if ReadTogether(file, row).None? {
      NoScan(last, Probe(g));
    } else {
      var joined := Entry(LastLine(file), ReadTogether(file, row).value);
      var entries := Scan(last.file, 0, |schema|).value;
      assert (front + [joined]) <= entries;
      forall i | 0 <= i < |entries| && i != |front| ensures OtherId(entries[i], t.rt.idColumn, g) {
        if i < |front| {
          assert entries[i] == (front + [joined])[i] == (front + [Entry(LastLine(file), unfinished)])[i];
          LoadedIdsDiffer(t, front + [Entry(LastLine(file), unfinished)], i);
        }
      }
      assert entries[|front|] == joined;
      ReadLength(Append(file, row), LastLine(file), |row|);
      ProbeByScan(last, entries, |front|, g);
    }
  }

  lemma NoScan(t: Table, stmt: SelectStatement)
    requires Scan(t.file, 0, |t.rt.schema|).None?
    ensures FullScan(t, stmt) == Err(StorageError)
  {
  }

  lemma ReadLength(file: string, pos: nat, count: nat)
    ensures ReadRow(file, pos, count).Some? ==> |ReadRow(file, pos, count).value| == count
  {
  }

  /** The table whose index is what a rebuild gives when the joined line reads as the new row: the id of the
      unfinished line is gone, and the new id is where that line starts. */
  ghost function Shadow(t: Table, k: Key, g: Key, o: nat): Table {
    t.(rt := t.rt.(index := (t.rt.index - {k})[g := o]))
  }

  lemma BuildLast(entries: seq<Entry>, e: Entry, idColumn: nat)
    ensures Build(entries + [e], idColumn)
            == if Build(entries, idColumn) == None then None else BuildStep(Build(entries, idColumn).value, e, idColumn)
  {
    assert (entries + [e])[..|entries|] == entries;
  }

  /** Replacing the last entry by one with a larger id. */
  lemma BuildReplaced(front: seq<Entry>, before: Entry, after: Entry, idColumn: nat, index: map<Key, int>, g: Key) returns (k: Key)
    requires Build(front + [before], idColumn).Some? && index == Build(front + [before], idColumn).value.index
    requires IdOf(after.row, idColumn) == Some(g) && forall id :: id in index ==> 1 <= id < g
    ensures k in index && index[k] == before.offset
    ensures Build(front + [after], idColumn) == Some(BuildState((index - {k})[g := after.offset], g, true))
  {
    hide Build, IdOf, Occurs, Indexed;
    BuildLast(front, before, idColumn);
    BuildLast(front, after, idColumn);
    BuildAccurate(front, idColumn);
    k := IdOf(before.row, idColumn).value;
    assert index - {k} == Build(front, idColumn).value.index;
  }

  lemma ShadowConsistent(schema: Schema, file: string, t: Table, first: InsertStatement, row: Row) returns (k: Key)
    requires FirstAfterLoad(schema, file, t, first, row) && row != [] && ReadTogether(file, row) == Some(DropCr(row))
    ensures k in t.rt.index && t.rt.index[k] == LastLine(file) && 1 <= k < t.rt.nextId
    ensures Consistent(Shadow(Extended(t, first), k, t.rt.nextId, LastLine(file)))
  {
    hide ExecInsert, Scan, Build, LastLine, Append, DropCr, IdOf, FindColumn, PlacedRow, Load, ReadRow, Occurs;
    FirstFacts(schema, file, t, first, row);
    AppendTail(file, row);
    var o, g := LastLine(file), t.rt.nextId;
    var front, unfinished := LoadedEntries(schema, file, t, first, row);
    NewRowReads(t, first, row, Append(file, row));
    k := BuildReplaced(front, Entry(o, unfinished), Entry(o, DropCr(row)), t.rt.idColumn, t.rt.index, g);
    assert (t.rt.index[g := |file|] - {k})[g := o] == (t.rt.index - {k})[g := o];
  }

  /** INSERTs do not tell the two apart. */
  lemma ShadowStep(t: Table, stmt: InsertStatement, k: Key, g: Key, o: nat)
    requires Ordered(t) && g in t.rt.index && k in t.rt.index && k != g
    ensures ExecInsert(Shadow(t, k, g, o), stmt).0 == Shadow(ExecInsert(t, stmt).0, k, g, o)
  {
    hide FindColumn, Fits, PlacedRow, Append;
    if t.rt.nextId != 0 {
      var id := t.rt.nextId;
      assert (t.rt.index[id := |t.file|] - {k})[g := o] == (t.rt.index - {k})[g := o][id := |t.file|];
    }
  }

  lemma {:induction false} ShadowInserts(t: Table, stmts: seq<InsertStatement>, k: Key, g: Key, o: nat)
    requires Ordered(t) && g in t.rt.index && k in t.rt.index && k != g
    ensures Inserts(Shadow(t, k, g, o), stmts) == Shadow(Inserts(t, stmts), k, g, o)
    decreases |stmts|
  {
    hide Ordered, ExecInsert, Shadow;
    if stmts != [] {
      ShadowStep(t, stmts[0], k, g, o);
      OrderedStep(t, stmts[0]);
      ShadowInserts(ExecInsert(t, stmts[0]).0, stmts[1..], k, g, o);
    }
  }

  /** Nor do lookups: both places read as the new row, and the old id matches neither. */
  lemma ShadowLookup(t: Table, stmt: SelectStatement, id: Key, k: Key, g: Key, o: nat, row: Row)
    requires Ordered(t) && IndexKey(t.rt, stmt) == Some(id) && k != g
    requires g in t.rt.index && t.rt.index[g] >= 0 && k in t.rt.index && t.rt.index[k] == o
    requires ReadRow(t.file, o, |t.rt.schema|) == Some(row) && ReadRow(t.file, t.rt.index[g], |t.rt.schema|) == Some(row)
    requires IdOf(row, t.rt.idColumn) == Some(g)
    ensures IndexLookup(t, stmt, id) == IndexLookup(Shadow(t, k, g, o), stmt, id)
  {
    hide FindColumn, ReadRow, IdOf, ParseId, Project;
    TextIsNumber(row, t.rt.idColumn, stmt.filter.value.text, id);
  }

  /** If the unfinished line and the new row read as the new row, no query tells index and scan apart. */
  lemma TogetherAgrees(schema: Schema, file: string, t: Table, first: InsertStatement, row: Row,
                       later: seq<InsertStatement>, stmt: SelectStatement, id: Key)
    requires FirstAfterLoad(schema, file, t, first, row) && row != [] && ReadTogether(file, row) == Some(DropCr(row))
    requires IndexKey(Inserts(ExecInsert(t, first).0, later).rt, stmt) == Some(id)
    ensures var last := Inserts(ExecInsert(t, first).0, later);
            IndexLookup(last, stmt, id) == FullScan(last, stmt)
  {
    hide ExecInsert, Inserts, IndexLookup, LastLine, Append, DropCr, IdOf, FindColumn, PlacedRow, ReadRow, Consistent, Scan;
    FirstFacts(schema, file, t, first, row);
    var next, g, o := Extended(t, first), t.rt.nextId, LastLine(file);
    var k := ShadowConsistent(schema, file, t, first, row);
    var last := Inserts(next, later);
    InsertsGrow(next, later);
    ShadowInserts(next, later, k, g, o);
    InsertsConsistent(Shadow(next, k, g, o), later);
    NewRowReads(t, first, row, last.file);
    ShadowLookup(last, stmt, id, k, g, o, DropCr(row));
    IndexEqualsScan(Shadow(last, k, g, o), stmt, id);
  }

  /** The index answers every query as a scan does. */
  ghost predicate IndexIsScan(t: Table) {
    forall stmt, id :: IndexKey(t.rt, stmt) == Some(id) ==> IndexLookup(t, stmt, id) == FullScan(t, stmt)
  }

  /** Index equals scan without any assumption on the end of the file.  After a first INSERT into a table that was
      just loaded, and any more INSERTs, it holds for every query exactly when the first row, read together with
      what stood before it on its line, is that row.  In a file that is empty or ends in a newline it always is. */
  lemma IndexIsScanExact(schema: Schema, file: string, first: InsertStatement, later: seq<InsertStatement>)
    requires FindColumn(schema, "id") >= 0 && Load(schema, file).Ok?
    requires ExecInsert(Table(Load(schema, file).value, file), first).1.Inserted?
    ensures var t := Table(Load(schema, file).value, file);
            var row := PlacedRow(schema, FindColumn(schema, "id"), first, t.rt.nextId);
            && row != []
            && (IndexIsScan(Inserts(ExecInsert(t, first).0, later)) <==> ReadTogether(file, row) == Some(DropCr(row)))
            && (WellEnded(file) ==> ReadTogether(file, row) == Some(DropCr(row)))
  {
    hide ExecInsert, Inserts, IndexLookup, FullScan, IndexKey, Append, DropCr, PlacedRow, ReadRow, Consistent, Load;
    var t := Table(Load(schema, file).value, file);
    var row := PlacedRow(schema, FindColumn(schema, "id"), first, t.rt.nextId);
    var last := Inserts(ExecInsert(t, first).0, later);
    LoadOrdered(schema, file);
    LoadSchema(schema, file);
    if WellEnded(file) {
      AppendedRow(file, row);
      LoadConsistent(schema, file);
      InsertStep(t, first);
      InsertsConsistent(ExecInsert(t, first).0, later);
      forall stmt, id | IndexKey(last.rt, stmt) == Some(id) ensures IndexLookup(last, stmt, id) == FullScan(last, stmt) {
        IndexEqualsScan(last, stmt, id);
      }
    } else if ReadTogether(file, row) == Some(DropCr(row)) {
      forall stmt, id | IndexKey(last.rt, stmt) == Some(id) ensures IndexLookup(last, stmt, id) == FullScan(last, stmt) {
        TogetherAgrees(schema, file, t, first, row, later, stmt, id);
      }
    } else {
      ProbeTells(schema, file, t, first, row, later);
    }
  }

  // ----- A file that shows it -----

  const LINE: string := "1|x"
  const COLUMNS: seq<string> := ["id", "v"]

  lemma EscapePlain(c: char, rest: string)
    requires c != '\\' && c != '|' && c != '\n'
    ensures Escape([c] + rest) == [c] + Escape(rest)
  {
    assert ([c] + rest)[1..] == rest;
  }

  lemma EscapeOne(c: char)
    requires c != '\\' && c != '|' && c != '\n'
    ensures Escape([c]) == [c]
  {
    EscapePlain(c, []);
    assert [c] + [] == [c] && Escape([]) == [];
  }

  lemma ExampleJoins()
    ensures Join(["1", "x"]) == LINE && Join(["2", "y"]) == "2|y" && Join(["1", "x2", "y"]) == "1|x2|y"
  {
    hide Escape, Join;
    EscapeOne('1');
    EscapeOne('2');
    EscapeOne('x');
    EscapeOne('y');
    EscapePlain('x', "2");
    assert ['x'] + "2" == "x2";
    JoinOne("x");
    JoinOne("y");
    JoinFirst("1", ["x"]);
    JoinFirst("2", ["y"]);
    JoinFirst("x2", ["y"]);
    JoinFirst("1", ["x2", "y"]);
    assert ["1"] + ["x"] == ["1", "x"] && ["2"] + ["y"] == ["2", "y"];
    assert ["x2"] + ["y"] == ["x2", "y"] && ["1"] + ["x2", "y"] == ["1", "x2", "y"];
    assert "1" + ['|'] + "x" == LINE && "2" + ['|'] + "y" == "2|y";
    assert "x2" + ['|'] + "y" == "x2|y" && "1" + ['|'] + "x2|y" == "1|x2|y";
  }

  lemma ExampleScan()
    ensures Scan(LINE, 0, 2) == Some([Entry(0, ["1", "x"])])
  {
    hide Split, Escape, ReadLine;
    var row := ["1", "x"];
    ExampleLine(LINE);
    ExampleJoins();
    SplitJoin(row);
    assert Normalize(row, 2) == row;
    ScanRest(LINE, 0, 2);
  }

  lemma ExampleLine(file: string)
    requires file == LINE || file == "1|x2|y\n"
    ensures ReadLine(file, 0) == Line(if file == LINE then file else "1|x2|y", |file|)
  {
    if file == LINE {
      LineReaches(file, 0);
      assert LineEnd(file, 0) == 3 && file[0..3] == file;
    } else {
      LineReaches(file, 0);
      assert LineEnd(file, 0) == 6 && file[0..6] == "1|x2|y";
    }
  }

  lemma ExampleLoads()
    ensures Load(COLUMNS, LINE) == Ok(Runtime(COLUMNS, 0, true, 2, map[1 := 0]))
    ensures FindColumn(COLUMNS, "id") == 0 && Print(1) == "1" && Print(2) == "2"
  {
    hide Scan, ParseId;
    ExampleScan();
    assert Print(1) == "1";
    ParseIdExact("1", 1);
    var e := Entry(0, ["1", "x"]);
    assert [e][..0] == [] && Build([e][..0], 0) == Some(EMPTY_BUILD);
    assert Build([e], 0) == Some(BuildState(map[1 := 0], 1, true));
  }

  lemma ExampleTogether()
    ensures Append(LINE, ["2", "y"]) == "1|x2|y\n"
    ensures ReadTogether(LINE, ["2", "y"]) == Some(["1", "x2"])
  {
    hide ReadLine, Split, Escape, Join;
    ExampleJoins();
    assert LastLine(LINE) == 0 by { assert LINE[..2] == "1|" && "1|"[..1] == "1"; }
    ExampleLine("1|x2|y\n");
    SplitJoin(["1", "x2", "y"]);
    assert Normalize(["1", "x2", "y"], 2) == ["1", "x2"];
  }

  /** The only line, `1|x`, lacks its newline: the row with id 2 is written behind it.  The index finds that row, a
      scan does not, and loading the file again forgets it. */
  lemma UnendedFileExample()
    ensures Load(COLUMNS, LINE) == Ok(Runtime(COLUMNS, 0, true, 2, map[1 := 0]))
    ensures var t := Table(Load(COLUMNS, LINE).value, LINE);
            var (after, outcome) := ExecInsert(t, InsertStatement("t", [], [StringLiteral("y")]));
            && outcome == Inserted(Some(2)) && after.file == "1|x2|y\n"
            && Load(COLUMNS, after.file) != Ok(after.rt) && !IndexIsScan(after)
  {
    hide Load, Append, ReadTogether, Print, IndexIsScan, FindColumn;
    var stmt := InsertStatement("t", [], [StringLiteral("y")]);
    ExampleLoads();
    ExampleTogether();
    var t := Table(Load(COLUMNS, LINE).value, LINE);
    var row := PlacedRow(COLUMNS, 0, stmt, 2);
    assert row == ["2", "y"];
    assert Inserts(t, [stmt]) == ExecInsert(t, stmt).0;
    RebuildNeedsNewline(COLUMNS, LINE, [stmt]);
    IndexIsScanExact(COLUMNS, LINE, stmt, []);
    assert DropCr(row)[0] == "2";
  }
}
