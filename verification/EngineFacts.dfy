/** What the engine promises over whole runs of INSERTs on a loaded table: the index agrees with a
    scan of the file, rebuilding it gives what is in memory, ids are consecutive, and a row that was
    written is read back. */
module EngineFacts {
  import opened Common
  import opened BPTreeGraph
  import opened Decimal
  import opened RowCodec
  import opened DataFile
  import opened Ast
  import opened Engine

  // ----- What the scan callback accumulates -----

  /** The entry has an id, and the index has that id with the entry's own offset. */
  ghost predicate Indexed(e: Entry, idColumn: nat, index: map<Key, int>) {
    var id := IdOf(e.row, idColumn);
    id.Some? && id.value in index && index[id.value] == e.offset
  }

  /** Some entry has the id. */
  ghost predicate Occurs(id: Key, entries: seq<Entry>, idColumn: nat) {
    exists i :: 0 <= i < |entries| && IdOf(entries[i].row, idColumn) == Some(id)
  }

  /** The index has exactly the ids of the entries, each with its own offset, and the largest id is known. */
  ghost predicate Accurate(s: BuildState, entries: seq<Entry>, idColumn: nat) {
    && (forall i :: 0 <= i < |entries| ==> Indexed(entries[i], idColumn, s.index))
    && (forall id :: id in s.index ==> Occurs(id, entries, idColumn))
    && (forall id :: id in s.index ==> 1 <= id <= s.maxId)
    && s.sawRow == (entries != []) && (if s.sawRow then s.maxId in s.index else s.index == map[])
  }

  lemma OccursExtended(id: Key, entries: seq<Entry>, e: Entry, idColumn: nat)
    ensures Occurs(id, entries + [e], idColumn) <==> Occurs(id, entries, idColumn) || IdOf(e.row, idColumn) == Some(id)
  {
    var longer := entries + [e];
    if i :| 0 <= i < |entries| && IdOf(entries[i].row, idColumn) == Some(id) {
      assert longer[i] == entries[i];
    }
    assert longer[|entries|] == e;
  }

  lemma BuildStepAccurate(before: BuildState, entries: seq<Entry>, e: Entry, idColumn: nat)
    requires Accurate(before, entries, idColumn) && BuildStep(before, e, idColumn).Some?
    ensures Accurate(BuildStep(before, e, idColumn).value, entries + [e], idColumn)
  {
    hide Occurs;
    IdIsPositive(e.row, idColumn);
    hide IdOf;
    var s, longer := BuildStep(before, e, idColumn).value, entries + [e];
    forall i | 0 <= i < |longer|
      ensures Indexed(longer[i], idColumn, s.index)
    {
      assert i < |entries| ==> Indexed(entries[i], idColumn, before.index);
    }
    forall id | id in s.index
      ensures Occurs(id, entries + [e], idColumn)
    {
      OccursExtended(id, entries, e, idColumn);
    }
  }

  lemma IdIsPositive(row: Row, idColumn: nat)
    ensures IdOf(row, idColumn).Some? ==> IdOf(row, idColumn).value >= 1
  {
  }

  lemma {:induction false} BuildAccurate(entries: seq<Entry>, idColumn: nat)
    requires Build(entries, idColumn).Some?
    ensures Accurate(Build(entries, idColumn).value, entries, idColumn)
  {
    hide BuildStep, Indexed, Occurs;
    if entries != [] {
      var n := |entries| - 1;
      BuildAccurate(entries[..n], idColumn);
      assert entries == entries[..n] + [entries[n]];
      BuildStepAccurate(Build(entries[..n], idColumn).value, entries[..n], entries[n], idColumn);
    }
  }

  /** No two entries have the same id. */
  lemma {:induction false} BuildDistinct(entries: seq<Entry>, idColumn: nat, i: nat, j: nat)
    requires Build(entries, idColumn).Some? && i < j < |entries|
    ensures IdOf(entries[i].row, idColumn) != IdOf(entries[j].row, idColumn)
  {
    var front := entries[..|entries| - 1];
    if j == |entries| - 1 {
      BuildAccurate(front, idColumn);
      assert Indexed(front[i], idColumn, Build(front, idColumn).value.index);
    } else {
      BuildDistinct(front, idColumn, i, j);
    }
  }

  // ----- The invariant of a loaded table -----

  /** The runtime is what a rebuild from the file would give. */
  ghost predicate Consistent(t: Table) {
    var rt := t.rt;
    && rt.schema != [] && rt.idColumn == FindColumn(rt.schema, "id") >= 0 && rt.ready
    && WellEnded(t.file)
    && Rebuild(rt.schema, rt.idColumn, t.file).Some?
    && var s := Rebuild(rt.schema, rt.idColumn, t.file).value;
       rt.index == s.index && rt.nextId == NextId(s)
  }

  /** Loading establishes the invariant. */
  lemma LoadConsistent(schema: Schema, file: string)
    requires FindColumn(schema, "id") >= 0 && WellEnded(file) && Load(schema, file).Ok?
    ensures Consistent(Table(Load(schema, file).value, file))
  {
  }

  /** What loading a consistent table again gives: its runtime, unless the ids are used up. */
  lemma ReloadGivesRuntime(t: Table)
    requires Consistent(t)
    ensures Load(t.rt.schema, t.file) == if t.rt.nextId == 0 then Err(IndexError) else Ok(t.rt)
  {
    hide Scan, Build, Occurs, Indexed;
    var entries := Scan(t.file, 0, |t.rt.schema|).value;
    BuildAccurate(entries, t.rt.idColumn);
  }

  /** The next id is above every stored one, or zero when the largest id has been handed out. */
  lemma NextIdIsNew(t: Table)
    requires Consistent(t)
    ensures t.rt.nextId != 0 ==> forall id :: id in t.rt.index ==> 1 <= id < t.rt.nextId
    ensures t.rt.nextId == 0 <==> UINT64_MAX in t.rt.index
  {
    hide Scan, Build, Occurs, Indexed;
    var entries := Scan(t.file, 0, |t.rt.schema|).value;
    BuildAccurate(entries, t.rt.idColumn);
  }

  lemma PlacedRowId(rt: Runtime, stmt: InsertStatement)
    requires 0 <= rt.idColumn < |rt.schema| && rt.nextId != 0
    ensures IdOf(DropCr(PlacedRow(rt.schema, rt.idColumn, stmt, rt.nextId)), rt.idColumn) == Some(rt.nextId)
  {
    var row := PlacedRow(rt.schema, rt.idColumn, stmt, rt.nextId);
    ParseIdExact(Print(rt.nextId), rt.nextId);
    assert row[rt.idColumn] == Print(rt.nextId);
    assert StripCr(Print(rt.nextId)) == Print(rt.nextId);
  }

  function Texts(values: seq<Literal>): (r: seq<string>)
    ensures |r| == |values| && forall i :: 0 <= i < |values| ==> r[i] == values[i].text
  {
    seq(|values|, i requires 0 <= i < |values| => values[i].text)
  }

  /** Without a column list the row is the list of values with the printed id put into its column. */
  lemma PlacedByPosition(schema: Schema, idColumn: nat, stmt: InsertStatement, id: nat)
    requires idColumn < |schema| && stmt.columns == [] && Fits(schema, idColumn, stmt)
    ensures var texts := Texts(stmt.values);
            PlacedRow(schema, idColumn, stmt, id) == texts[..idColumn] + [Print(id)] + texts[idColumn..]
  {
    hide Print, FindColumn;
  }

  /** With a column list every value is in the column named with it, and the other columns are empty. */
  lemma PlacedByName(schema: Schema, idColumn: nat, stmt: InsertStatement, id: nat)
    requires idColumn < |schema| && stmt.columns != [] && Fits(schema, idColumn, stmt)
    ensures var row := PlacedRow(schema, idColumn, stmt, id);
            && row[idColumn] == Print(id)
            && (forall i :: 0 <= i < |stmt.columns| ==>
                  row[FindColumn(schema, stmt.columns[i])] == stmt.values[i].text)
            && (forall j :: 0 <= j < |schema| && j != idColumn && schema[j] !in stmt.columns ==> row[j] == "")
  {
    hide Print;
    var row := PlacedRow(schema, idColumn, stmt, id);
    forall i | 0 <= i < |stmt.columns| ensures row[FindColumn(schema, stmt.columns[i])] == stmt.values[i].text {
      var j := FindColumn(schema, stmt.columns[i]);
      var k := FindColumn(stmt.columns, schema[j]);
      assert k == i;
    }
  }

  /** The entries of the file after a successful INSERT. */
  lemma InsertedEntries(t: Table, stmt: InsertStatement)
    requires Consistent(t) && ExecInsert(t, stmt).1.Inserted?
    ensures t.rt.nextId != 0
    ensures var row := PlacedRow(t.rt.schema, t.rt.idColumn, stmt, t.rt.nextId);
            && ExecInsert(t, stmt).0.file == Append(t.file, row)
            && Scan(ExecInsert(t, stmt).0.file, 0, |t.rt.schema|) ==
                 Some(Scan(t.file, 0, |t.rt.schema|).value + [Entry(|t.file|, DropCr(row))])
  {
    hide Scan, Append, PlacedRow, DropCr;
    var row := PlacedRow(t.rt.schema, t.rt.idColumn, stmt, t.rt.nextId);
    AppendedRow(t.file, row);
    AppendTail(t.file, row);
    ScanAppended(t.file, Join(row) + ['\n'], 0, |t.rt.schema|);
  }

  lemma AppendTail(file: string, row: Row)
    requires row != []
    ensures Append(file, row) == file + (Join(row) + ['\n']) && WellEnded(Append(file, row))
  {
  }

  /** Every INSERT keeps the invariant, whether it succeeds or is refused; on a consistent table the
      only refusals are the two that come before the file is touched. */
  lemma InsertKeepsConsistent(t: Table, stmt: InsertStatement)
    requires Consistent(t)
    ensures var (after, outcome) := ExecInsert(t, stmt);
            && Consistent(after)
            && (outcome.Inserted? <==> Fits(t.rt.schema, t.rt.idColumn, stmt) && t.rt.nextId != 0)
            && (outcome.Refused? ==> after == t && outcome.error == ExecError)
            && (outcome.Inserted? ==> outcome.generatedId == Some(t.rt.nextId))
  {
    hide Rebuild, Fits, Append, PlacedRow, WellEnded;
    NextIdIsNew(t);
    if ExecInsert(t, stmt).1.Inserted? {
      InsertRebuild(t, stmt);
      AppendTail(t.file, PlacedRow(t.rt.schema, t.rt.idColumn, stmt, t.rt.nextId));
    }
  }

  /** After an INSERT, a rebuild goes one step further than before. */
  lemma InsertRebuild(t: Table, stmt: InsertStatement)
    requires Consistent(t) && ExecInsert(t, stmt).1.Inserted?
    ensures var before := Rebuild(t.rt.schema, t.rt.idColumn, t.file).value;
            var after := Rebuild(t.rt.schema, t.rt.idColumn, ExecInsert(t, stmt).0.file);
            after == Some(BuildState(before.index[t.rt.nextId := |t.file|], t.rt.nextId, true))
  {
    hide Scan, IdOf, DropCr, PlacedRow, Append;
    InsertedEntries(t, stmt);
    PlacedRowId(t.rt, stmt);
    NextIdIsNew(t);
    var row := PlacedRow(t.rt.schema, t.rt.idColumn, stmt, t.rt.nextId);
    var entries, e := Scan(t.file, 0, |t.rt.schema|).value, Entry(|t.file|, DropCr(row));
    assert (entries + [e])[..|entries|] == entries;
    BuildAccurate(entries, t.rt.idColumn);
  }

  // ----- The index path returns what the scan returns -----

  lemma {:induction false} SelectedNone(schema: Schema, stmt: SelectStatement, entries: seq<Entry>)
    requires forall i :: 0 <= i < |entries| ==> !Matches(stmt, WhereIndex(schema, stmt), entries[i].row)
    ensures Selected(schema, stmt, entries) == []
  {
    if entries != [] {
      SelectedNone(schema, stmt, entries[..|entries| - 1]);
    }
  }

  lemma {:induction false} SelectedOne(schema: Schema, stmt: SelectStatement, entries: seq<Entry>, k: nat)
    requires k < |entries|
    requires forall i :: 0 <= i < |entries| ==> (Matches(stmt, WhereIndex(schema, stmt), entries[i].row) <==> i == k)
    ensures Selected(schema, stmt, entries) == [Project(schema, stmt, entries[k].row)]
  {
    var n := |entries| - 1;
    if k == n {
      SelectedNone(schema, stmt, entries[..n]);
    } else {
      SelectedOne(schema, stmt, entries[..n], k);
    }
  }

  /** For a stored id, equality of texts is equality of numbers. */
  lemma TextIsNumber(row: Row, idColumn: nat, text: string, id: Key)
    requires IdOf(row, idColumn).Some? && ParseId(text) == Some(id)
    ensures row[idColumn] == text <==> IdOf(row, idColumn) == Some(id)
  {
    ParseIdExact(text, id);
    ParseIdExact(row[idColumn], IdOf(row, idColumn).value);
  }

  /** The one entry that an id lookup is after. */
  lemma MatchesOnlyId(t: Table, stmt: SelectStatement, id: Key, i: nat)
    requires Consistent(t) && IndexKey(t.rt, stmt) == Some(id)
    requires i < |Scan(t.file, 0, |t.rt.schema|).value|
    ensures var e := Scan(t.file, 0, |t.rt.schema|).value[i];
            && WhereIndex(t.rt.schema, stmt) == t.rt.idColumn
            && Indexed(e, t.rt.idColumn, t.rt.index)
            && (Matches(stmt, t.rt.idColumn, e.row) <==> IdOf(e.row, t.rt.idColumn) == Some(id))
  {
    var entries := Scan(t.file, 0, |t.rt.schema|).value;
    BuildAccurate(entries, t.rt.idColumn);
    assert Indexed(entries[i], t.rt.idColumn, t.rt.index);
    TextIsNumber(entries[i].row, t.rt.idColumn, stmt.filter.value.text, id);
  }

  /** In every consistent state the index and the full scan give the same answer. */
  lemma IndexEqualsScan(t: Table, stmt: SelectStatement, id: Key)
    requires Consistent(t) && IndexKey(t.rt, stmt) == Some(id)
    ensures IndexLookup(t, stmt, id) == FullScan(t, stmt)
  {
    hide Matches, IdOf, Scan, Selected, Project, ReadRow, Occurs;
    var entries := Scan(t.file, 0, |t.rt.schema|).value;
    forall i | 0 <= i < |entries|
      ensures WhereIndex(t.rt.schema, stmt) == t.rt.idColumn
      ensures Indexed(entries[i], t.rt.idColumn, t.rt.index)
      ensures Matches(stmt, t.rt.idColumn, entries[i].row) <==> IdOf(entries[i].row, t.rt.idColumn) == Some(id)
    {
      MatchesOnlyId(t, stmt, id, i);
    }
    BuildAccurate(entries, t.rt.idColumn);
    if id in t.rt.index {
      var k := Position(id, entries, t.rt.idColumn);
      forall i | 0 <= i < |entries|
        ensures Matches(stmt, t.rt.idColumn, entries[i].row) <==> i == k
      {
        if i < k {
          BuildDistinct(entries, t.rt.idColumn, i, k);
        } else if k < i {
          BuildDistinct(entries, t.rt.idColumn, k, i);
        }
      }
      SelectedOne(t.rt.schema, stmt, entries, k);
      EntryReads(t.file, 0, |t.rt.schema|, k);
    } else {
      SelectedNone(t.rt.schema, stmt, entries);
    }
  }

  ghost function Position(id: Key, entries: seq<Entry>, idColumn: nat): (i: nat)
    requires Occurs(id, entries, idColumn)
    ensures i < |entries| && IdOf(entries[i].row, idColumn) == Some(id)
  {
    var i :| 0 <= i < |entries| && IdOf(entries[i].row, idColumn) == Some(id);
    i
  }
}
