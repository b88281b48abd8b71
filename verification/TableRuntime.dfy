/** The table runtime as it works on the heap: a B+Tree of nodes, a next id and a data file, updated
    in place.  Every method is proved against the function of the same purpose in Engine. */
module TableRuntime {
  import opened Common
  import opened BPTreeGraph
  import opened BPTree
  import opened Decimal
  import opened RowCodec
  import opened DataFile
  import opened Ast
  import opened Engine

  method FindColumnIndex(names: seq<string>, name: string) returns (index: int)
    ensures index == FindColumn(names, name)
  {
    for i := 0 to |names|
      invariant forall j :: 0 <= j < i ==> names[j] != name
    {
      if names[i] == name {
        return i;
      }
    }
    return -1;
  }

  // ----- Loading -----

  /** Scans the file into a fresh tree, tracking the largest id. */
  method BuildIdIndex(schema: Schema, idColumn: nat, file: string) returns (ok: bool, tree: Tree, maxId: Key, sawRow: bool)
    ensures fresh(tree) && fresh(tree.graph.Keys) && tree.Valid()
    ensures ok <==> Rebuild(schema, idColumn, file).Some?
    ensures ok ==> Rebuild(schema, idColumn, file).value == BuildState(tree.contents, maxId, sawRow)
  {
    hide Tree.Valid, ReadLine, ParseLine, ParseId, Build, Scan;
    tree := new Tree();
    maxId, sawRow := 0, false;
    BuildNothing(idColumn);
    var pos := 0;
    ghost var done: seq<Entry> := [];
    AfterNothing(Scan(file, 0, |schema|));
    while true
      invariant pos <= |file| && fresh(tree) && fresh(tree.graph.Keys) && tree.Valid()
      invariant Scan(file, 0, |schema|) == After(done, Scan(file, pos, |schema|))
      invariant Build(done, idColumn) == Some(BuildState(tree.contents, maxId, sawRow))
      decreases |file| - pos
    {
      var line := ReadLineAt(file, pos);
      ScanFrom(file, pos, |schema|);
      if line.Eof? {
        break;
      }
      var row := ParseLineIntoRow(line.text, |schema|);
      if row == None {
        return false, tree, maxId, sawRow;
      }
      ghost var e := Entry(pos, row.value);
      ghost var rest := Scan(file, line.next, |schema|);
      AfterOne(done, e, rest);
      BuildPrefix(done, e, rest, idColumn);
      var id: Option<Key> := None;
      if idColumn < |row.value| {
        id := ParseCanonical(row.value[idColumn]);
      }
      if id == None {
        return false, tree, maxId, sawRow;
      }
      var inserted := tree.Insert(id.value, pos);
      if !inserted {
        return false, tree, maxId, sawRow;
      }
      if !sawRow || id.value > maxId {
        maxId := id.value;
      }
      sawRow := true;
      done := done + [e];
      pos := line.next;
    }
    assert done + [] == done;
    ok := true;
  }

  lemma BuildNothing(idColumn: nat)
    ensures Build([], idColumn) == Some(EMPTY_BUILD)
  {
  }

  lemma {:induction false} BuildFails(done: seq<Entry>, rest: seq<Entry>, idColumn: nat)
    requires Build(done, idColumn) == None
    ensures Build(done + rest, idColumn) == None
    decreases |rest|
  {
    if rest == [] {
      assert done + rest == done;
    } else {
      var n := |rest| - 1;
      BuildFails(done, rest[..n], idColumn);
      assert (done + rest)[..|done + rest| - 1] == done + rest[..n];
    }
  }

  /** One row further in a scan. */
  lemma ScanFrom(file: string, pos: nat, count: nat)
    ensures ReadLine(file, pos).Eof? ==> Scan(file, pos, count) == Some([])
    ensures ReadLine(file, pos).Line? ==>
      var line := ReadLine(file, pos);
      Scan(file, pos, count) ==
        if ParseLine(line.text, count) == None then None
        else After([Entry(pos, ParseLine(line.text, count).value)], Scan(file, line.next, count))
  {
    hide ReadLine, ParseLine;
  }

  /** The build of everything passes through the build of each prefix. */
  lemma BuildPrefix(done: seq<Entry>, e: Entry, rest: Option<seq<Entry>>, idColumn: nat)
    requires Build(done, idColumn).Some?
    ensures Build(done + [e], idColumn) == BuildStep(Build(done, idColumn).value, e, idColumn)
    ensures BuildStep(Build(done, idColumn).value, e, idColumn) == None && rest.Some? ==>
      Build(done + [e] + rest.value, idColumn) == None
  {
    assert (done + [e])[..|done|] == done;
    if Build(done + [e], idColumn) == None && rest.Some? {
      BuildFails(done + [e], rest.value, idColumn);
    }
  }

  // ----- Checking and placing the values of an INSERT -----

  lemma FindColumnInjective(schema: Schema, a: string, b: string)
    requires FindColumn(schema, a) >= 0
    ensures FindColumn(schema, a) == FindColumn(schema, b) <==> a == b
  {
    hide FindColumn;
  }

  lemma FindColumnSnoc(names: seq<string>, last: string, name: string)
    ensures FindColumn(names + [last], name) ==
      if FindColumn(names, name) >= 0 then FindColumn(names, name) else if last == name then |names| else -1
  {
    hide FindColumn;
    var longer, i, k := names + [last], FindColumn(names, name), FindColumn(names + [last], name);
    assert longer[|names|] == last;
    assert forall j :: 0 <= j < |names| ==> longer[j] == names[j];
  }

  /** One of the first n names stands for column c. */
  ghost predicate Taken(schema: Schema, names: seq<string>, n: nat, c: int)
    requires n <= |names|
  {
    exists j :: 0 <= j < n && FindColumn(schema, names[j]) == c
  }

  lemma NothingDistinct()
    ensures forall names: seq<string> :: Distinct(names[..0])
  {
  }

  /** A name is repeated exactly when its column is taken. */
  lemma TakenExact(schema: Schema, names: seq<string>, i: nat, c: int)
    requires i < |names| && FindColumn(schema, names[i]) == c >= 0 && Distinct(names[..i])
    requires forall j :: 0 <= j < i ==> FindColumn(schema, names[j]) >= 0
    ensures Taken(schema, names, i, c) ==> !Distinct(names)
    ensures !Taken(schema, names, i, c) ==> Distinct(names[..i + 1])
    ensures forall d :: Taken(schema, names, i + 1, d) <==> Taken(schema, names, i, d) || d == c
  {
    hide FindColumn;
    forall j | 0 <= j < i ensures FindColumn(schema, names[j]) == c <==> names[j] == names[i] {
      if FindColumn(schema, names[j]) == c {
        FindColumnInjective(schema, names[j], names[i]);
      }
    }
    assert forall j :: 0 <= j < i ==> names[..i][j] == names[j] == names[..i + 1][j];
    forall d ensures Taken(schema, names, i + 1, d) <==> Taken(schema, names, i, d) || d == c {
      if d == c {
        assert FindColumn(schema, names[i]) == d;
      }
    }
  }

  /** Checks that the columns are known, not the id, not repeated, and as many as the values. */
  method ValidateInsertColumns(schema: Schema, idColumn: int, stmt: InsertStatement) returns (ok: bool)
    requires schema != []
    ensures ok <==> Fits(schema, idColumn, stmt)
  {
    hide FindColumn, Distinct;
    var nonIdCount := if idColumn >= 0 then |schema| - 1 else |schema|;
    if stmt.columns == [] {
      return |stmt.values| == nonIdCount;
    }
    if |stmt.columns| != |stmt.values| {
      return false;
    }
    var seen := new bool[|schema|](_ => false);
    NothingDistinct();
    for i := 0 to |stmt.columns|
      invariant forall j :: 0 <= j < i ==>
        FindColumn(schema, stmt.columns[j]) >= 0 && FindColumn(schema, stmt.columns[j]) != idColumn
      invariant forall c :: 0 <= c < |schema| ==> (seen[c] <==> Taken(schema, stmt.columns, i, c))
      invariant Distinct(stmt.columns[..i])
    {
      var name := stmt.columns[i];
      var c := FindColumnIndex(schema, name);
      if c < 0 {
        return false;
      }
      if c == idColumn {
        return false;
      }
      TakenExact(schema, stmt.columns, i, c);
      if seen[c] {
        return false;
      }
      seen[c] := true;
    }
    assert stmt.columns[..|stmt.columns|] == stmt.columns;
    ok := true;
  }

  /** Fills the row: the id in its column, the given values in theirs, the rest empty. */
  method BuildInsertRow(schema: Schema, idColumn: int, stmt: InsertStatement, id: nat) returns (row: Row)
    requires Distinct(schema) && idColumn < |schema| && Fits(schema, idColumn, stmt)
    ensures row == PlacedRow(schema, idColumn, stmt, id)
  {
    hide FindColumn, Print, FieldFor, PartialField, Fits, Distinct, PlacedRow;
    var values := new string[|schema|](_ => "");
    if idColumn >= 0 {
      values[idColumn] := Print(id);
    }
    FieldsCounted(schema, idColumn, stmt, id);
    if stmt.columns == [] {
      var valueIndex := 0;
      for i := 0 to |schema|
        invariant valueIndex == if 0 <= idColumn < i then i - 1 else i
        invariant idColumn >= 0 ==> values[idColumn] == Print(id)
        invariant forall j :: 0 <= j < i ==> values[j] == FieldFor(schema, idColumn, stmt, id, j)
      {
        PositionalField(schema, idColumn, stmt, id, i);
        if i != idColumn {
          values[i] := stmt.values[valueIndex].text;
          valueIndex := valueIndex + 1;
        }
      }
    } else {
      for i := 0 to |stmt.columns|
        invariant forall j :: 0 <= j < |schema| ==> values[j] == PartialField(schema, idColumn, stmt, id, i, j)
      {
        var c := FindColumnIndex(schema, stmt.columns[i]);
        InsertedColumn(schema, idColumn, stmt, i);
        // The C code checks again that the column is known and not the id; validation has done so.
        values[c] := stmt.values[i].text;
        forall j | 0 <= j < |schema|
          ensures values[j] == PartialField(schema, idColumn, stmt, id, i + 1, j)
        {
          PartialFieldStep(schema, idColumn, stmt, id, i, j);
        }
      }
    }
    row := values[..];
    assert forall j :: 0 <= j < |schema| ==> row[j] == PlacedRow(schema, idColumn, stmt, id)[j];
  }

  lemma PositionalField(schema: Schema, idColumn: int, stmt: InsertStatement, id: nat, i: nat)
    requires idColumn < |schema| && Fits(schema, idColumn, stmt) && stmt.columns == [] && i < |schema|
    ensures var k := if 0 <= idColumn < i then i - 1 else i;
            && (i != idColumn ==> k < |stmt.values|)
            && FieldFor(schema, idColumn, stmt, id, i) == if i == idColumn then Print(id) else stmt.values[k].text
  {
    hide FindColumn, Print;
  }

  /** Before the first and after the last column of the list. */
  lemma FieldsCounted(schema: Schema, idColumn: int, stmt: InsertStatement, id: nat)
    requires Fits(schema, idColumn, stmt)
    ensures stmt.columns != [] ==>
      && |stmt.columns| == |stmt.values|
      && forall j :: 0 <= j < |schema| ==>
           && PartialField(schema, idColumn, stmt, id, 0, j) == (if j == idColumn then Print(id) else "")
           && PartialField(schema, idColumn, stmt, id, |stmt.columns|, j) == FieldFor(schema, idColumn, stmt, id, j)
  {
    hide FindColumn, Print;
    assert stmt.columns[..|stmt.columns|] == stmt.columns;
  }

  /** What column j holds when the first i columns of the list have been placed. */
  ghost function PartialField(schema: Schema, idColumn: int, stmt: InsertStatement, id: nat, i: nat, j: nat): string
    requires j < |schema| && i <= |stmt.columns| == |stmt.values|
  {
    var k := FindColumn(stmt.columns[..i], schema[j]);
    if j == idColumn then Print(id) else if k >= 0 then stmt.values[k].text else ""
  }

  lemma PartialFieldStep(schema: Schema, idColumn: int, stmt: InsertStatement, id: nat, i: nat, j: nat)
    requires Distinct(schema) && Fits(schema, idColumn, stmt) && j < |schema| && i < |stmt.columns|
    ensures PartialField(schema, idColumn, stmt, id, i + 1, j) ==
      if j == FindColumn(schema, stmt.columns[i]) then stmt.values[i].text else PartialField(schema, idColumn, stmt, id, i, j)
  {
    hide FindColumn, Print, Fits, Distinct;
    InsertedColumn(schema, idColumn, stmt, i);
    assert stmt.columns[..i + 1] == stmt.columns[..i] + [stmt.columns[i]];
    FindColumnSnoc(stmt.columns[..i], stmt.columns[i], schema[j]);
    SameColumn(schema, stmt.columns[i], j);
    NotBefore(stmt.columns, i);
  }

  lemma InsertedColumn(schema: Schema, idColumn: int, stmt: InsertStatement, i: nat)
    requires Fits(schema, idColumn, stmt) && i < |stmt.columns|
    ensures FindColumn(schema, stmt.columns[i]) >= 0 && FindColumn(schema, stmt.columns[i]) != idColumn
    ensures Distinct(stmt.columns) && |stmt.columns| == |stmt.values|
  {
    hide FindColumn, Distinct;
  }

  lemma SameColumn(schema: Schema, name: string, j: nat)
    requires Distinct(schema) && FindColumn(schema, name) >= 0 && j < |schema|
    ensures j == FindColumn(schema, name) <==> schema[j] == name
  {
    hide FindColumn;
  }

  lemma NotBefore(names: seq<string>, i: nat)
    requires Distinct(names) && i < |names|
    ensures FindColumn(names[..i], names[i]) < 0
  {
    hide FindColumn;
  }

  // ----- The loaded table -----

  method ValidateSelectColumns(schema: Schema, stmt: SelectStatement) returns (ok: bool)
    ensures ok <==> ValidSelect(schema, stmt)
  {
    hide FindColumn;
    if !stmt.all && stmt.columns == [] {
      return false;
    }
    if !stmt.all {
      for i := 0 to |stmt.columns|
        invariant forall j :: 0 <= j < i ==> FindColumn(schema, stmt.columns[j]) >= 0
      {
        var c := FindColumnIndex(schema, stmt.columns[i]);
        if c < 0 {
          return false;
        }
      }
    }
    if stmt.filter.Where? {
      var c := FindColumnIndex(schema, stmt.filter.column);
      if c < 0 {
        return false;
      }
    }
    ok := true;
  }

  method ProjectSingleRow(schema: Schema, stmt: SelectStatement, source: Row) returns (projected: Row)
    ensures projected == Project(schema, stmt, source)
  {
    hide FindColumn;
    var count := if stmt.all then |schema| else |stmt.columns|;
    projected := [];
    for i := 0 to count
      invariant |projected| == i && forall j :: 0 <= j < i ==> projected[j] == ProjectField(schema, stmt, source, j)
    {
      var c := i;
      if !stmt.all {
        c := FindColumnIndex(schema, stmt.columns[i]);
      }
      var value := "";
      if 0 <= c < |source| {
        value := source[c];
      }
      projected := projected + [value];
    }
  }

  class LoadedTable {
    const schema: Schema
    const idColumn: int
    var ready: bool
    var nextId: Key
    var index: Tree
    var file: string

    ghost predicate Valid()
      reads this, index, index.graph.Keys
    {
      && index.Valid()
      && schema != [] && Distinct(schema) && idColumn == FindColumn(schema, "id")
    }

    /** What the table is, apart from how its index is laid out. */
    ghost function Abs(): Table
      reads this, index
    {
      Table(Runtime(schema, idColumn, ready, nextId, index.contents), file)
    }

    constructor (schema: Schema, idColumn: int, ready: bool, nextId: Key, index: Tree, file: string)
      requires index.Valid() && schema != [] && Distinct(schema) && idColumn == FindColumn(schema, "id")
      ensures Valid() && this.index == index && index.graph == old(index.graph)
      ensures Abs() == Table(Runtime(schema, idColumn, ready, nextId, index.contents), file)
    {
      this.schema, this.idColumn, this.ready, this.nextId, this.index, this.file :=
        schema, idColumn, ready, nextId, index, file;
    }

    /** Appends the row, puts its offset into the index and moves the next id on. */
    method ExecuteInsert(stmt: InsertStatement) returns (outcome: InsertOutcome)
      requires Valid()
      modifies this, index, index.graph.Keys
      ensures Valid() && index == old(index) && fresh(index.graph.Keys - old(index.graph.Keys))
      ensures (Abs(), outcome) == ExecInsert(old(Abs()), stmt)
    {
      hide Tree.Valid, Fits, PlacedRow, Append, FindColumn;
      var fits := ValidateInsertColumns(schema, idColumn, stmt);
      if !fits {
        return Refused(ExecError);
      }
      if idColumn < 0 {
        var row := BuildInsertRow(schema, idColumn, stmt, nextId);
        var written, offset := AppendRow(file, row);
        file := written;
        return Inserted(None);
      }
      var id := nextId;
      if id == 0 {
        return Refused(ExecError);
      }
      var row := BuildInsertRow(schema, idColumn, stmt, id);
      var written, offset := AppendRow(file, row);
      file := written;
      var ok := index.Insert(id, offset);
      if !ok {
        return Refused(IndexError);
      }
      nextId := (nextId + 1) % KEY_LIMIT;
      ready := true;
      outcome := Inserted(Some(id));
    }

    /** Whether the index can serve the statement, and for which id. */
    method CanUseIdIndex(stmt: SelectStatement) returns (key: Option<Key>)
      ensures key == IndexKey(Abs().rt, stmt)
    {
      hide ParseId;
      if idColumn < 0 || !ready {
        return None;
      }
      if stmt.filter.NoWhere? {
        return None;
      }
      if stmt.filter.column != "id" {
        return None;
      }
      key := ParseCanonical(stmt.filter.value.text);
    }

    /** One descent of the tree and one read of the file. */
    method SelectWithIdIndex(stmt: SelectStatement, id: Key) returns (r: Result<QueryResult, Error>)
      requires Valid()
      ensures r == IndexLookup(Abs(), stmt, id)
    {
      hide Tree.Valid, ReadRow, Project, FindColumn;
      var header := Header(schema, stmt);
      var offset, found := index.Search(id);
      if !found {
        return Ok(QueryResult(header, []));
      }
      var row := ReadRowAt(file, offset, |schema|);
      if row == None {
        return Err(StorageError);
      }
      if !Matches(stmt, idColumn, row.value) {
        return Ok(QueryResult(header, []));
      }
      var projected := ProjectSingleRow(schema, stmt, row.value);
      r := Ok(QueryResult(header, [projected]));
    }

    /** A pass over the file that keeps the rows that match. */
    method SelectWithFullScan(stmt: SelectStatement) returns (r: Result<QueryResult, Error>)
      requires Valid()
      ensures r == FullScan(Abs(), stmt)
    {
      hide Tree.Valid, Matches, Project, ReadLine, ParseLine, FindColumn;
      var rows: seq<Row> := [];
      var whereIndex := -1;
      if stmt.filter.Where? {
        whereIndex := FindColumnIndex(schema, stmt.filter.column);
      }
      var pos := 0;
      ghost var done: seq<Entry> := [];
      AfterNothing(Scan(file, 0, |schema|));
      while true
        invariant pos <= |file|
        invariant Scan(file, 0, |schema|) == After(done, Scan(file, pos, |schema|))
        invariant rows == Selected(schema, stmt, done)
        decreases |file| - pos
      {
        var line := ReadLineAt(file, pos);
        if line.Eof? {
          break;
        }
        var row := ParseLineIntoRow(line.text, |schema|);
        if row == None {
          return Err(StorageError);
        }
        ghost var e := Entry(pos, row.value);
        AfterOne(done, e, Scan(file, line.next, |schema|));
        assert (done + [e])[..|done|] == done;
        if Matches(stmt, whereIndex, row.value) {
          var projected := ProjectSingleRow(schema, stmt, row.value);
          rows := rows + [projected];
        }
        done := done + [e];
        pos := line.next;
      }
      assert done + [] == done;
      r := Ok(QueryResult(Header(schema, stmt), rows));
    }

    method ExecuteSelect(stmt: SelectStatement) returns (r: Result<QueryResult, Error>, usedIndex: bool)
      requires Valid()
      ensures r == ExecSelect(Abs(), stmt)
      ensures usedIndex <==> ValidSelect(schema, stmt) && IndexKey(Abs().rt, stmt).Some?
    {
      hide Tree.Valid, IndexLookup, FullScan, ValidSelect, IndexKey;
      var valid := ValidateSelectColumns(schema, stmt);
      if !valid {
        return Err(ExecError), false;
      }
      var key := CanUseIdIndex(stmt);
      if key.Some? {
        r := SelectWithIdIndex(stmt, key.value);
        usedIndex := true;
      } else {
        r := SelectWithFullScan(stmt);
        usedIndex := false;
      }
    }
  }

  /** Loads a table from its schema and data file. */
  method LoadTable(schema: Schema, file: string) returns (r: Result<LoadedTable, Error>)
    requires schema != [] && Distinct(schema)
    ensures r.Ok? <==> Load(schema, file).Ok?
    ensures r.Ok? ==> fresh(r.value) && fresh(r.value.index) && fresh(r.value.index.graph.Keys)
    ensures r.Ok? ==> r.value.Valid() && r.value.Abs() == Table(Load(schema, file).value, file)
    ensures r.Err? ==> r.error == Load(schema, file).error
  {
    hide Tree.Valid, Rebuild, FindColumn;
    var idColumn := FindColumnIndex(schema, "id");
    if idColumn < 0 {
      var tree := new Tree();
      var t := new LoadedTable(schema, -1, false, 0, tree, file);
      return Ok(t);
    }
    var ok, tree, maxId, sawRow := BuildIdIndex(schema, idColumn, file);
    if !ok {
      return Err(IndexError);
    }
    var nextId: Key := 1;
    if sawRow {
      if maxId == UINT64_MAX {
        return Err(IndexError);
      }
      nextId := maxId + 1;
    }
    var t := new LoadedTable(schema, idColumn, true, nextId, tree, file);
    r := Ok(t);
  }
}
