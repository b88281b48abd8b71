/** A whole session over the heap: a table is loaded, statements are inserted, and a query is answered. */
module Session {
  import opened Common
  import opened Decimal
  import opened RowCodec
  import opened DataFile
  import opened Ast
  import opened Engine
  import opened EngineFacts
  import opened EngineRuns
  import opened BPTree
  import opened TableRuntime

  function Inserting(stmts: seq<InsertStatement>): (actions: seq<Action>)
    ensures |actions| == |stmts| && forall i :: 0 <= i < |stmts| ==> actions[i] == DoInsert(stmts[i])
  {
    seq(|stmts|, i requires 0 <= i < |stmts| => DoInsert(stmts[i]))
  }

  /** What the k-th INSERT is answered. */
  ghost function OutcomeOf(s: State, stmts: seq<InsertStatement>, k: nat): Option<InsertOutcome>
    requires k < |stmts|
  {
    Act(Run(s, Inserting(stmts[..k])).state, DoInsert(stmts[k])).1
  }

  lemma NextInsert(s: State, stmts: seq<InsertStatement>, k: nat)
    requires k < |stmts|
    ensures Run(s, Inserting(stmts[..k + 1])).state == Act(Run(s, Inserting(stmts[..k])).state, DoInsert(stmts[k])).0
  {
    hide Run, Act;
    assert Inserting(stmts[..k + 1]) == Inserting(stmts[..k]) + [DoInsert(stmts[k])];
    RunLast(s, Inserting(stmts[..k]), DoInsert(stmts[k]));
  }

  /** Every answer, the answer to the query and the file at the end are those of the run on values. */
  method LoadInsertSelect(schema: Schema, file: string, stmts: seq<InsertStatement>, query: SelectStatement)
    returns (outcomes: seq<InsertOutcome>, answer: Result<QueryResult, Error>, written: string)
    requires schema != [] && Distinct(schema)
    ensures |outcomes| == |stmts|
    ensures forall k :: 0 <= k < |stmts| ==> OutcomeOf(Down(schema, file), stmts, k) == Some(outcomes[k])
    ensures var s := Run(Down(schema, file), Inserting(stmts)).state; answer == Query(s, query) && written == FileIn(s)
  {
    hide Run, LoadedTable.Valid, LoadedTable.Abs, Load, ExecInsert, ExecSelect, FindColumn, Tree.Valid;
    ghost var s := Down(schema, file);
    outcomes, written := [], file;
    var loaded := LoadTable(schema, file);
    RunNothing(s);
    assert Inserting(stmts[..0]) == [];
    if loaded.Err? {
      for k := 0 to |stmts|
        invariant |outcomes| == k && Run(s, Inserting(stmts[..k])).state == s
        invariant forall j :: 0 <= j < k ==> OutcomeOf(s, stmts, j) == Some(outcomes[j])
      {
        NextInsert(s, stmts, k);
        outcomes := outcomes + [Refused(loaded.error)];
      }
      assert stmts[..|stmts|] == stmts;
      return outcomes, Err(loaded.error), file;
    }
    var t := loaded.value;
    for k := 0 to |stmts|
      invariant fresh(t) && fresh(t.index) && fresh(t.index.graph.Keys) && t.Valid()
      invariant |outcomes| == k && Open(Run(s, Inserting(stmts[..k])).state) == Ok(t.Abs())
      invariant forall j :: 0 <= j < k ==> OutcomeOf(s, stmts, j) == Some(outcomes[j])
    {
      NextInsert(s, stmts, k);
      var outcome := t.ExecuteInsert(stmts[k]);
      outcomes := outcomes + [outcome];
    }
    assert stmts[..|stmts|] == stmts;
    var usedIndex;
    answer, usedIndex := t.ExecuteSelect(query);
    written := t.file;
    OpenFile(t, Run(s, Inserting(stmts)).state);
  }

  lemma OpenFile(t: LoadedTable, s: State)
    requires t.Valid() && Open(s) == Ok(t.Abs())
    ensures FileIn(s) == t.file
  {
    hide Load, Tree.Valid, FindColumn;
  }
}
