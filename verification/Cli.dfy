/** The command line: src/main.c parses one statement, executes it, and goes on; it stops at the first error. */
module Cli {
  import opened Common
  import opened Lexer
  import opened Parser
  import opened Frontend
  import opened Ast
  import opened Database
  import opened DbConsistency
  import opened DbAnswers

  datatype Exit = Finished | NothingToDo | ParseFailed | ExecFailed

  /** The database at the end, the answers printed, and why the loop stopped. */
  datatype Outcome = Outcome(db: Db, printed: seq<Response>, exit: Exit)

  predicate Failed(r: Response) {
    match r
    case InsertDone(outcome) => outcome.Refused?
    case SelectDone(result) => result.Err?
  }

  function Printed(r: Response, rest: Outcome): Outcome {
    rest.(printed := [r] + rest.printed)
  }

  /** The loop, from token i. */
  ghost function RunFrom(db: Db, ts: seq<Token>, i: nat): Outcome
    requires Ends(ts) && i < |ts|
    decreases |ts| - i
  {
    var j := Skip(ts, i);
    if ts[j] == End then Outcome(db, [], Exit.Finished)
    else match NextAt(ts, j)
      case None => Outcome(db, [], ParseFailed)
      case Some(p) =>
        var (after, response) := Execute(db, p.value);
        if Failed(response) then Outcome(after, [], ExecFailed) else Printed(response, RunFrom(after, ts, p.next))
  }

  /** A run in which no statement was found is an error of its own. */
  ghost function RunTokens(db: Db, ts: seq<Token>): Outcome
    requires Ends(ts)
  {
    var r := RunFrom(db, ts, 0);
    if r.exit == Exit.Finished && r.printed == [] then r.(exit := NothingToDo) else r
  }

  /** The reference: a list of statements executed one at a time up to the first that fails. */
  ghost function ExecuteAll(db: Db, stmts: seq<Statement>): Outcome
    decreases |stmts|
  {
    if stmts == [] then Outcome(db, [], Exit.Finished)
    else
      var (after, response) := Execute(db, stmts[0]);
      if Failed(response) then Outcome(after, [], ExecFailed) else Printed(response, ExecuteAll(after, stmts[1..]))
  }

  /** Parsing as it goes along does what parsing everything first and executing what was parsed would do: in
      particular the statements before a parse error are executed, and those after a failed one are not. */
  lemma {:induction false} RunIsExecuteAll(db: Db, ts: seq<Token>, i: nat)
    requires Ends(ts) && i < |ts|
    ensures var script, all := ScriptAt(ts, i), ExecuteAll(db, ScriptAt(ts, i).statements);
            RunFrom(db, ts, i) == if all.exit == Exit.Finished && !script.ok then all.(exit := ParseFailed) else all
    decreases |ts| - i
  {
    hide NextAt, Execute, Failed;
    var j := Skip(ts, i);
    if ts[j] != End && NextAt(ts, j).Some? {
      var p := NextAt(ts, j).value;
      var rest := ScriptAt(ts, p.next);
      assert ([p.value] + rest.statements)[1..] == rest.statements;
      RunIsExecuteAll(Execute(db, p.value).0, ts, p.next);
    }
  }

  lemma {:induction false} ExecuteAllPrints(db: Db, stmts: seq<Statement>)
    ensures var all := ExecuteAll(db, stmts);
            if all.exit == Exit.Finished then |all.printed| == |stmts| else all.exit == ExecFailed
    decreases |stmts|
  {
    hide Execute, Failed;
    if stmts != [] {
      ExecuteAllPrints(Execute(db, stmts[0]).0, stmts[1..]);
    }
  }

  /** The command line complains that there was no statement exactly when the tokens are semicolons and the end. */
  lemma NothingToDoExact(db: Db, ts: seq<Token>)
    requires Ends(ts)
    ensures RunTokens(db, ts).exit == NothingToDo <==> ScriptAt(ts, 0) == Script([], true)
    ensures RunTokens(db, ts).exit == NothingToDo <==> ts[Skip(ts, 0)] == End
  {
    hide NextAt, Execute, Failed;
    RunIsExecuteAll(db, ts, 0);
    ExecuteAllPrints(db, ScriptAt(ts, 0).statements);
  }

  /** It ends well exactly when there is a statement, the whole script parses and every statement succeeds; and then
      every statement has been answered. */
  lemma FinishedExact(db: Db, ts: seq<Token>)
    requires Ends(ts)
    ensures var script, r := ScriptAt(ts, 0), RunTokens(db, ts);
            && (r.exit == Exit.Finished <==>
                  script.ok && script.statements != [] && ExecuteAll(db, script.statements).exit == Exit.Finished)
            && (r.exit == Exit.Finished ==> |r.printed| == |script.statements|)
  {
    hide NextAt, Execute, Failed;
    RunIsExecuteAll(db, ts, 0);
    ExecuteAllPrints(db, ScriptAt(ts, 0).statements);
  }

  /** The database after a list of statements, whatever their answers. */
  ghost function After(db: Db, stmts: seq<Statement>): Db
    decreases |stmts|
  {
    if stmts == [] then db else After(Execute(db, stmts[0]).0, stmts[1..])
  }

  /** The i-th statement succeeds in the database that those before it leave, and r is its answer. */
  ghost predicate Succeeds(db: Db, stmts: seq<Statement>, i: nat, r: Response)
    requires i < |stmts|
  {
    var now := After(db, stmts[..i]);
    Verdict(now, stmts[i]).None? && r == Execute(now, stmts[i]).1
  }

  /** Execution stops at the first statement for which the schemas and the files call for an error; every one before it is
      answered, none after it is executed. */
  lemma {:induction false} StopsAtFirstError(db: Db, stmts: seq<Statement>)
    requires DbOk(db)
    ensures var all, n := ExecuteAll(db, stmts), |ExecuteAll(db, stmts).printed|;
            && n <= |stmts|
            && (forall i :: 0 <= i < n ==> Succeeds(db, stmts, i, all.printed[i]))
            && if n == |stmts| then all.exit == Exit.Finished && all.db == After(db, stmts)
               else
                 && all.exit == ExecFailed && Verdict(After(db, stmts[..n]), stmts[n]).Some?
                 && all.db == After(db, stmts[..n + 1])
    decreases |stmts|
  {
    hide Execute, Verdict, DbOk;
    if stmts != [] {
      var (next, response) := Execute(db, stmts[0]);
      ErrorExact(db, stmts[0]);
      ExecuteOk(db, stmts[0]);
      StopsAtFirstError(next, stmts[1..]);
      forall i | 0 < i <= |stmts| ensures After(db, stmts[..i]) == After(next, stmts[1..][..i - 1]) {
        assert stmts[..i][1..] == stmts[1..][..i - 1];
      }
    }
  }
}
