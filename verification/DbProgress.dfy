/** No deadlock and no starvation under the readers-writer lock: some request can always move, and a schedule that
    keeps coming back to every request answers them all. */
module DbProgress {
  import opened Common
  import opened BPTreeGraph
  import opened Ast
  import opened RowCodec
  import opened DataFile
  import opened Engine
  import opened Database
  import opened DbProtocol

  // ----- A measure -----

  const MAX_STEPS: nat := 9

  /** How many steps of its own a request has before it at most. */
  function Rank(pc: Pc): (n: nat)
    ensures n <= MAX_STEPS
    ensures n == 0 <==> pc.Done?
  {
    match pc
    case NotStarted(_) => 9
    case WantPreload(_) => 8
    case InPreload(_) => 7
    case LeavePreload(_, _) => 6
    case WantRead(_) => 5
    case InRead(_) => 4
    case Found(_, _) => 3
    case Located(_, _, _) => 2
    case LeaveRead(_) => 1
    case WantWrite(_) => 5
    case InWrite(_) => 4
    case Prepared(_) => 3
    case Appended(_, _, _) => 2
    case LeaveWrite(_) => 1
    case Done(_) => 0
  }

  ghost function Pick(ts: set<nat>): (t: nat)
    requires ts != {}
    ensures t in ts
  {
    var t :| t in ts; t
  }

  ghost function Total(ts: set<nat>, pcs: map<nat, Pc>): (n: nat)
    requires ts <= pcs.Keys
  {
    if ts == {} then 0 else Rank(pcs[Pick(ts)]) + Total(ts - {Pick(ts)}, pcs)
  }

  lemma {:induction false} TotalSplit(ts: set<nat>, pcs: map<nat, Pc>, t: nat)
    requires ts <= pcs.Keys && t in ts
    ensures Total(ts, pcs) == Rank(pcs[t]) + Total(ts - {t}, pcs)
  {
    hide Rank;
    var u := Pick(ts);
    if u != t {
      TotalSplit(ts - {u}, pcs, t);
      TotalSplit(ts - {t}, pcs, u);
      assert ts - {u} - {t} == ts - {t} - {u};
    }
  }

  lemma {:induction false} TotalSame(ts: set<nat>, pcs: map<nat, Pc>, after: map<nat, Pc>)
    requires ts <= pcs.Keys && ts <= after.Keys && forall t :: t in ts ==> pcs[t] == after[t]
    ensures Total(ts, after) == Total(ts, pcs)
  {
    hide Rank;
    if ts != {} {
      TotalSame(ts - {Pick(ts)}, pcs, after);
    }
  }

  lemma {:induction false} TotalBounded(ts: set<nat>, pcs: map<nat, Pc>)
    requires ts <= pcs.Keys
    ensures Total(ts, pcs) <= MAX_STEPS * |ts|
    ensures Total(ts, pcs) == 0 <==> forall t :: t in ts ==> pcs[t].Done?
  {
    if ts != {} {
      TotalBounded(ts - {Pick(ts)}, pcs);
    }
  }

  // ----- One step -----

  /** The request does not have to wait. */
  ghost predicate Moves(s: System, t: nat) {
    t in s.pcs && Effect(s, t).pc != s.pcs[t]
  }

  lemma EffectDescends(s: System, t: nat)
    requires t in s.pcs
    ensures Moves(s, t) ==> Rank(Effect(s, t).pc) < Rank(s.pcs[t])
  {
    hide GetOrLoad, Execute, ExecInsert, ExecSelect, IndexLookup, IndexInsert, ValidSelect, IndexKey, Lookup, Replace, FileOf;
  }

  /** A request that waits changes nothing. */
  lemma WaitingKeeps(s: System, t: nat)
    requires t in s.pcs && !Moves(s, t)
    ensures Step(s, t) == s
  {
    hide GetOrLoad, Execute, ExecInsert, ExecSelect, IndexLookup, IndexInsert, ValidSelect, IndexKey, Lookup, Replace, FileOf;
    assert s.pcs[t := s.pcs[t]] == s.pcs;
  }

  lemma StepDescends(s: System, t: nat)
    requires t in s.pcs
    ensures Step(s, t).pcs.Keys == s.pcs.Keys
    ensures Total(s.pcs.Keys, Step(s, t).pcs) <= Total(s.pcs.Keys, s.pcs) - (if Moves(s, t) then 1 else 0)
  {
    hide Rank, Effect, Execute, Decided, StmtOf;
    var ts, after := s.pcs.Keys, Step(s, t).pcs;
    EffectDescends(s, t);
    TotalSplit(ts, s.pcs, t);
    TotalSplit(ts, after, t);
    TotalSame(ts - {t}, s.pcs, after);
  }

  /** A request that is neither done nor waiting for a lock has a next step. */
  lemma NotWaiting(s: System, t: nat)
    requires t in s.pcs && Knows(s.db, s.pcs[t]) && !s.pcs[t].Done?
    requires s.pcs[t].WantRead? ==> s.writer == None
    requires s.pcs[t].WantPreload? || s.pcs[t].WantWrite? ==> WriteLockFree(s)
    ensures Moves(s, t)
  {
    hide GetOrLoad, Execute, ExecInsert, ExecSelect, IndexLookup, IndexInsert, ValidSelect, IndexKey, Lookup, Replace, FileOf;
  }

  ghost predicate AllDone(s: System) {
    forall t :: t in s.pcs ==> s.pcs[t].Done?
  }

  /** No deadlock: while a request is not done, some request can move. */
  lemma SomeoneMoves(s: System, start: Db) returns (u: nat)
    requires Inv(s, start) && !AllDone(s)
    ensures Moves(s, u)
  {
    hide Moves, Knows, Ahead, Settled, LogOk;
    if s.writer.Some? {
      u := s.writer.value;
    } else if s.readers != {} {
      u :| u in s.readers;
    } else {
      u :| u in s.pcs && !s.pcs[u].Done?;
    }
    NotWaiting(s, u);
  }

  // ----- Schedules -----

  lemma {:induction false} RunDescends(s: System, schedule: seq<nat>)
    ensures Run(s, schedule).pcs.Keys == s.pcs.Keys
    ensures Total(s.pcs.Keys, Run(s, schedule).pcs) <= Total(s.pcs.Keys, s.pcs)
    decreases |schedule|
  {
    hide Step, Total;
    if schedule != [] {
      if schedule[0] in s.pcs {
        StepDescends(s, schedule[0]);
        RunDescends(Step(s, schedule[0]), schedule[1..]);
      } else {
        RunDescends(s, schedule[1..]);
      }
    }
  }

  /** Every step of the schedule is one that its request can take. */
  ghost predicate NoneWaits(s: System, schedule: seq<nat>)
    decreases |schedule|
  {
    schedule == [] || (Moves(s, schedule[0]) && NoneWaits(Step(s, schedule[0]), schedule[1..]))
  }

  lemma {:induction false} StepsBounded(s: System, schedule: seq<nat>)
    requires NoneWaits(s, schedule)
    ensures Run(s, schedule).pcs.Keys == s.pcs.Keys
    ensures |schedule| + Total(s.pcs.Keys, Run(s, schedule).pcs) <= Total(s.pcs.Keys, s.pcs)
    decreases |schedule|
  {
    hide Step, Total, Effect;
    if schedule != [] {
      StepDescends(s, schedule[0]);
      StepsBounded(Step(s, schedule[0]), schedule[1..]);
    }
  }

  /** A round that names a request which can move brings the whole closer to its end. */
  lemma {:induction false} RoundDescends(s: System, round: seq<nat>, u: nat)
    requires Moves(s, u) && u in round
    ensures Run(s, round).pcs.Keys == s.pcs.Keys
    ensures Total(s.pcs.Keys, Run(s, round).pcs) < Total(s.pcs.Keys, s.pcs)
    decreases |round|
  {
    hide Step, Total, Effect;
    var t, rest := round[0], round[1..];
    if t !in s.pcs {
      RoundDescends(s, rest, u);
    } else if Moves(s, t) {
      StepDescends(s, t);
      RunDescends(Step(s, t), rest);
    } else {
      WaitingKeeps(s, t);
      RoundDescends(s, rest, u);
    }
  }

  function Flatten(rounds: seq<seq<nat>>): (schedule: seq<nat>) {
    if rounds == [] then [] else rounds[0] + Flatten(rounds[1..])
  }

  lemma AllDoneTotal(s: System)
    ensures AllDone(s) <==> Total(s.pcs.Keys, s.pcs) == 0
  {
    TotalBounded(s.pcs.Keys, s.pcs);
  }

  lemma {:induction false} RoundsFinish(s: System, rounds: seq<seq<nat>>, start: Db)
    requires Inv(s, start) && Total(s.pcs.Keys, s.pcs) <= |rounds|
    requires forall k, t :: 0 <= k < |rounds| && t in s.pcs ==> t in rounds[k]
    ensures AllDone(Run(s, Flatten(rounds)))
    decreases |rounds|
  {
    hide Inv, Run, Total, Moves, AllDone;
    AllDoneTotal(s);
    if AllDone(s) {
      RunDescends(s, Flatten(rounds));
      AllDoneTotal(Run(s, Flatten(rounds)));
    } else {
      var u := SomeoneMoves(s, start);
      assert u in s.pcs by { MovesIn(s, u); }
      RoundDescends(s, rounds[0], u);
      RunKeepsInv(s, rounds[0], start);
      RoundsFinish(Run(s, rounds[0]), rounds[1..], start);
      RunConcat(s, rounds[0], Flatten(rounds[1..]));
    }
  }

  lemma MovesIn(s: System, u: nat)
    requires Moves(s, u)
    ensures u in s.pcs
  {
  }

  // ----- From the start of the server -----

  lemma Reached(db: Db, requests: map<nat, Statement>, schedule: seq<nat>)
    ensures Inv(Start(db, requests), db) && Inv(Run(Start(db, requests), schedule), db)
    ensures Start(db, requests).pcs.Keys == requests.Keys && Run(Start(db, requests), schedule).pcs.Keys == requests.Keys
  {
    hide Run, Inv;
    InitialInv(Start(db, requests));
    RunKeepsInv(Start(db, requests), schedule, db);
    RunDescends(Start(db, requests), schedule);
  }

  /** No deadlock: in every reachable state either every request is done or some request has a next step. */
  lemma ServerProgresses(db: Db, requests: map<nat, Statement>, schedule: seq<nat>)
    ensures var now := Run(Start(db, requests), schedule);
            AllDone(now) || exists u :: u in requests && Moves(now, u)
  {
    hide Run, Inv, Moves;
    Reached(db, requests, schedule);
    var now := Run(Start(db, requests), schedule);
    if !AllDone(now) {
      var u := SomeoneMoves(now, db);
      MovesIn(now, u);
    }
  }

  /** Who waits for whom, in every reachable state: a reader only for a request between taking and releasing the write
      lock, a writer for every request in a section, and nobody else waits. */
  lemma WaitsExactly(db: Db, requests: map<nat, Statement>, schedule: seq<nat>, t: nat)
    requires t in requests
    ensures var now := Run(Start(db, requests), schedule);
            && t in now.pcs
            && (now.pcs[t].WantRead? ==> (Moves(now, t) <==> !Someone(now, false)))
            && (now.pcs[t].WantPreload? || now.pcs[t].WantWrite? ==> (Moves(now, t) <==> !Someone(now, true)))
            && (!now.pcs[t].WantRead? && !now.pcs[t].WantPreload? && !now.pcs[t].WantWrite? ==>
                  (Moves(now, t) <==> !now.pcs[t].Done?))
  {
    hide Run, Inv, Moves, Knows, Ahead, Settled, LogOk, Someone;
    Reached(db, requests, schedule);
    var now := Run(Start(db, requests), schedule);
    InvParts(now, db, t);
    SectionsExact(now);
    WaitingForLock(now, t);
    if !now.pcs[t].Done? && (now.pcs[t].WantRead? ==> now.writer == None)
       && (now.pcs[t].WantPreload? || now.pcs[t].WantWrite? ==> WriteLockFree(now)) {
      NotWaiting(now, t);
    }
  }

  /** Some request is in a section under the write lock, or also under the read lock. */
  ghost predicate Someone(s: System, reading: bool) {
    exists u :: u in s.pcs && (Writing(s.pcs[u]) || (reading && Reading(s.pcs[u])))
  }

  lemma InvParts(s: System, start: Db, t: nat)
    requires Inv(s, start) && t in s.pcs
    ensures LockOk(s) && Knows(s.db, s.pcs[t])
  {
  }

  lemma SectionsExact(s: System)
    requires LockOk(s)
    ensures s.writer == None <==> !Someone(s, false)
    ensures WriteLockFree(s) <==> !Someone(s, true)
  {
    hide Reading, Writing;
    if s.writer.Some? {
      assert Writing(s.pcs[s.writer.value]);
    }
    if s.readers != {} {
      var u :| u in s.readers;
      assert Reading(s.pcs[u]);
    }
  }

  lemma WaitingForLock(s: System, t: nat)
    requires t in s.pcs
    ensures s.pcs[t].Done? ==> !Moves(s, t)
    ensures s.pcs[t].WantRead? && s.writer != None ==> !Moves(s, t)
    ensures (s.pcs[t].WantPreload? || s.pcs[t].WantWrite?) && !WriteLockFree(s) ==> !Moves(s, t)
  {
    hide GetOrLoad, Execute, ExecInsert, ExecSelect, IndexLookup, IndexInsert, ValidSelect, IndexKey, Lookup, Replace, FileOf;
  }

  /** The requests take at most nine steps each; and a run that cannot be continued has answered every one of them. */
  lemma ServerEnds(db: Db, requests: map<nat, Statement>, schedule: seq<nat>)
    requires NoneWaits(Start(db, requests), schedule)
    ensures |schedule| <= MAX_STEPS * |requests|
    ensures var now := Run(Start(db, requests), schedule);
            (forall u :: !Moves(now, u)) ==> Answered(requests, now)
  {
    hide Run, Inv, Moves, NoneWaits;
    var s := Start(db, requests);
    Reached(db, requests, schedule);
    StepsBounded(s, schedule);
    TotalBounded(s.pcs.Keys, s.pcs);
    assert |requests.Keys| == |requests|;
    var now := Run(s, schedule);
    if forall u :: !Moves(now, u) {
      if !AllDone(now) {
        var u := SomeoneMoves(now, db);
      }
      DoneIsAnswered(db, requests, schedule);
    }
  }

  /** Every request is done and in the log, with its own statement and its answer. */
  ghost predicate Answered(requests: map<nat, Statement>, s: System) {
    forall t :: t in requests ==> t in s.pcs && s.pcs[t].Done? && LogEntry(t, requests[t], s.pcs[t].response) in s.log
  }

  lemma DoneIsAnswered(db: Db, requests: map<nat, Statement>, schedule: seq<nat>)
    requires AllDone(Run(Start(db, requests), schedule))
    ensures Answered(requests, Run(Start(db, requests), schedule))
  {
    hide Run, Faithful, Inv;
    ServerLinearizable(db, requests, schedule);
    Reached(db, requests, schedule);
  }

  /** No starvation: once every request has had nine turns for each request there is, in any order and however the turns
      interleave, every request is answered.  A turn in which a request has to wait counts. */
  lemma ServerAnswersAll(db: Db, requests: map<nat, Statement>, rounds: seq<seq<nat>>)
    requires MAX_STEPS * |requests| <= |rounds|
    requires forall k, t :: 0 <= k < |rounds| && t in requests ==> t in rounds[k]
    ensures Answered(requests, Run(Start(db, requests), Flatten(rounds)))
  {
    hide Run, Inv, Answered, AllDone;
    var s := Start(db, requests);
    Reached(db, requests, Flatten(rounds));
    TotalBounded(s.pcs.Keys, s.pcs);
    assert |requests.Keys| == |requests|;
    RoundsFinish(s, rounds, db);
    DoneIsAnswered(db, requests, Flatten(rounds));
  }
}
