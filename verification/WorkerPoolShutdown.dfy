/** How a shutdown of the pool ends, and when it does not. */
module WorkerPoolShutdown {
  import opened Common
  import opened TaskQueue
  import opened WorkerPool
  import opened WorkerPoolFacts

  /** The worker indices that sleep after a step slept before it. */
  ghost predicate NoNewSleeper(s: Pool, t: Pool) {
    |t.workers| == |s.workers| && forall i :: 0 <= i < |s.workers| && t.workers[i].Asleep? ==> s.workers[i].Asleep?
  }

  ghost predicate NoNewPushSleeper(s: Pool, t: Pool) {
    |t.producers| == |s.producers|
    && forall i :: 0 <= i < |s.producers| && t.producers[i].PushAsleep? ==> s.producers[i].PushAsleep?
  }

  /** The queue was destroyed under a producer. */
  predicate Unclean(s: Pool) {
    s.stopper.Destroyed? && !s.stopper.clean
  }

  lemma ProduceNoSleep(s: Pool, i: nat, wake: nat, call: Call, t: Pool)
    requires ShutdownOk(s) && DestroyedOk(s) && Stopping(s) && !Unclean(s)
    requires i < |s.producers| && ProduceStep(s, i, wake, call) == Some(t)
    ensures NoNewSleeper(s, t) && NoNewPushSleeper(s, t)
  {
    hide ProduceStep, ShutdownOk, DestroyedOk, WakeWorker;
    ProduceFrame(s, i, wake, call, t);
    FlagOrOutside(s, i);
    ProducerDescends(s, i, wake, call, t);
  }

  lemma WorkNoSleep(s: Pool, i: nat, wake: nat, t: Pool)
    requires ShutdownOk(s) && Stopping(s) && i < |s.workers| && WorkStep(s, i, wake) == Some(t)
    ensures NoNewSleeper(s, t) && NoNewPushSleeper(s, t)
  {
    hide CanSignal, ShutdownOk, WakeProducer;
    WorkKeepsDestroyed(s, i, wake, t);
    FlagSet(s);
    match s.workers[i] {
      case Testing =>
      case Signalling(_) =>
      case _ =>
    }
  }

  /** After shutdown nobody falls asleep any more. */
  lemma NoSleepAfterShutdown(s: Pool, a: Action, t: Pool)
    requires ShutdownOk(s) && DestroyedOk(s) && Stopping(s) && !Unclean(s) && Next(s, a) == Some(t)
    ensures NoNewSleeper(s, t) && NoNewPushSleeper(s, t)
  {
    hide WorkStep, ProduceStep, ShutdownOk, DestroyedOk;
    match a {
      case Work(i, wake) => WorkNoSleep(s, i, wake, t);
      case Produce(i, wake, call) => ProduceNoSleep(s, i, wake, call, t);
      case _ =>
    }
  }

  function WorkerRank(w: Worker): (n: nat) {
    match w
    case Signalling(_) => 8
    case Unlocking(Some(_)) => 7
    case Handling(_) => 6
    case Asleep => 6
    case Entering | Woken => 5
    case Testing => 4
    case Unlocking(None) => 1
    case Returned => 0
  }

  function ProducerRank(p: Producer): (n: nat) {
    match p
    case Notifying => 13
    case LeavingAccepted => 12
    case LeavingFull(_) => 11
    case Rejecting(_) => 10
    case Accepting => 9
    case Calling(_, _) => 8
    case PushAsleep(_) => 6
    case Locking(_, _) => 5
    case PushWoken(_) => 5
    case Checking(_, _) => 4
    case LeavingRefused(_) => 3
    case Failing(_) => 2
    case Stopped => 0
  }

  function StopperRank(p: Stopper, workers: nat): (n: nat) {
    match p
    case Running => workers + 5
    case Flagged => workers + 4
    case WorkersNotified => workers + 3
    case LeavingShutdown => workers + 2
    case Joining(k) => if k <= workers then workers - k + 1 else 1
    case Destroyed(_, _) => 0
  }

  function Measure(s: Pool): (n: nat) {
    10 * |s.queue.tasks| + Sum(s.workers, WorkerRank) + Sum(s.producers, ProducerRank)
    + StopperRank(s.stopper, |s.workers|)
  }

  lemma WakingDescends(ws: seq<Worker>, ps: seq<Producer>, k: nat)
    ensures Sum(WakeWorker(ws, k), WorkerRank) <= Sum(ws, WorkerRank)
    ensures Sum(WakeWorkers(ws), WorkerRank) <= Sum(ws, WorkerRank)
    ensures Sum(WakeProducer(ps, k), ProducerRank) <= Sum(ps, ProducerRank)
    ensures Sum(WakeProducers(ps), ProducerRank) <= Sum(ps, ProducerRank)
  {
    hide Sum;
    SumAtMost(ws, WakeWorker(ws, k), WorkerRank);
    SumAtMost(ws, WakeWorkers(ws), WorkerRank);
    SumAtMost(ps, WakeProducer(ps, k), ProducerRank);
    SumAtMost(ps, WakeProducers(ps), ProducerRank);
  }

  lemma FlagSet(s: Pool)
    requires ShutdownOk(s) && Stopping(s)
    ensures s.queue.shutdown || s.stopper.Destroyed?
  {
  }

  lemma WorkDescends(s: Pool, i: nat, wake: nat, t: Pool)
    requires ShutdownOk(s) && Stopping(s) && i < |s.workers| && WorkStep(s, i, wake) == Some(t)
    ensures Measure(t) < Measure(s)
  {
    hide Sum, CanSignal, WakeProducer, ShutdownOk;
    WorkKeepsDestroyed(s, i, wake, t);
    FlagSet(s);
    SumUpdate(s.workers, i, t.workers[i], WorkerRank);
    WakingDescends(s.workers, s.producers, wake);
    match s.workers[i] {
      case Testing =>
      case Signalling(_) =>
      case _ =>
    }
  }

  /** After shutdown a producer inside the queue reads the flag. */
  lemma FlagOrOutside(s: Pool, i: nat)
    requires ShutdownOk(s) && DestroyedOk(s) && Stopping(s) && !Unclean(s) && i < |s.producers|
    ensures s.queue.shutdown || (s.stopper.Destroyed? && !Inside(s.producers[i]))
  {
  }

  lemma ProducerDescends(s: Pool, i: nat, wake: nat, call: Call, t: Pool)
    requires s.queue.shutdown || (s.stopper.Destroyed? && i < |s.producers| && !Inside(s.producers[i]))
    requires i < |s.producers| && ProduceStep(s, i, wake, call) == Some(t) && i < |t.producers|
    ensures ProducerRank(t.producers[i]) < ProducerRank(s.producers[i]) && !t.producers[i].PushAsleep?
  {
    hide CanSignal, WakeWorker;
    if s.producers[i].Checking? {
    } else if s.producers[i].Accepting? {
    } else {
    }
  }

  lemma ProduceDescends(s: Pool, i: nat, wake: nat, call: Call, t: Pool)
    requires ShutdownOk(s) && DestroyedOk(s) && Stopping(s) && !Unclean(s)
    requires i < |s.producers| && ProduceStep(s, i, wake, call) == Some(t)
    ensures Measure(t) < Measure(s)
  {
    hide Sum, ProduceStep, WakeWorker, ProducerRank, ShutdownOk, DestroyedOk;
    ProduceFrame(s, i, wake, call, t);
    FlagOrOutside(s, i);
    ProducerDescends(s, i, wake, call, t);
    SumUpdate(s.producers, i, t.producers[i], ProducerRank);
    WakingDescends(s.workers, s.producers, wake);
  }

  lemma OtherDescends(s: Pool, a: Action, t: Pool)
    requires ShutdownOk(s) && Stopping(s) && Next(s, a) == Some(t)
    requires a.Spurious? || a.SpuriousPush? || a.Stop?
    ensures Measure(t) < Measure(s)
  {
    hide Sum, WakeWorkers, WakeProducers, WorkStep, ProduceStep;
    if a.Spurious? {
      SumUpdate(s.workers, a.w, Woken, WorkerRank);
    } else if a.SpuriousPush? {
      SumUpdate(s.producers, a.p, t.producers[a.p], ProducerRank);
    } else {
      WakingDescends(s.workers, s.producers, 0);
    }
  }

  lemma StepDescends(s: Pool, a: Action, t: Pool)
    requires ShutdownOk(s) && DestroyedOk(s) && Stopping(s) && !Unclean(s) && Next(s, a) == Some(t)
    ensures Measure(t) < Measure(s)
  {
    hide ShutdownOk, DestroyedOk, Measure, WorkStep, ProduceStep, StopStep;
    match a {
      case Work(i, wake) => WorkDescends(s, i, wake, t);
      case Produce(i, wake, call) => ProduceDescends(s, i, wake, call, t);
      case _ => OtherDescends(s, a, t);
    }
  }

  /** With handlers that return, and unless the queue is destroyed under a producer, a shutdown takes boundedly many steps
      of all threads together. */
  lemma {:induction false} ShutdownEnds(s: Pool, actions: seq<Action>, t: Pool)
    requires Inv(s) && Stopping(s) && Run(s, actions) == Some(t) && !Unclean(t)
    ensures |actions| + Measure(t) <= Measure(s)
    decreases |actions|
  {
    hide Inv, Next, Measure;
    if actions != [] {
      var u := Next(s, actions[0]).value;
      InvShutdown(s);
      StepKeepsInv(s, actions[0], u);
      StepKeepsSize(s, actions[0], u);
      RunKeepsSize(s, actions, t);
      StepDescends(s, actions[0], u);
      ShutdownEnds(u, actions[1..], t);
    }
  }

  ghost predicate Finished(s: Pool) {
    && (forall i :: 0 <= i < |s.workers| ==> s.workers[i].Returned?)
    && (forall i :: 0 <= i < |s.producers| ==> s.producers[i].Stopped?)
    && s.stopper.Destroyed?
  }

  ghost predicate Enabled(s: Pool, a: Action) {
    Next(s, a).Some?
  }

  /** A signal can always be sent: someone sleeps and is chosen, or nobody does. */
  lemma SignalChoice<T>(ts: seq<T>, sleeping: T -> bool) returns (k: nat)
    ensures CanSignal(ts, sleeping, k)
  {
    if exists i :: 0 <= i < |ts| && sleeping(ts[i]) {
      k :| k < |ts| && sleeping(ts[k]);
    } else {
      k := 0;
    }
  }

  /** The thread that holds the mutex can always take its next step. */
  lemma HolderMoves(s: Pool) returns (a: Action)
    requires MutexOk(s) && s.holder.Some?
    ensures Enabled(s, a) && !a.SpuriousPush?
  {
    hide CanSignal, WakeWorker, WakeProducer, WakeWorkers, WakeProducers, PopOutcome, PushOutcome, TryPushOutcome, AllOutside, SomeStranded;
    match s.holder.value {
      case OfWorker(i) =>
        var k := SignalChoice(s.producers, SleepingProducer);
        a := Work(i, k);
      case OfProducer(i) =>
        var k := SignalChoice(s.workers, SleepingWorker);
        a := Produce(i, k, AcceptFails);
      case OfStopper =>
        a := Stop;
    }
  }

  /** With the mutex free, every thread that is neither asleep nor done can move. */
  lemma OtherMoves(s: Pool) returns (a: Action)
    requires MutexOk(s) && ShutdownOk(s) && s.holder == None && Stopping(s) && !Finished(s) && !SomeProducerSleeps(s)
    ensures Enabled(s, a) && !a.SpuriousPush?
  {
    hide CanSignal, WakeWorker, WakeProducer, PopOutcome, PushOutcome, TryPushOutcome, AllOutside, SomeStranded;
    if i :| 0 <= i < |s.workers| && !s.workers[i].Returned? {
      assert !SleepingWorker(s.workers[i]);
      a := Work(i, 0);
    } else if i :| 0 <= i < |s.producers| && !s.producers[i].Stopped? {
      assert !SleepingProducer(s.producers[i]);
      a := Produce(i, 0, AcceptFails);
    } else {
      a := Stop;
    }
  }

  /** A producer was inside the blocking push when the queue was destroyed. */
  predicate LeftBehind(s: Pool) {
    s.stopper.Destroyed? && s.stopper.stranded
  }

  lemma NobodySleeps(s: Pool)
    requires MutexOk(s) && ShutdownOk(s) && DestroyedOk(s) && Stopping(s) && s.holder == None && !LeftBehind(s)
    ensures !SomeProducerSleeps(s)
  {
    assert forall i :: 0 <= i < |s.producers| && SleepingProducer(s.producers[i]) ==> Stranded(s.producers[i]);
  }

  /** No deadlock: until every thread is done some step is possible, unless a producer was left behind. */
  lemma ShutdownProgresses(s: Pool)
    requires Inv(s) && Stopping(s) && !Finished(s) && !LeftBehind(s)
    ensures exists a :: Enabled(s, a) && !a.SpuriousPush?
  {
    hide NotEmptyOk, NotFullOk, FifoOk, PlacesOk, Enabled, Finished, MutexOk, ShutdownOk, DestroyedOk;
    var a;
    if s.holder.Some? {
      a := HolderMoves(s);
    } else {
      NobodySleeps(s);
      a := OtherMoves(s);
    }
    assert Enabled(s, a) && !a.SpuriousPush?;
  }

  /** At most one close per connection at any time, and every task is popped in the order of acceptance. */
  lemma ClosedAtMostOnce(workers: nat, producers: nat, capacity: nat, actions: seq<Action>, s: Pool, c: Task)
    requires 0 < workers && Run(Start(workers, producers, capacity), actions) == Some(s)
    ensures Times(s.closed, c) <= 1
    ensures s.dequeued <= s.accepted && |s.accepted| - |s.dequeued| <= capacity
    ensures s.accepted[|s.dequeued|..] == s.queue.tasks
  {
    hide Sum, MutexOk, NotEmptyOk, NotFullOk, ShutdownOk, DestroyedOk, Times;
    StartInv(workers, producers, capacity);
    RunKeepsInv(Start(workers, producers, capacity), actions, s);
    RunKeepsSize(Start(workers, producers, capacity), actions, s);
    assert PlaceOk(s, c);
  }

  lemma DoneConserves(s: Pool, c: Task)
    requires Inv(s) && Finished(s)
    ensures s.queue.tasks == [] && s.dequeued == s.accepted && !LeftBehind(s)
    ensures Times(s.handled, c) == Times(s.accepted, c)
    ensures Times(s.closed, c) == if c < s.arrived then 1 else 0
  {
    hide Sum, MutexOk, NotEmptyOk, NotFullOk, Times;
    assert Leaves(s.workers[0]);
    SumZero(s.workers, WorkerHas(c));
    SumZero(s.producers, ProducerHas(c));
    assert PlaceOk(s, c);
    assert s.accepted == s.dequeued;
  }

  /** Only spurious wakeups are possible. */
  ghost predicate Quiet(s: Pool) {
    forall a :: Enabled(s, a) ==> a.SpuriousPush?
  }

  ghost predicate ClosedOnce(s: Pool) {
    forall c: Task :: Times(s.closed, c) == if c < s.arrived then 1 else 0
  }

  /** A connection left behind is not closed, now or later. */
  lemma LeftBehindNotClosed(s: Pool)
    requires Inv(s) && LeftBehind(s)
    ensures exists c: Task :: c < s.arrived && Times(s.closed, c) == 0
  {
    hide Sum, MutexOk, NotEmptyOk, NotFullOk, ShutdownOk, FifoOk, Times;
    var i :| 0 <= i < |s.producers| && Stranded(s.producers[i]);
    var c := s.producers[i].conn;
    SumUpdate(s.producers, i, s.producers[i], ProducerHas(c));
    assert PlaceOk(s, c);
    assert c < s.arrived && Times(s.closed, c) == 0;
  }

  /**
   * A run that has begun a shutdown and can go no further has ended properly if and only if no producer was inside the
   * blocking push when the queue was destroyed: every thread is done, the handled tasks are exactly the accepted
   * ones, and every connection was closed exactly once.  Otherwise some connection is never closed.
   */
  lemma ShutdownCompletes(workers: nat, producers: nat, capacity: nat, actions: seq<Action>, s: Pool)
    requires 0 < workers && Run(Start(workers, producers, capacity), actions) == Some(s)
    requires Stopping(s) && Quiet(s)
    ensures Finished(s) && ClosedOnce(s) <==> !LeftBehind(s)
    ensures Finished(s) <==> !LeftBehind(s)
    ensures !LeftBehind(s) ==> multiset(s.handled) == multiset(s.accepted)
  {
    hide Inv, Finished, Enabled;
    StartInv(workers, producers, capacity);
    RunKeepsInv(Start(workers, producers, capacity), actions, s);
    if LeftBehind(s) {
      if Finished(s) {
        DoneConserves(s, 0);
      }
    } else {
      if !Finished(s) {
        ShutdownProgresses(s);
      }
      FinishedConserves(s);
    }
  }

  lemma FinishedConserves(s: Pool)
    requires Inv(s) && Finished(s)
    ensures ClosedOnce(s) && multiset(s.handled) == multiset(s.accepted)
  {
    hide Inv, Finished;
    forall c: Task
      ensures Times(s.handled, c) == Times(s.accepted, c)
      ensures Times(s.closed, c) == if c < s.arrived then 1 else 0
    {
      DoneConserves(s, c);
    }
    assert forall c: Task :: multiset(s.handled)[c] == Times(s.handled, c) == multiset(s.accepted)[c];
  }

  /** From then on, in every continuation. */
  lemma LeftBehindForever(s: Pool, actions: seq<Action>, t: Pool)
    requires Inv(s) && LeftBehind(s) && Run(s, actions) == Some(t)
    ensures LeftBehind(t) && !Finished(t) && exists c: Task :: c < t.arrived && Times(t.closed, c) == 0
  {
    hide Inv, Run, Times;
    RunKeepsInv(s, actions, t);
    RunKeepsSize(s, actions, t);
    LeftBehindNotClosed(t);
    if Finished(t) {
      DoneConserves(t, 0);
    }
  }

  // ---- The server: its accept loop has returned before it destroys the pool ----

  ghost predicate AllStopped(s: Pool) {
    forall i :: 0 <= i < |s.producers| ==> s.producers[i].Stopped?
  }

  lemma StepStaysStopped(s: Pool, a: Action, t: Pool)
    requires AllStopped(s) && Next(s, a) == Some(t)
    ensures AllStopped(t)
  {
    hide CanSignal, WakeWorker, WakeWorkers, PopOutcome, SomeStranded, AllOutside;
  }

  lemma StepKeepsStopped(s: Pool, a: Action, t: Pool)
    requires AllStopped(s) && Next(s, a) == Some(t) && !s.stopper.Destroyed?
    ensures AllStopped(t) && (t.stopper.Destroyed? ==> t.stopper == Destroyed(true, false))
  {
    hide WorkStep, ProduceStep;
    StepStaysStopped(s, a, t);
    match a {
      case Work(i, wake) => WorkKeepsSize(s, i, wake, t);
      case Produce(i, wake, call) => ProduceFrame(s, i, wake, call, t);
      case _ =>
    }
  }

  lemma {:induction false} StoppedRun(s: Pool, actions: seq<Action>, t: Pool)
    requires Inv(s) && AllStopped(s) && !s.stopper.Destroyed? && Run(s, actions) == Some(t)
    ensures t.stopper.Destroyed? ==> t.stopper == Destroyed(true, false)
    decreases |actions|
  {
    hide Inv, Next, AllStopped;
    if actions != [] {
      var u := Next(s, actions[0]).value;
      StepKeepsInv(s, actions[0], u);
      StepKeepsStopped(s, actions[0], u);
      if u.stopper.Destroyed? {
        RunKeepsSize(u, actions[1..], t);
      } else {
        StoppedRun(u, actions[1..], t);
      }
    }
  }

  lemma {:induction false} SumBounded<T>(ts: seq<T>, weight: T -> nat, c: nat)
    requires forall i :: 0 <= i < |ts| ==> weight(ts[i]) <= c
    ensures Sum(ts, weight) <= c * |ts|
    decreases |ts|
  {
    if ts != [] {
      SumBounded(ts[1..], weight, c);
      assert c * |ts| == c * |ts[1..]| + c;
    }
  }

  /** Once the producers have stopped, what is left to do depends on the queue and the workers only. */
  lemma MeasureBounded(s: Pool)
    requires Stopping(s) && AllStopped(s) && |s.queue.tasks| <= s.queue.capacity
    ensures Measure(s) <= 10 * s.queue.capacity + 9 * |s.workers| + 4
  {
    hide Sum;
    SumBounded(s.workers, WorkerRank, 8);
    SumZero(s.producers, ProducerRank);
  }

  lemma {:induction false} RunSplit(s: Pool, actions: seq<Action>, k: nat, t: Pool)
    requires k <= |actions| && Run(s, actions) == Some(t)
    ensures Run(s, actions[..k]).Some? && Run(Run(s, actions[..k]).value, actions[k..]) == Some(t)
    decreases k
  {
    hide Next;
    if k == 0 {
      assert actions[..0] == [] && actions[0..] == actions;
    } else {
      RunSplit(Next(s, actions[0]).value, actions[1..], k - 1, t);
      assert actions[..k][1..] == actions[1..][..k - 1] && actions[1..][k - 1..] == actions[k..];
    }
  }

  /** Stopped producers stay stopped until the queue is destroyed, and after that. */
  lemma {:induction false} StoppedStays(s: Pool, actions: seq<Action>, t: Pool)
    requires Inv(s) && AllStopped(s) && Run(s, actions) == Some(t)
    ensures AllStopped(t)
    decreases |actions|
  {
    hide Inv, Next, AllStopped;
    if actions != [] {
      var u := Next(s, actions[0]).value;
      StepKeepsInv(s, actions[0], u);
      StepStaysStopped(s, actions[0], u);
      StoppedStays(u, actions[1..], t);
    }
  }

  /** The server calls destroy after its one producer, the accept loop, has returned.  Then every run that can go no
      further has ended properly; and from any state in which the shutdown flag is set, all threads together take at
      most 10 * capacity + 9 * workers + 4 steps more. */
  lemma ServerCompletes(workers: nat, capacity: nat, before: seq<Action>, m: Pool, after: seq<Action>, s: Pool)
    requires 0 < workers && Run(Start(workers, 1, capacity), before) == Some(m)
    requires |m.producers| == 1 && m.producers[0].Stopped? && m.stopper.Running?
    requires Run(m, after) == Some(s)
    ensures !Unclean(s) && !LeftBehind(s)
    ensures Quiet(s) ==> Finished(s) && ClosedOnce(s) && multiset(s.handled) == multiset(s.accepted)
    ensures forall k: nat, u: Pool :: k <= |after| && Run(m, after[..k]) == Some(u) && Stopping(u) ==>
      |after| - k <= 10 * capacity + 9 * workers + 4
  {
    hide Inv, Finished, Enabled, Run, Measure;
    StartInv(workers, 1, capacity);
    RunKeepsInv(Start(workers, 1, capacity), before, m);
    RunKeepsSize(Start(workers, 1, capacity), before, m);
    RunKeepsInv(m, after, s);
    StoppedRun(m, after, s);
    if Quiet(s) {
      if !Stopping(s) {
        StopEnabled(s);
      }
      if !Finished(s) {
        ShutdownProgresses(s);
      }
      FinishedConserves(s);
    }
    forall k: nat, u: Pool | k <= |after| && Run(m, after[..k]) == Some(u) && Stopping(u)
      ensures |after| - k <= 10 * capacity + 9 * workers + 4
    {
      ServerStops(m, after, k, u, s);
    }
  }

  lemma ServerStops(m: Pool, after: seq<Action>, k: nat, u: Pool, s: Pool)
    requires Inv(m) && AllStopped(m) && Run(m, after) == Some(s) && !Unclean(s)
    requires k <= |after| && Run(m, after[..k]) == Some(u) && Stopping(u)
    ensures |after| - k <= 10 * m.queue.capacity + 9 * |m.workers| + 4
  {
    hide Inv, Run, Measure, AllStopped;
    RunSplit(m, after, k, s);
    RunKeepsInv(m, after[..k], u);
    RunKeepsSize(m, after[..k], u);
    StoppedStays(m, after[..k], u);
    ShutdownEnds(u, after[k..], s);
    QueueBounded(u);
    MeasureBounded(u);
  }

  lemma QueueBounded(s: Pool)
    requires Inv(s)
    ensures |s.queue.tasks| <= s.queue.capacity
  {
  }

  /** Before the shutdown something can always move, if only the thread that begins it. */
  lemma StopEnabled(s: Pool)
    requires Inv(s) && !Stopping(s)
    ensures exists a :: Enabled(s, a) && !a.SpuriousPush?
  {
    hide NotEmptyOk, NotFullOk, FifoOk, PlacesOk, ShutdownOk, DestroyedOk;
    var a;
    if s.holder.Some? {
      a := HolderMoves(s);
    } else {
      a := Stop;
    }
    assert Enabled(s, a) && !a.SpuriousPush?;
  }

  // ---- A run that leaves a producer behind ----

  lemma RunThen(s: Pool, done: seq<Action>, u: Pool, a: Action, t: Pool)
    requires Run(s, done) == Some(u) && Next(u, a) == Some(t)
    ensures Run(s, done + [a]) == Some(t)
    decreases |done|
  {
    hide Next;
    if done == [] {
      assert done + [a] == [a] && [a][1..] == [];
      assert Run(t, []) == Some(t);
    } else {
      assert (done + [a])[1..] == done[1..] + [a];
      RunThen(Next(s, done[0]).value, done[1..], u, a, t);
    }
  }

  /** One worker that has returned, and one producer with connection 0. */
  function Alone(queue: Queue, holder: Option<Thread>, w: Worker, p: Producer, stopper: Stopper): (s: Pool) {
    Pool(queue, holder, [w], [p], stopper, 1, [], [], [], [])
  }

  /** The producer has found the queue there when the shutdown begins. */
  lemma EntersThenFlagged(capacity: nat) returns (actions: seq<Action>)
    ensures Run(Start(1, 1, capacity), actions)
            == Some(Alone(Queue([], capacity, true), None, Entering, Locking(0, true), Joining(0)))
  {
    hide CanSignal;
    var s0 := Start(1, 1, capacity);
    var p := Produce(0, 0, Submit);
    var q, flagged := Queue([], capacity, false), Queue([], capacity, true);
    var s1 := Alone(q, None, Entering, Calling(0, true), Running);
    var s2 := Alone(q, None, Entering, Locking(0, true), Running);
    var s3 := Alone(flagged, Some(OfStopper), Entering, Locking(0, true), Flagged);
    var s4, s5 := s3.(stopper := WorkersNotified), s3.(stopper := LeavingShutdown);
    var s6 := s3.(stopper := Joining(0), holder := None);
    assert s0.workers == [Entering] && s0.producers == [Accepting];
    assert Next(s0, p).value.producers == s1.producers;
    RunThen(s0, [], s0, p, s1);
    assert Next(s1, p).value.producers == s2.producers;
    RunThen(s0, [] + [p], s1, p, s2);
    RunThen(s0, [] + [p] + [p], s2, Stop, s3);
    assert WakeWorkers(s3.workers) == s3.workers && WakeProducers(s4.producers) == s4.producers;
    RunThen(s0, [] + [p] + [p] + [Stop], s3, Stop, s4);
    RunThen(s0, [] + [p] + [p] + [Stop] + [Stop], s4, Stop, s5);
    RunThen(s0, [] + [p] + [p] + [Stop] + [Stop] + [Stop], s5, Stop, s6);
    actions := [] + [p] + [p] + [Stop] + [Stop] + [Stop] + [Stop];
  }

  /** The worker returns and is joined. */
  lemma ThenWorkerReturns(capacity: nat) returns (actions: seq<Action>)
    ensures Run(Start(1, 1, capacity), actions)
            == Some(Alone(Queue([], capacity, true), None, Returned, Locking(0, true), Joining(1)))
  {
    hide CanSignal, Start, Run;
    var before := EntersThenFlagged(capacity);
    var s0, w, q := Start(1, 1, capacity), Work(0, 0), Queue([], capacity, true);
    var u0 := Alone(q, None, Entering, Locking(0, true), Joining(0));
    var u1 := Alone(q, Some(OfWorker(0)), Testing, Locking(0, true), Joining(0));
    var u2 := u1.(workers := [Unlocking(None)]);
    var u3 := Alone(q, None, Returned, Locking(0, true), Joining(0));
    var u4 := u3.(stopper := Joining(1));
    assert Next(u0, w).value.workers == u1.workers;
    RunThen(s0, before, u0, w, u1);
    assert Next(u1, w).value.workers == u2.workers;
    RunThen(s0, before + [w], u1, w, u2);
    assert Next(u2, w).value.workers == u3.workers;
    RunThen(s0, before + [w] + [w], u2, w, u3);
    RunThen(s0, before + [w] + [w] + [w], u3, Stop, u4);
    actions := before + [w] + [w] + [w] + [Stop];
  }

  /** The queue is destroyed under the producer, which then waits for ever. */
  lemma LeavesBehind(capacity: nat) returns (actions: seq<Action>, s: Pool)
    ensures Run(Start(1, 1, capacity), actions) == Some(s) && Stopping(s) && Quiet(s) && LeftBehind(s)
    ensures s.arrived == 1 && s.closed == [] && s.producers == [PushAsleep(0)]
  {
    hide CanSignal, Start, Run, Quiet;
    var before := ThenWorkerReturns(capacity);
    var s0, p := Start(1, 1, capacity), Produce(0, 0, Submit);
    var u4 := Alone(Queue([], capacity, true), None, Returned, Locking(0, true), Joining(1));
    var u5 := Alone(Queue([], 0, false), None, Returned, Locking(0, true), Destroyed(false, true));
    var u6 := u5.(producers := [Checking(0, true)], holder := Some(OfProducer(0)));
    s := u5.(producers := [PushAsleep(0)]);
    assert Inside(u4.producers[0]) && Stranded(u4.producers[0]);
    RunThen(s0, before, u4, Stop, u5);
    assert Next(u5, p).value.producers == u6.producers;
    RunThen(s0, before + [Stop], u5, p, u6);
    assert Next(u6, p).value.producers == s.producers;
    RunThen(s0, before + [Stop] + [p], u6, p, s);
    actions := before + [Stop] + [p] + [p];
    WaitsForEver(s);
  }

  lemma WaitsForEver(s: Pool)
    requires s.workers == [Returned] && s.producers == [PushAsleep(0)] && s.stopper.Destroyed?
    ensures Quiet(s)
  {
    hide CanSignal;
  }
}
