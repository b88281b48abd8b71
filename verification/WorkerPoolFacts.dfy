/** What every reachable state of the pool satisfies. */
module WorkerPoolFacts {
  import opened Common
  import opened TaskQueue
  import opened WorkerPool

  // ---- The invariant ----

  predicate WorkerHolds(w: Worker) {
    w.Testing? || w.Signalling? || w.Unlocking?
  }

  predicate ProducerHolds(p: Producer) {
    || p.Checking? || p.Notifying?
    || p.LeavingAccepted? || p.LeavingFull? || p.LeavingRefused?
  }

  predicate StopperHolds(p: Stopper) {
    p.Flagged? || p.WorkersNotified? || p.LeavingShutdown?
  }

  /** The thread inside a critical section is the one that holds the mutex. */
  ghost predicate MutexOk(s: Pool) {
    && (forall i: nat :: i < |s.workers| ==> (WorkerHolds(s.workers[i]) <==> s.holder == Some(OfWorker(i))))
    && (forall i: nat :: i < |s.producers| ==>
          (ProducerHolds(s.producers[i]) <==> s.holder == Some(OfProducer(i))))
    && (StopperHolds(s.stopper) <==> s.holder == Some(OfStopper))
    && (s.holder.Some? && s.holder.value.OfWorker? ==> s.holder.value.w < |s.workers|)
    && (s.holder.Some? && s.holder.value.OfProducer? ==> s.holder.value.p < |s.producers|)
  }

  /** Workers that were signalled, or came in on their own, and have not yet tested the queue. */
  function WorkerToken(w: Worker): (n: nat) { if w.Woken? || w.Testing? then 1 else 0 }
  function ProducerToken(p: Producer): (n: nat) { if p.PushWoken? || (p.Checking? && p.waits) then 1 else 0 }
  function WorkerSignal(w: Worker): (n: nat) { if w.Signalling? then 1 else 0 }
  function ProducerSignal(p: Producer): (n: nat) { if p.Notifying? then 1 else 0 }

  ghost predicate SomeWorkerSleeps(s: Pool) {
    exists i :: 0 <= i < |s.workers| && SleepingWorker(s.workers[i])
  }

  ghost predicate SomeProducerSleeps(s: Pool) {
    exists i :: 0 <= i < |s.producers| && SleepingProducer(s.producers[i])
  }

  /** No signal is lost on not_empty. */
  ghost predicate NotEmptyOk(s: Pool) {
    SomeWorkerSleeps(s) ==>
      |s.queue.tasks| <= Sum(s.workers, WorkerToken) + Sum(s.producers, ProducerSignal)
  }

  /** No signal is lost on not_full. */
  ghost predicate NotFullOk(s: Pool) {
    SomeProducerSleeps(s) ==>
      s.queue.capacity - |s.queue.tasks| <= Sum(s.producers, ProducerToken) + Sum(s.workers, WorkerSignal)
  }

  predicate Leaves(w: Worker) {
    w.Returned? || w == Unlocking(None)
  }

  ghost predicate ShutdownOk(s: Pool) {
    && (s.queue.shutdown <==> !s.stopper.Running? && !s.stopper.Destroyed?)
    && (!s.stopper.Running? && !s.stopper.Flagged? ==> !SomeWorkerSleeps(s))
    && (s.stopper.LeavingShutdown? || s.stopper.Joining? ==> !SomeProducerSleeps(s))
    && (forall i :: 0 <= i < |s.workers| && Leaves(s.workers[i]) ==> !s.stopper.Running? && s.queue.tasks == [])
    && (s.stopper.Joining? ==> s.stopper.joined <= |s.workers|)
    && (forall i :: 0 <= i < Joined(s) ==> s.workers[i].Returned?)
  }

  /** After the destruction the queue is all zero; if no producer was inside, none ever is, and a producer that
      was stranded stays so. */
  ghost predicate DestroyedOk(s: Pool) {
    s.stopper.Destroyed? ==>
      && s.queue == Queue([], 0, false)
      && (s.stopper.clean ==> AllOutside(s.producers))
      && (s.stopper.stranded <==> SomeStranded(s.producers))
  }

  /** The shutdown flag has been set. */
  predicate Stopping(s: Pool) {
    !s.stopper.Running?
  }

  function Joined(s: Pool): (n: nat)
    ensures n <= |s.workers|
  {
    match s.stopper
    case Joining(k) => if k <= |s.workers| then k else 0
    case Destroyed(_, _) => |s.workers|
    case _ => 0
  }

  ghost predicate FifoOk(s: Pool) {
    && |s.queue.tasks| <= s.queue.capacity
    && s.accepted == s.dequeued + s.queue.tasks
  }

  /** The connection in a worker's hand. */
  function WorkerConn(w: Worker): (c: Option<Task>) {
    match w
    case Signalling(t) => Some(t)
    case Unlocking(popped) => popped
    case Handling(t) => Some(t)
    case _ => None
  }

  function ProducerConn(p: Producer): (c: Option<Task>) {
    if p.Accepting? || p.Notifying? || p.LeavingAccepted? || p.Stopped? then None else Some(p.conn)
  }

  function Is(o: Option<Task>, c: Task): (n: nat) { if o == Some(c) then 1 else 0 }
  function WorkerHas(c: Task): (f: Worker -> nat) { w => Is(WorkerConn(w), c) }
  function ProducerHas(c: Task): (f: Producer -> nat) { p => Is(ProducerConn(p), c) }

  function Times(s: seq<Task>, c: Task): (n: nat)
    ensures s == [] ==> n == 0
  {
    multiset(s)[c]
  }

  /** A connection that accept returned is in exactly one place; a task once popped is in a hand or handled. */
  ghost predicate PlaceOk(s: Pool, c: Task) {
    && (if c < s.arrived then 1 else 0)
       == Sum(s.producers, ProducerHas(c)) + Times(s.queue.tasks, c)
          + Sum(s.workers, WorkerHas(c)) + Times(s.closed, c)
    && Times(s.dequeued, c) == Sum(s.workers, WorkerHas(c)) + Times(s.handled, c)
  }

  ghost predicate PlacesOk(s: Pool) {
    forall c: Task :: PlaceOk(s, c)
  }

  ghost predicate Inv(s: Pool) {
    && 0 < |s.workers|
    && MutexOk(s) && NotEmptyOk(s) && NotFullOk(s) && ShutdownOk(s) && DestroyedOk(s) && FifoOk(s) && PlacesOk(s)
  }

  lemma StartInv(workers: nat, producers: nat, capacity: nat)
    requires 0 < workers
    ensures Inv(Start(workers, producers, capacity))
  {
    var s := Start(workers, producers, capacity);
    forall c: Task ensures PlaceOk(s, c) {
      SumZero(s.workers, WorkerHas(c));
      SumZero(s.producers, ProducerHas(c));
    }
  }

  // ---- How one thread's move changes the sums ----

  lemma WorkerMoves(s: Pool, i: nat, w: Worker)
    requires i < |s.workers|
    ensures Sum(s.workers[i := w], WorkerToken)
            == Sum(s.workers, WorkerToken) - WorkerToken(s.workers[i]) + WorkerToken(w)
    ensures Sum(s.workers[i := w], WorkerSignal)
            == Sum(s.workers, WorkerSignal) - WorkerSignal(s.workers[i]) + WorkerSignal(w)
    ensures WorkerToken(s.workers[i]) <= Sum(s.workers, WorkerToken)
    ensures WorkerSignal(s.workers[i]) <= Sum(s.workers, WorkerSignal)
  {
    SumUpdate(s.workers, i, w, WorkerToken);
    SumUpdate(s.workers, i, w, WorkerSignal);
  }

  lemma ProducerMoves(s: Pool, i: nat, p: Producer)
    requires i < |s.producers|
    ensures Sum(s.producers[i := p], ProducerToken)
            == Sum(s.producers, ProducerToken) - ProducerToken(s.producers[i]) + ProducerToken(p)
    ensures Sum(s.producers[i := p], ProducerSignal)
            == Sum(s.producers, ProducerSignal) - ProducerSignal(s.producers[i]) + ProducerSignal(p)
    ensures ProducerToken(s.producers[i]) <= Sum(s.producers, ProducerToken)
    ensures ProducerSignal(s.producers[i]) <= Sum(s.producers, ProducerSignal)
  {
    SumUpdate(s.producers, i, p, ProducerToken);
    SumUpdate(s.producers, i, p, ProducerSignal);
  }

  // ---- Every step keeps the invariant, part by part ----

  lemma WorkKeepsMutex(s: Pool, i: nat, wake: nat, t: Pool)
    requires MutexOk(s) && i < |s.workers| && WorkStep(s, i, wake) == Some(t)
    ensures MutexOk(t)
  {
    match s.workers[i] {
      case Entering | Woken =>
      case Testing =>
      case Signalling(_) =>
      case Unlocking(_) =>
      case Handling(_) =>
      case _ =>
    }
  }

  /** What a producer's step leaves alone. */
  lemma ProduceFrame(s: Pool, i: nat, wake: nat, call: Call, t: Pool)
    requires i < |s.producers| && ProduceStep(s, i, wake, call) == Some(t)
    ensures |t.producers| == |s.producers| && t.producers == s.producers[i := t.producers[i]]
    ensures t.workers == s.workers || t.workers == WakeWorker(s.workers, wake)
    ensures t.stopper == s.stopper && t.queue.shutdown == s.queue.shutdown && t.queue.capacity == s.queue.capacity
    ensures t.queue == s.queue || (s.producers[i].Checking? && !s.queue.shutdown && !s.queue.IsFull())
    ensures s.queue.shutdown || s.queue.IsFull() ==> t.accepted == s.accepted
  {
    hide CanSignal, WakeWorker;
    if s.producers[i].Checking? {
    } else if s.producers[i].Accepting? {
    } else {
    }
  }

  /** A producer takes the mutex when it is free and gives it back. */
  lemma ProduceHolder(s: Pool, i: nat, wake: nat, call: Call, t: Pool)
    requires i < |s.producers| && ProduceStep(s, i, wake, call) == Some(t) && i < |t.producers|
    requires ProducerHolds(s.producers[i]) <==> s.holder == Some(OfProducer(i))
    ensures ProducerHolds(t.producers[i]) <==> t.holder == Some(OfProducer(i))
    ensures t.holder == s.holder || t.holder == None || s.holder == None
    ensures t.holder != s.holder ==> s.holder == Some(OfProducer(i)) || t.holder == Some(OfProducer(i))
  {
    hide CanSignal, WakeWorker;
    if s.producers[i].Checking? {
    } else if s.producers[i].Accepting? {
    } else {
    }
  }

  lemma ProduceKeepsMutex(s: Pool, i: nat, wake: nat, call: Call, t: Pool)
    requires MutexOk(s) && i < |s.producers| && ProduceStep(s, i, wake, call) == Some(t)
    ensures MutexOk(t)
  {
    hide ProduceStep, WakeWorker, ProducerHolds;
    ProduceFrame(s, i, wake, call, t);
    ProduceHolder(s, i, wake, call, t);
  }

  lemma StopKeepsMutex(s: Pool, t: Pool)
    requires MutexOk(s) && StopStep(s) == Some(t)
    ensures MutexOk(t)
  {
    match s.stopper {
      case Flagged =>
      case WorkersNotified =>
      case _ =>
    }
  }

  lemma SpuriousKeepsMutex(s: Pool, a: Action, t: Pool)
    requires MutexOk(s) && Next(s, a) == Some(t) && (a.Spurious? || a.SpuriousPush?)
    ensures MutexOk(t)
  {
  }

  lemma WorkKeepsWakeups(s: Pool, i: nat, wake: nat, t: Pool)
    requires NotEmptyOk(s) && NotFullOk(s) && |s.queue.tasks| <= s.queue.capacity
    requires i < |s.workers| && WorkStep(s, i, wake) == Some(t)
    ensures NotEmptyOk(t) && NotFullOk(t)
  {
    hide Sum;
    WorkerMoves(s, i, t.workers[i]);
    match s.workers[i] {
      case Entering | Woken =>
      case Testing =>
      case Signalling(_) => if SomeProducerSleeps(s) { ProducerMoves(s, wake, t.producers[wake]); }
      case Unlocking(_) =>
      case Handling(_) =>
      case _ =>
    }
  }

  /** A producer that reads the flag under the mutex comes after both broadcasts. */
  lemma RefusedAfterBroadcast(s: Pool, i: nat)
    requires MutexOk(s) && ShutdownOk(s) && s.queue.shutdown
    requires i < |s.producers| && ProducerHolds(s.producers[i])
    ensures !SomeWorkerSleeps(s) && !SomeProducerSleeps(s)
  {
  }

  /** A producer that has stored owes a signal, and pays it. */
  lemma ProduceSignals(s: Pool, i: nat, wake: nat, call: Call, t: Pool)
    requires i < |s.producers| && ProduceStep(s, i, wake, call) == Some(t) && i < |t.producers|
    ensures s.producers[i].Notifying? ==>
      && CanSignal(s.workers, SleepingWorker, wake) && t.workers == WakeWorker(s.workers, wake)
      && t.queue == s.queue && !t.producers[i].Notifying?
    ensures !s.producers[i].Notifying? ==>
      t.workers == s.workers && |t.queue.tasks| == |s.queue.tasks| + ProducerSignal(t.producers[i])
  {
    hide CanSignal, WakeWorker;
    if s.producers[i].Checking? {
    } else if s.producers[i].Accepting? {
    } else {
    }
  }

  lemma ProduceKeepsNotEmpty(s: Pool, i: nat, wake: nat, call: Call, t: Pool)
    requires NotEmptyOk(s) && i < |s.producers| && ProduceStep(s, i, wake, call) == Some(t)
    ensures NotEmptyOk(t)
  {
    hide Sum, ProduceStep;
    ProduceFrame(s, i, wake, call, t);
    ProduceSignals(s, i, wake, call, t);
    ProducerMoves(s, i, t.producers[i]);
    if s.producers[i].Notifying? && SomeWorkerSleeps(s) {
      WorkerMoves(s, wake, Woken);
    }
  }

  /** How a producer's step changes the tokens on not_full. */
  lemma ProduceTokens(s: Pool, i: nat, wake: nat, call: Call, t: Pool)
    requires i < |s.producers| && ProduceStep(s, i, wake, call) == Some(t) && i < |t.producers|
    ensures t.producers[i].PushAsleep? ==> t.queue == s.queue && s.queue.IsFull() && !s.queue.shutdown
    ensures ProducerToken(s.producers[i]) <= ProducerToken(t.producers[i]) || t.producers[i].PushAsleep?
            || |t.queue.tasks| == |s.queue.tasks| + 1
            || (s.queue.shutdown && ProducerHolds(s.producers[i]))
    ensures |t.queue.tasks| == |s.queue.tasks| || |t.queue.tasks| == |s.queue.tasks| + 1
  {
    hide CanSignal, WakeWorker;
    if s.producers[i].Checking? {
    } else if s.producers[i].Accepting? {
    } else {
    }
  }

  lemma WakeKeepsSignals(ws: seq<Worker>, k: nat)
    ensures Sum(WakeWorker(ws, k), WorkerSignal) == Sum(ws, WorkerSignal)
  {
    hide Sum, WakeWorker;
    SumSame(ws, WakeWorker(ws, k), WorkerSignal);
  }

  lemma ProduceKeepsNotFull(s: Pool, i: nat, wake: nat, call: Call, t: Pool)
    requires MutexOk(s) && ShutdownOk(s) && NotFullOk(s) && |s.queue.tasks| <= s.queue.capacity
    requires i < |s.producers| && ProduceStep(s, i, wake, call) == Some(t)
    ensures NotFullOk(t)
  {
    hide Sum, MutexOk, ShutdownOk, ProduceStep, WakeWorker, ProducerHolds;
    ProduceFrame(s, i, wake, call, t);
    ProduceTokens(s, i, wake, call, t);
    ProducerMoves(s, i, t.producers[i]);
    WakeKeepsSignals(s.workers, wake);
    if s.queue.shutdown && ProducerHolds(s.producers[i]) {
      RefusedAfterBroadcast(s, i);
    }
    if SomeProducerSleeps(t) && !t.producers[i].PushAsleep? {
      var j :| 0 <= j < |t.producers| && SleepingProducer(t.producers[j]);
      assert SleepingProducer(s.producers[j]);
    }
  }

  lemma SpuriousKeepsWakeups(s: Pool, a: Action, t: Pool)
    requires NotEmptyOk(s) && NotFullOk(s)
    requires Next(s, a) == Some(t) && (a.Spurious? || a.SpuriousPush?)
    ensures NotEmptyOk(t) && NotFullOk(t)
  {
    hide Sum;
    if a.Spurious? {
      WorkerMoves(s, a.w, Woken);
    } else {
      ProducerMoves(s, a.p, t.producers[a.p]);
    }
  }

  lemma StopKeepsWakeups(s: Pool, t: Pool)
    requires NotEmptyOk(s) && NotFullOk(s) && StopStep(s) == Some(t)
    ensures NotEmptyOk(t) && NotFullOk(t)
  {
    hide Sum;
    if s.stopper.Flagged? {
      SumAtMost(t.workers, s.workers, WorkerSignal);
    } else if s.stopper.WorkersNotified? {
      SumAtMost(t.producers, s.producers, ProducerSignal);
    }
  }

  lemma WorkKeepsShutdown(s: Pool, i: nat, wake: nat, t: Pool)
    requires ShutdownOk(s) && i < |s.workers| && WorkStep(s, i, wake) == Some(t)
    ensures ShutdownOk(t)
  {
    match s.workers[i] {
      case Entering | Woken =>
      case Testing =>
      case Signalling(_) =>
      case Unlocking(_) =>
      case Handling(_) =>
      case _ =>
    }
  }

  lemma ProduceKeepsShutdown(s: Pool, i: nat, wake: nat, call: Call, t: Pool)
    requires ShutdownOk(s) && DestroyedOk(s) && i < |s.producers| && ProduceStep(s, i, wake, call) == Some(t)
    ensures ShutdownOk(t)
  {
    hide ProduceStep, WakeWorker, AllOutside, SomeStranded;
    ProduceFrame(s, i, wake, call, t);
    ProduceTokens(s, i, wake, call, t);
    assert forall j :: 0 <= j < |t.producers| && SleepingProducer(t.producers[j]) && j != i ==> SleepingProducer(s.producers[j]);
    assert forall j :: 0 <= j < |t.workers| && SleepingWorker(t.workers[j]) ==> SleepingWorker(s.workers[j]);
  }

  lemma OtherKeepsShutdown(s: Pool, a: Action, t: Pool)
    requires ShutdownOk(s) && Next(s, a) == Some(t) && (a.Spurious? || a.SpuriousPush? || a.Stop?)
    ensures ShutdownOk(t)
  {
    match s.stopper {
      case Flagged =>
      case WorkersNotified =>
      case Joining(_) =>
      case _ =>
    }
  }

  /** Once the queue is destroyed no worker moves. */
  lemma WorkKeepsDestroyed(s: Pool, i: nat, wake: nat, t: Pool)
    requires ShutdownOk(s) && i < |s.workers| && WorkStep(s, i, wake) == Some(t)
    ensures !s.stopper.Destroyed? && t.stopper == s.stopper
  {
    hide CanSignal, WakeProducer, PopOutcome;
  }

  /** Where the producer itself goes once the queue is destroyed. */
  lemma ProduceDestroyed(s: Pool, i: nat, wake: nat, call: Call, t: Pool)
    requires i < |s.producers| && ProduceStep(s, i, wake, call) == Some(t) && i < |t.producers|
    requires s.stopper.Destroyed? && s.queue == Queue([], 0, false)
    ensures Stranded(t.producers[i]) <==> Stranded(s.producers[i])
    ensures !Inside(s.producers[i]) ==> !Inside(t.producers[i])
  {
    hide CanSignal, WakeWorker;
    if s.producers[i].Checking? {
    } else if s.producers[i].Accepting? {
    } else {
    }
  }

  lemma ProduceKeepsDestroyed(s: Pool, i: nat, wake: nat, call: Call, t: Pool)
    requires DestroyedOk(s) && i < |s.producers| && ProduceStep(s, i, wake, call) == Some(t)
    ensures DestroyedOk(t)
  {
    hide ProduceStep, Stranded, Inside, WakeWorker;
    ProduceFrame(s, i, wake, call, t);
    if s.stopper.Destroyed? {
      ProduceDestroyed(s, i, wake, call, t);
      assert forall j :: 0 <= j < |s.producers| ==> (Stranded(t.producers[j]) <==> Stranded(s.producers[j]));
      if SomeStranded(s.producers) {
        var j :| 0 <= j < |s.producers| && Stranded(s.producers[j]);
        assert Stranded(t.producers[j]);
      }
    }
  }

  lemma OtherKeepsDestroyed(s: Pool, a: Action, t: Pool)
    requires DestroyedOk(s) && Next(s, a) == Some(t) && (a.Spurious? || a.SpuriousPush? || a.Stop?)
    ensures DestroyedOk(t)
  {
    hide WorkStep, ProduceStep, WakeWorkers, WakeProducers;
    if s.stopper.Destroyed? && a.SpuriousPush? {
      assert Stranded(t.producers[a.p]) && Stranded(s.producers[a.p]);
    }
  }

  /** At the destruction the queue is empty, since every worker has left. */
  lemma StopKeepsFifo(s: Pool, t: Pool)
    requires 0 < |s.workers| && ShutdownOk(s) && FifoOk(s) && StopStep(s) == Some(t)
    ensures FifoOk(t) && t.queue.tasks == s.queue.tasks
  {
    hide WakeWorkers, WakeProducers;
    if t.stopper.Destroyed? {
      assert Leaves(s.workers[0]);
    }
  }

  lemma WorkKeepsFifo(s: Pool, i: nat, wake: nat, t: Pool)
    requires FifoOk(s) && i < |s.workers| && WorkStep(s, i, wake) == Some(t)
    ensures FifoOk(t)
  {
    match s.workers[i] {
      case Entering | Woken =>
      case Testing =>
      case Signalling(_) =>
      case Unlocking(_) =>
      case Handling(_) =>
      case _ =>
    }
  }

  lemma ProduceKeepsFifo(s: Pool, i: nat, wake: nat, call: Call, t: Pool)
    requires FifoOk(s) && i < |s.producers| && ProduceStep(s, i, wake, call) == Some(t)
    ensures FifoOk(t)
  {
    match s.producers[i] {
      case Accepting =>
      case Checking(_, _) =>
      case Notifying =>
      case _ =>
    }
  }

  lemma WakingKeepsHands(ws: seq<Worker>, ps: seq<Producer>, k: nat, c: Task)
    ensures Sum(WakeWorker(ws, k), WorkerHas(c)) == Sum(ws, WorkerHas(c))
    ensures Sum(WakeWorkers(ws), WorkerHas(c)) == Sum(ws, WorkerHas(c))
    ensures Sum(WakeProducer(ps, k), ProducerHas(c)) == Sum(ps, ProducerHas(c))
    ensures Sum(WakeProducers(ps), ProducerHas(c)) == Sum(ps, ProducerHas(c))
  {
    hide Sum;
    SumSame(ws, WakeWorker(ws, k), WorkerHas(c));
    SumSame(ws, WakeWorkers(ws), WorkerHas(c));
    SumSame(ps, WakeProducer(ps, k), ProducerHas(c));
    SumSame(ps, WakeProducers(ps), ProducerHas(c));
  }

  lemma TimesMore(s: seq<Task>, t: Task, c: Task)
    ensures Times(s + [t], c) == Times(s, c) + (if c == t then 1 else 0)
  {
  }

  lemma TimesFirst(s: seq<Task>, c: Task)
    requires s != []
    ensures Times(s, c) == Times(s[1..], c) + (if c == s[0] then 1 else 0)
  {
    assert s == [s[0]] + s[1..];
  }

  lemma WorkKeepsPlace(s: Pool, i: nat, wake: nat, t: Pool, c: Task)
    requires PlaceOk(s, c) && i < |s.workers| && WorkStep(s, i, wake) == Some(t)
    ensures PlaceOk(t, c)
  {
    hide Sum, Times, CanSignal, WakeProducer;
    SumUpdate(s.workers, i, t.workers[i], WorkerHas(c));
    WakingKeepsHands(s.workers, s.producers, wake, c);
    match s.workers[i] {
      case Entering | Woken =>
      case Testing =>
        if s.queue.tasks != [] {
          TimesFirst(s.queue.tasks, c);
          TimesMore(s.dequeued, s.queue.tasks[0], c);
        }
      case Signalling(_) =>
      case Unlocking(_) =>
      case Handling(x) => TimesMore(s.closed, x, c); TimesMore(s.handled, x, c);
      case _ =>
    }
  }

  lemma DecideKeepsPlace(s: Pool, i: nat, o: Outcome, c: Task)
    requires PlaceOk(s, c) && i < |s.producers| && s.producers[i].Checking?
    ensures PlaceOk(Decide(s, i, s.producers[i].conn, o), c)
  {
    hide Sum, Times;
    var x := s.producers[i].conn;
    SumUpdate(s.producers, i, Decide(s, i, x, o).producers[i], ProducerHas(c));
    TimesMore(s.queue.tasks, x, c);
  }

  lemma ProduceKeepsPlace(s: Pool, i: nat, wake: nat, call: Call, t: Pool, c: Task)
    requires PlaceOk(s, c) && i < |s.producers| && ProduceStep(s, i, wake, call) == Some(t)
    ensures PlaceOk(t, c)
  {
    hide Sum, Times, CanSignal, WakeWorker, Decide;
    if s.producers[i].Checking? {
      DecideKeepsPlace(s, i, if s.producers[i].waits then PushOutcome(s.queue) else TryPushOutcome(s.queue), c);
      return;
    }
    SumUpdate(s.producers, i, t.producers[i], ProducerHas(c));
    WakingKeepsHands(s.workers, s.producers, wake, c);
    match s.producers[i] {
      case Accepting =>
      case Notifying =>
      case Rejecting(x) => TimesMore(s.closed, x, c);
      case Failing(x) => TimesMore(s.closed, x, c);
      case _ =>
    }
  }

  lemma OtherKeepsPlace(s: Pool, a: Action, t: Pool, c: Task)
    requires PlaceOk(s, c) && Next(s, a) == Some(t) && (a.Spurious? || a.SpuriousPush? || a.Stop?)
    requires t.queue.tasks == s.queue.tasks
    ensures PlaceOk(t, c)
  {
    hide Sum, Times, WakeWorkers, WakeProducers, WorkStep, ProduceStep;
    if a.Spurious? {
      SumUpdate(s.workers, a.w, Woken, WorkerHas(c));
    } else if a.SpuriousPush? {
      SumUpdate(s.producers, a.p, t.producers[a.p], ProducerHas(c));
    } else {
      WakingKeepsHands(s.workers, s.producers, 0, c);
    }
  }

  lemma WorkKeepsInv(s: Pool, i: nat, wake: nat, t: Pool)
    requires Inv(s) && i < |s.workers| && WorkStep(s, i, wake) == Some(t)
    ensures Inv(t)
  {
    hide MutexOk, NotEmptyOk, NotFullOk, ShutdownOk, PlaceOk, WorkStep;
    WorkKeepsMutex(s, i, wake, t);
    WorkKeepsWakeups(s, i, wake, t);
    WorkKeepsShutdown(s, i, wake, t);
    WorkKeepsDestroyed(s, i, wake, t);
    WorkKeepsFifo(s, i, wake, t);
    WorkKeepsSize(s, i, wake, t);
    forall c: Task ensures PlaceOk(t, c) { WorkKeepsPlace(s, i, wake, t, c); }
  }

  lemma ProduceKeepsInv(s: Pool, i: nat, wake: nat, call: Call, t: Pool)
    requires Inv(s) && i < |s.producers| && ProduceStep(s, i, wake, call) == Some(t)
    ensures Inv(t)
  {
    hide MutexOk, NotEmptyOk, NotFullOk, ShutdownOk, DestroyedOk, PlaceOk, ProduceStep;
    ProduceKeepsMutex(s, i, wake, call, t);
    ProduceKeepsNotEmpty(s, i, wake, call, t);
    ProduceKeepsNotFull(s, i, wake, call, t);
    ProduceKeepsShutdown(s, i, wake, call, t);
    ProduceKeepsDestroyed(s, i, wake, call, t);
    ProduceKeepsFifo(s, i, wake, call, t);
    ProduceFrame(s, i, wake, call, t);
    forall c: Task ensures PlaceOk(t, c) { ProduceKeepsPlace(s, i, wake, call, t, c); }
  }

  lemma OtherKeepsInv(s: Pool, a: Action, t: Pool)
    requires Inv(s) && Next(s, a) == Some(t) && (a.Spurious? || a.SpuriousPush? || a.Stop?)
    ensures Inv(t)
  {
    hide MutexOk, NotEmptyOk, NotFullOk, ShutdownOk, DestroyedOk, PlaceOk, WorkStep, ProduceStep;
    if a.Stop? {
      StopKeepsMutex(s, t);
      StopKeepsWakeups(s, t);
      StopKeepsFifo(s, t);
    } else {
      SpuriousKeepsMutex(s, a, t);
      SpuriousKeepsWakeups(s, a, t);
    }
    OtherKeepsShutdown(s, a, t);
    OtherKeepsDestroyed(s, a, t);
    forall c: Task ensures PlaceOk(t, c) { OtherKeepsPlace(s, a, t, c); }
  }

  lemma StepKeepsInv(s: Pool, a: Action, t: Pool)
    requires Inv(s) && Next(s, a) == Some(t)
    ensures Inv(t)
  {
    hide Inv, WorkStep, ProduceStep, StopStep;
    match a {
      case Work(i, wake) => WorkKeepsInv(s, i, wake, t);
      case Produce(i, wake, call) => ProduceKeepsInv(s, i, wake, call, t);
      case _ => OtherKeepsInv(s, a, t);
    }
  }

  /** Every reachable state satisfies the invariant. */
  lemma {:induction false} RunKeepsInv(s: Pool, actions: seq<Action>, t: Pool)
    requires Inv(s) && Run(s, actions) == Some(t)
    ensures Inv(t)
    decreases |actions|
  {
    hide Inv, Next;
    if actions != [] {
      var u := Next(s, actions[0]).value;
      StepKeepsInv(s, actions[0], u);
      RunKeepsInv(u, actions[1..], t);
    }
  }

  // ---- What the invariant means ----

  predicate Live(w: Worker) {
    !w.Asleep? && !w.Returned?
  }

  /**
   * No lost wakeup.  In every reachable state with a task queued, some worker is neither asleep nor gone, or a producer
   * is about to send the signal; and if some worker sleeps, the workers on their way to the queue and the signals about
   * to be sent suffice for all queued tasks.
   */
  lemma NoLostWakeup(workers: nat, producers: nat, capacity: nat, actions: seq<Action>, s: Pool)
    requires 0 < workers && Run(Start(workers, producers, capacity), actions) == Some(s)
    requires s.queue.tasks != []
    ensures (exists i :: 0 <= i < |s.workers| && Live(s.workers[i]))
            || (exists i :: 0 <= i < |s.producers| && s.producers[i].Notifying?)
    ensures SomeWorkerSleeps(s) ==>
      |s.queue.tasks| <= Sum(s.workers, WorkerToken) + Sum(s.producers, ProducerSignal)
  {
    hide Sum, PlaceOk, NotFullOk, FifoOk, MutexOk;
    StartInv(workers, producers, capacity);
    RunKeepsInv(Start(workers, producers, capacity), actions, s);
    if SomeWorkerSleeps(s) {
      if Sum(s.workers, WorkerToken) > 0 {
        SumPositive(s.workers, WorkerToken);
      } else {
        SumPositive(s.producers, ProducerSignal);
      }
    } else {
      assert !Leaves(s.workers[0]);
      assert Live(s.workers[0]);
    }
  }

  /** The same for producers blocked on a full queue: with room in it, not all of them are left asleep, or a worker is
      about to send the signal. */
  lemma NoLostProducer(workers: nat, producers: nat, capacity: nat, actions: seq<Action>, s: Pool)
    requires 0 < workers && Run(Start(workers, producers, capacity), actions) == Some(s)
    requires |s.queue.tasks| < s.queue.capacity && SomeProducerSleeps(s)
    ensures (exists i :: 0 <= i < |s.producers| && 0 < ProducerToken(s.producers[i]))
            || (exists i :: 0 <= i < |s.workers| && s.workers[i].Signalling?)
    ensures s.queue.capacity - |s.queue.tasks| <= Sum(s.producers, ProducerToken) + Sum(s.workers, WorkerSignal)
  {
    hide Sum, PlaceOk, NotEmptyOk, ShutdownOk, FifoOk;
    StartInv(workers, producers, capacity);
    RunKeepsInv(Start(workers, producers, capacity), actions, s);
    if Sum(s.producers, ProducerToken) > 0 {
      SumPositive(s.producers, ProducerToken);
    } else {
      SumPositive(s.workers, WorkerSignal);
    }
  }

  lemma WorkKeepsSize(s: Pool, i: nat, wake: nat, t: Pool)
    requires i < |s.workers| && WorkStep(s, i, wake) == Some(t)
    ensures |t.workers| == |s.workers| && |t.producers| == |s.producers| && t.queue.capacity == s.queue.capacity
    ensures t.stopper == s.stopper && t.accepted == s.accepted
  {
    hide WakeProducer, CanSignal, PopOutcome;
  }

  /** The threads stay, and once shutdown has begun it goes on and nothing more is accepted. */
  lemma StepKeepsSize(s: Pool, a: Action, t: Pool)
    requires ShutdownOk(s) && DestroyedOk(s) && Next(s, a) == Some(t)
    ensures |t.workers| == |s.workers| && |t.producers| == |s.producers| && t.queue.capacity <= s.queue.capacity
    ensures !t.stopper.Destroyed? ==> t.queue.capacity == s.queue.capacity
    ensures Stopping(s) ==> Stopping(t) && t.accepted == s.accepted
    ensures s.stopper.Destroyed? ==> t.stopper == s.stopper
  {
    hide WorkStep, ProduceStep;
    match a {
      case Work(i, wake) => WorkKeepsSize(s, i, wake, t);
      case Produce(i, wake, call) => ProduceFrame(s, i, wake, call, t);
      case _ =>
    }
  }

  lemma {:induction false} RunKeepsSize(s: Pool, actions: seq<Action>, t: Pool)
    requires Inv(s) && Run(s, actions) == Some(t)
    ensures |t.workers| == |s.workers| && |t.producers| == |s.producers| && t.queue.capacity <= s.queue.capacity
    ensures !t.stopper.Destroyed? ==> t.queue.capacity == s.queue.capacity
    ensures Stopping(s) ==> Stopping(t) && t.accepted == s.accepted
    ensures s.stopper.Destroyed? ==> t.stopper == s.stopper
    decreases |actions|
  {
    hide Next, Inv;
    if actions != [] {
      var u := Next(s, actions[0]).value;
      InvShutdown(s);
      StepKeepsSize(s, actions[0], u);
      StepKeepsInv(s, actions[0], u);
      RunKeepsSize(u, actions[1..], t);
    }
  }

  lemma InvShutdown(s: Pool)
    requires Inv(s)
    ensures ShutdownOk(s) && DestroyedOk(s) && 0 < |s.workers|
  {
  }

  // ---- What the queue answers ----

  /** In every reachable state before the destruction: a push that holds the mutex stores its connection if and only if
      shutdown has not begun and fewer than `capacity` are queued.  On a full queue task_queue_try_push answers so and
      task_queue_push sleeps; after the shutdown flag both refuse. */
  lemma PushDecides(workers: nat, producers: nat, capacity: nat, actions: seq<Action>, s: Pool, i: nat, wake: nat, call: Call)
    requires 0 < workers && Run(Start(workers, producers, capacity), actions) == Some(s)
    requires i < |s.producers| && s.producers[i].Checking? && !s.stopper.Destroyed?
    ensures Next(s, Produce(i, wake, call)).Some?
    ensures var p, t := s.producers[i], Next(s, Produce(i, wake, call)).value;
            var after, room := t.producers[i], |s.queue.tasks| < capacity;
            && (after == Notifying <==> s.stopper.Running? && room)
            && (after == LeavingFull(p.conn) <==> s.stopper.Running? && |s.queue.tasks| == capacity && !p.waits)
            && (after == PushAsleep(p.conn) <==> s.stopper.Running? && |s.queue.tasks| == capacity && p.waits)
            && (after == LeavingRefused(p.conn) <==> !s.stopper.Running?)
            && t.queue.tasks == s.queue.tasks + (if after == Notifying then [p.conn] else [])
            && t.accepted == s.accepted + (if after == Notifying then [p.conn] else [])
  {
    hide Run, NotEmptyOk, NotFullOk, PlacesOk, MutexOk, Sum;
    StartInv(workers, producers, capacity);
    RunKeepsInv(Start(workers, producers, capacity), actions, s);
    RunKeepsSize(Start(workers, producers, capacity), actions, s);
  }

  /** A pop that holds the mutex takes the oldest connection if and only if there is one; else it sleeps, or leaves once
      shutdown has begun. */
  lemma PopDecides(workers: nat, producers: nat, capacity: nat, actions: seq<Action>, s: Pool, i: nat, wake: nat)
    requires 0 < workers && Run(Start(workers, producers, capacity), actions) == Some(s)
    requires i < |s.workers| && s.workers[i].Testing?
    ensures Next(s, Work(i, wake)).Some?
    ensures var t := Next(s, Work(i, wake)).value;
            var after := t.workers[i];
            && (after.Signalling? <==> s.queue.tasks != [])
            && (after.Asleep? <==> s.queue.tasks == [] && s.stopper.Running?)
            && (after == Unlocking(None) <==> s.queue.tasks == [] && !s.stopper.Running?)
            && (after.Signalling? ==>
                  [after.task] + t.queue.tasks == s.queue.tasks && t.dequeued == s.dequeued + [after.task])
            && (!after.Signalling? ==> t.queue == s.queue && t.dequeued == s.dequeued)
  {
    hide Run, NotEmptyOk, NotFullOk, PlacesOk, MutexOk, Sum;
    StartInv(workers, producers, capacity);
    RunKeepsInv(Start(workers, producers, capacity), actions, s);
  }

  // ---- The server goes on serving ----

  /** The accept call of producer i does not fail. */
  predicate AcceptWorks(a: Action, i: nat) {
    a.Produce? && a.p == i ==> !a.call.AcceptFails?
  }

  predicate Serving(p: Producer) {
    !p.Stopped? && !p.Failing? && !p.LeavingRefused?
  }

  lemma WorkServes(s: Pool, w: nat, wake: nat, t: Pool, i: nat)
    requires w < |s.workers| && WorkStep(s, w, wake) == Some(t) && i < |s.producers| && Serving(s.producers[i])
    ensures i < |t.producers| && Serving(t.producers[i])
  {
    hide CanSignal, PopOutcome;
  }

  lemma OwnServes(s: Pool, i: nat, wake: nat, call: Call, t: Pool)
    requires i < |s.producers| && ProduceStep(s, i, wake, call) == Some(t) && !call.AcceptFails?
    requires s.stopper.Running? && !s.queue.shutdown && Serving(s.producers[i])
    ensures i < |t.producers| && Serving(t.producers[i])
  {
    hide CanSignal, WakeWorker;
  }

  lemma OtherServes(s: Pool, p: nat, wake: nat, call: Call, t: Pool, i: nat)
    requires p < |s.producers| && ProduceStep(s, p, wake, call) == Some(t) && i < |s.producers| && i != p
    ensures i < |t.producers| && t.producers[i] == s.producers[i]
  {
    hide CanSignal, WakeWorker, PushOutcome, TryPushOutcome;
  }

  lemma StepServes(s: Pool, a: Action, t: Pool, i: nat)
    requires Inv(s) && Next(s, a) == Some(t) && AcceptWorks(a, i)
    requires i < |s.producers| && Serving(s.producers[i]) && s.stopper.Running? && t.stopper.Running?
    ensures i < |t.producers| && Serving(t.producers[i])
  {
    hide WorkStep, ProduceStep, Serving, Sum, NotEmptyOk, NotFullOk, PlacesOk, FifoOk, MutexOk;
    match a {
      case Work(w, wake) => WorkServes(s, w, wake, t, i);
      case Produce(p, wake, call) =>
        if p == i {
          OwnServes(s, i, wake, call, t);
        } else {
          OtherServes(s, p, wake, call, t, i);
        }
      case SpuriousPush(p) => assert Serving(PushWoken(s.producers[p].conn)) by { PushWokenServes(s.producers[p].conn); }
      case _ =>
    }
  }

  lemma PushWokenServes(c: Task)
    ensures Serving(PushWoken(c))
  {
  }

  lemma {:induction false} RunServes(s: Pool, actions: seq<Action>, t: Pool, i: nat)
    requires Inv(s) && Run(s, actions) == Some(t) && (forall a :: a in actions ==> AcceptWorks(a, i))
    requires i < |s.producers| && Serving(s.producers[i]) && t.stopper.Running?
    ensures i < |t.producers| && Serving(t.producers[i])
    decreases |actions|
  {
    hide Inv, Next;
    if actions != [] {
      var u := Next(s, actions[0]).value;
      InvShutdown(s);
      StepKeepsSize(s, actions[0], u);
      StepKeepsInv(s, actions[0], u);
      RunKeepsSize(u, actions[1..], t);
      RunKeepsSize(s, actions, t);
      StepServes(s, actions[0], u, i);
      RunServes(u, actions[1..], t, i);
    }
  }

  /** Until the shutdown begins no worker returns, and no producer stops unless its own accept fails: a full queue costs
      the connection, not the accept loop. */
  lemma ServesUntilShutdown(workers: nat, producers: nat, capacity: nat, actions: seq<Action>, s: Pool)
    requires 0 < workers && Run(Start(workers, producers, capacity), actions) == Some(s) && s.stopper.Running?
    ensures |s.workers| == workers && forall w :: 0 <= w < workers ==> !s.workers[w].Returned?
    ensures |s.producers| == producers
    ensures forall p :: 0 <= p < producers && (forall a :: a in actions ==> AcceptWorks(a, p)) ==> Serving(s.producers[p])
  {
    hide Run, Sum, NotEmptyOk, NotFullOk, PlacesOk, FifoOk, MutexOk;
    var start := Start(workers, producers, capacity);
    StartInv(workers, producers, capacity);
    RunKeepsInv(start, actions, s);
    RunKeepsSize(start, actions, s);
    assert forall w :: 0 <= w < workers && s.workers[w].Returned? ==> Leaves(s.workers[w]);
    forall p | 0 <= p < producers && (forall a :: a in actions ==> AcceptWorks(a, p)) ensures Serving(s.producers[p]) {
      RunServes(start, actions, s, p);
    }
  }
}
