/**
 * The threads around the queue, as a state machine: the workers of src/thread_pool.c, any number
 * of producers (the accept loop of src/server.c, or callers of the blocking push) and the thread
 * that destroys the pool. Each step is one action between two points where another thread may run:
 * taking the mutex, the loop test with its queue update, a signal, a broadcast, releasing the mutex.
 */
module WorkerPool {
  import opened Common
  import opened TaskQueue

  // ---- Threads ----

  datatype Worker =
    | Entering                          // about to lock in task_queue_pop
    | Testing                           // holds the mutex at the wait loop's condition
    | Asleep                            // in pthread_cond_wait(not_empty)
    | Woken                             // out of the wait, reacquiring the mutex
    | Signalling(task: Task)            // popped, about to signal not_full
    | Unlocking(popped: Option<Task>)   // about to unlock and return
    | Handling(task: Task)              // in the handler
    | Returned

  datatype Producer =
    | Accepting                         // in accept
    | Calling(conn: Task, waits: bool)  // about to test that the queue exists, in task_queue_push or task_queue_try_push
    | Locking(conn: Task, waits: bool)  // it did; about to lock
    | Checking(conn: Task, waits: bool) // holds the mutex at the first test
    | PushAsleep(conn: Task)            // in pthread_cond_wait(not_full)
    | PushWoken(conn: Task)
    | Notifying                         // stored, about to signal not_empty
    | LeavingAccepted
    | LeavingFull(conn: Task)
    | LeavingRefused(conn: Task)
    | Rejecting(conn: Task)             // result 1: answer, close, accept again
    | Failing(conn: Task)               // result -1: answer, close, stop
    | Stopped

  datatype Stopper =
    | Running
    | Flagged                           // shutdown set, about to broadcast not_empty
    | WorkersNotified                   // about to broadcast not_full
    | LeavingShutdown
    | Joining(joined: nat)
    | Destroyed(clean: bool, stranded: bool) // the queue is destroyed and zeroed; who was inside is recorded

  /** Between the test that the queue exists and the return from the push. */
  predicate Inside(p: Producer) {
    || p.Locking? || p.Checking? || p.PushAsleep? || p.PushWoken? || p.Notifying?
    || p.LeavingAccepted? || p.LeavingFull? || p.LeavingRefused?
  }

  predicate AllOutside(ps: seq<Producer>) {
    forall i :: 0 <= i < |ps| ==> !Inside(ps[i])
  }

  /** Inside the blocking push, and its outcome not yet decided. */
  predicate Stranded(p: Producer) {
    (p.Locking? && p.waits) || (p.Checking? && p.waits) || p.PushAsleep? || p.PushWoken?
  }

  predicate SomeStranded(ps: seq<Producer>) {
    exists i :: 0 <= i < |ps| && Stranded(ps[i])
  }

  datatype Thread = OfWorker(w: nat) | OfProducer(p: nat) | OfStopper

  datatype Pool = Pool(
    queue: Queue,
    holder: Option<Thread>,             // who holds the mutex
    workers: seq<Worker>,
    producers: seq<Producer>,
    stopper: Stopper,
    arrived: nat,                       // connections returned by accept: 0, 1, ..., arrived - 1
    closed: seq<Task>,                  // every close, in order
    accepted: seq<Task>,                // history: pushes that returned 0
    dequeued: seq<Task>,                // history: pops
    handled: seq<Task>)                 // history: handler calls that finished

  function Start(workers: nat, producers: nat, capacity: nat): (s: Pool) {
    Pool(Queue([], capacity, false), None, seq(workers, _ => Entering), seq(producers, _ => Accepting),
         Running, 0, [], [], [], [])
  }

  // ---- Steps ----

  /** What accept returns and which push follows it. */
  datatype Call = TrySubmit | Submit | AcceptFails

  /** `wake` picks the sleeper that a signal releases. */
  datatype Action =
    | Work(w: nat, wake: nat)
    | Produce(p: nat, wake: nat, call: Call)
    | Spurious(w: nat)
    | SpuriousPush(p: nat)
    | Stop

  predicate SleepingWorker(w: Worker) { w.Asleep? }
  predicate SleepingProducer(p: Producer) { p.PushAsleep? }

  /** pthread_cond_signal: one sleeper if there is any, nobody otherwise. */
  predicate CanSignal<T>(ts: seq<T>, sleeping: T -> bool, k: nat) {
    if exists i :: 0 <= i < |ts| && sleeping(ts[i]) then k < |ts| && sleeping(ts[k]) else true
  }

  function WakeWorker(ws: seq<Worker>, k: nat): (r: seq<Worker>)
    ensures |r| == |ws|
    ensures forall i :: 0 <= i < |ws| ==> r[i] == ws[i] || (ws[i].Asleep? && r[i] == Woken)
  {
    if k < |ws| && ws[k].Asleep? then ws[k := Woken] else ws
  }

  function WakeProducer(ps: seq<Producer>, k: nat): (r: seq<Producer>)
    ensures |r| == |ps|
    ensures forall i :: 0 <= i < |ps| ==> r[i] == ps[i] || (ps[i].PushAsleep? && r[i] == PushWoken(ps[i].conn))
  {
    if k < |ps| && ps[k].PushAsleep? then ps[k := PushWoken(ps[k].conn)] else ps
  }

  function WakeWorkers(ws: seq<Worker>): (r: seq<Worker>)
    ensures |r| == |ws|
    ensures forall i :: 0 <= i < |ws| ==> r[i] == if ws[i].Asleep? then Woken else ws[i]
  {
    seq(|ws|, i requires 0 <= i < |ws| => if ws[i].Asleep? then Woken else ws[i])
  }

  function WakeProducers(ps: seq<Producer>): (r: seq<Producer>)
    ensures |r| == |ps|
    ensures forall i :: 0 <= i < |ps| ==>
      r[i] == if ps[i].PushAsleep? then PushWoken(ps[i].conn) else ps[i]
  {
    seq(|ps|, i requires 0 <= i < |ps| => if ps[i].PushAsleep? then PushWoken(ps[i].conn) else ps[i])
  }

  function AtWorker(s: Pool, i: nat, w: Worker): (t: Pool)
    requires i < |s.workers|
  {
    s.(workers := s.workers[i := w])
  }

  function AtProducer(s: Pool, i: nat, p: Producer): (t: Pool)
    requires i < |s.producers|
  {
    s.(producers := s.producers[i := p])
  }

  /** task_queue_pop inside thread_pool_worker_main. */
  function WorkStep(s: Pool, i: nat, wake: nat): (r: Option<Pool>)
    requires i < |s.workers|
  {
    var q := s.queue;
    match s.workers[i] {
      case Entering | Woken =>
        if s.holder != None then None
        else Some(AtWorker(s, i, Testing).(holder := Some(OfWorker(i))))
      case Testing =>
        (match PopOutcome(q) {
          case Wait => Some(AtWorker(s, i, Asleep).(holder := None))
          case Accepted =>
            Some(AtWorker(s, i, Signalling(q.tasks[0])).(
              queue := q.(tasks := q.tasks[1..]), dequeued := s.dequeued + [q.tasks[0]]))
          case _ => Some(AtWorker(s, i, Unlocking(None)))
        })
      case Signalling(t) =>
        if !CanSignal(s.producers, SleepingProducer, wake) then None
        else Some(AtWorker(s, i, Unlocking(Some(t))).(producers := WakeProducer(s.producers, wake)))
      case Unlocking(popped) =>
        Some(AtWorker(s, i, if popped == None then Returned else Handling(popped.value)).(holder := None))
      case Handling(t) =>
        Some(AtWorker(s, i, Entering).(closed := s.closed + [t], handled := s.handled + [t]))
      case _ => None
    }
  }

  /** The accept loop around task_queue_try_push, or around task_queue_push. */
  function ProduceStep(s: Pool, i: nat, wake: nat, call: Call): (r: Option<Pool>)
    requires i < |s.producers|
  {
    match s.producers[i] {
      case Accepting =>
        (match call {
          case TrySubmit => Some(AtProducer(s, i, Calling(s.arrived, false)).(arrived := s.arrived + 1))
          case Submit => Some(AtProducer(s, i, Calling(s.arrived, true)).(arrived := s.arrived + 1))
          case AcceptFails => Some(AtProducer(s, i, Stopped))
        })
      case Calling(c, waits) =>
        Some(AtProducer(s, i, if s.stopper.Destroyed? then Failing(c) else Locking(c, waits)))
      case Locking(c, waits) =>
        if s.holder != None then None
        else Some(AtProducer(s, i, Checking(c, waits)).(holder := Some(OfProducer(i))))
      case PushWoken(c) =>
        if s.holder != None then None
        else Some(AtProducer(s, i, Checking(c, true)).(holder := Some(OfProducer(i))))
      case Checking(c, waits) =>
        Some(Decide(s, i, c, if waits then PushOutcome(s.queue) else TryPushOutcome(s.queue)))
      case Notifying =>
        if !CanSignal(s.workers, SleepingWorker, wake) then None
        else Some(AtProducer(s, i, LeavingAccepted).(workers := WakeWorker(s.workers, wake)))
      case LeavingAccepted => Some(AtProducer(s, i, Accepting).(holder := None))
      case LeavingFull(c) => Some(AtProducer(s, i, Rejecting(c)).(holder := None))
      case LeavingRefused(c) => Some(AtProducer(s, i, Failing(c)).(holder := None))
      case Rejecting(c) => Some(AtProducer(s, i, Accepting).(closed := s.closed + [c]))
      case Failing(c) => Some(AtProducer(s, i, Stopped).(closed := s.closed + [c]))
      case _ => None
    }
  }

  function Decide(s: Pool, i: nat, c: Task, o: Outcome): (t: Pool)
    requires i < |s.producers|
  {
    match o {
      case Accepted => AtProducer(s, i, Notifying).(queue := s.queue.Pushed(c), accepted := s.accepted + [c])
      case Full => AtProducer(s, i, LeavingFull(c))
      case Refused => AtProducer(s, i, LeavingRefused(c))
      case Wait => AtProducer(s, i, PushAsleep(c)).(holder := None)
    }
  }

  /** thread_pool_destroy: task_queue_shutdown, one pthread_join per worker, task_queue_destroy.  The last zeroes the
      queue, its flag and its capacity included, whether or not a producer is still inside. */
  function StopStep(s: Pool): (r: Option<Pool>) {
    match s.stopper {
      case Running =>
        if s.holder != None then None
        else Some(s.(stopper := Flagged, holder := Some(OfStopper), queue := s.queue.(shutdown := true)))
      case Flagged => Some(s.(stopper := WorkersNotified, workers := WakeWorkers(s.workers)))
      case WorkersNotified => Some(s.(stopper := LeavingShutdown, producers := WakeProducers(s.producers)))
      case LeavingShutdown => Some(s.(stopper := Joining(0), holder := None))
      case Joining(k) =>
        if k >= |s.workers|
        then Some(s.(stopper := Destroyed(AllOutside(s.producers), SomeStranded(s.producers)), queue := Queue([], 0, false)))
        else if s.workers[k].Returned? then Some(s.(stopper := Joining(k + 1)))
        else None
      case Destroyed(_, _) => None
    }
  }

  /** `None` when the action is not enabled. */
  function Next(s: Pool, a: Action): (r: Option<Pool>) {
    match a {
      case Work(i, wake) => if i < |s.workers| then WorkStep(s, i, wake) else None
      case Produce(i, wake, call) =>
        if i < |s.producers| then ProduceStep(s, i, wake, call) else None
      case Spurious(i) =>
        if i < |s.workers| && s.workers[i].Asleep? then Some(AtWorker(s, i, Woken)) else None
      case SpuriousPush(i) =>
        if i < |s.producers| && s.producers[i].PushAsleep?
        then Some(AtProducer(s, i, PushWoken(s.producers[i].conn))) else None
      case Stop => StopStep(s)
    }
  }

  function Run(s: Pool, actions: seq<Action>): (r: Option<Pool>)
    decreases |actions|
  {
    if actions == [] then Some(s)
    else match Next(s, actions[0])
      case None => None
      case Some(t) => Run(t, actions[1..])
  }

  // ---- Sums over the threads ----

  function Sum<T>(ts: seq<T>, weight: T -> nat): (n: nat)
    decreases |ts|
  {
    if ts == [] then 0 else weight(ts[0]) + Sum(ts[1..], weight)
  }

  lemma {:induction false} SumUpdate<T>(ts: seq<T>, i: nat, t: T, weight: T -> nat)
    requires i < |ts|
    ensures Sum(ts[i := t], weight) == Sum(ts, weight) - weight(ts[i]) + weight(t)
    ensures weight(ts[i]) <= Sum(ts, weight)
    decreases |ts|
  {
    if i == 0 {
      assert ts[i := t][1..] == ts[1..];
    } else {
      assert ts[i := t][1..] == ts[1..][i - 1 := t];
      SumUpdate(ts[1..], i - 1, t, weight);
    }
  }

  lemma {:induction false} SumAtMost<T>(ts: seq<T>, us: seq<T>, weight: T -> nat)
    requires |us| == |ts|
    requires forall i :: 0 <= i < |ts| ==> weight(us[i]) <= weight(ts[i])
    ensures Sum(us, weight) <= Sum(ts, weight)
    decreases |ts|
  {
    if ts != [] {
      SumAtMost(ts[1..], us[1..], weight);
    }
  }

  lemma {:induction false} SumPositive<T>(ts: seq<T>, weight: T -> nat)
    requires 0 < Sum(ts, weight)
    ensures exists i :: 0 <= i < |ts| && 0 < weight(ts[i])
    decreases |ts|
  {
    if weight(ts[0]) == 0 {
      SumPositive(ts[1..], weight);
      var i :| 0 <= i < |ts| - 1 && 0 < weight(ts[1..][i]);
      assert 0 < weight(ts[i + 1]);
    }
  }

  lemma {:induction false} SumZero<T>(ts: seq<T>, weight: T -> nat)
    requires forall i :: 0 <= i < |ts| ==> weight(ts[i]) == 0
    ensures Sum(ts, weight) == 0
    decreases |ts|
  {
    if ts != [] {
      SumZero(ts[1..], weight);
    }
  }

  lemma {:induction false} SumSame<T>(ts: seq<T>, us: seq<T>, weight: T -> nat)
    requires |us| == |ts|
    requires forall i :: 0 <= i < |ts| ==> weight(us[i]) == weight(ts[i])
    ensures Sum(us, weight) == Sum(ts, weight)
  {
    SumAtMost(ts, us, weight);
    SumAtMost(us, ts, weight);
  }
}
