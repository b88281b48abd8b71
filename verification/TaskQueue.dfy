/** The bounded ring buffer of src/task_queue.c, refined to a first-in first-out sequence. */
module TaskQueue {
  import opened Common

  /** A task is the connection it carries. */
  type Task = nat

  /** What the ring buffer stands for. */
  datatype Queue = Queue(tasks: seq<Task>, capacity: nat, shutdown: bool) {
    predicate IsFull() {
      |tasks| == capacity
    }

    function Pushed(t: Task): (q: Queue) {
      this.(tasks := tasks + [t])
    }
  }

  /** Return codes 0, 1 and -1; Wait is the branch that calls pthread_cond_wait. */
  datatype Outcome = Accepted | Full | Refused | Wait

  function TryPushOutcome(q: Queue): (o: Outcome) {
    if q.shutdown then Refused else if q.IsFull() then Full else Accepted
  }

  function PushOutcome(q: Queue): (o: Outcome) {
    if q.shutdown then Refused else if q.IsFull() then Wait else Accepted
  }

  function PopOutcome(q: Queue): (o: Outcome) {
    if q.tasks != [] then Accepted else if q.shutdown then Refused else Wait
  }

  class Ring {
    const items: array<Task>
    var head: nat
    var tail: nat
    var count: nat
    var shutdown: bool

    ghost predicate Valid()
      reads this
    {
      && 0 < items.Length
      && head < items.Length
      && count <= items.Length
      && tail == Wrap(head + count, items.Length)
    }

    function Slot(i: nat): (k: nat)
      requires Valid()
      reads this
      ensures k < items.Length
    {
      Wrap(head + i, items.Length)
    }

    function Contents(): (s: seq<Task>)
      requires Valid()
      reads this, items
    {
      seq(count, i requires 0 <= i < count reads this, items requires Valid() => items[Slot(i)])
    }

    function Abs(): (q: Queue)
      requires Valid()
      reads this, items
    {
      Queue(Contents(), items.Length, shutdown)
    }

    constructor (capacity: nat)
      requires 0 < capacity
      ensures Valid() && fresh(items)
      ensures Abs() == Queue([], capacity, false)
    {
      items := new Task[capacity](_ => 0);
      head, tail, count, shutdown := 0, 0, 0, false;
    }

    /** Stores at `tail`, the slot after the newest task. */
    method Store(t: Task)
      requires Valid() && count < items.Length
      modifies this, items
      ensures Valid() && Abs() == old(Abs()).Pushed(t)
    {
      hide Wrap;
      ghost var was := Contents();
      items[tail] := t;
      tail := Wrap(tail + 1, items.Length);
      count := count + 1;
      assert Contents() == was + [t];
    }

    method TryPush(t: Task) returns (o: Outcome)
      requires Valid()
      modifies this, items
      ensures Valid()
      ensures o == TryPushOutcome(old(Abs()))
      ensures o == Accepted <==> !old(shutdown) && old(count) < items.Length
      ensures o == Full <==> !old(shutdown) && old(count) == items.Length
      ensures o == Refused <==> old(shutdown)
      ensures Abs() == if o == Accepted then old(Abs()).Pushed(t) else old(Abs())
    {
      if shutdown {
        o := Refused;
      } else if count == items.Length {
        o := Full;
      } else {
        Store(t);
        o := Accepted;
      }
    }

    /** One pass of task_queue_push with the mutex held: it either waits or decides. */
    method Push(t: Task) returns (o: Outcome)
      requires Valid()
      modifies this, items
      ensures Valid()
      ensures o == PushOutcome(old(Abs()))
      ensures o == Accepted <==> !old(shutdown) && old(count) < items.Length
      ensures o == Wait <==> !old(shutdown) && old(count) == items.Length
      ensures o == Refused <==> old(shutdown)
      ensures Abs() == if o == Accepted then old(Abs()).Pushed(t) else old(Abs())
    {
      if !shutdown && count == items.Length {
        o := Wait;
      } else if shutdown {
        o := Refused;
      } else {
        Store(t);
        o := Accepted;
      }
    }

    /** One pass of task_queue_pop with the mutex held; the oldest task leaves first. */
    method Pop() returns (o: Outcome, t: Task)
      requires Valid()
      modifies this
      ensures Valid()
      ensures o == PopOutcome(old(Abs()))
      ensures o == Accepted <==> 0 < old(count)
      ensures o == Wait <==> old(count) == 0 && !old(shutdown)
      ensures o == Refused <==> old(count) == 0 && old(shutdown)
      ensures o == Accepted ==>
        old(Abs()) == Abs().(tasks := [t] + Abs().tasks)
      ensures o != Accepted ==> Abs() == old(Abs())
    {
      hide Wrap;
      t := 0;
      if count == 0 && !shutdown {
        o := Wait;
      } else if shutdown && count == 0 {
        o := Refused;
      } else {
        ghost var was := Contents();
        t := items[head];
        head := Wrap(head + 1, items.Length);
        count := count - 1;
        o := Accepted;
        assert was == [t] + Contents();
      }
    }

    method Shutdown()
      requires Valid()
      modifies this
      ensures Valid() && Abs() == old(Abs()).(shutdown := true)
    {
      shutdown := true;
    }
  }

  // ---- Ring arithmetic ----

  /** `% capacity`; every position the queue computes lies below twice the capacity. */
  function Wrap(k: nat, n: nat): (r: nat)
    requires 0 < n
    ensures r < n
    ensures k < n ==> r == k
    ensures n <= k < 2 * n ==> r == k - n
  {
    assert n <= k < 2 * n ==> k == n * 1 + (k - n);
    k % n
  }
}
