/** The channel and wait-queue rings of kernel/scheduler.c updated in place, proved
    against the queues of the kernel model. */
module IpcRings {
  import opened Scheduler
  import opened Ipc
  import Ring

  class Channel {
    var queue: array<int>
    var head: nat
    var tail: nat
    var count: nat

    ghost predicate Valid()
      reads this, queue
    {
      queue.Length == CAPACITY && Ring.Fits(queue[..], head, tail, count)
    }

    ghost function Values(): seq<int>
      requires Valid()
      reads this, queue
    {
      Ring.Contents(queue[..], head, count)
    }

    constructor ()
      ensures Valid() && Values() == [] && fresh(queue)
    {
      queue := new int[CAPACITY](_ => 0);
      head, tail, count := 0, 0, 0;
    }

    method Put(v: int) returns (ok: bool)
      requires Valid()
      modifies this`tail, this`count, queue
      ensures Valid() && ok == (|old(Values())| < CAPACITY)
      ensures Values() == if ok then old(Values()) + [v] else old(Values())
    {
      if count >= CAPACITY { return false; }
      Ring.Push(queue[..], head, tail, count, v);
      ghost var after := queue[..][tail := v];
      queue[tail] := v;
      assert queue[..] == after;
      tail := (tail + 1) % CAPACITY;
      count := count + 1;
      ok := true;
    }

    method Take() returns (ok: bool, v: int)
      requires Valid()
      modifies this`head, this`count
      ensures Valid() && ok == (old(Values()) != [])
      ensures ok ==> old(Values()) == [v] + Values()
      ensures !ok ==> Values() == old(Values())
    {
      if count <= 0 { return false, 0; }
      Ring.Pop(queue[..], head, tail, count);
      v := queue[head];
      head := (head + 1) % CAPACITY;
      count := count - 1;
      ok := true;
    }
  }

  class WaitQueue {
    var taskIds: array<int>
    var head: nat
    var tail: nat
    var count: nat

    ghost predicate Valid()
      reads this, taskIds
    {
      taskIds.Length == MAX_TASKS && Ring.Fits(taskIds[..], head, tail, count)
    }

    ghost function Waiting(): seq<int>
      requires Valid()
      reads this, taskIds
    {
      Ring.Contents(taskIds[..], head, count)
    }

    constructor ()
      ensures Valid() && Waiting() == [] && fresh(taskIds)
    {
      taskIds := new int[MAX_TASKS](_ => -1);
      head, tail, count := 0, 0, 0;
    }

    /** The locked part of wait_queue_wait. */
    method Join(current: nat, tasks: array<Task>)
      requires Valid() && current < tasks.Length
      modifies this`tail, this`count, taskIds, tasks
      ensures Valid()
      ensures old(|Waiting()|) < MAX_TASKS ==>
        && Waiting() == old(Waiting()) + [current]
        && tasks[..] == old(tasks[..])[current := old(tasks[current]).(state := Blocked)]
      ensures old(|Waiting()|) >= MAX_TASKS ==> Waiting() == old(Waiting()) && tasks[..] == old(tasks[..])
    {
      if count < MAX_TASKS {
        Ring.Push(taskIds[..], head, tail, count, current);
        ghost var after := taskIds[..][tail := current];
        taskIds[tail] := current;
        assert taskIds[..] == after;
        tail := (tail + 1) % MAX_TASKS;
        count := count + 1;
        tasks[current] := tasks[current].(state := Blocked);
      }
    }

    /** Take the head entry out, leaving -1 in its place. */
    method Leave() returns (id: int)
      requires Valid() && Waiting() != []
      modifies this`head, this`count, taskIds
      ensures Valid() && old(Waiting()) == [id] + Waiting()
    {
      Ring.Pop(taskIds[..], head, tail, count);
      Ring.Vacate(taskIds[..], head, tail, count, -1);
      ghost var after := taskIds[..][head := -1];
      id := taskIds[head];
      taskIds[head] := -1;
      assert taskIds[..] == after;
      head := (head + 1) % MAX_TASKS;
      count := count - 1;
    }

    /** wait_queue_wake_one. */
    method WakeFirst(tasks: array<Task>) returns (woken: bool)
      requires Valid()
      modifies this`head, this`count, taskIds, tasks
      ensures Valid()
      ensures (Waiting(), tasks[..]) == WakeOne(old(Waiting()), old(tasks[..]))
      ensures woken <==> exists id :: id in old(Waiting()) && 0 <= id < tasks.Length && old(tasks[id]).state.Blocked?
    {
      while count > 0
        invariant Valid() && tasks[..] == old(tasks[..]) && taskIds == old(taskIds)
        invariant WakeOne(Waiting(), tasks[..]) == WakeOne(old(Waiting()), old(tasks[..]))
        invariant forall id :: id in old(Waiting()) ==>
          id in Waiting() || !(0 <= id < tasks.Length && tasks[id].state.Blocked?)
        invariant forall id :: id in Waiting() ==> id in old(Waiting())
        decreases count
      {
        ghost var q := Waiting();
        var id := Leave();
        assert q[1..] == Waiting() && q[0] == id;
        if 0 <= id < tasks.Length && tasks[id].state.Blocked? {
          ghost var before := tasks[..];
          tasks[id] := tasks[id].(state := Ready, wakeTick := 0, wakeBoost := WAKE_BOOST_MAX);
          assert tasks[..] == before[id := Woken(before[id])];
          return true;
        }
      }
      woken := false;
    }
  }

  /** ipc_send on channel `c` of the kernel `k`, whose rings are the given ones. */
  method Send(
    ch: Channel, receivers: WaitQueue, tasks: array<Task>, v: int, ghost k: Kernel, ghost c: nat)
    returns (ok: bool)
    requires ch.Valid() && receivers.Valid() && ch.queue != receivers.taskIds && Shape(k) && c < CHANNELS
    requires k.chans[c] == ch.Values() && k.recvQ[c] == receivers.Waiting() && k.sched.tasks == tasks[..]
    modifies ch`tail, ch`count, ch.queue, receivers`head, receivers`count, receivers.taskIds, tasks
    ensures ch.Valid() && receivers.Valid()
    ensures var (k', sent) := TrySend(k, c, v);
      && ok == sent && ch.Values() == k'.chans[c]
      && receivers.Waiting() == k'.recvQ[c] && tasks[..] == k'.sched.tasks
  {
    ok := PutAndWake(ch, receivers, tasks, v);
  }

  method PutAndWake(ch: Channel, receivers: WaitQueue, tasks: array<Task>, v: int) returns (ok: bool)
    requires ch.Valid() && receivers.Valid() && ch.queue != receivers.taskIds
    modifies ch`tail, ch`count, ch.queue, receivers`head, receivers`count, receivers.taskIds, tasks
    ensures ch.Valid() && receivers.Valid() && ok == (|old(ch.Values())| < CAPACITY)
    ensures ch.Values() == if ok then old(ch.Values()) + [v] else old(ch.Values())
    ensures (receivers.Waiting(), tasks[..]) ==
      if ok then WakeOne(old(receivers.Waiting()), old(tasks[..])) else (old(receivers.Waiting()), old(tasks[..]))
  {
    ok := ch.Put(v);
    assert receivers.Valid() && receivers.Waiting() == old(receivers.Waiting());
    if ok {
      ghost var q := ch.queue[..];
      var _ := receivers.WakeFirst(tasks);
      assert ch.queue[..] == q;
    }
  }

  /** ipc_recv on channel `c` of the kernel `k`, whose rings are the given ones. */
  method Receive(ch: Channel, senders: WaitQueue, tasks: array<Task>, ghost k: Kernel, ghost c: nat)
    returns (ok: bool, v: int)
    requires ch.Valid() && senders.Valid() && ch.queue != senders.taskIds && Shape(k) && c < CHANNELS
    requires k.chans[c] == ch.Values() && k.sendQ[c] == senders.Waiting() && k.sched.tasks == tasks[..]
    modifies ch`head, ch`count, senders`head, senders`count, senders.taskIds, tasks
    ensures ch.Valid() && senders.Valid()
    ensures var (k', got) := TryRecv(k, c);
      && ok == got && ch.Values() == k'.chans[c]
      && senders.Waiting() == k'.sendQ[c] && tasks[..] == k'.sched.tasks
      && (ok ==> k'.received[c] == k.received[c] + [v])
  {
    ok, v := TakeAndWake(ch, senders, tasks);
  }

  method TakeAndWake(ch: Channel, senders: WaitQueue, tasks: array<Task>) returns (ok: bool, v: int)
    requires ch.Valid() && senders.Valid() && ch.queue != senders.taskIds
    modifies ch`head, ch`count, senders`head, senders`count, senders.taskIds, tasks
    ensures ch.Valid() && senders.Valid() && ok == (old(ch.Values()) != [])
    ensures if ok then old(ch.Values()) == [v] + ch.Values() else ch.Values() == old(ch.Values())
    ensures (senders.Waiting(), tasks[..]) ==
      if ok then WakeOne(old(senders.Waiting()), old(tasks[..])) else (old(senders.Waiting()), old(tasks[..]))
  {
    ok, v := ch.Take();
    assert senders.Valid() && senders.Waiting() == old(senders.Waiting());
    if ok {
      ghost var q := ch.queue[..];
      var _ := senders.WakeFirst(tasks);
      assert ch.queue[..] == q;
    }
  }
}
