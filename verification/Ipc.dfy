/** Blocking channels over wait queues, run cooperatively: between two calls of
    the scheduler only the current task and the timer act. */
module Ipc {
  import opened Bytes
  import opened Scheduler

  const CHANNELS: nat := 4
  const CAPACITY: nat := 16

  /** What a task that went to wait inside a blocking call retries once it runs again. */
  datatype Pending = Idle | Sending(c: nat, v: int) | Receiving(c: nat)

  /** Scheduler, channels (oldest value first) and wait queues (oldest task first),
      with the values each channel has accepted and delivered. */
  datatype Kernel = Kernel(
    sched: Sched, pending: seq<Pending>,
    chans: seq<seq<int>>, sendQ: seq<seq<int>>, recvQ: seq<seq<int>>,
    sent: seq<seq<int>>, received: seq<seq<int>>)

  predicate Shape(k: Kernel)
  {
    && Wf(k.sched) && |k.pending| == |k.sched.tasks|
    && |k.chans| == |k.sendQ| == |k.recvQ| == |k.sent| == |k.received| == CHANNELS
  }

  /** wait_queue_wake_one: skips entries that are not blocked. */
  function WakeOne(q: seq<int>, tasks: seq<Task>): (r: (seq<int>, seq<Task>))
    ensures |r.1| == |tasks|
  {
    if q == [] then (q, tasks)
    else if 0 <= q[0] < |tasks| && tasks[q[0]].state.Blocked? then (q[1..], tasks[q[0] := Woken(tasks[q[0]])])
    else WakeOne(q[1..], tasks)
  }

  function Woken(t: Task): Task { t.(state := Ready, wakeTick := 0, wakeBoost := WAKE_BOOST_MAX) }

  /** ipc_send on a valid channel. */
  function TrySend(k: Kernel, c: nat, v: int): (r: (Kernel, bool))
    requires Shape(k) && c < CHANNELS
    ensures Shape(r.0)
  {
    if |k.chans[c]| >= CAPACITY then (k, false)
    else
      var (q, tasks) := WakeOne(k.recvQ[c], k.sched.tasks);
      (k.(chans := k.chans[c := k.chans[c] + [v]], sent := k.sent[c := k.sent[c] + [v]],
          recvQ := k.recvQ[c := q], sched := k.sched.(tasks := tasks)), true)
  }

  /** ipc_recv on a valid channel. */
  function TryRecv(k: Kernel, c: nat): (r: (Kernel, bool))
    requires Shape(k) && c < CHANNELS
    ensures Shape(r.0)
  {
    if k.chans[c] == [] then (k, false)
    else
      var (q, tasks) := WakeOne(k.sendQ[c], k.sched.tasks);
      (k.(chans := k.chans[c := k.chans[c][1..]], received := k.received[c := k.received[c] + [k.chans[c][0]]],
          sendQ := k.sendQ[c := q], sched := k.sched.(tasks := tasks)), true)
  }

  function Parked(s: Sched): Sched
    requires Wf(s)
  {
    s.(tasks := s.tasks[s.current := s.tasks[s.current].(state := Blocked)])
  }

  /** The locked part of wait_queue_wait on a channel's sender queue. */
  function ParkSender(k: Kernel, c: nat, v: int): Kernel
    requires Shape(k) && c < CHANNELS
  {
    var k1 := k.(pending := k.pending[k.sched.current := Sending(c, v)]);
    if |k.sendQ[c]| < MAX_TASKS
    then k1.(sendQ := k.sendQ[c := k.sendQ[c] + [k.sched.current]], sched := Parked(k.sched)) else k1
  }

  function ParkReceiver(k: Kernel, c: nat): Kernel
    requires Shape(k) && c < CHANNELS
  {
    var k1 := k.(pending := k.pending[k.sched.current := Receiving(c)]);
    if |k.recvQ[c]| < MAX_TASKS
    then k1.(recvQ := k.recvQ[c := k.recvQ[c] + [k.sched.current]], sched := Parked(k.sched)) else k1
  }

  datatype Event =
    | Tick | Yield | Sleep(n: u32) | Exit
    | Send(c: int, v: int) | Recv(c: int)
    | SendWait(c: int, v: int) | RecvWait(c: int)
    | Retry

  /** How a step ends: in the same task, or in the scheduler with the current task still willing, or not. */
  datatype Ending = Stay | Yielding | Parking

  function Settle(k: Kernel): Kernel
    requires Shape(k)
  {
    k.(pending := k.pending[k.sched.current := Idle])
  }

  function Attempt(k: Kernel, p: Pending): (r: (Kernel, Ending))
    requires Shape(k) && !p.Idle? && p.c < CHANNELS
    ensures Shape(r.0)
  {
    var (k1, ok) := if p.Sending? then TrySend(Settle(k), p.c, p.v) else TryRecv(Settle(k), p.c);
    if ok then (k1, Stay)
    else if p.Sending? then (ParkSender(k, p.c, p.v), Parking) else (ParkReceiver(k, p.c), Parking)
  }

  /** What an event does up to the point where the scheduler is called, if it is. */
  function Act(k: Kernel, ev: Event): (r: (Kernel, Ending))
    requires Shape(k)
    ensures Shape(r.0)
  {
    var s := k.sched;
    var me := s.tasks[s.current];
    match ev
    case Tick => (k.(sched := TimerTick(s)), Stay)
    case Yield => (k, Yielding)
    case Sleep(n) =>
      if n == 0 then (k, Yielding)
      else
        var asleep := me.(state := Sleeping, wakeTick := (s.ticks + n) % TWO32);
        (k.(sched := s.(tasks := s.tasks[s.current := asleep])), Parking)
    case Exit => (k.(sched := s.(tasks := s.tasks[s.current := me.(state := Terminated, wakeTick := 0)])), Parking)
    case Send(c, v) => if 0 <= c < CHANNELS then (TrySend(k, c, v).0, Stay) else (k, Stay)
    case Recv(c) => if 0 <= c < CHANNELS then (TryRecv(k, c).0, Stay) else (k, Stay)
    case SendWait(c, v) => if 0 <= c < CHANNELS then Attempt(k, Sending(c, v)) else (k, Stay)
    case RecvWait(c) => if 0 <= c < CHANNELS then Attempt(k, Receiving(c)) else (k, Stay)
    case Retry =>
      var p := k.pending[s.current];
      if p.Idle? || p.c >= CHANNELS then (k, Stay) else Attempt(k, p)
  }

  function Resched(k: Kernel, e: Ending): (r: Kernel)
    requires Shape(k)
    ensures Shape(r)
  {
    if e.Stay? then k else k.(sched := Select(k.sched, e.Yielding?))
  }

  function Step(k: Kernel, ev: Event): (r: Kernel)
    requires Shape(k)
    ensures Shape(r)
  {
    Resched(Act(k, ev).0, Act(k, ev).1)
  }

  /** A task inside a blocking call only retries; the loop task `loop` never blocks, sleeps or exits. */
  predicate Enabled(k: Kernel, loop: nat, ev: Event)
    requires Shape(k)
  {
    && (k.pending[k.sched.current] != Idle ==> ev.Retry? || ev.Tick?)
    && (k.sched.current == loop ==> !ev.SendWait? && !ev.RecvWait? && !ev.Exit? && !ev.Sleep?)
  }

  // ---- Invariant -------------------------------------------------------

  predicate Active(t: Task) { t.state.Ready? || t.state.Running? }

  /** Receivers of channel `c` that were woken and have not yet retried. */
  ghost function WokenReceivers(k: Kernel, c: nat): set<nat>
    requires Shape(k)
  {
    set i | 0 <= i < |k.pending| && k.pending[i] == Receiving(c) && Active(k.sched.tasks[i])
  }

  ghost function WokenSenders(k: Kernel, c: nat): set<nat>
    requires Shape(k)
  {
    set i | 0 <= i < |k.pending| && k.pending[i].Sending? && k.pending[i].c == c && Active(k.sched.tasks[i])
  }

  predicate Distinct(q: seq<int>) { forall i, j :: 0 <= i < j < |q| ==> q[i] != q[j] }

  predicate BlockedIn(k: Kernel, x: int, sending: bool, c: nat)
    requires Shape(k)
  {
    && 0 <= x < |k.pending| && k.sched.tasks[x].state.Blocked?
    && !k.pending[x].Idle? && k.pending[x].Sending? == sending && k.pending[x].c == c
  }

  /** Queue entries are distinct blocked tasks waiting for this very channel. */
  predicate QueuesOk(k: Kernel, c: nat)
    requires Shape(k) && c < CHANNELS
  {
    && Distinct(k.sendQ[c]) && Distinct(k.recvQ[c])
    && (forall x :: x in k.sendQ[c] ==> BlockedIn(k, x, true, c))
    && (forall x :: x in k.recvQ[c] ==> BlockedIn(k, x, false, c))
  }

  predicate TaskOk(k: Kernel, loop: nat, i: nat)
    requires Shape(k) && i < |k.pending|
  {
    var t, p := k.sched.tasks[i], k.pending[i];
    && (t.state.Running? ==> i == k.sched.current)
    && (i == loop ==> Active(t) && p == Idle)
    && (Active(t) || t.state.Blocked? ==> t.wakeTick == 0)
    && (p != Idle ==> p.c < CHANNELS && (Active(t) || t.state.Blocked?))
    && (t.state.Blocked? ==> p != Idle && i in if p.Sending? then k.sendQ[p.c] else k.recvQ[p.c])
  }

  /** No lost wakeup, up to `senders` and `receivers` tasks not counted as woken. */
  ghost predicate Accounted(k: Kernel, c: nat, senders: nat, receivers: nat)
    requires Shape(k) && c < CHANNELS
  {
    && |k.chans[c]| <= CAPACITY
    && k.sent[c] == k.received[c] + k.chans[c]
    && (k.recvQ[c] != [] ==> |k.chans[c]| <= |WokenReceivers(k, c)| + receivers)
    && (k.sendQ[c] != [] ==> CAPACITY - |k.chans[c]| <= |WokenSenders(k, c)| + senders)
  }

  ghost predicate Quiescent(k: Kernel, loop: nat)
  {
    && Shape(k) && loop < |k.pending|
    && (forall i :: 0 <= i < |k.pending| ==> TaskOk(k, loop, i))
    && (forall c :: 0 <= c < CHANNELS ==> QueuesOk(k, c))
    && (forall c :: 0 <= c < CHANNELS ==> Accounted(k, c, 0, 0))
  }

  ghost predicate Inv(k: Kernel, loop: nat)
  {
    Quiescent(k, loop) && k.sched.tasks[k.sched.current].state.Running?
  }
}
