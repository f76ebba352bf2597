/** Every run of the cooperative kernel keeps one task running, keeps the wait
    queues exact, loses no wakeup and delivers each channel in order. */
module IpcSafety {
  import opened Bytes
  import opened Scheduler
  import opened Ipc
  import opened Sets

  // ---- Queues never fill -----------------------------------------------

  ghost function Ids(q: seq<int>): set<int> { set x | x in q }

  lemma {:induction false} DistinctCount(q: seq<int>)
    requires Distinct(q)
    ensures |Ids(q)| == |q|
  {
    if q != [] {
      var rest := q[..|q| - 1];
      DistinctCount(rest);
      assert Ids(q) == Ids(rest) + {q[|q| - 1]};
    }
  }

  /** Distinct task ids that leave one task out cannot fill a queue of MAX_TASKS. */
  lemma QueueHasRoom(q: seq<int>, n: nat, me: nat)
    requires Distinct(q) && n <= MAX_TASKS && me < n
    requires forall x :: x in q ==> 0 <= x < n && x != me
    ensures |q| < MAX_TASKS
  {
    DistinctCount(q);
    var all := Below(n);
    assert Ids(q) <= all - {me};
    Subset(Ids(q), all - {me});
  }

  /** The guard of wait_queue_wait always holds: no queue is ever full. */
  lemma QueuesNeverFull(k: Kernel, loop: nat, c: nat)
    requires Inv(k, loop) && c < CHANNELS
    ensures |k.sendQ[c]| < MAX_TASKS && |k.recvQ[c]| < MAX_TASKS
  {
    assert QueuesOk(k, c);
    forall x | x in k.sendQ[c] + k.recvQ[c] ensures 0 <= x < |k.pending| && x != k.sched.current {
      assert BlockedIn(k, x, x in k.sendQ[c], c);
    }
    QueueHasRoom(k.sendQ[c], |k.pending|, k.sched.current);
    QueueHasRoom(k.recvQ[c], |k.pending|, k.sched.current);
  }

  // ---- Steps that leave waiting tasks alone ------------------------------

  /** Channels, queues and waiting tasks are as they were, but for `me`. */
  ghost predicate SameWaiting(k: Kernel, k': Kernel)
  {
    && Shape(k) && Shape(k') && k'.pending == k.pending
    && k'.chans == k.chans && k'.sendQ == k.sendQ && k'.recvQ == k.recvQ
    && k'.sent == k.sent && k'.received == k.received
    && forall i :: 0 <= i < |k.pending| && k.pending[i] != Idle ==>
         (Active(k'.sched.tasks[i]) <==> Active(k.sched.tasks[i]))
         && (k'.sched.tasks[i].state.Blocked? <==> k.sched.tasks[i].state.Blocked?)
  }

  lemma SameWaitingKeeps(k: Kernel, k': Kernel, loop: nat)
    requires Quiescent(k, loop) && SameWaiting(k, k')
    ensures forall c :: 0 <= c < CHANNELS ==> QueuesOk(k', c) && Accounted(k', c, 0, 0)
  {
    forall c | 0 <= c < CHANNELS ensures QueuesOk(k', c) && Accounted(k', c, 0, 0) {
      assert QueuesOk(k, c) && Accounted(k, c, 0, 0);
      assert WokenReceivers(k', c) == WokenReceivers(k, c);
      assert WokenSenders(k', c) == WokenSenders(k, c);
      assert forall x :: x in k.sendQ[c] ==> BlockedIn(k, x, true, c);
      assert forall x :: x in k.recvQ[c] ==> BlockedIn(k, x, false, c);
    }
  }

  /** Rescheduling: exactly one task runs afterwards, and no waiting task is disturbed. */
  lemma SelectKeeps(k: Kernel, loop: nat, force: bool)
    requires Quiescent(k, loop)
    requires force <==> k.sched.tasks[k.sched.current].state.Running?
    ensures Inv(k.(sched := Select(k.sched, force)), loop)
  {
    var o := Offered(k.sched, force);
    forall i | 0 <= i < |k.pending|
      ensures !o.tasks[i].state.Running?
      ensures o.tasks[i].state.Blocked? <==> k.sched.tasks[i].state.Blocked?
      ensures Active(k.sched.tasks[i]) ==> o.tasks[i].state.Ready?
      ensures o.tasks[i].state.Ready? ==> o.tasks[i].wakeTick == 0
      ensures k.pending[i] != Idle ==> (Active(o.tasks[i]) <==> Active(k.sched.tasks[i]))
      ensures o.tasks[i].state.Blocked? ==> o.tasks[i].wakeTick == 0
    {
      assert TaskOk(k, loop, i);
    }
    assert TaskOk(k, loop, loop);
    PickIsBest(o.tasks, o.current, loop);
    var k' := k.(sched := Select(k.sched, force));
    SameWaitingKeeps(k, k', loop);
    forall i | 0 <= i < |k.pending| ensures TaskOk(k', loop, i) {
      assert TaskOk(k, loop, i);
    }
  }

  lemma TickKeeps(k: Kernel, loop: nat)
    requires Inv(k, loop)
    ensures Inv(k.(sched := TimerTick(k.sched)), loop)
  {
    var k' := k.(sched := TimerTick(k.sched));
    forall i | 0 <= i < |k.pending|
      ensures k.pending[i] != Idle ==> (Active(k'.sched.tasks[i]) <==> Active(k.sched.tasks[i]))
      ensures k'.sched.tasks[i].state.Blocked? <==> k.sched.tasks[i].state.Blocked?
    {
      assert TaskOk(k, loop, i);
    }
    SameWaitingKeeps(k, k', loop);
    forall i | 0 <= i < |k.pending| ensures TaskOk(k', loop, i) {
      assert TaskOk(k, loop, i);
    }
    assert TaskOk(k, loop, k.sched.current);
  }

  /** A task that is not in a blocking call goes to sleep or exits. */
  lemma LeaveKeeps(k: Kernel, loop: nat, t: Task)
    requires Inv(k, loop) && k.pending[k.sched.current] == Idle && k.sched.current != loop
    requires t.state.Sleeping? || t.state.Terminated?
    ensures Quiescent(k.(sched := k.sched.(tasks := k.sched.tasks[k.sched.current := t])), loop)
  {
    var k' := k.(sched := k.sched.(tasks := k.sched.tasks[k.sched.current := t]));
    SameWaitingKeeps(k, k', loop);
    forall i | 0 <= i < |k.pending| ensures TaskOk(k', loop, i) {
      assert TaskOk(k, loop, i);
    }
  }

  // ---- Sending and receiving ---------------------------------------------

  /** The invariant with `senders` and `receivers` of channel `c` left out of account. */
  ghost predicate Partly(k: Kernel, loop: nat, c: nat, senders: nat, receivers: nat)
  {
    && Shape(k) && loop < |k.pending| && k.sched.tasks[k.sched.current].state.Running?
    && (forall i :: 0 <= i < |k.pending| ==> TaskOk(k, loop, i))
    && (forall d :: 0 <= d < CHANNELS ==> QueuesOk(k, d))
    && (forall d :: 0 <= d < CHANNELS ==> AccountedBut(k, d, c, senders, receivers))
  }

  ghost predicate AccountedBut(k: Kernel, d: nat, c: nat, senders: nat, receivers: nat)
    requires Shape(k) && d < CHANNELS
  {
    if d == c then Accounted(k, d, senders, receivers) else Accounted(k, d, 0, 0)
  }

  /** The current task leaves its blocking call: one woken task fewer to count on. */
  lemma SettleKeeps(k: Kernel, loop: nat, p: Pending)
    requires Inv(k, loop) && p != Idle && p.c < CHANNELS
    requires k.pending[k.sched.current] == Idle || k.pending[k.sched.current] == p
    ensures Partly(Settle(k), loop, p.c, if p.Sending? then 1 else 0, if p.Sending? then 0 else 1)
  {
    var k' := Settle(k);
    var senders, receivers := if p.Sending? then 1 else 0, if p.Sending? then 0 else 1;
    forall i | 0 <= i < |k.pending| ensures TaskOk(k', loop, i) {
      assert TaskOk(k, loop, i);
    }
    forall d | 0 <= d < CHANNELS
      ensures QueuesOk(k', d)
      ensures AccountedBut(k', d, p.c, senders, receivers)
    {
      QueuesFramed(k, k', d);
      SettleAccount(k, loop, p, d);
    }
    assert Partly(k', loop, p.c, senders, receivers);
  }

  /** Queues whose entries are not touched stay in order. */
  lemma QueuesFramed(k: Kernel, k': Kernel, d: nat)
    requires Shape(k) && Shape(k') && d < CHANNELS && QueuesOk(k, d) && |k'.pending| == |k.pending|
    requires k'.sendQ[d] == k.sendQ[d] && k'.recvQ[d] == k.recvQ[d]
    requires forall x :: 0 <= x < |k.pending| && k.sched.tasks[x].state.Blocked? ==>
      k'.pending[x] == k.pending[x] && k'.sched.tasks[x] == k.sched.tasks[x]
    ensures QueuesOk(k', d)
  {
    forall x | x in k.sendQ[d] ensures BlockedIn(k', x, true, d) { assert BlockedIn(k, x, true, d); }
    forall x | x in k.recvQ[d] ensures BlockedIn(k', x, false, d) { assert BlockedIn(k, x, false, d); }
  }

  lemma SettleAccount(k: Kernel, loop: nat, p: Pending, d: nat)
    requires Inv(k, loop) && p != Idle && p.c < CHANNELS && d < CHANNELS
    requires k.pending[k.sched.current] == Idle || k.pending[k.sched.current] == p
    ensures AccountedBut(Settle(k), d, p.c, if p.Sending? then 1 else 0, if p.Sending? then 0 else 1)
  {
    assert Accounted(k, d, 0, 0);
    WokenWithout(k, Settle(k), k.sched.current, d);
  }

  /** A task that stops waiting, or stops being active, drops out of the woken sets and nothing else changes. */
  lemma WokenWithout(k: Kernel, k': Kernel, me: nat, d: nat)
    requires Shape(k) && Shape(k') && me < |k.pending| == |k'.pending|
    requires forall i :: 0 <= i < |k.pending| && i != me ==>
      k'.pending[i] == k.pending[i] && k'.sched.tasks[i] == k.sched.tasks[i]
    requires k'.pending[me] == Idle || !Active(k'.sched.tasks[me])
    ensures |WokenSenders(k, d)| <= |WokenSenders(k', d)| +
      if k.pending[me].Sending? && k.pending[me].c == d then 1 else 0
    ensures |WokenReceivers(k, d)| <= |WokenReceivers(k', d)| +
      if k.pending[me] == Receiving(d) then 1 else 0
  {
    DropOne(WokenSenders(k, d), WokenSenders(k', d), me);
    DropOne(WokenReceivers(k, d), WokenReceivers(k', d), me);
  }

  lemma DropOne(s: set<nat>, s': set<nat>, me: nat)
    requires forall x :: x in s && x != me ==> x in s'
    ensures |s| <= |s'| + 1
    ensures me !in s ==> |s| <= |s'|
  {
    var kept := s - {me};
    assert kept * s' == kept && |s' - kept| == |s'| - |s' * kept| && s' * kept == kept;
    if me in s { assert s == kept + {me}; } else { assert s == kept; }
  }

  lemma InvIsPartly(k: Kernel, loop: nat, c: nat, senders: nat, receivers: nat)
    requires Inv(k, loop)
    ensures Partly(k, loop, c, senders, receivers)
  {
    forall d | 0 <= d < CHANNELS ensures AccountedBut(k, d, c, senders, receivers) {
      assert Accounted(k, d, 0, 0);
    }
  }

  /** Popping the head of a queue of blocked tasks wakes exactly that task. */
  lemma WakeHead(q: seq<int>, tasks: seq<Task>)
    requires q != [] ==> 0 <= q[0] < |tasks| && tasks[q[0]].state.Blocked?
    ensures q == [] ==> WakeOne(q, tasks) == (q, tasks)
    ensures q != [] ==> WakeOne(q, tasks) == (q[1..], tasks[q[0] := Woken(tasks[q[0]])])
  {
  }

  /** The head of the queue, if it counts and there is one. */
  ghost function HeadIf(counts: bool, q: seq<int>): set<int> { if counts && q != [] then {q[0]} else {} }

  /** `k'` is `k` after the head of one queue has been woken. */
  ghost predicate Wakes(k: Kernel, k': Kernel, c: nat, sending: bool)
    requires Shape(k) && Shape(k') && c < CHANNELS
  {
    var q := if sending then k.sendQ[c] else k.recvQ[c];
    && k'.pending == k.pending && k'.sched == k.sched.(tasks := WakeOne(q, k.sched.tasks).1)
    && k'.sendQ == (if sending then k.sendQ[c := WakeOne(q, k.sched.tasks).0] else k.sendQ)
    && k'.recvQ == (if sending then k.recvQ else k.recvQ[c := WakeOne(q, k.sched.tasks).0])
    && (q != [] ==> BlockedIn(k, q[0], sending, c))
  }

  /** Removing the head of one queue and making it ready keeps tasks and queues in order. */
  lemma WakeKeeps(k: Kernel, loop: nat, k': Kernel, c: nat, sending: bool)
    requires Shape(k) && Shape(k') && c < CHANNELS && loop < |k.pending|
    requires forall i :: 0 <= i < |k.pending| ==> TaskOk(k, loop, i)
    requires forall d :: 0 <= d < CHANNELS ==> QueuesOk(k, d)
    requires var q := if sending then k.sendQ[c] else k.recvQ[c];
      && k'.pending == k.pending && k'.sched == k.sched.(tasks := WakeOne(q, k.sched.tasks).1)
      && k'.sendQ == (if sending then k.sendQ[c := WakeOne(q, k.sched.tasks).0] else k.sendQ)
      && k'.recvQ == (if sending then k.recvQ else k.recvQ[c := WakeOne(q, k.sched.tasks).0])
    ensures forall i :: 0 <= i < |k.pending| ==> TaskOk(k', loop, i)
    ensures forall d :: 0 <= d < CHANNELS ==> QueuesOk(k', d)
    ensures forall d :: 0 <= d < CHANNELS ==>
      && WokenSenders(k', d) == WokenSenders(k, d) + HeadIf(sending && d == c, k.sendQ[c])
      && WokenReceivers(k', d) == WokenReceivers(k, d) + HeadIf(!sending && d == c, k.recvQ[c])
    ensures sending && k.sendQ[c] != [] ==> k.sendQ[c][0] !in WokenSenders(k, c)
    ensures !sending && k.recvQ[c] != [] ==> k.recvQ[c][0] !in WokenReceivers(k, c)
  {
    assert QueuesOk(k, c);
    assert Wakes(k, k', c, sending);
    forall i | 0 <= i < |k.pending| ensures TaskOk(k', loop, i) { WakeTask(k, loop, k', c, sending, i); }
    forall d | 0 <= d < CHANNELS ensures QueuesOk(k', d) { WakeQueue(k, k', c, sending, d); }
    forall d | 0 <= d < CHANNELS
      ensures WokenSenders(k', d) == WokenSenders(k, d) + HeadIf(sending && d == c, k.sendQ[c])
      ensures WokenReceivers(k', d) == WokenReceivers(k, d) + HeadIf(!sending && d == c, k.recvQ[c])
    {
      WakeCount(k, k', c, sending, d);
    }
  }

  lemma WakeTask(k: Kernel, loop: nat, k': Kernel, c: nat, sending: bool, i: nat)
    requires Shape(k) && Shape(k') && c < CHANNELS && Wakes(k, k', c, sending) && i < |k.pending| && TaskOk(k, loop, i)
    requires QueuesOk(k, c)
    ensures TaskOk(k', loop, i)
  {
    WakeHead(if sending then k.sendQ[c] else k.recvQ[c], k.sched.tasks);
  }

  lemma WakeQueue(k: Kernel, k': Kernel, c: nat, sending: bool, d: nat)
    requires Shape(k) && Shape(k') && c < CHANNELS && d < CHANNELS && Wakes(k, k', c, sending) && QueuesOk(k, d)
    ensures QueuesOk(k', d)
  {
    WakeHead(if sending then k.sendQ[c] else k.recvQ[c], k.sched.tasks);
    forall x | x in k'.sendQ[d] ensures BlockedIn(k', x, true, d) { assert BlockedIn(k, x, true, d); }
    forall x | x in k'.recvQ[d] ensures BlockedIn(k', x, false, d) { assert BlockedIn(k, x, false, d); }
  }

  lemma WakeCount(k: Kernel, k': Kernel, c: nat, sending: bool, d: nat)
    requires Shape(k) && Shape(k') && c < CHANNELS && d < CHANNELS && Wakes(k, k', c, sending)
    ensures WokenSenders(k', d) == WokenSenders(k, d) + HeadIf(sending && d == c, k.sendQ[c])
    ensures WokenReceivers(k', d) == WokenReceivers(k, d) + HeadIf(!sending && d == c, k.recvQ[c])
  {
    WakeHead(if sending then k.sendQ[c] else k.recvQ[c], k.sched.tasks);
  }

  lemma SendKeeps(k: Kernel, loop: nat, c: nat, v: int)
    requires c < CHANNELS && Partly(k, loop, c, 1, 0) && |k.chans[c]| < CAPACITY
    ensures Inv(TrySend(k, c, v).0, loop)
  {
    var k' := TrySend(k, c, v).0;
    WakeKeeps(k, loop, k', c, false);
    forall d | 0 <= d < CHANNELS ensures Accounted(k', d, 0, 0) {
      assert AccountedBut(k, d, c, 1, 0);
      SendAccount(k, c, v, d);
    }
    assert TaskOk(k', loop, k.sched.current) && TaskOk(k, loop, k.sched.current);
    WakeSparesOthers(k.recvQ[c], k.sched.tasks, k.sched.current);
  }

  lemma WakeSparesOthers(q: seq<int>, tasks: seq<Task>, i: nat)
    requires i < |tasks| && !tasks[i].state.Blocked?
    ensures WakeOne(q, tasks).1[i] == tasks[i]
  {
  }

  /** One value more, and one woken receiver more if any was waiting. */
  lemma SendAccount(k: Kernel, c: nat, v: int, d: nat)
    requires Shape(k) && c < CHANNELS && d < CHANNELS && |k.chans[c]| < CAPACITY
    requires AccountedBut(k, d, c, 1, 0)
    requires var k' := TrySend(k, c, v).0;
      && WokenSenders(k', d) == WokenSenders(k, d)
      && WokenReceivers(k', d) == WokenReceivers(k, d) + (if d == c && k.recvQ[c] != [] then {k.recvQ[c][0]} else {})
    requires k.recvQ[c] != [] ==> k.recvQ[c][0] !in WokenReceivers(k, c)
    ensures Accounted(TrySend(k, c, v).0, d, 0, 0)
  {
    var k' := TrySend(k, c, v).0;
    if d == c {
      assert k.recvQ[c] == [] ==> k'.recvQ[c] == [];
      assert k'.sent[c] == k'.received[c] + k'.chans[c];
    } else {
      assert WokenReceivers(k', d) == WokenReceivers(k, d);
    }
  }

  lemma RecvKeeps(k: Kernel, loop: nat, c: nat)
    requires c < CHANNELS && Partly(k, loop, c, 0, 1) && k.chans[c] != []
    ensures Inv(TryRecv(k, c).0, loop)
  {
    var k' := TryRecv(k, c).0;
    WakeKeeps(k, loop, k', c, true);
    forall d | 0 <= d < CHANNELS ensures Accounted(k', d, 0, 0) {
      assert AccountedBut(k, d, c, 0, 1);
      RecvAccount(k, c, d);
    }
    WakeSparesOthers(k.sendQ[c], k.sched.tasks, k.sched.current);
  }

  /** One free slot more, and one woken sender more if any was waiting. */
  lemma RecvAccount(k: Kernel, c: nat, d: nat)
    requires Shape(k) && c < CHANNELS && d < CHANNELS && k.chans[c] != []
    requires AccountedBut(k, d, c, 0, 1)
    requires var k' := TryRecv(k, c).0;
      && WokenReceivers(k', d) == WokenReceivers(k, d)
      && WokenSenders(k', d) == WokenSenders(k, d) + (if d == c && k.sendQ[c] != [] then {k.sendQ[c][0]} else {})
    requires k.sendQ[c] != [] ==> k.sendQ[c][0] !in WokenSenders(k, c)
    ensures Accounted(TryRecv(k, c).0, d, 0, 0)
  {
    var k' := TryRecv(k, c).0;
    if d == c {
      assert k.sendQ[c] == [] ==> k'.sendQ[c] == [];
      assert k.chans[c] == [k.chans[c][0]] + k'.chans[c];
    } else {
      assert WokenSenders(k', d) == WokenSenders(k, d);
    }
  }

  /** Waking one: the entries in front of the first blocked task are dropped, and that task is
      READY with the full boost; nothing else changes. */
  lemma {:induction false} WakeLaw(q: seq<int>, tasks: seq<Task>) returns (n: nat)
    ensures n <= |q| && forall j :: 0 <= j < n ==> !(0 <= q[j] < |tasks| && tasks[q[j]].state.Blocked?)
    ensures var (q', tasks') := WakeOne(q, tasks);
      if n == |q| then q' == [] && tasks' == tasks
      else
        && 0 <= q[n] < |tasks| && tasks[q[n]].state.Blocked? && q' == q[n + 1..]
        && tasks' == tasks[q[n] := tasks[q[n]].(state := Ready, wakeTick := 0, wakeBoost := 2)]
  {
    if q == [] || (0 <= q[0] < |tasks| && tasks[q[0]].state.Blocked?) {
      n := 0;
    } else {
      n := WakeLaw(q[1..], tasks);
      n := n + 1;
    }
  }

  /** A send succeeds exactly if the channel has one of its 16 places free; then its value is
      the last in the channel, and no other channel or queue but that of its receivers changes. */
  lemma SendLaw(k: Kernel, c: nat, v: int)
    requires Shape(k) && c < CHANNELS
    ensures var (k', ok) := TrySend(k, c, v);
      && (ok <==> |k.chans[c]| < 16) && (!ok ==> k' == k)
      && (ok ==> k'.chans == k.chans[c := k.chans[c] + [v]] && k'.sent == k.sent[c := k.sent[c] + [v]])
      && k'.received == k.received && k'.pending == k.pending && k'.sendQ == k.sendQ
      && k'.recvQ == k.recvQ[c := k'.recvQ[c]] && |k'.recvQ[c]| <= |k.recvQ[c]|
  {
    var n := WakeLaw(k.recvQ[c], k.sched.tasks);
  }

  /** A receive succeeds exactly if the channel is not empty, and takes its first value. */
  lemma RecvLaw(k: Kernel, c: nat)
    requires Shape(k) && c < CHANNELS
    ensures var (k', ok) := TryRecv(k, c);
      && (ok <==> k.chans[c] != []) && (!ok ==> k' == k)
      && (ok ==> k.chans[c] == [k.chans[c][0]] + k'.chans[c] && k'.chans == k.chans[c := k'.chans[c]])
      && (ok ==> k'.received == k.received[c := k.received[c] + [k.chans[c][0]]])
      && k'.sent == k.sent && k'.pending == k.pending && k'.recvQ == k.recvQ
      && k'.sendQ == k.sendQ[c := k'.sendQ[c]] && |k'.sendQ[c]| <= |k.sendQ[c]|
  {
    var n := WakeLaw(k.sendQ[c], k.sched.tasks);
    if k.chans[c] != [] { assert k.chans[c] == [k.chans[c][0]] + k.chans[c][1..]; }
  }

  /** The calls that do not block: a value goes in if there is room, or comes out if there is
      one; a channel that does not exist is refused. */
  lemma NonBlockingLaw(k: Kernel, c: int, v: int)
    requires Shape(k)
    ensures !(0 <= c < 4) ==> Step(k, Send(c, v)) == k && Step(k, Recv(c)) == k
    ensures 0 <= c < 4 ==>
      var k' := Step(k, Send(c, v));
      if |k.chans[c]| < 16 then k'.chans == k.chans[c := k.chans[c] + [v]] && k'.pending == k.pending else k' == k
    ensures 0 <= c < 4 ==>
      var k' := Step(k, Recv(c));
      if k.chans[c] != [] then k'.chans == k.chans[c := k.chans[c][1..]] && k'.pending == k.pending else k' == k
  {
    if 0 <= c < CHANNELS {
      SendLaw(k, c, v);
      RecvLaw(k, c);
    }
  }

  /** What the current task wants is taken up at once if it can be: the value is sent or
      received, and the task goes on; else it joins the queue of its call and is blocked. */
  lemma BlockingLaw(k: Kernel, loop: nat, ev: Event, p: Pending)
    requires Inv(k, loop) && p != Idle && p.c < CHANNELS && k.sched.current != loop
    requires ev == (if p.Sending? then SendWait(p.c, p.v) else RecvWait(p.c))
      || (ev == Retry && k.pending[k.sched.current] == p)
    requires k.pending[k.sched.current] == Idle || k.pending[k.sched.current] == p
    ensures var ((k', e), me) := (Act(k, ev), k.sched.current);
      var can := if p.Sending? then |k.chans[p.c]| < 16 else k.chans[p.c] != [];
      && |k'.pending| == |k.pending| && k'.sched.current == me
      && (can ==> e.Stay? && k'.pending[me] == Idle)
      && (can && p.Sending? ==> k'.sent[p.c] == k.sent[p.c] + [p.v] && k'.chans[p.c] == k.chans[p.c] + [p.v])
      && (can && p.Receiving? ==>
           k'.received[p.c] == k.received[p.c] + [k.chans[p.c][0]] && k.chans[p.c] == [k.chans[p.c][0]] + k'.chans[p.c])
      && (!can ==> e.Parking? && k'.pending[me] == p && k'.sched.tasks[me].state.Blocked? && k'.chans == k.chans)
      && (!can && p.Sending? ==> k'.sendQ[p.c] == k.sendQ[p.c] + [me])
      && (!can && p.Receiving? ==> k'.recvQ[p.c] == k.recvQ[p.c] + [me])
  {
    QueuesNeverFull(k, loop, p.c);
    if p.Sending? { SendLaw(Settle(k), p.c, p.v); } else { RecvLaw(Settle(k), p.c); }
  }

  // ---- Blocking --------------------------------------------------------

  /** A task that found the channel full (or empty) joins the queue without breaking the account. */
  lemma ParkKeeps(k: Kernel, loop: nat, p: Pending)
    requires Inv(k, loop) && p != Idle && p.c < CHANNELS && k.sched.current != loop
    requires k.pending[k.sched.current] == Idle || k.pending[k.sched.current] == p
    requires if p.Sending? then |k.chans[p.c]| >= CAPACITY else k.chans[p.c] == []
    ensures var k' := if p.Sending? then ParkSender(k, p.c, p.v) else ParkReceiver(k, p.c);
      Quiescent(k', loop) && k'.sched.tasks[k'.sched.current].state.Blocked?
  {
    QueuesNeverFull(k, loop, p.c);
    var k' := if p.Sending? then ParkSender(k, p.c, p.v) else ParkReceiver(k, p.c);
    forall i | 0 <= i < |k.pending| ensures TaskOk(k', loop, i) {
      assert TaskOk(k, loop, i);
    }
    forall d | 0 <= d < CHANNELS ensures QueuesOk(k', d) && Accounted(k', d, 0, 0) {
      if d == p.c { ParkQueue(k, loop, p, k'); } else { QueuesFramed(k, k', d); }
      ParkAccount(k, loop, p, k', d);
    }
  }

  lemma ParkQueue(k: Kernel, loop: nat, p: Pending, k': Kernel)
    requires Inv(k, loop) && p != Idle && p.c < CHANNELS
    requires |k.sendQ[p.c]| < MAX_TASKS && |k.recvQ[p.c]| < MAX_TASKS
    requires k' == if p.Sending? then ParkSender(k, p.c, p.v) else ParkReceiver(k, p.c)
    ensures QueuesOk(k', p.c)
  {
    var me, d := k.sched.current, p.c;
    assert QueuesOk(k, d);
    forall x | x in k.sendQ[d] ensures x != me && BlockedIn(k', x, true, d) { assert BlockedIn(k, x, true, d); }
    forall x | x in k.recvQ[d] ensures x != me && BlockedIn(k', x, false, d) { assert BlockedIn(k, x, false, d); }
    assert BlockedIn(k', me, p.Sending?, d);
  }

  lemma ParkAccount(k: Kernel, loop: nat, p: Pending, k': Kernel, d: nat)
    requires Inv(k, loop) && p != Idle && p.c < CHANNELS && d < CHANNELS
    requires |k.sendQ[p.c]| < MAX_TASKS && |k.recvQ[p.c]| < MAX_TASKS
    requires k.pending[k.sched.current] == Idle || k.pending[k.sched.current] == p
    requires if p.Sending? then |k.chans[p.c]| >= CAPACITY else k.chans[p.c] == []
    requires k' == if p.Sending? then ParkSender(k, p.c, p.v) else ParkReceiver(k, p.c)
    ensures Accounted(k', d, 0, 0)
  {
    assert Accounted(k, d, 0, 0);
    WokenWithout(k, k', k.sched.current, d);
  }

  // ---- Runs ------------------------------------------------------------

  lemma AttemptKeeps(k: Kernel, loop: nat, p: Pending)
    requires Inv(k, loop) && p != Idle && p.c < CHANNELS && k.sched.current != loop
    requires k.pending[k.sched.current] == Idle || k.pending[k.sched.current] == p
    ensures var (k', e) := Attempt(k, p);
      && (e.Stay? ==> Inv(k', loop))
      && (e.Parking? ==> Quiescent(k', loop) && k'.sched.tasks[k'.sched.current].state.Blocked?)
      && !e.Yielding?
  {
    SettleKeeps(k, loop, p);
    if p.Sending? {
      if |k.chans[p.c]| < CAPACITY { SendKeeps(Settle(k), loop, p.c, p.v); } else { ParkKeeps(k, loop, p); }
    } else {
      if k.chans[p.c] != [] { RecvKeeps(Settle(k), loop, p.c); } else { ParkKeeps(k, loop, p); }
    }
  }

  lemma StepKeeps(k: Kernel, loop: nat, ev: Event)
    requires Inv(k, loop) && Enabled(k, loop, ev)
    ensures Inv(Step(k, ev), loop)
  {
    var me := k.sched.current;
    assert TaskOk(k, loop, me);
    match ev
    case Tick => TickKeeps(k, loop);
    case Yield => SelectKeeps(k, loop, true);
    case Sleep(n) =>
      if n == 0 {
        SelectKeeps(k, loop, true);
      } else {
        LeaveKeeps(k, loop, k.sched.tasks[me].(state := Sleeping, wakeTick := (k.sched.ticks + n) % TWO32));
        SelectKeeps(Act(k, ev).0, loop, false);
      }
    case Exit =>
      LeaveKeeps(k, loop, k.sched.tasks[me].(state := Terminated, wakeTick := 0));
      SelectKeeps(Act(k, ev).0, loop, false);
    case Send(c, v) =>
      if 0 <= c < CHANNELS && |k.chans[c]| < CAPACITY {
        InvIsPartly(k, loop, c, 1, 0);
        SendKeeps(k, loop, c, v);
      }
    case Recv(c) =>
      if 0 <= c < CHANNELS && k.chans[c] != [] {
        InvIsPartly(k, loop, c, 0, 1);
        RecvKeeps(k, loop, c);
      }
    case SendWait(c, v) => if 0 <= c < CHANNELS { AttemptStep(k, loop, Sending(c, v)); }
    case RecvWait(c) => if 0 <= c < CHANNELS { AttemptStep(k, loop, Receiving(c)); }
    case Retry => if k.pending[me] != Idle { AttemptStep(k, loop, k.pending[me]); }
  }

  lemma AttemptStep(k: Kernel, loop: nat, p: Pending)
    requires Inv(k, loop) && p != Idle && p.c < CHANNELS && k.sched.current != loop
    requires k.pending[k.sched.current] == Idle || k.pending[k.sched.current] == p
    ensures Inv(Resched(Attempt(k, p).0, Attempt(k, p).1), loop)
  {
    AttemptKeeps(k, loop, p);
    var (k', e) := Attempt(k, p);
    if e.Parking? { SelectKeeps(k', loop, false); }
  }

  function Run(k: Kernel, run: seq<Event>): (r: Kernel)
    requires Shape(k)
    ensures Shape(r)
  {
    if run == [] then k else Step(Run(k, run[..|run| - 1]), run[|run| - 1])
  }

  predicate Admissible(k: Kernel, loop: nat, run: seq<Event>)
    requires Shape(k)
  {
    run == [] || (Admissible(k, loop, run[..|run| - 1]) && Enabled(Run(k, run[..|run| - 1]), loop, run[|run| - 1]))
  }

  lemma {:induction false} RunKeeps(k: Kernel, loop: nat, run: seq<Event>)
    requires Inv(k, loop) && Admissible(k, loop, run)
    ensures Inv(Run(k, run), loop)
  {
    if run != [] {
      RunKeeps(k, loop, run[..|run| - 1]);
      StepKeeps(Run(k, run[..|run| - 1]), loop, run[|run| - 1]);
    }
  }

  // ---- Theorems --------------------------------------------------------

  /** One task runs, the others are ready, and nothing is queued or pending. */
  predicate Booted(k: Kernel, loop: nat)
  {
    && Shape(k) && loop < |k.pending|
    && (forall i :: 0 <= i < |k.pending| ==>
          && k.pending[i] == Idle && k.sched.tasks[i].wakeTick == 0
          && k.sched.tasks[i].state == if i == k.sched.current then Running else Ready)
    && forall c :: 0 <= c < CHANNELS ==>
         k.chans[c] == k.sent[c] == k.received[c] == [] && k.sendQ[c] == k.recvQ[c] == []
  }

  lemma BootedInv(k: Kernel, loop: nat)
    requires Booted(k, loop)
    ensures Inv(k, loop)
  {
  }

  /** Single running task: after every run exactly the current task is RUNNING. */
  lemma SingleRunning(k: Kernel, loop: nat, run: seq<Event>, i: nat)
    requires Booted(k, loop) && Admissible(k, loop, run) && i < |Run(k, run).pending|
    ensures Run(k, run).sched.tasks[i].state.Running? <==> i == Run(k, run).sched.current
  {
    BootedInv(k, loop);
    RunKeeps(k, loop, run);
    assert TaskOk(Run(k, run), loop, i);
  }

  /** Queue discipline: after every run the queues hold distinct blocked tasks, none
      of them is full, and a task is blocked exactly when it is in one queue, that of
      the call it waits in. */
  lemma QueueDiscipline(k: Kernel, loop: nat, run: seq<Event>, i: nat, c: nat)
    requires Booted(k, loop) && Admissible(k, loop, run) && i < |Run(k, run).pending| && c < CHANNELS
    ensures var t := Run(k, run);
      && Distinct(t.sendQ[c]) && Distinct(t.recvQ[c])
      && |t.sendQ[c]| < MAX_TASKS && |t.recvQ[c]| < MAX_TASKS
      && (i in t.recvQ[c] <==> t.sched.tasks[i].state.Blocked? && t.pending[i] == Receiving(c))
      && (i in t.sendQ[c] <==> t.sched.tasks[i].state.Blocked? && t.pending[i].Sending? && t.pending[i].c == c)
      && (t.sched.tasks[i].state.Blocked? ==> t.pending[i] != Idle && t.pending[i].c < CHANNELS)
  {
    BootedInv(k, loop);
    RunKeeps(k, loop, run);
    var t := Run(k, run);
    QueuesNeverFull(t, loop, c);
    assert TaskOk(t, loop, i) && QueuesOk(t, c);
    if i in t.recvQ[c] { assert BlockedIn(t, i, false, c); }
    if i in t.sendQ[c] { assert BlockedIn(t, i, true, c); }
  }

  /** No lost wakeup: while a receiver is blocked, at most as many messages wait as
      woken receivers have yet to retry; dually for senders and free slots. And each
      channel delivers exactly what it accepted, in order. */
  lemma NoLostWakeup(k: Kernel, loop: nat, run: seq<Event>, i: nat, c: nat)
    requires Booted(k, loop) && Admissible(k, loop, run) && i < |Run(k, run).pending| && c < CHANNELS
    ensures var t := Run(k, run);
      && t.sent[c] == t.received[c] + t.chans[c] && |t.chans[c]| <= CAPACITY
      && (t.sched.tasks[i].state.Blocked? && t.pending[i] == Receiving(c) ==>
            |t.chans[c]| <= |WokenReceivers(t, c)|)
      && (t.sched.tasks[i].state.Blocked? && t.pending[i].Sending? && t.pending[i].c == c ==>
            CAPACITY - |t.chans[c]| <= |WokenSenders(t, c)|)
  {
    BootedInv(k, loop);
    RunKeeps(k, loop, run);
    assert TaskOk(Run(k, run), loop, i) && Accounted(Run(k, run), c, 0, 0);
  }

  /** So a receiver never sleeps on a message without another receiver on its way to it. */
  lemma MessageHasTaker(k: Kernel, loop: nat, run: seq<Event>, i: nat, c: nat) returns (j: nat)
    requires Booted(k, loop) && Admissible(k, loop, run) && i < |Run(k, run).pending| && c < CHANNELS
    requires Run(k, run).sched.tasks[i].state.Blocked? && Run(k, run).pending[i] == Receiving(c)
    requires Run(k, run).chans[c] != []
    ensures var t := Run(k, run);
      j < |t.pending| && j != i && Active(t.sched.tasks[j]) && t.pending[j] == Receiving(c)
  {
    NoLostWakeup(k, loop, run, i, c);
    var t := Run(k, run);
    assert |WokenReceivers(t, c)| > 0;
    j :| j in WokenReceivers(t, c);
  }

  /** Why some task must never block: a task that blocks is resumed at once, though
      still queued, exactly when no task is ready to take over. */
  lemma BlockedResumesIff(s: Sched)
    requires Wf(s) && s.tasks[s.current].state.Blocked? && s.tasks[s.current].wakeTick == 0
    requires forall i :: 0 <= i < |s.tasks| ==> !s.tasks[i].state.Running?
    ensures Select(s, false).current == s.current
       <==> forall i :: 0 <= i < |s.tasks| ==> !Offered(s, false).tasks[i].state.Ready?
  {
    var o := Offered(s, false);
    if i :| 0 <= i < |s.tasks| && o.tasks[i].state.Ready? {
      PickIsBest(o.tasks, o.current, i);
    } else {
      var d := BestIsFirstMax(o.tasks, o.current, |o.tasks|);
      NoneAlive(o.tasks, |o.tasks|);
    }
  }

  /** The only task blocks and is running again at once. */
  lemma LoneTaskResumes(t: Task, ticks: u32)
    requires t.state.Blocked? && t.wakeTick == 0
    ensures var s := Select(Sched([t], 0, ticks), false); s.current == 0 && s.tasks[0].state.Running?
  {
    var o := Offered(Sched([t], 0, ticks), false);
    assert o.tasks[0].state.Blocked?;
    NoneAlive(o.tasks, 1);
  }

  lemma {:induction false} NoneAlive(tasks: seq<Task>, n: nat)
    requires n <= |tasks| && forall i :: 0 <= i < |tasks| ==> !Active(tasks[i])
    ensures FirstAlive(tasks, n) == -1
  {
    if n > 0 { NoneAlive(tasks, n - 1); }
  }
}
