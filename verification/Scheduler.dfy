/** The task scheduler of kernel/scheduler.c: aging priorities, round-robin among
    equals, sleepers and the timer tick. */
module Scheduler {
  import opened Bytes
  import Ring

  const MAX_TASKS: nat := 8
  const PRIO_MAX: nat := 7
  const WAIT_BOOST_MAX: nat := 3
  const WAKE_BOOST_MAX: nat := 2

  datatype RunState = Ready | Running | Blocked | Sleeping | Terminated

  datatype Task = Task(
    state: RunState, priority: u32, wakeTick: u32, timeSlice: u32, waitTicks: u32, wakeBoost: u32)

  datatype Sched = Sched(tasks: seq<Task>, current: nat, ticks: u32)

  predicate Wf(s: Sched) { 0 < |s.tasks| <= MAX_TASKS && s.current < |s.tasks| }

  function Min(a: nat, b: nat): nat { if a <= b then a else b }

  /** scheduler_effective_priority_locked; its final clamp can never bind. */
  function Effective(t: Task): (e: nat)
    ensures e <= PRIO_MAX + WAIT_BOOST_MAX + WAKE_BOOST_MAX
  {
    Min(t.priority, PRIO_MAX) + Min(t.waitTicks / 16, WAIT_BOOST_MAX) + Min(t.wakeBoost, WAKE_BOOST_MAX)
  }

  function SliceFor(priority: u32): u32
  {
    if priority == 0 then 3 else if priority >= 3 then 8 else 5 + priority
  }

  function Wake(t: Task, ticks: u32): Task
  {
    if (t.state.Sleeping? || t.state.Blocked?) && t.wakeTick != 0 && t.wakeTick <= ticks
    then t.(state := Ready, wakeTick := 0, wakeBoost := WAKE_BOOST_MAX) else t
  }

  function WakeSleepers(s: Sched): Sched
  {
    s.(tasks := seq(|s.tasks|, i requires 0 <= i < |s.tasks| => Wake(s.tasks[i], s.ticks)))
  }

  /** The task `step` places after `from`, cyclically. */
  function At(n: nat, from: nat, step: nat): (r: nat)
    requires from < n && 1 <= step <= n
    ensures r < n
  {
    Ring.Wrap(from + step, n)
  }

  /** Best ready task among the `m` places after `from`, the earliest among equals; -1 if none is ready. */
  function Best(tasks: seq<Task>, from: nat, m: nat): (r: int)
    requires from < |tasks| && m <= |tasks|
    ensures -1 <= r < |tasks|
  {
    if m == 0 then -1
    else
      var b := Best(tasks, from, m - 1);
      var i := At(|tasks|, from, m);
      if tasks[i].state.Ready? && (b < 0 || Effective(tasks[i]) > Effective(tasks[b])) then i else b
  }

  /** First task that is not blocked, sleeping or terminated, or -1. */
  function FirstAlive(tasks: seq<Task>, n: nat): (r: int)
    requires n <= |tasks|
    ensures -1 <= r < n
  {
    if n == 0 then -1
    else
      var r := FirstAlive(tasks, n - 1);
      var st := tasks[n - 1].state;
      if r >= 0 then r else if !st.Blocked? && !st.Sleeping? && !st.Terminated? then n - 1 else -1
  }

  function PickNext(tasks: seq<Task>, from: nat): (r: nat)
    requires from < |tasks|
    ensures r < |tasks|
  {
    var b := Best(tasks, from, |tasks|);
    if b >= 0 then b
    else if tasks[from].state.Running? || tasks[from].state.Ready? then from
    else
      var i := FirstAlive(tasks, |tasks|);
      if i >= 0 then i else from
  }

  function Dispatch(t: Task): Task
  {
    t.(state := Running, timeSlice := SliceFor(t.priority), waitTicks := 0, wakeBoost := 0)
  }

  /** What the pick sees: the yielding task made ready, the due sleepers awake. */
  function Offered(s: Sched, force: bool): (r: Sched)
    requires Wf(s)
    ensures Wf(r) && |r.tasks| == |s.tasks| && r.current == s.current && r.ticks == s.ticks
  {
    var t := s.tasks[s.current];
    WakeSleepers(if force && t.state.Running?
                 then s.(tasks := s.tasks[s.current := t.(state := Ready, waitTicks := 0)]) else s)
  }

  /** scheduler_select_and_switch. */
  function Select(s: Sched, force: bool): (r: Sched)
    requires Wf(s)
    ensures Wf(r) && |r.tasks| == |s.tasks|
  {
    var o := Offered(s, force);
    var next := PickNext(o.tasks, o.current);
    o.(current := next, tasks := o.tasks[next := Dispatch(o.tasks[next])])
  }

  function Age(s: Sched, i: nat): Task
    requires i < |s.tasks|
  {
    var t := s.tasks[i];
    if i != s.current && t.state.Ready? && t.waitTicks < 0xFFFF_FFFF then t.(waitTicks := t.waitTicks + 1) else t
  }

  function AgeAll(s: Sched): Sched
  {
    s.(tasks := seq(|s.tasks|, i requires 0 <= i < |s.tasks| => Age(s, i)))
  }

  predicate Inverted(s: Sched)
    requires Wf(s)
  {
    exists i :: 0 <= i < |s.tasks| && i != s.current && s.tasks[i].state.Ready?
                && Effective(s.tasks[i]) > Effective(s.tasks[s.current])
  }

  /** Slice accounting of the running task; the tick itself never switches. */
  function Charge(s: Sched): Sched
    requires Wf(s)
  {
    var t := s.tasks[s.current];
    if !t.state.Running? then s
    else
      var left := if t.timeSlice > 0 then t.timeSlice - 1 else 0;
      var slice := if left == 0 then SliceFor(t.priority) else if Inverted(s) && left > 1 then 1 else left;
      s.(tasks := s.tasks[s.current := t.(timeSlice := slice)])
  }

  /** scheduler_timer_tick. */
  function TimerTick(s: Sched): (r: Sched)
    requires Wf(s)
    ensures Wf(r) && |r.tasks| == |s.tasks| && r.current == s.current
  {
    Charge(AgeAll(WakeSleepers(s.(ticks := (s.ticks + 1) % TWO32))))
  }

  // ---- What the pick guarantees ----------------------------------------

  /** The best of the first `m` places is a ready task that no ready task among
      them beats, and that beats every ready task in front of it. */
  lemma {:induction false} BestIsFirstMax(tasks: seq<Task>, from: nat, m: nat) returns (d: nat)
    requires from < |tasks| && m <= |tasks|
    ensures Best(tasks, from, m) < 0 ==> forall j :: 1 <= j <= m ==> !tasks[At(|tasks|, from, j)].state.Ready?
    ensures Best(tasks, from, m) >= 0 ==>
      && 1 <= d <= m && Best(tasks, from, m) == At(|tasks|, from, d)
      && tasks[At(|tasks|, from, d)].state.Ready?
      && (forall j :: 1 <= j <= m && tasks[At(|tasks|, from, j)].state.Ready? ==>
            Effective(tasks[At(|tasks|, from, j)]) <= Effective(tasks[At(|tasks|, from, d)]))
      && (forall j :: 1 <= j < d && tasks[At(|tasks|, from, j)].state.Ready? ==>
            Effective(tasks[At(|tasks|, from, j)]) < Effective(tasks[At(|tasks|, from, d)]))
  {
    d := 0;
    if m > 0 {
      d := BestIsFirstMax(tasks, from, m - 1);
      if Best(tasks, from, m) != Best(tasks, from, m - 1) { d := m; }
    }
  }

  /** Every task is some number of places after `from`. */
  function Distance(n: nat, from: nat, t: nat): (d: nat)
    requires from < n && t < n
    ensures 1 <= d <= n && At(n, from, d) == t
    ensures forall j :: 1 <= j <= n && At(n, from, j) == t ==> j == d
  {
    if t > from then t - from else t + n - from
  }

  /** With a ready task on offer, the pick is a ready task of highest effective priority. */
  lemma PickIsBest(tasks: seq<Task>, from: nat, w: nat)
    requires from < |tasks| && w < |tasks| && tasks[w].state.Ready?
    ensures var p := PickNext(tasks, from);
      tasks[p].state.Ready? && forall i :: 0 <= i < |tasks| && tasks[i].state.Ready? ==>
        Effective(tasks[i]) <= Effective(tasks[p])
  {
    var d := BestIsFirstMax(tasks, from, |tasks|);
    assert At(|tasks|, from, Distance(|tasks|, from, w)) == w;
    forall i | 0 <= i < |tasks| && tasks[i].state.Ready?
      ensures Effective(tasks[i]) <= Effective(tasks[PickNext(tasks, from)])
    {
      assert At(|tasks|, from, Distance(|tasks|, from, i)) == i;
    }
  }

  // ---- The scheduler's variables updated in place ----------------------

  class TaskTable {
    var tasks: array<Task>
    var current: nat
    var ticks: u32

    ghost predicate Valid()
      reads this
    {
      0 < tasks.Length <= MAX_TASKS && current < tasks.Length
    }

    ghost function View(): (s: Sched)
      reads this, tasks
    {
      Sched(tasks[..], current, ticks)
    }

    method WakeDue()
      requires Valid()
      modifies tasks
      ensures View() == WakeSleepers(old(View()))
    {
      for i := 0 to tasks.Length
        invariant forall k :: 0 <= k < tasks.Length ==>
          tasks[k] == if k < i then Wake(old(tasks[k]), ticks) else old(tasks[k])
      {
        var t := tasks[i];
        if (t.state.Sleeping? || t.state.Blocked?) && t.wakeTick != 0 && t.wakeTick <= ticks {
          tasks[i] := t.(state := Ready, wakeTick := 0, wakeBoost := WAKE_BOOST_MAX);
        }
      }
      assert tasks[..] == WakeSleepers(old(View())).tasks;
    }

    method Pick(from: nat) returns (r: nat)
      requires Valid() && from < tasks.Length
      ensures r == PickNext(tasks[..], from)
    {
      var best, bestPrio := -1, 0;
      for step := 1 to tasks.Length + 1
        invariant best == Best(tasks[..], from, step - 1)
        invariant best >= 0 ==> bestPrio == Effective(tasks[best])
      {
        Ring.WrapIsMod(from + step, tasks.Length);
        var idx := (from + step) % tasks.Length;
        assert idx == At(tasks.Length, from, step);
        if tasks[idx].state.Ready? {
          var prio := Effective(tasks[idx]);
          if best < 0 || prio > bestPrio {
            best, bestPrio := idx, prio;
          }
        }
      }
      if best >= 0 { return best; }
      if tasks[from].state.Running? || tasks[from].state.Ready? { return from; }
      for i := 0 to tasks.Length
        invariant FirstAlive(tasks[..], i) < 0
      {
        var st := tasks[i].state;
        if !st.Blocked? && !st.Sleeping? && !st.Terminated? {
          AliveStays(tasks[..], i, tasks.Length);
          return i;
        }
      }
      r := from;
    }

    static lemma {:induction false} AliveStays(tasks: seq<Task>, i: nat, n: nat)
      requires i < n <= |tasks| && FirstAlive(tasks, i + 1) == i
      ensures FirstAlive(tasks, n) == i
    {
      if i + 1 < n { AliveStays(tasks, i, n - 1); }
    }

    method SelectAndSwitch(force: bool)
      requires Valid()
      modifies this`current, tasks
      ensures Valid() && View() == Select(old(View()), force)
    {
      var t := tasks[current];
      if force && t.state.Running? {
        tasks[current] := t.(state := Ready, waitTicks := 0);
      }
      assert tasks[..] == (if force && t.state.Running?
        then old(tasks[..])[current := t.(state := Ready, waitTicks := 0)] else old(tasks[..]));
      WakeDue();
      assert View() == Offered(old(View()), force);
      var next := Pick(current);
      ghost var offered := tasks[..];
      var n := tasks[next];
      tasks[next] := n.(state := Running, timeSlice := SliceFor(n.priority), waitTicks := 0, wakeBoost := 0);
      assert tasks[..] == offered[next := Dispatch(offered[next])];
      current := next;
    }

    method AgeWaiting()
      requires Valid()
      modifies tasks
      ensures View() == AgeAll(old(View()))
    {
      for i := 0 to tasks.Length
        invariant forall k :: 0 <= k < tasks.Length ==>
          tasks[k] == if k < i then Age(old(View()), k) else old(tasks[k])
      {
        if i != current && tasks[i].state.Ready? {
          if tasks[i].waitTicks < 0xFFFF_FFFF {
            tasks[i] := tasks[i].(waitTicks := tasks[i].waitTicks + 1);
          }
        }
      }
      assert tasks[..] == AgeAll(old(View())).tasks;
    }

    method HigherWaits() returns (found: bool)
      requires Valid()
      ensures found == Inverted(View())
    {
      var mine := Effective(tasks[current]);
      for i := 0 to tasks.Length
        invariant forall k :: 0 <= k < i && k != current && tasks[k].state.Ready? ==> Effective(tasks[k]) <= mine
      {
        if i != current && tasks[i].state.Ready? && Effective(tasks[i]) > mine {
          assert View().tasks[i].state.Ready?;
          return true;
        }
      }
      found := false;
    }

    method Tick()
      requires Valid()
      modifies this`ticks, tasks
      ensures Valid() && View() == TimerTick(old(View()))
    {
      ticks := (ticks + 1) % TWO32;
      WakeDue();
      AgeWaiting();
      ghost var s := View();
      var t := tasks[current];
      if t.state.Running? {
        var left := if t.timeSlice > 0 then t.timeSlice - 1 else 0;
        var inverted := HigherWaits();
        if left == 0 {
          left := SliceFor(t.priority);
        } else if inverted && left > 1 {
          left := 1;
        }
        tasks[current] := t.(timeSlice := left);
        assert tasks[..] == s.tasks[current := t.(timeSlice := left)];
      }
    }
  }
}
