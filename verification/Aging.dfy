/** Waiting and sleeping: what every tick and every switch does to a task, and what that
    comes to over runs. */
module Aging {
  import opened Bytes
  import opened Scheduler
  import opened Ipc
  import opened IpcSafety
  import opened DispatchBound

  const MAX_WAIT: u32 := TWO32 - 1

  /** A task whose time to wake has come. */
  predicate Due(t: Task, ticks: u32) { (t.state.Sleeping? || t.state.Blocked?) && 0 < t.wakeTick <= ticks }

  /** One tick: due tasks become READY with the full boost; of the tasks then READY and not
      current each has waited one tick more, and nothing else about them changes. */
  lemma TickLaw(s: Sched, i: nat)
    requires Wf(s) && i < |s.tasks|
    ensures var s' := TimerTick(s);
      var t, t' := s.tasks[i], s'.tasks[i];
      && s'.ticks == (if s.ticks == MAX_WAIT then 0 else s.ticks + 1) && s'.current == s.current
      && t'.priority == t.priority
      && (if Due(t, s'.ticks) then t'.state.Ready? && t'.wakeTick == 0 && t'.wakeBoost == 2
          else t'.state == t.state && t'.wakeTick == t.wakeTick && t'.wakeBoost == t.wakeBoost)
      && (t'.state.Ready? && i != s.current && t.waitTicks < MAX_WAIT ==> t'.waitTicks == t.waitTicks + 1)
      && (!t'.state.Ready? || i == s.current || t.waitTicks == MAX_WAIT ==> t'.waitTicks == t.waitTicks)
      && (i != s.current || !t.state.Running? ==> t'.timeSlice == t.timeSlice)
  {
  }

  /** Some READY task beats the current one. */
  predicate Beaten(s: Sched)
    requires Wf(s)
  {
    exists i :: 0 <= i < |s.tasks| && s.tasks[i].state.Ready? && Effective(s.tasks[i]) > Effective(s.tasks[s.current])
  }

  /** The running task's slice goes down by one, or at once to one if a READY task beats it,
      and is refilled when it ends: it is never 0 after a tick. */
  lemma SliceLaw(s: Sched)
    requires Wf(s) && s.tasks[s.current].state.Running?
    ensures var t, t' := s.tasks[s.current], TimerTick(s).tasks[s.current];
      && (t.timeSlice <= 1 ==> 3 <= t'.timeSlice <= 8)
      && (t.timeSlice > 1 ==> t'.timeSlice == if Beaten(TimerTick(s)) then 1 else t.timeSlice - 1)
  {
    var s' := TimerTick(s);
    var m := AgeAll(WakeSleepers(s.(ticks := (s.ticks + 1) % TWO32)));
    assert forall i :: 0 <= i < |s.tasks| && i != s.current ==> s'.tasks[i] == m.tasks[i];
    assert Effective(s'.tasks[s.current]) == Effective(m.tasks[s.current]);
    if i :| 0 <= i < |s.tasks| && i != s.current && m.tasks[i].state.Ready?
            && Effective(m.tasks[i]) > Effective(m.tasks[s.current]) {
      assert s'.tasks[i].state.Ready?;
    }
  }

  /** Slices by priority: the lowest gets three ticks, and from 3 up eight. */
  lemma SlicesGrow(p: u32, q: u32)
    requires p <= q
    ensures SliceFor(0) == 3 && SliceFor(1) == 6 && SliceFor(2) == 7 && SliceFor(3) == 8
    ensures SliceFor(p) <= SliceFor(q)
  {
  }

  /** The effective priority counts one for each level up to 7, each 16 ticks of waiting up
      to 48, and each boost up to 2. */
  lemma EffectiveSteps(t: Task)
    ensures t.priority == 0 && t.waitTicks < 16 && t.wakeBoost == 0 ==> Effective(t) == 0
    ensures 0 < t.priority ==>
      Effective(t) == Effective(t.(priority := t.priority - 1)) + if t.priority <= 7 then 1 else 0
    ensures 16 <= t.waitTicks ==>
      Effective(t) == Effective(t.(waitTicks := t.waitTicks - 16)) + if t.waitTicks < 64 then 1 else 0
    ensures 0 < t.wakeBoost ==>
      Effective(t) == Effective(t.(wakeBoost := t.wakeBoost - 1)) + if t.wakeBoost <= 2 then 1 else 0
  {
  }

  /** One switch: the task picked runs with nothing left of its wait and boost; a current
      task that yields is READY, unless picked again; due tasks wake; all else stays. */
  lemma SwitchLaw(s: Sched, force: bool, i: nat)
    requires Wf(s) && i < |s.tasks|
    ensures var s' := Select(s, force);
      var t, t' := s.tasks[i], s'.tasks[i];
      && s'.ticks == s.ticks && t'.priority == t.priority
      && (i == s'.current ==>
           t'.state.Running? && t'.waitTicks == 0 && t'.wakeBoost == 0 && t'.timeSlice == SliceFor(t.priority))
      && (i != s'.current && Due(t, s.ticks) ==> t' == t.(state := Ready, wakeTick := 0, wakeBoost := 2))
      && (i != s'.current && !Due(t, s.ticks) && i == s.current && force && t.state.Running? ==>
           t' == t.(state := Ready, waitTicks := 0))
      && (i != s'.current && !Due(t, s.ticks) && (i != s.current || !force || !t.state.Running?) ==> t' == t)
  {
  }

  // ---- Runs -------------------------------------------------------------

  /** How often the timer ticks in the run. */
  function TicksIn(run: seq<Event>): nat
  {
    if run == [] then 0 else TicksIn(run[..|run| - 1]) + if run[|run| - 1].Tick? then 1 else 0
  }

  /** Up to the switch, an event leaves every task alone that is neither current nor blocked,
      but for the tick. */
  lemma ActSpares(k: Kernel, t: nat, ev: Event)
    requires Shape(k) && t < |k.pending| && t != k.sched.current && !k.sched.tasks[t].state.Blocked?
    ensures var (k', e) := Act(k, ev);
      && |k'.pending| == |k.pending| && k'.sched.current == k.sched.current
      && (ev.Tick? ==> k'.sched == TimerTick(k.sched) && e.Stay?)
      && (!ev.Tick? ==> k'.sched.tasks[t] == k.sched.tasks[t] && k'.sched.ticks == k.sched.ticks)
  {
    forall q: seq<int> ensures WakeOne(q, k.sched.tasks).1[t] == k.sched.tasks[t] {
      WakeSparesOthers(q, k.sched.tasks, t);
    }
  }

  /** What one event does to a task that neither has nor gets the processor, if it is not
      blocked: the tick counts, and at a switch it wakes if due. */
  lemma BystanderStep(k: Kernel, t: nat, ev: Event)
    requires Shape(k) && t < |k.pending| && t != k.sched.current && Step(k, ev).sched.current != t
    requires !k.sched.tasks[t].state.Blocked?
    ensures var k' := Step(k, ev);
      && |k'.pending| == |k.pending|
      && k'.sched.tasks[t] ==
           (if ev.Tick? then TimerTick(k.sched).tasks[t]
            else if Due(k.sched.tasks[t], k.sched.ticks) && !Act(k, ev).1.Stay?
            then k.sched.tasks[t].(state := Ready, wakeTick := 0, wakeBoost := 2) else k.sched.tasks[t])
      && k'.sched.ticks == if ev.Tick? then (k.sched.ticks + 1) % TWO32 else k.sched.ticks
  {
    ActSpares(k, t, ev);
    var (k1, e) := Act(k, ev);
    if !e.Stay? { SwitchLaw(k1.sched, e.Yielding?, t); }
  }

  /** The task is READY behind another one, and has waited `n` ticks, as far as they are counted. */
  predicate Waited(k: Kernel, tasks: nat, t: nat, n: nat)
  {
    && Shape(k) && |k.pending| == tasks && t < tasks && t != k.sched.current
    && k.sched.tasks[t].state.Ready? && k.sched.tasks[t].waitTicks == Min(n, MAX_WAIT)
  }

  lemma WaitStep(k: Kernel, t: nat, ev: Event)
    requires Shape(k) && t < |k.pending| && t != k.sched.current && Step(k, ev).sched.current != t
    requires k.sched.tasks[t].state.Ready?
    ensures Waited(Step(k, ev), |k.pending|, t, k.sched.tasks[t].waitTicks + if ev.Tick? then 1 else 0)
  {
    BystanderStep(k, t, ev);
    TickLaw(k.sched, t);
  }

  /** While it does not get the processor, a READY task stays READY and its wait counts
      every tick. */
  lemma {:induction false} WaitCounts(k: Kernel, t: nat, run: seq<Event>)
    requires Shape(k) && t < |k.pending| && t != k.sched.current && k.sched.tasks[t].state.Ready?
    requires NeverRuns(k, t, run)
    ensures Waited(Run(k, run), |k.pending|, t, k.sched.tasks[t].waitTicks + TicksIn(run))
  {
    if run != [] {
      var before, ev := run[..|run| - 1], run[|run| - 1];
      WaitCounts(k, t, before);
      WaitStep(Run(k, before), t, ev);
    }
  }

  /** So after 48 ticks it is aged, and from there at most the number of tasks less two
      switches pass it over, whatever it had waited before. */
  lemma BoundedFromReady(k: Kernel, t: nat, wait: seq<Event>, run: seq<Event>)
    requires Shape(k) && t < |k.pending| && t != k.sched.current && k.sched.tasks[t].state.Ready?
    requires NeverRuns(k, t, wait) && TicksIn(wait) >= 48
    requires CalmRun(Run(k, wait), t, run) && NeverRuns(Run(k, wait), t, run)
    ensures Aged(Run(k, wait).sched, t) && Switches(Run(k, wait), run) <= |k.sched.tasks| - 2
  {
    WaitCounts(k, t, wait);
    assert |Run(k, wait).sched.tasks| == |k.sched.tasks|;
    BoundedDispatch(Run(k, wait), t, run);
  }

  /** While it does not get the processor, a sleeper sleeps on as long as its time has not
      come, and is READY afterwards. */
  lemma {:induction false} SleepsUntil(k: Kernel, t: nat, run: seq<Event>)
    requires Shape(k) && t < |k.pending| && t != k.sched.current && k.sched.tasks[t].state.Sleeping?
    requires k.sched.ticks < k.sched.tasks[t].wakeTick && k.sched.ticks + TicksIn(run) < TWO32
    requires NeverRuns(k, t, run)
    ensures var k' := Run(k, run);
      && |k'.pending| == |k.pending| && k'.sched.current != t && k'.sched.ticks == k.sched.ticks + TicksIn(run)
      && if k'.sched.ticks < k.sched.tasks[t].wakeTick
         then k'.sched.tasks[t].state.Sleeping? && k'.sched.tasks[t].wakeTick == k.sched.tasks[t].wakeTick
         else k'.sched.tasks[t].state.Ready?
  {
    if run != [] {
      var before, ev := run[..|run| - 1], run[|run| - 1];
      SleepsUntil(k, t, before);
      BystanderStep(Run(k, before), t, ev);
      TickLaw(Run(k, before).sched, t);
    }
  }

  // ---- Sleeping ---------------------------------------------------------

  /** The scheduler after `m` ticks without a switch. */
  function After(s: Sched, m: nat): (r: Sched)
    requires Wf(s)
    ensures Wf(r) && |r.tasks| == |s.tasks|
  {
    if m == 0 then s else TimerTick(After(s, m - 1))
  }

  lemma {:induction false} SleepsThrough(s: Sched, t: nat, m: nat)
    requires Wf(s) && t < |s.tasks| && s.tasks[t].state.Sleeping?
    requires s.tasks[t].wakeTick == 0 || s.ticks + m < s.tasks[t].wakeTick
    ensures Asleep(After(s, m), t, s.tasks[t].wakeTick, s.ticks + m)
  {
    if m > 0 {
      SleepsThrough(s, t, m - 1);
      TickLaw(After(s, m - 1), t);
    }
  }

  /** The task sleeps until `wake`; if that is ever to come, it is `now`. */
  predicate Asleep(s: Sched, t: nat, wake: u32, now: nat)
  {
    t < |s.tasks| && s.tasks[t].state.Sleeping? && s.tasks[t].wakeTick == wake && (wake != 0 ==> s.ticks == now)
  }

  /** The current task asks to sleep `n` ticks while another one is READY. */
  predicate MaySleep(k: Kernel, n: u32, w: nat)
  {
    && Shape(k) && n > 0 && w < |k.sched.tasks| && w != k.sched.current && k.sched.tasks[w].state.Ready?
  }

  /** What sleeping makes of the task at once: it sleeps until the wrapped sum of now and `n`,
      unless that has passed already. */
  lemma GoesToSleep(k: Kernel, n: u32, w: nat)
    requires MaySleep(k, n, w)
    ensures var k', me, due := Step(k, Sleep(n)), k.sched.current, (k.sched.ticks + n) % TWO32;
      && |k'.sched.tasks| == |k.sched.tasks| && k'.sched.ticks == k.sched.ticks
      && if 0 < due <= k.sched.ticks then !k'.sched.tasks[me].state.Sleeping?
         else k'.sched.tasks[me].state.Sleeping? && k'.sched.tasks[me].wakeTick == due
  {
    var asleep := Act(k, Sleep(n)).0.sched;
    SwitchLaw(asleep, false, k.sched.current);
    PickIsBest(Offered(asleep, false).tasks, asleep.current, w);
  }

  lemma SleepEnds(s: Sched, t: nat, n: nat, m: nat)
    requires Wf(s) && t < |s.tasks| && s.tasks[t].state.Sleeping?
    requires 0 < n && s.tasks[t].wakeTick == s.ticks + n && m <= n
    ensures After(s, m).tasks[t].state.Sleeping? <==> m < n
  {
    if m < n {
      SleepsThrough(s, t, m);
    } else {
      SleepsThrough(s, t, m - 1);
      TickLaw(After(s, m - 1), t);
    }
  }

  lemma SleepsInTime(k: Kernel, n: u32, w: nat, m: nat)
    requires MaySleep(k, n, w) && k.sched.ticks + n < TWO32 && m <= n
    ensures SleepsAfter(k, n, m) <==> m < n
  {
    GoesToSleep(k, n, w);
    SleepEnds(Step(k, Sleep(n)).sched, k.sched.current, n, m);
  }

  /** At the wrap the task never wakes, and beyond it it does not sleep at all. */
  lemma SleepsPastWrap(k: Kernel, n: u32, w: nat, m: nat)
    requires MaySleep(k, n, w) && k.sched.ticks + n >= TWO32
    ensures if k.sched.ticks + n == TWO32 then SleepsAfter(k, n, m) else !SleepsAfter(k, n, 0)
  {
    GoesToSleep(k, n, w);
    if k.sched.ticks + n == TWO32 { SleepsThrough(Step(k, Sleep(n)).sched, k.sched.current, m); }
  }

  /** task_sleep sleeps exactly as many ticks as asked if and only if the tick counter does not
      wrap meanwhile. */
  lemma SleepExactIff(k: Kernel, n: u32, w: nat)
    requires MaySleep(k, n, w)
    ensures (forall m: nat :: m <= n ==> (SleepsAfter(k, n, m) <==> m < n)) <==> k.sched.ticks + n < TWO32
  {
    if k.sched.ticks + n < TWO32 {
      forall m: nat | m <= n ensures SleepsAfter(k, n, m) <==> m < n { SleepsInTime(k, n, w, m); }
    } else {
      SleepsPastWrap(k, n, w, n);
    }
  }

  predicate SleepsAfter(k: Kernel, n: u32, m: nat)
    requires Shape(k)
  {
    After(Step(k, Sleep(n)).sched, m).tasks[k.sched.current].state.Sleeping?
  }

  /** One tick before the wrap, sleeping one tick never ends. */
  lemma NeverWakes(k: Kernel, w: nat, m: nat)
    requires MaySleep(k, 1, w) && k.sched.ticks == MAX_WAIT
    ensures SleepsAfter(k, 1, m)
  {
    SleepsPastWrap(k, 1, w, m);
  }

  // ---- Exiting ----------------------------------------------------------

  /** With a READY task on offer no terminated one is picked. */
  lemma DeadNotPicked(s: Sched, force: bool, t: nat, w: nat)
    requires Wf(s) && t < |s.tasks| && w < |s.tasks| && s.tasks[t].state.Terminated?
    requires Offered(s, force).tasks[w].state.Ready?
    ensures Select(s, force).current != t
  {
    PickIsBest(Offered(s, force).tasks, s.current, w);
  }

  /** The loop task is on offer whenever the scheduler is called. */
  lemma LoopOffered(k: Kernel, loop: nat, ev: Event)
    requires Inv(k, loop) && Enabled(k, loop, ev) && !Act(k, ev).1.Stay?
    ensures var (k1, e) := Act(k, ev);
      |k1.pending| == |k.pending| && Offered(k1.sched, e.Yielding?).tasks[loop].state.Ready?
  {
    assert TaskOk(k, loop, loop);
    if loop != k.sched.current { ActSpares(k, loop, ev); }
  }

  lemma DeadStep(k: Kernel, loop: nat, t: nat, ev: Event)
    requires Inv(k, loop) && Enabled(k, loop, ev) && t < |k.pending| && t != k.sched.current
    requires k.sched.tasks[t].state.Terminated?
    ensures var k' := Step(k, ev); |k'.pending| == |k.pending| && k'.sched.current != t
    ensures Step(k, ev).sched.tasks[t].state.Terminated?
  {
    ActSpares(k, t, ev);
    var (k1, e) := Act(k, ev);
    if !e.Stay? {
      LoopOffered(k, loop, ev);
      DeadNotPicked(k1.sched, e.Yielding?, t, loop);
    }
    BystanderStep(k, t, ev);
    TickLaw(k.sched, t);
  }

  /** A task that exits hands over the processor, */
  lemma ExitTerminates(k: Kernel, loop: nat)
    requires Inv(k, loop) && Enabled(k, loop, Exit)
    ensures var k', me := Step(k, Exit), k.sched.current;
      |k'.pending| == |k.pending| && k'.sched.current != me && k'.sched.tasks[me].state.Terminated?
  {
    LoopOffered(k, loop, Exit);
    var s := Act(k, Exit).0.sched;
    DeadNotPicked(s, false, s.current, loop);
    SwitchLaw(s, false, s.current);
  }

  /** and never gets it again, in no run. */
  lemma {:induction false} ExitIsFinal(k: Kernel, loop: nat, t: nat, run: seq<Event>)
    requires Inv(k, loop) && Admissible(k, loop, run) && t < |k.pending| && t != k.sched.current
    requires k.sched.tasks[t].state.Terminated?
    ensures var k' := Run(k, run);
      |k'.pending| == |k.pending| && k'.sched.current != t && k'.sched.tasks[t].state.Terminated?
  {
    if run != [] {
      var before := run[..|run| - 1];
      ExitIsFinal(k, loop, t, before);
      RunKeeps(k, loop, before);
      DeadStep(Run(k, before), loop, t, run[|run| - 1]);
    }
  }

  // ---- Yielding ---------------------------------------------------------

  /** Yielding, or sleeping for no ticks, hands the processor over whenever a READY task is at
      least as urgent as the yielding one, whose wait starts anew. */
  lemma YieldHandsOver(k: Kernel, w: nat)
    requires Shape(k) && w < |k.sched.tasks| && w != k.sched.current && k.sched.tasks[w].state.Ready?
    requires var me := k.sched.tasks[k.sched.current];
      me.state.Running? && Effective(k.sched.tasks[w]) >= Effective(me.(waitTicks := 0))
    ensures var k' := Step(k, Yield);
      && Step(k, Sleep(0)) == k'
      && k'.sched.current != k.sched.current && k'.sched.tasks[k'.sched.current].state.Running?
      && k'.sched.tasks[k.sched.current].state.Ready?
  {
    var s := k.sched;
    var o, n := Offered(s, true), |s.tasks|;
    var d := BestIsFirstMax(o.tasks, s.current, n);
    var dw := Distance(n, s.current, w);
    assert At(n, s.current, n) == s.current && At(n, s.current, dw) == w && dw < n;
    assert o.tasks[w].state.Ready? && Best(o.tasks, s.current, n) >= 0;
    SwitchLaw(s, true, s.current);
    SwitchLaw(s, true, Select(s, true).current);
  }
}
