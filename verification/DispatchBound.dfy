/** Aging gives bounded dispatch: a long-waiting task gets its turn. */
module DispatchBound {
  import opened Scheduler
  import opened Ipc
  import opened IpcSafety

  /** Ready, and waiting long enough for the full boost. */
  predicate Aged(s: Sched, t: nat)
  {
    t < |s.tasks| && s.tasks[t].state.Ready? && s.tasks[t].waitTicks >= 48
  }

  /** No other task has a higher base priority or a wake boost. */
  predicate Calm(s: Sched, t: nat)
    requires t < |s.tasks|
  {
    forall i :: 0 <= i < |s.tasks| && i != t ==>
      s.tasks[i].priority <= s.tasks[t].priority && s.tasks[i].wakeBoost == 0
  }

  lemma AgedIsBest(s: Sched, t: nat, i: nat)
    requires Aged(s, t) && Calm(s, t) && i < |s.tasks|
    ensures Effective(s.tasks[i]) <= Effective(s.tasks[t])
  {
  }

  /** A switch picks the aged task or one strictly between the current task and it. */
  lemma SwitchCloser(s: Sched, t: nat, force: bool)
    requires Wf(s) && Aged(s, t) && t != s.current
    requires Calm(Offered(s, force), t)
    ensures var s' := Select(s, force);
      s'.current == t || (s'.current != s.current && Aged(s', t)
        && Distance(|s.tasks|, s'.current, t) < Distance(|s.tasks|, s.current, t))
  {
    var o := Offered(s, force);
    var n := |s.tasks|;
    assert o.tasks[t] == s.tasks[t];
    var d := BestIsFirstMax(o.tasks, o.current, n);
    var dt := Distance(n, s.current, t);
    assert At(n, s.current, dt) == t && o.tasks[At(n, o.current, dt)].state.Ready?;
    assert Best(o.tasks, o.current, n) >= 0;
    if dt < d {
      AgedIsBest(o, t, At(n, s.current, d));
    }
    assert d <= dt;
    assert Select(s, force).current == At(n, s.current, d);
  }

  /** An event that does not reach the scheduler leaves an aged task aged and the current task current. */
  lemma AgedKept(k: Kernel, t: nat, ev: Event)
    requires Shape(k) && Aged(k.sched, t) && t != k.sched.current
    ensures var k' := Act(k, ev).0;
      Aged(k'.sched, t) && k'.sched.current == k.sched.current && |k'.pending| == |k.pending|
  {
    forall q: seq<int> ensures WakeOne(q, k.sched.tasks).1[t] == k.sched.tasks[t] {
      WakeSparesOthers(q, k.sched.tasks, t);
    }
  }

  /** Number of scheduler calls in a run. */
  function Switches(k: Kernel, run: seq<Event>): nat
    requires Shape(k)
  {
    if run == [] then 0
    else
      var before := run[..|run| - 1];
      Switches(k, before) + if Act(Run(k, before), run[|run| - 1]).1.Stay? then 0 else 1
  }

  /** Whenever the run calls the scheduler, the tasks on offer are calm with respect to `t`. */
  predicate CalmRun(k: Kernel, t: nat, run: seq<Event>)
    requires Shape(k)
  {
    run == [] ||
    var before := run[..|run| - 1];
    var (k1, e) := Act(Run(k, before), run[|run| - 1]);
    CalmRun(k, t, before) &&
    (e.Stay? || (t < |k1.sched.tasks| && Calm(Offered(k1.sched, e.Yielding?), t)))
  }

  /** `t` is never the current task after a non-empty prefix of the run. */
  predicate NeverRuns(k: Kernel, t: nat, run: seq<Event>)
    requires Shape(k)
  {
    run == [] || (NeverRuns(k, t, run[..|run| - 1]) && Run(k, run).sched.current != t)
  }

  /** Each switch away from the aged task brings the current task cyclically closer to it. */
  lemma {:induction false} DistanceShrinks(k: Kernel, t: nat, run: seq<Event>)
    requires Shape(k) && Aged(k.sched, t) && t != k.sched.current
    requires CalmRun(k, t, run) && NeverRuns(k, t, run)
    ensures var k' := Run(k, run);
      && |k'.pending| == |k.pending| && Aged(k'.sched, t) && k'.sched.current != t
      && Switches(k, run) + Distance(|k.pending|, k'.sched.current, t) <= Distance(|k.pending|, k.sched.current, t)
  {
    if run != [] {
      var before, ev := run[..|run| - 1], run[|run| - 1];
      DistanceShrinks(k, t, before);
      var m := Run(k, before);
      AgedKept(m, t, ev);
      var (k1, e) := Act(m, ev);
      if !e.Stay? { SwitchCloser(k1.sched, t, e.Yielding?); }
    }
  }

  /** Bounded dispatch: a run in which an aged task never gets the processor has at
      most `n - 2` scheduler calls, so the task runs within `n - 1` of them. */
  lemma BoundedDispatch(k: Kernel, t: nat, run: seq<Event>)
    requires Shape(k) && Aged(k.sched, t) && t != k.sched.current
    requires CalmRun(k, t, run) && NeverRuns(k, t, run)
    ensures Switches(k, run) <= |k.sched.tasks| - 2
  {
    DistanceShrinks(k, t, run);
    var n := |k.pending|;
    assert At(n, k.sched.current, n) == k.sched.current;
    assert Distance(n, k.sched.current, t) < n;
  }
}
