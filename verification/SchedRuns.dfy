/** Whole runs of the scheduler: safety of every run, and fairness of runs driven by the timer alone. */
module SchedRuns {
  import opened SchedSpec
  import opened SchedInv

  /** What the callers of each step owe. */
  ghost predicate Allowed(s: Sched, step: Step)
    requires WellFormed(s)
  {
    match step
    case Start(t, _) => t !in s.tasks
    case Tick => true
    case Block(stat) => stat in {BLOCKED, WAITING, HANGING} && (s.current == s.idle ==> stat == BLOCKED)
    case Wake(t) => t in s.tasks && Asleep(s.tasks[t])
    case Yield => true
  }

  /** A step after which the queue is still in order. */
  ghost predicate Enabled(s: Sched, step: Step)
    requires WellFormed(s)
  {
    Allowed(s, step) && (step.Yield? ==> YieldSafe(s))
  }

  lemma {:induction false} StartOk(s: Sched, t: Tid, nice: int)
    requires Inv(s) && t !in s.tasks
    ensures Inv(StartStep(s, t, nice)) && StartStep(s, t, nice).minV == s.minV
  {
    var task := Task(BLOCKED, 0, NiceToWeight(nice), 0, 0, 0);
    AddedOk(s, t, task);
    EnqueueOk(Added(s, t, task), t);
    AddedReady(s, t, task);
  }

  /** A thread more. */
  function Added(s: Sched, t: Tid, task: Task): Sched { s.(tasks := s.tasks[t := task]) }

  lemma {:induction false} AddedOk(s: Sched, t: Tid, task: Task)
    requires Inv(s) && t !in s.tasks && task == Task(BLOCKED, 0, task.weight, 0, 0, 0) && TaskOk(task)
    ensures Inv(Added(s, t, task))
  {
    assert t !in s.queue;
    SortedElsewhere(s.queue, s.tasks, t, task);
    assert QueueOk(Added(s, t, task));
  }

  lemma {:induction false} AddedReady(s: Sched, t: Tid, task: Task)
    requires t !in s.tasks
    ensures SetStatus(Added(s, t, task), t, READY) == Added(s, t, task.(status := READY))
  {
    assert s.tasks[t := task][t := task.(status := READY)] == s.tasks[t := task.(status := READY)];
  }

  /** The state after the tick has been counted. */
  function Ticked(s: Sched): Sched
    requires WellFormed(s)
  {
    var t := s.tasks[s.current];
    s.(tasks := s.tasks[s.current := t.(elapsed := t.elapsed + 1)])
  }

  lemma {:induction false} TickedOk(s: Sched)
    requires Inv(s)
    ensures Inv(Ticked(s)) && Schedulable(Ticked(s))
    ensures Delta(Ticked(s).tasks[s.current]) == Delta(s.tasks[s.current]) + 1
    ensures TickStep(s) == if Delta(s.tasks[s.current]) + 1 >= SCHED_LATENCY_TICKS then Schedule(Ticked(s))
      else Ok(Ticked(s))
  {
    assert s.current !in s.queue;
    SortedElsewhere(s.queue, s.tasks, s.current, Ticked(s).tasks[s.current]);
  }

  lemma {:induction false} TickOk(s: Sched)
    requires Inv(s)
    ensures TickStep(s).Ok? && Inv(TickStep(s).s) && s.minV <= TickStep(s).s.minV
  {
    TickedOk(s);
    if Delta(s.tasks[s.current]) + 1 >= SCHED_LATENCY_TICKS {
      ScheduleOk(Ticked(s));
    }
  }

  /** A current thread that has just put itself to sleep may call `schedule`. */
  lemma {:induction false} Blocked(s: Sched, stat: Status)
    requires Inv(s) && stat in {BLOCKED, WAITING, HANGING} && (s.current == s.idle ==> stat == BLOCKED)
    ensures Schedulable(SetStatus(s, s.current, stat))
  {
    var s1 := SetStatus(s, s.current, stat);
    assert s.current !in s.queue;
    SortedElsewhere(s.queue, s.tasks, s.current, s1.tasks[s.current]);
    assert QueueOk(s1);
  }

  lemma {:induction false} BlockOk(s: Sched, stat: Status)
    requires Inv(s) && stat in {BLOCKED, WAITING, HANGING} && (s.current == s.idle ==> stat == BLOCKED)
    ensures BlockStep(s, stat).Ok? && Inv(BlockStep(s, stat).s) && s.minV <= BlockStep(s, stat).s.minV
  {
    Blocked(s, stat);
    ScheduleOk(SetStatus(s, s.current, stat));
  }

  lemma {:induction false} WakeOk(s: Sched, t: Tid)
    requires Inv(s) && t in s.tasks && Asleep(s.tasks[t])
    ensures Unblock(s, t).Ok? && Inv(Unblock(s, t).s) && Unblock(s, t).s.minV == s.minV
  {
    EnqueueOk(s, t);
  }

  lemma {:induction false} YieldMin(s: Sched)
    requires Inv(s)
    ensures YieldStep(s).Ok? && s.minV <= YieldStep(s).s.minV
  {
    YieldEq(s);
  }

  /** Every step a caller may make succeeds, keeps the invariant and never lowers `minV`. */
  lemma {:induction false} StepOk(s: Sched, step: Step)
    requires Inv(s) && Enabled(s, step)
    ensures Apply(s, step).Ok? && Inv(Apply(s, step).s) && s.minV <= Apply(s, step).s.minV
  {
    match step
    case Start(t, nice) => StartOk(s, t, nice);
    case Tick => TickOk(s);
    case Block(stat) => BlockOk(s, stat);
    case Wake(t) => WakeOk(s, t);
    case Yield => YieldExact(s); YieldMin(s);
  }

  /** The ticks the current thread has run since it was last accounted for. */
  function Unaccounted(s: Sched): nat
    requires WellFormed(s)
  {
    Delta(s.tasks[s.current])
  }

  lemma {:induction false} ScheduleFresh(s: Sched)
    requires WellFormed(s) && Schedule(s).Ok? && WellFormed(Schedule(s).s)
    ensures Unaccounted(Schedule(s).s) == 0
  {
  }

  /** No step leaves the current thread with three unaccounted ticks. */
  lemma {:induction false} StepFresh(s: Sched, step: Step)
    requires Inv(s) && Enabled(s, step) && Unaccounted(s) <= 2
    ensures Apply(s, step).Ok? && Inv(Apply(s, step).s) && Unaccounted(Apply(s, step).s) <= 2
  {
    StepOk(s, step);
    match step
    case Start(t, nice) =>
    case Wake(t) =>
    case Tick =>
      TickedOk(s);
      if Unaccounted(s) == 2 { ScheduleFresh(Ticked(s)); }
    case Block(stat) => ScheduleFresh(SetStatus(s, s.current, stat));
    case Yield => ScheduleFresh(Enqueue(SetStatus(s, s.current, READY), s.current));
  }

  // ---------- runs ----------

  function Run(s: Sched, steps: seq<Step>): Outcome
    requires WellFormed(s)
    decreases |steps|
  {
    if steps == [] then Ok(s)
    else
      match Apply(s, steps[0])
      case Panic => Panic
      case Ok(s') => if Formed(s') then Run(s', steps[1..]) else Panic
  }

  /** `WellFormed`, in a form that can be computed. */
  predicate Formed(s: Sched)
    ensures Formed(s) <==> WellFormed(s)
  {
    s.current in s.tasks && s.idle in s.tasks && forall i :: 0 <= i < |s.queue| ==> s.queue[i] in s.tasks
  }

  /** Every step of the run is one its caller may make. */
  ghost predicate Legal(s: Sched, steps: seq<Step>)
    requires WellFormed(s)
    decreases |steps|
  {
    steps == [] ||
    (Enabled(s, steps[0])
      && (Apply(s, steps[0]).Ok? && WellFormed(Apply(s, steps[0]).s) ==> Legal(Apply(s, steps[0]).s, steps[1..])))
  }

  /** The state `thread_init` leaves: main runs and idle is queued. */
  function Boot(main: Tid, idle: Tid): Sched
    requires main != idle
  {
    Sched(map[main := Task(RUNNING, 0, NiceToWeight(-20), 0, 0, 0), idle := Task(READY, 0, NiceToWeight(-10), 0, 0, 0)],
          [idle], 0, main, idle)
  }

  lemma {:induction false} BootOk(main: Tid, idle: Tid)
    requires main != idle
    ensures Inv(Boot(main, idle)) && Boot(main, idle).queue == [idle] && Boot(main, idle).current == main
    ensures Boot(main, idle).tasks[main].weight == 88761 && Boot(main, idle).tasks[idle].weight == 9548
  {
    assert Boot(main, idle).queue[0] == idle;
  }

  /** Safety over whole runs: no ASSERT fails, and the invariant holds at the end. */
  lemma {:induction false} RunOk(s: Sched, steps: seq<Step>)
    requires Inv(s) && Legal(s, steps)
    ensures Run(s, steps).Ok? && Inv(Run(s, steps).s) && s.minV <= Run(s, steps).s.minV
    ensures Unaccounted(s) <= 2 ==> Unaccounted(Run(s, steps).s) <= 2
    decreases |steps|
  {
    if steps != [] {
      StepOk(s, steps[0]);
      if Unaccounted(s) <= 2 { StepFresh(s, steps[0]); }
      RunOk(Apply(s, steps[0]).s, steps[1..]);
    }
  }

  /** Safety of every run from boot. */
  lemma {:induction false} EveryRunIsSafe(main: Tid, idle: Tid, steps: seq<Step>)
    requires main != idle && Legal(Boot(main, idle), steps)
    ensures Run(Boot(main, idle), steps).Ok? && Inv(Run(Boot(main, idle), steps).s)
    ensures Unaccounted(Run(Boot(main, idle), steps).s) <= 2
  {
    BootOk(main, idle);
    RunOk(Boot(main, idle), steps);
  }
}
