/**
 What holds in all runs of the scheduler, also after a yield that leaves the queue out of order, as one in
 `ticks_to_sleep` may (code/device/timer.c).
 */
module SchedAny {
  import opened Common
  import opened SchedSpec
  import opened SchedInv
  import opened SchedRuns

  /** The queue holds exactly the READY threads, each once. */
  ghost predicate QueueSound(s: Sched) {
    && WellFormed(s)
    && NoDup(s.queue)
    && (forall t <- s.tasks :: s.tasks[t].status == READY <==> t in s.queue)
    && TasksOk(s.tasks)
  }

  /** Between two steps: exactly `current` is RUNNING, and idle runs, waits in the queue or sleeps in `idle()`. */
  ghost predicate Sound(s: Sched) {
    && QueueSound(s)
    && (forall t <- s.tasks :: s.tasks[t].status == RUNNING <==> t == s.current)
    && s.tasks[s.idle].status in {RUNNING, READY, BLOCKED}
  }

  lemma {:induction false} InvSound(s: Sched)
    requires Inv(s)
    ensures Sound(s)
  {
  }

  /** Wherever a thread that becomes READY is put. */
  lemma {:induction false} EnqueueSound(s: Sched, t: Tid, at: Place)
    requires QueueSound(s) && t in s.tasks && s.tasks[t].status != READY
    ensures var s' := Enqueue(SetStatus(s, t, READY), t, at);
      && QueueSound(s') && s'.current == s.current && s'.idle == s.idle && s'.minV == s.minV && s'.queue != []
      && s'.tasks == s.tasks[t := s.tasks[t].(status := READY, vruntime := Max(s.tasks[t].vruntime, s.minV))]
  {
    var s1 := SetStatus(s, t, READY);
    var p := PlaceOf(s1, Max(s.tasks[t].vruntime, s.minV), at);
    InsertElems(s.queue, p, t);
    assert Enqueue(s1, t, at).queue == InsertAt(s.queue, p, t);
  }

  /** Accounting for a thread moves its own clock only. */
  lemma {:induction false} UpdateSound(s: Sched, t: Tid)
    requires QueueSound(s) && t in s.tasks
    ensures QueueSound(UpdateCurr(s, t))
    ensures forall u <- s.tasks :: UpdateCurr(s, t).tasks[u].status == s.tasks[u].status
  {
  }

  lemma {:induction false} SwitchSound(s: Sched)
    requires QueueSound(s) && s.queue != [] && (forall t <- s.tasks :: s.tasks[t].status != RUNNING)
    requires s.tasks[s.idle].status in {READY, BLOCKED}
    ensures Sound(SwitchTo(s, s.queue[0]))
  {
    var n := s.queue[0];
    WithoutHead(s.queue);
    assert n in s.queue;
    var s' := SwitchTo(s, n);
    assert s'.queue == s.queue[1..] && s'.tasks == s.tasks[n := s'.tasks[n]];
  }

  /** What `schedule` may be called on: the current thread runs, sleeps, or has queued itself. */
  ghost predicate MaySchedule(s: Sched) {
    && QueueSound(s)
    && (forall t <- s.tasks :: s.tasks[t].status == RUNNING ==> t == s.current)
    && (s.tasks[s.current].status in {RUNNING, READY} || Asleep(s.tasks[s.current]))
    && s.tasks[s.idle].status in {RUNNING, READY, BLOCKED}
  }

  /** Half-way through `schedule` nothing runs, and an empty queue means that idle sleeps. */
  lemma {:induction false} RequeueSound(s: Sched, at: Place)
    requires MaySchedule(s)
    ensures var s1 := Requeue(s, at);
      && QueueSound(s1) && s.minV <= s1.minV && (forall t <- s1.tasks :: s1.tasks[t].status != RUNNING)
      && s1.tasks[s1.idle].status in {READY, BLOCKED}
      && (s1.queue == [] ==> s1.tasks[s1.idle].status == BLOCKED && Asleep(s1.tasks[s1.current]))
      && (s1.queue == [] ==> Unaccounted(s1) == 0)
  {
    UpdateSound(s, s.current);
    var u := UpdateCurr(s, s.current);
    if u.tasks[s.current].status == RUNNING {
      EnqueueSound(u, s.current, at);
    }
  }

  /** The fallback for an idle thread that has just blocked. */
  lemma {:induction false} IdleSound(s: Sched)
    requires QueueSound(s) && s.queue == [] && (forall t <- s.tasks :: s.tasks[t].status != RUNNING)
    ensures s.current == s.idle ==> Sound(SetStatus(s, s.idle, RUNNING))
  {
  }

  /** `schedule` fails no assertion, does not fall through, and ends with one thread RUNNING. */
  lemma {:induction false} ScheduleSound(s: Sched, at: Place)
    requires MaySchedule(s)
    ensures Schedule(s, at).Ok? && Sound(Schedule(s, at).s) && s.minV <= Schedule(s, at).s.minV
    ensures Unaccounted(Schedule(s, at).s) == 0
  {
    RequeueSound(s, at);
    var s1 := Requeue(s, at);
    if s1.queue != [] {
      SwitchSound(s1);
    } else if s1.current == s1.idle {
      IdleSound(s1);
    } else {
      EnqueueSound(s1, s1.idle, InOrder);
      SwitchSound(Unblock(s1, s1.idle).s);
    }
  }

  // ---------- the steps ----------

  /** A thread more. */
  lemma {:induction false} StartSound(s: Sched, t: Tid, nice: int, at: Place)
    requires Sound(s) && t !in s.tasks
    ensures Sound(StartStep(s, t, nice, at))
  {
    var task := Task(BLOCKED, 0, NiceToWeight(nice), 0, 0, 0);
    assert t !in s.queue;
    EnqueueSound(Added(s, t, task), t, at);
    AddedReady(s, t, task);
  }

  lemma {:induction false} TickedSound(s: Sched)
    requires Sound(s)
    ensures Sound(Ticked(s)) && MaySchedule(Ticked(s))
    ensures Delta(Ticked(s).tasks[s.current]) == Delta(s.tasks[s.current]) + 1
  {
  }

  lemma {:induction false} BlockedSound(s: Sched, stat: Status)
    requires Sound(s) && Allowed(s, Block(stat))
    ensures MaySchedule(SetStatus(s, s.current, stat))
  {
  }

  /** The state in which `thread_yield` calls `schedule`. */
  lemma {:induction false} YieldingSound(s: Sched, at: Place)
    requires Sound(s)
    ensures MaySchedule(Enqueue(SetStatus(s, s.current, READY), s.current, at))
  {
    EnqueueSound(s, s.current, at);
  }

  lemma {:induction false} TickSound(s: Sched, at: Place)
    requires Sound(s) && Unaccounted(s) <= 2
    ensures TickStep(s, at).Ok? && Sound(TickStep(s, at).s) && s.minV <= TickStep(s, at).s.minV
    ensures Unaccounted(TickStep(s, at).s) <= 2
  {
    TickedSound(s);
    if Unaccounted(s) == 2 {
      assert TickStep(s, at) == Schedule(Ticked(s), at);
      ScheduleSound(Ticked(s), at);
    } else {
      assert TickStep(s, at) == Ok(Ticked(s));
    }
  }

  /**
   Every step of every caller succeeds and keeps the invariant, wherever the tree puts the thread; `minV` never falls,
   and the current thread never has three unaccounted ticks.
   */
  lemma {:induction false} StepSound(s: Sched, step: Step, at: Place)
    requires Sound(s) && Allowed(s, step) && Unaccounted(s) <= 2
    ensures Apply(s, step, at).Ok? && Sound(Apply(s, step, at).s) && s.minV <= Apply(s, step, at).s.minV
    ensures Unaccounted(Apply(s, step, at).s) <= 2
  {
    match step
    case Start(t, nice) => StartSound(s, t, nice, at);
    case Tick => TickSound(s, at);
    case Block(stat) =>
      BlockedSound(s, stat);
      ScheduleSound(SetStatus(s, s.current, stat), InOrder);
    case Wake(t) => EnqueueSound(s, t, at);
    case Yield =>
      YieldingSound(s, at);
      ScheduleSound(Enqueue(SetStatus(s, s.current, READY), s.current, at), InOrder);
  }

  // ---------- runs ----------

  /** A run in which every step comes with the place that the tree gives the thread it queues. */
  function RunAny(s: Sched, steps: seq<(Step, Place)>): Outcome
    requires WellFormed(s)
    decreases |steps|
  {
    if steps == [] then Ok(s)
    else
      match Apply(s, steps[0].0, steps[0].1)
      case Panic => Panic
      case Ok(s') => if Formed(s') then RunAny(s', steps[1..]) else Panic
  }

  ghost predicate AllAllowed(s: Sched, steps: seq<(Step, Place)>)
    requires WellFormed(s)
    decreases |steps|
  {
    steps == [] ||
    var r := Apply(s, steps[0].0, steps[0].1);
    Allowed(s, steps[0].0) && (r.Ok? && WellFormed(r.s) ==> AllAllowed(r.s, steps[1..]))
  }

  lemma {:induction false} RunSound(s: Sched, steps: seq<(Step, Place)>)
    requires Sound(s) && AllAllowed(s, steps) && Unaccounted(s) <= 2
    ensures RunAny(s, steps).Ok? && Sound(RunAny(s, steps).s) && s.minV <= RunAny(s, steps).s.minV
    ensures Unaccounted(RunAny(s, steps).s) <= 2
    decreases |steps|
  {
    if steps != [] {
      StepSound(s, steps[0].0, steps[0].1);
      RunSound(Apply(s, steps[0].0, steps[0].1).s, steps[1..]);
    }
  }

  /**
   In every run from boot, with yields at any time, no assertion fails, one thread is RUNNING, and the queue holds
   exactly the READY threads.
   */
  lemma {:induction false} EveryRunIsSound(main: Tid, idle: Tid, steps: seq<(Step, Place)>)
    requires main != idle && AllAllowed(Boot(main, idle), steps)
    ensures RunAny(Boot(main, idle), steps).Ok? && Sound(RunAny(Boot(main, idle), steps).s)
    ensures Unaccounted(RunAny(Boot(main, idle), steps).s) <= 2
  {
    BootOk(main, idle);
    InvSound(Boot(main, idle));
    RunSound(Boot(main, idle), steps);
  }
}
