/** What every step does to every thread, and that over whole runs no tick is lost. */
module SchedAccount {
  import opened Common
  import opened SchedSpec
  import opened SchedInv
  import opened SchedRuns
  import opened SchedAny

  // ---------- priorities ----------

  lemma {:induction false} NextWeight(a: int)
    requires -20 <= a < 19
    ensures NiceToWeight(a) > NiceToWeight(a + 1)
  {
    if a < -15 {
    } else if a < -10 {
    } else if a < -5 {
    } else if a < 0 {
    } else if a < 5 {
    } else if a < 10 {
    } else if a < 15 {
    }
  }

  /** A higher nice value gives less weight, and nice 0 the 1024 that virtual time is measured in. */
  lemma {:induction false} WeightsFall(a: int, b: int)
    requires -20 <= a < b <= 19
    ensures NiceToWeight(a) > NiceToWeight(b) && NiceToWeight(0) == 1024
    decreases b - a
  {
    NextWeight(a);
    if a + 1 < b { WeightsFall(a + 1, b); }
  }

  // ---------- single steps ----------

  /** A thread whose ticks have been accounted for. */
  function Paid(t: Task): Task { t.(vruntime := Due(t), execStart := t.elapsed, sumExec := t.sumExec + Delta(t)) }

  lemma {:induction false} UpdatePays(s: Sched, c: Tid)
    requires c in s.tasks && TaskOk(s.tasks[c]) && forall i :: 0 <= i < |s.queue| ==> s.queue[i] in s.tasks
    ensures UpdateCurr(s, c).tasks == s.tasks[c := Paid(s.tasks[c])]
  {
    var t := s.tasks[c];
    if Delta(t) == 0 { assert Paid(t) == t && s.tasks[c := t] == s.tasks; }
  }

  /** The virtual time that all threads which run or wait have reached. */
  ghost predicate Reached(s: Sched, v: nat)
    requires WellFormed(s)
  {
    v <= s.tasks[s.current].vruntime && forall t <- s.queue :: v <= s.tasks[t].vruntime
  }

  /** `min_vruntime` becomes the largest such time, unless it was beyond it. */
  lemma {:induction false} MinExact(s: Sched, v: nat)
    requires Inv(s) && Delta(s.tasks[s.current]) > 0
    ensures var s' := UpdateCurr(s, s.current);
      && Reached(s', s'.minV) && (Reached(s', v) ==> v <= s'.minV)
  {
    UpdateOk(s);
    if s.queue != [] { assert s.queue[0] in s.queue; }
  }

  /**
   All threads but `c` and the one that now runs are as they were. That one runs from here on, with the virtual time it
   had in the queue; idle, when it was not in it, comes up to the minimum.
   */
  ghost predicate OnlyThese(s: Sched, s': Sched, c: Tid)
    requires WellFormed(s) && WellFormed(s')
  {
    && s'.tasks.Keys == s.tasks.Keys && s'.idle == s.idle
    && (s'.current == c || s'.current in s.queue || s'.current == s.idle)
    && (forall t <- s.tasks :: t != c && t != s'.current ==> s'.tasks[t] == s.tasks[t])
    && (s'.current != c ==> s'.tasks[s'.current] == Picked(s, s'.current, s'.minV))
    && s'.tasks[s'.current].status == RUNNING && s'.tasks[s'.current].execStart == s'.tasks[s'.current].elapsed
  }

  function Picked(s: Sched, n: Tid, minV: nat): Task
    requires n in s.tasks
  {
    var t := s.tasks[n];
    t.(status := RUNNING, execStart := t.elapsed, vruntime := if n in s.queue then t.vruntime
      else Max(t.vruntime, minV))
  }

  /** The thread that runs next was the first of the queue, and is otherwise as it was. */
  ghost predicate PicksHead(s: Sched, s': Sched)
    requires WellFormed(s) && WellFormed(s') && s.queue != []
  {
    var n := s.queue[0];
    && s'.current == n && s'.queue == s.queue[1..]
    && s'.tasks == s.tasks[n := s.tasks[n].(status := RUNNING, execStart := s.tasks[n].elapsed)]
  }

  lemma {:induction false} DispatchHead(s: Sched)
    requires WellFormed(s) && NoDup(s.queue) && s.queue != []
    ensures Dispatch(s).Ok? && WellFormed(Dispatch(s).s) && PicksHead(s, Dispatch(s).s)
  {
    WithoutHead(s.queue);
  }

  /** With nobody in the queue, idle is woken and runs. */
  lemma {:induction false} DispatchIdle(s: Sched)
    requires WellFormed(s) && s.queue == [] && s.current != s.idle && Asleep(s.tasks[s.idle])
    ensures Dispatch(s).Ok? && WellFormed(Dispatch(s).s)
    ensures var s', i := Dispatch(s).s, s.tasks[s.idle];
      && s'.current == s.idle && s'.queue == [] && s'.minV == s.minV && s'.idle == s.idle
      && s'.tasks ==
           s.tasks[s.idle := i.(status := RUNNING, vruntime := Max(i.vruntime, s.minV), execStart := i.elapsed)]
  {
    var s1 := Unblock(s, s.idle).s;
    assert s1.queue == [s.idle];
    WithoutHead(s1.queue);
  }

  /** What `thread_block` makes of the thread that calls it. */
  function Slept(t: Task, stat: Status): Task { Paid(t).(status := stat) }

  lemma {:induction false} BlockPays(s: Sched, stat: Status)
    requires Sound(s) && Allowed(s, Block(stat))
    ensures var s0 := SetStatus(s, s.current, stat);
      && WellFormed(s0) && Requeue(s0).queue == s.queue && s.current !in s.queue
      && Requeue(s0).tasks == s.tasks[s.current := Slept(s.tasks[s.current], stat)]
      && Schedule(s0) == Dispatch(Requeue(s0))
  {
    var c, s0 := s.current, SetStatus(s, s.current, stat);
    UpdatePays(s0, c);
    assert s.tasks[c := s0.tasks[c]][c := Slept(s.tasks[c], stat)] == s.tasks[c := Slept(s.tasks[c], stat)];
  }

  /**
   `thread_block`: the thread is charged for its ticks, has the new status and is not queued; the first of the queue
   runs, or idle, and no other thread changes. Only idle with nobody in the queue goes on.
   */
  lemma {:induction false} BlockExact(s: Sched, stat: Status)
    requires Sound(s) && Allowed(s, Block(stat))
    ensures BlockStep(s, stat).Ok? && WellFormed(BlockStep(s, stat).s)
    ensures var s', c := BlockStep(s, stat).s, s.current;
      && OnlyThese(s, s', c) && c !in s'.queue
      && s'.tasks[c] == Slept(s.tasks[c], if s'.current == c then RUNNING else stat)
      && (s'.current == c <==> s.queue == [] && c == s.idle)
      && (if s.queue != [] then s'.current == s.queue[0] && s'.queue == s.queue[1..]
          else s'.current == s.idle && s'.queue == [])
  {
    var c, s0 := s.current, SetStatus(s, s.current, stat);
    BlockPays(s, stat);
    var s1 := Requeue(s0);
    if s.queue != [] {
      DispatchHead(s1);
      assert s.queue[0] in s.queue;
    } else if c != s.idle {
      DispatchIdle(s1);
    }
  }

  /** The assertions of `thread_block` and `thread_unblock` fail exactly for other statuses than those of a sleep. */
  lemma {:induction false} AssertsExact(s: Sched, stat: Status, t: Tid, at: Place)
    requires Sound(s) && t in s.tasks && (s.current == s.idle ==> stat !in {WAITING, HANGING})
    ensures BlockStep(s, stat).Panic? <==> stat !in {BLOCKED, WAITING, HANGING}
    ensures Unblock(s, t, at).Panic? <==> s.tasks[t].status in {RUNNING, READY, DIED}
  {
    if stat in {BLOCKED, WAITING, HANGING} { BlockExact(s, stat); }
  }

  /** `thread_unblock`: only that thread changes, and it is in the queue once. */
  lemma {:induction false} WakeExact(s: Sched, t: Tid, at: Place)
    requires Sound(s) && Allowed(s, Wake(t))
    ensures Unblock(s, t, at).Ok?
    ensures var s' := Unblock(s, t, at).s;
      && s'.tasks == s.tasks[t := s.tasks[t].(status := READY, vruntime := Max(s.tasks[t].vruntime, s.minV))]
      && s'.current == s.current && s'.minV == s.minV && s'.idle == s.idle
      && t in s'.queue && Without(s'.queue, t) == s.queue
  {
    var s0 := SetStatus(s, t, READY);
    EnqueueSound(s, t, at);
    Inserted(s.queue, PlaceOf(s0, Max(s.tasks[t].vruntime, s.minV), at), t);
  }

  lemma {:induction false} Inserted(q: seq<Tid>, p: nat, t: Tid)
    requires p <= |q| && t !in q
    ensures t in InsertAt(q, p, t) && Without(InsertAt(q, p, t), t) == q
    decreases p
  {
    var r := InsertAt(q, p, t);
    assert r[p] == t;
    if p > 0 {
      assert r[1..] == InsertAt(q[1..], p - 1, t) && r[0] == q[0];
      Inserted(q[1..], p - 1, t);
    } else {
      assert r[1..] == q;
    }
  }

  /** `thread_start`: the new thread has the weight of its priority and starts at the minimum; no other changes. */
  lemma {:induction false} StartExact(s: Sched, t: Tid, nice: int, at: Place)
    requires Sound(s) && t !in s.tasks
    ensures var s' := StartStep(s, t, nice, at);
      && s'.tasks == s.tasks[t := Task(READY, s.minV, NiceToWeight(nice), 0, 0, 0)]
      && s'.current == s.current && s'.minV == s.minV && s'.idle == s.idle
      && t in s'.queue && Without(s'.queue, t) == s.queue
  {
    var task := Task(READY, 0, NiceToWeight(nice), 0, 0, 0);
    var s0 := s.(tasks := s.tasks[t := task]);
    assert t !in s.queue;
    assert s.tasks[t := task][t := task.(vruntime := s.minV)] == s.tasks[t := task.(vruntime := s.minV)];
    Inserted(s.queue, PlaceOf(s0, s.minV, at), t);
  }

  /** A tick that does not end the period counts for the current thread and does nothing else. */
  lemma {:induction false} TickCounts(s: Sched, at: Place)
    requires Sound(s) && Unaccounted(s) < 2
    ensures var c := s.tasks[s.current];
      TickStep(s, at) == Ok(s.(tasks := s.tasks[s.current := c.(elapsed := c.elapsed + 1)]))
  {
    TickedSound(s);
  }

  /** The caller has become `x` and is in the queue, and the first of the queue runs. */
  lemma {:induction false} HeadRuns(s: Sched, s2: Sched, c: Tid, x: Task)
    requires WellFormed(s) && WellFormed(s2) && NoDup(s2.queue) && s2.idle == s.idle && c in s.tasks
    requires c in s2.queue && (forall t <- s2.queue :: t == c || t in s.queue)
    requires s2.tasks == s.tasks[c := x] && x.execStart == x.elapsed
    ensures Dispatch(s2).Ok? && WellFormed(Dispatch(s2).s)
    ensures var s' := Dispatch(s2).s;
      && OnlyThese(s, s', c) && s'.minV == s2.minV && (s'.current != c ==> c in s'.queue)
      && s'.tasks[c] == x.(status := if s'.current == c then RUNNING else x.status)
  {
    DispatchHead(s2);
    WithoutHead(s2.queue);
    assert s2.queue[0] in s2.queue;
  }

  /** The first half of `schedule`, for a thread that runs. */
  lemma {:induction false} RequeuePays(s: Sched, at: Place)
    requires MaySchedule(s) && s.tasks[s.current].status == RUNNING
    ensures var s2, c := Requeue(s, at), s.current; var paid := Paid(s.tasks[c]);
      && QueueSound(s2) && c in s2.queue && (forall t <- s2.queue :: t == c || t in s.queue)
      && s2.tasks == s.tasks[c := paid.(status := READY, vruntime := Max(paid.vruntime, s2.minV))]
  {
    var c := s.current;
    UpdatePays(s, c);
    UpdateSound(s, c);
    var s1 := UpdateCurr(s, c);
    EnqueueSound(s1, c, at);
    assert Requeue(s, at) == Enqueue(SetStatus(s1, c, READY), c, at);
  }

  lemma {:induction false} PeriodPays(s: Sched, at: Place)
    requires Sound(s)
    ensures var c := s.current; var paid := Paid(s.tasks[c].(elapsed := s.tasks[c].elapsed + 1));
      && WellFormed(Ticked(s))
      && var s2 := Requeue(Ticked(s), at);
      && QueueSound(s2) && s2.idle == s.idle && c in s2.queue && (forall t <- s2.queue :: t == c || t in s.queue)
      && s2.tasks == s.tasks[c := paid.(status := READY, vruntime := Max(paid.vruntime, s2.minV))]
  {
    TickedSound(s);
    RequeuePays(Ticked(s), at);
    var c, s2 := s.current, Requeue(Ticked(s), at);
    assert s.tasks[c := Ticked(s).tasks[c]][c := s2.tasks[c]] == s.tasks[c := s2.tasks[c]];
  }

  lemma {:induction false} PeriodEnds(s: Sched, at: Place)
    requires Sound(s) && Unaccounted(s) == 2
    ensures WellFormed(Ticked(s)) && TickStep(s, at) == Dispatch(Requeue(Ticked(s), at))
  {
    TickedSound(s);
  }

  /**
   The tick that ends the period: the thread is charged for its ticks and queued, and the first of the queue, which may
   be that thread, runs.
   */
  lemma {:induction false} PeriodExact(s: Sched, at: Place)
    requires Sound(s) && Unaccounted(s) == 2
    ensures TickStep(s, at).Ok? && WellFormed(TickStep(s, at).s)
    ensures var s', c := TickStep(s, at).s, s.current;
      var paid := Paid(s.tasks[c].(elapsed := s.tasks[c].elapsed + 1));
      && OnlyThese(s, s', c) && (s'.current != c ==> c in s'.queue)
      && s'.tasks[c] ==
           paid.(status := if s'.current == c then RUNNING else READY, vruntime := Max(paid.vruntime, s'.minV))
  {
    PeriodPays(s, at);
    PeriodEnds(s, at);
    var s2 := Requeue(Ticked(s), at);
    HeadRuns(s, s2, s.current, s2.tasks[s.current]);
  }

  /**
   `thread_yield`: the thread is queued with the virtual time it has, and charged afterwards; then the first of the
   queue runs, which may be that thread.
   */
  lemma {:induction false} YieldEffect(s: Sched, at: Place)
    requires Sound(s)
    ensures YieldStep(s, at).Ok? && WellFormed(YieldStep(s, at).s)
    ensures var s', c := YieldStep(s, at).s, s.current;
      && OnlyThese(s, s', c) && (s'.current != c ==> c in s'.queue)
      && s'.tasks[c] ==
           Paid(s.tasks[c].(status := if s'.current == c then RUNNING else READY,
                            vruntime := Max(s.tasks[c].vruntime, s.minV)))
  {
    var c := s.current;
    YieldPays(s, at);
    var s1 := Enqueue(SetStatus(s, c, READY), c, at);
    var s2 := UpdateCurr(s1, c);
    HeadRuns(s, s2, c, s2.tasks[c]);
    assert Schedule(s1) == Dispatch(s2);
  }

  lemma {:induction false} YieldPays(s: Sched, at: Place)
    requires Sound(s)
    ensures var c := s.current; var s1 := Enqueue(SetStatus(s, c, READY), c, at);
      && WellFormed(s1) && s1.current == c && s1.idle == s.idle && s1.tasks[c].status == READY
      && var s2 := UpdateCurr(s1, c);
      && QueueSound(s2) && c in s2.queue && (forall t <- s2.queue :: t == c || t in s.queue)
      && s2.tasks ==
           s.tasks[c := Paid(s.tasks[c].(status := READY, vruntime := Max(s.tasks[c].vruntime, s.minV)))]
  {
    var c := s.current;
    var s1 := Enqueue(SetStatus(s, c, READY), c, at);
    EnqueueSound(s, c, at);
    UpdatePays(s1, c);
    UpdateSound(s1, c);
  }

  // ---------- runs ----------

  /** Threads that neither called nor waited are left alone. */
  lemma {:induction false} TheseSleep(s: Sched, s': Sched, t: Tid)
    requires Sound(s) && WellFormed(s') && OnlyThese(s, s', s.current)
    requires t in s.tasks && Asleep(s.tasks[t]) && t != s.idle
    ensures t in s'.tasks && s'.tasks[t] == s.tasks[t] && s'.idle == s.idle
  {
  }

  /** A step that does not name a sleeping thread leaves it as it is; only idle is woken by others. */
  lemma {:induction false} StepSleeps(s: Sched, step: Step, at: Place, t: Tid)
    requires Sound(s) && Allowed(s, step) && Unaccounted(s) <= 2
    requires t in s.tasks && Asleep(s.tasks[t]) && t != s.idle && step != Wake(t)
    ensures var r := Apply(s, step, at); r.Ok? && t in r.s.tasks && r.s.tasks[t] == s.tasks[t] && r.s.idle == s.idle
  {
    match step
    case Start(u, nice) => StartExact(s, u, nice, at);
    case Tick =>
      if Unaccounted(s) < 2 {
        TickCounts(s, at);
      } else {
        PeriodExact(s, at);
        TheseSleep(s, TickStep(s, at).s, t);
      }
    case Block(stat) =>
      BlockExact(s, stat);
      TheseSleep(s, BlockStep(s, stat).s, t);
    case Wake(u) => WakeExact(s, u, at);
    case Yield =>
      YieldEffect(s, at);
      TheseSleep(s, YieldStep(s, at).s, t);
  }

  /** So a thread that sleeps stays asleep, unchanged, in every run that does not wake it by name. */
  lemma {:induction false} SleepsOn(s: Sched, steps: seq<(Step, Place)>, t: Tid)
    requires Sound(s) && AllAllowed(s, steps) && Unaccounted(s) <= 2
    requires t in s.tasks && Asleep(s.tasks[t]) && t != s.idle && forall e <- steps :: e.0 != Wake(t)
    ensures var r := RunAny(s, steps); r.Ok? && t in r.s.tasks && r.s.tasks[t] == s.tasks[t]
    decreases |steps|
  {
    if steps != [] {
      assert steps[0] in steps;
      StepSound(s, steps[0].0, steps[0].1);
      StepSleeps(s, steps[0].0, steps[0].1, t);
      SleepsOn(Apply(s, steps[0].0, steps[0].1).s, steps[1..], t);
    }
  }

  /** The ticks of a run that find thread `t` running. */
  function Ran(s: Sched, steps: seq<(Step, Place)>, t: Tid): nat
    requires WellFormed(s)
    decreases |steps|
  {
    if steps == [] then 0
    else
      (if steps[0].0 == Tick && s.current == t then 1 else 0) +
      match Apply(s, steps[0].0, steps[0].1)
      case Panic => 0
      case Ok(s') => if Formed(s') then Ran(s', steps[1..], t) else 0
  }

  /** What a thread has been charged for and what it has run since then is all it has run. */
  ghost predicate Charged(s: Sched) {
    && WellFormed(s)
    && forall t <- s.tasks ::
         && s.tasks[t].sumExec == s.tasks[t].execStart <= s.tasks[t].elapsed
         && (t != s.current ==> s.tasks[t].execStart == s.tasks[t].elapsed)
  }

  /** The ticks that a thread has run; none before it is started. */
  function Elapsed(s: Sched, t: Tid): nat { if t in s.tasks then s.tasks[t].elapsed else 0 }

  /** The virtual time of a thread does not go back. */
  ghost predicate Onward(s: Sched, s': Sched) {
    forall t <- s.tasks :: t in s'.tasks && s.tasks[t].vruntime <= s'.tasks[t].vruntime
  }

  /** After a step everything is charged for, and thread `c` has run `n` ticks more. */
  ghost predicate ChargedAfter(s: Sched, s': Sched, c: Tid, n: nat) {
    && Charged(s') && Onward(s, s') && (n > 0 ==> c in s'.tasks)
    && forall t <- s'.tasks :: Elapsed(s', t) == Elapsed(s, t) + if t == c then n else 0
  }

  lemma {:induction false} TheseCharged(s: Sched, s': Sched, n: nat)
    requires Sound(s) && Charged(s) && WellFormed(s') && OnlyThese(s, s', s.current)
    requires var a, b := s.tasks[s.current], s'.tasks[s.current];
      b.sumExec == b.execStart == b.elapsed == a.elapsed + n && a.vruntime <= b.vruntime
    ensures ChargedAfter(s, s', s.current, n)
  {
  }

  lemma {:induction false} PaidInFull(t: Task)
    requires t.execStart <= t.elapsed
    ensures Paid(t).execStart == t.elapsed == Paid(t).elapsed && t.vruntime <= Paid(t).vruntime
    ensures t.sumExec == t.execStart ==> Paid(t).sumExec == t.elapsed
  {
  }

  lemma {:induction false} TickCharged(s: Sched, at: Place)
    requires Sound(s) && Charged(s) && Unaccounted(s) <= 2
    ensures TickStep(s, at).Ok? && ChargedAfter(s, TickStep(s, at).s, s.current, 1)
  {
    if Unaccounted(s) < 2 { CountCharged(s, at); } else { PeriodCharged(s, at); }
  }

  lemma {:induction false} CountCharged(s: Sched, at: Place)
    requires Sound(s) && Charged(s) && Unaccounted(s) < 2
    ensures TickStep(s, at).Ok? && ChargedAfter(s, TickStep(s, at).s, s.current, 1)
  {
    TickCounts(s, at);
  }

  lemma {:induction false} PeriodCharged(s: Sched, at: Place)
    requires Sound(s) && Charged(s) && Unaccounted(s) == 2
    ensures TickStep(s, at).Ok? && ChargedAfter(s, TickStep(s, at).s, s.current, 1)
  {
    var c := s.tasks[s.current];
    PeriodExact(s, at);
    PaidInFull(c.(elapsed := c.elapsed + 1));
    TheseCharged(s, TickStep(s, at).s, 1);
  }

  lemma {:induction false} BlockCharged(s: Sched, stat: Status)
    requires Sound(s) && Charged(s) && Allowed(s, Block(stat))
    ensures BlockStep(s, stat).Ok? && ChargedAfter(s, BlockStep(s, stat).s, s.current, 0)
  {
    BlockExact(s, stat);
    PaidInFull(s.tasks[s.current]);
    TheseCharged(s, BlockStep(s, stat).s, 0);
  }

  lemma {:induction false} YieldCharged(s: Sched, at: Place)
    requires Sound(s) && Charged(s)
    ensures YieldStep(s, at).Ok? && ChargedAfter(s, YieldStep(s, at).s, s.current, 0)
  {
    var c := s.tasks[s.current];
    YieldEffect(s, at);
    PaidInFull(c.(status := YieldStep(s, at).s.tasks[s.current].status, vruntime := Max(c.vruntime, s.minV)));
    TheseCharged(s, YieldStep(s, at).s, 0);
  }

  lemma {:induction false} StartCharged(s: Sched, u: Tid, nice: int, at: Place)
    requires Sound(s) && Charged(s) && u !in s.tasks
    ensures ChargedAfter(s, StartStep(s, u, nice, at), s.current, 0)
  {
    StartExact(s, u, nice, at);
    StartSound(s, u, nice, at);
  }

  lemma {:induction false} WakeCharged(s: Sched, u: Tid, at: Place)
    requires Sound(s) && Charged(s) && Allowed(s, Wake(u))
    ensures Unblock(s, u, at).Ok? && ChargedAfter(s, Unblock(s, u, at).s, s.current, 0)
  {
    WakeExact(s, u, at);
    EnqueueSound(s, u, at);
  }

  lemma {:induction false} StepCharged(s: Sched, step: Step, at: Place)
    requires Sound(s) && Charged(s) && Allowed(s, step) && Unaccounted(s) <= 2
    ensures Apply(s, step, at).Ok?
    ensures ChargedAfter(s, Apply(s, step, at).s, s.current, if step == Tick then 1 else 0)
  {
    match step
    case Start(u, nice) => StartCharged(s, u, nice, at);
    case Tick => TickCharged(s, at);
    case Block(stat) => BlockCharged(s, stat);
    case Wake(u) => WakeCharged(s, u, at);
    case Yield => YieldCharged(s, at);
  }

  lemma {:induction false} RunCharged(s: Sched, steps: seq<(Step, Place)>, t: Tid)
    requires Sound(s) && Charged(s) && AllAllowed(s, steps) && Unaccounted(s) <= 2
    ensures RunAny(s, steps).Ok?
    ensures var s' := RunAny(s, steps).s;
      Charged(s') && Onward(s, s') && Elapsed(s', t) == Elapsed(s, t) + Ran(s, steps, t)
    decreases |steps|
  {
    if steps != [] {
      StepSound(s, steps[0].0, steps[0].1);
      StepCharged(s, steps[0].0, steps[0].1);
      RunCharged(Apply(s, steps[0].0, steps[0].1).s, steps[1..], t);
    }
  }

  /**
   No tick is lost: after every run from boot, what a thread has been charged for and the ticks of the current thread
   not yet charged are exactly the ticks that found it running.
   */
  lemma {:induction false} NoTickLost(main: Tid, idle: Tid, steps: seq<(Step, Place)>, t: Tid)
    requires main != idle && AllAllowed(Boot(main, idle), steps)
    ensures RunAny(Boot(main, idle), steps).Ok?
    ensures var s := RunAny(Boot(main, idle), steps).s;
      && WellFormed(s)
      && (t in s.tasks ==>
            s.tasks[t].sumExec + (if t == s.current then Unaccounted(s) else 0) == Ran(Boot(main, idle), steps, t))
  {
    BootOk(main, idle);
    InvSound(Boot(main, idle));
    RunCharged(Boot(main, idle), steps, t);
  }
}
