/** Fairness: no thread starves, and virtual times stay close together, while the timer alone drives the scheduler. */
module SchedFair {
  import opened Common
  import opened SchedSpec
  import opened SchedInv
  import opened SchedRuns

  /** How many periods a thread at `u` can run before it passes `v`, and one more. */
  function Term(v: nat, u: nat): nat { if u <= v then (v - u) / 8 + 1 else 0 }

  function Sum(q: seq<Tid>, tasks: map<Tid, Task>, v: nat): nat
    requires forall i :: 0 <= i < |q| ==> q[i] in tasks
  {
    if q == [] then 0 else Term(v, tasks[q[0]].vruntime) + Sum(q[1..], tasks, v)
  }

  /** The sum over all runnable threads at or before thread `t`, itself included. */
  function Phi(s: Sched, t: Tid): nat
    requires WellFormed(s) && t in s.tasks
  {
    var v := s.tasks[t].vruntime;
    Sum(s.queue, s.tasks, v) + Term(v, s.tasks[s.current].vruntime)
  }

  lemma {:induction false} TermDrops(v: nat, u: nat, d: nat)
    requires d >= 8
    ensures Term(v, u + d) + (if u <= v then 1 else 0) <= Term(v, u)
  {
  }

  lemma {:induction false} SumInsert(q: seq<Tid>, p: nat, c: Tid, tasks: map<Tid, Task>, v: nat)
    requires p <= |q| && c in tasks && forall i :: 0 <= i < |q| ==> q[i] in tasks
    ensures var r := InsertAt(q, p, c);
      (forall i :: 0 <= i < |r| ==> r[i] in tasks) && Sum(r, tasks, v) == Sum(q, tasks, v) + Term(v, tasks[c].vruntime)
    decreases p
  {
    var r := InsertAt(q, p, c);
    if p == 0 {
      assert r[1..] == q;
    } else {
      SumInsert(q[1..], p - 1, c, tasks, v);
      assert r[0] == q[0] && r[1..] == InsertAt(q[1..], p - 1, c);
    }
  }

  lemma {:induction false} SumElsewhere(q: seq<Tid>, tasks: map<Tid, Task>, tasks': map<Tid, Task>, v: nat)
    requires forall i :: 0 <= i < |q| ==>
      q[i] in tasks && q[i] in tasks' && tasks[q[i]].vruntime == tasks'[q[i]].vruntime
    ensures Sum(q, tasks, v) == Sum(q, tasks', v)
    decreases |q|
  {
    if q != [] {
      var r := q[1..];
      assert forall i :: 0 <= i < |r| ==> r[i] == q[i + 1];
      SumElsewhere(r, tasks, tasks', v);
    }
  }

  lemma {:induction false} SumHas(q: seq<Tid>, tasks: map<Tid, Task>, t: Tid, v: nat)
    requires (forall i :: 0 <= i < |q| ==> q[i] in tasks) && t in q
    ensures Sum(q, tasks, v) >= Term(v, tasks[t].vruntime)
    decreases |q|
  {
    if q[0] != t { SumHas(q[1..], tasks, t, v); }
  }

  /**
   `s'` is `s` after its current thread `c` has run a full period: `c` is queued again, later by `d`, and the head runs.
   */
  ghost predicate Rotated(s: Sched, s': Sched, p: nat, d: nat) {
    && WellFormed(s) && WellFormed(s') && s'.tasks.Keys == s.tasks.Keys
    && p <= |s.queue| && [s'.current] + s'.queue == InsertAt(s.queue, p, s.current)
    && 8 <= d <= 52428
    && s'.tasks[s.current].vruntime == s.tasks[s.current].vruntime + d
    && (forall u <- s.tasks :: u != s.current ==> s'.tasks[u].vruntime == s.tasks[u].vruntime)
    && Delta(s'.tasks[s'.current]) == 0
    && (forall u <- s'.queue :: s'.tasks[s'.current].vruntime <= s'.tasks[u].vruntime)
  }

  /** Accounting for a full period. */
  lemma {:induction false} PeriodUpdate(s: Sched) returns (d: nat)
    requires Inv(s) && Delta(s.tasks[s.current]) == 3
    ensures var u := UpdateCurr(s, s.current); var c := u.tasks[s.current];
      && 8 <= d <= 52428 && c.vruntime == s.tasks[s.current].vruntime + d && c.status == RUNNING
      && (forall t <- s.tasks :: t != s.current ==> u.tasks[t] == s.tasks[t])
  {
    var w := s.tasks[s.current].weight;
    VDeltaBounds(w);
    d := VDelta(w, 3);
  }

  lemma {:induction false} PeriodRequeue(s: Sched) returns (p: nat, d: nat)
    requires Inv(s) && Delta(s.tasks[s.current]) == 3
    ensures var s1 := Requeue(s);
      && QueueOk(s1) && p <= |s.queue| && s1.queue == InsertAt(s.queue, p, s.current) && s1.tasks.Keys == s.tasks.Keys
      && 8 <= d <= 52428 && s1.tasks[s.current].vruntime == s.tasks[s.current].vruntime + d
      && (forall t <- s.tasks :: t != s.current ==> s1.tasks[t] == s.tasks[t])
  {
    d := PeriodUpdate(s);
    var c := s.current;
    assert c !in s.queue by { assert s.tasks[c].status == RUNNING; }
    UpdateOk(s);
    var u := UpdateCurr(s, c);
    EnqueueEq(u, c);
    EnqueueOk(u, c);
    p := Pos(u.queue, u.tasks[c := u.tasks[c].(status := READY)], u.tasks[c].vruntime);
  }

  lemma {:induction false} HeadSwitch(s: Sched)
    requires QueueOk(s) && s.queue != []
    ensures var s' := SwitchTo(s, s.queue[0]);
      && [s'.current] + s'.queue == s.queue && s'.current == s.queue[0] && s'.tasks.Keys == s.tasks.Keys
      && WellFormed(s')
      && (forall t <- s.tasks :: s'.tasks[t].vruntime == s.tasks[t].vruntime) && Delta(s'.tasks[s'.current]) == 0
      && (forall u <- s'.queue :: s'.tasks[s'.current].vruntime <= s'.tasks[u].vruntime)
  {
    WithoutHead(s.queue);
    HeadLeast(s.queue, s.tasks);
  }

  lemma {:induction false} PeriodSchedule(s: Sched) returns (p: nat, d: nat)
    requires Inv(s) && Delta(s.tasks[s.current]) == 3
    ensures Schedule(s).Ok? && Rotated(s, Schedule(s).s, p, d)
  {
    p, d := PeriodRequeue(s);
    HeadSwitch(Requeue(s));
  }

  /** A thread whose turn it is not comes closer to running with every period, unless it is next. */
  lemma {:induction false} PeriodProgress(s: Sched, s': Sched, p: nat, d: nat, t: Tid)
    requires Rotated(s, s', p, d) && t in s.queue && NoDup(s.queue) && s.current !in s.queue
    ensures s'.current != t ==>
      && t in s'.queue && s'.tasks[s'.current].vruntime <= s'.tasks[t].vruntime
      && Phi(s', t) + (if s.tasks[s.current].vruntime <= s.tasks[t].vruntime then 1 else 0) <= Phi(s, t)
  {
    var r := InsertAt(s.queue, p, s.current);
    InsertElems(s.queue, p, s.current);
    if s'.current != t {
      assert r[0] == s'.current && r[1..] == s'.queue;
      assert t in s'.queue;
      PeriodSum(s, s', p, d, t);
    }
  }

  lemma {:induction false} PeriodSum(s: Sched, s': Sched, p: nat, d: nat, t: Tid)
    requires Rotated(s, s', p, d) && t in s.queue && s.current !in s.queue && t in s'.queue
    ensures Phi(s', t) + (if s.tasks[s.current].vruntime <= s.tasks[t].vruntime then 1 else 0) <= Phi(s, t)
  {
    var c, v, r := s.current, s.tasks[t].vruntime, InsertAt(s.queue, p, s.current);
    assert r[0] == s'.current && r[1..] == s'.queue;
    assert forall i :: 0 <= i < |s.queue| ==> s.queue[i] != c;
    SumElsewhere(s.queue, s.tasks, s'.tasks, v);
    SumInsert(s.queue, p, c, s'.tasks, v);
    TermDrops(v, s.tasks[c].vruntime, d);
    assert Sum(r, s'.tasks, v) == Term(v, s'.tasks[s'.current].vruntime) + Sum(s'.queue, s'.tasks, v);
  }

  // ---------- runs of timer ticks ----------

  /** The state after `n` timer interrupts and nothing else. */
  function Ticks(s: Sched, n: nat): Outcome
    requires WellFormed(s)
    decreases n
  {
    if n == 0 then Ok(s)
    else
      match TickStep(s)
      case Panic => Panic
      case Ok(s') => if Formed(s') then Ticks(s', n - 1) else Panic
  }

  lemma {:induction false} TicksStep(s: Sched, n: nat)
    requires Inv(s) && n > 0
    ensures TickStep(s).Ok? && Inv(TickStep(s).s) && Ticks(s, n) == Ticks(TickStep(s).s, n - 1)
  {
    TickOk(s);
  }

  /** The tick that ends a period. */
  lemma {:induction false} PeriodTick(s: Sched) returns (p: nat, d: nat)
    requires Inv(s) && Delta(s.tasks[s.current]) == 2
    ensures TickStep(s).Ok? && Inv(TickStep(s).s) && Rotated(s, TickStep(s).s, p, d)
  {
    TickOk(s);
    TickedOk(s);
    p, d := PeriodSchedule(Ticked(s));
    RotatedTicked(s, TickStep(s).s, p, d);
  }

  lemma {:induction false} RotatedTicked(s: Sched, s': Sched, p: nat, d: nat)
    requires WellFormed(s) && WellFormed(Ticked(s)) && Rotated(Ticked(s), s', p, d)
    ensures Rotated(s, s', p, d)
  {
  }

  /** A tick inside a period changes only the clock of the current thread. */
  lemma {:induction false} QuietTick(s: Sched)
    requires Inv(s) && Delta(s.tasks[s.current]) < 2
    ensures TickStep(s) == Ok(Ticked(s)) && Inv(Ticked(s))
    ensures Delta(Ticked(s).tasks[s.current]) == Delta(s.tasks[s.current]) + 1
  {
    TickedOk(s);
  }

  /** The number of periods within which a queued thread gets the processor. */
  function Bound(s: Sched, t: Tid): int
    requires WellFormed(s) && t in s.tasks
  {
    if s.tasks[s.current].vruntime <= s.tasks[t].vruntime then Phi(s, t) - 1 else Phi(s, t)
  }

  lemma {:induction false} BoundPositive(s: Sched, t: Tid)
    requires Inv(s) && t in s.queue
    ensures Bound(s, t) >= 1
  {
    SumHas(s.queue, s.tasks, t, s.tasks[t].vruntime);
  }

  lemma {:induction false} QuietBound(s: Sched, t: Tid)
    requires Inv(s) && t in s.queue
    ensures WellFormed(Ticked(s)) && t in Ticked(s).tasks && t in Ticked(s).queue && Bound(Ticked(s), t) == Bound(s, t)
  {
    SumElsewhere(s.queue, s.tasks, Ticked(s).tasks, s.tasks[t].vruntime);
  }

  lemma {:induction false} PeriodBound(s: Sched, t: Tid)
    requires Inv(s) && t in s.queue && Delta(s.tasks[s.current]) == 2
    ensures TickStep(s).Ok? && Inv(TickStep(s).s) && Delta(TickStep(s).s.tasks[TickStep(s).s.current]) == 0
    ensures var s' := TickStep(s).s; s'.current != t ==> t in s'.queue && Bound(s', t) <= Bound(s, t) - 1
  {
    var p, d := PeriodTick(s);
    assert s.current !in s.queue by { assert s.tasks[s.current].status == RUNNING; }
    PeriodProgress(s, TickStep(s).s, p, d, t);
  }

  /** Ticks left until a queued thread must have run. */
  function TicksLeft(s: Sched, t: Tid): int
    requires WellFormed(s) && t in s.tasks
  {
    3 * Bound(s, t) - Delta(s.tasks[s.current])
  }

  lemma {:induction false} TickTowards(s: Sched, t: Tid)
    requires Inv(s) && t in s.queue && Delta(s.tasks[s.current]) <= 2
    ensures TickStep(s).Ok? && Inv(TickStep(s).s) && TicksLeft(s, t) >= 1
    ensures var s' := TickStep(s).s; s'.current != t ==>
      t in s'.queue && Delta(s'.tasks[s'.current]) <= 2 && TicksLeft(s', t) <= TicksLeft(s, t) - 1
  {
    BoundPositive(s, t);
    if Delta(s.tasks[s.current]) < 2 {
      QuietTick(s);
      QuietBound(s, t);
    } else {
      PeriodBound(s, t);
    }
  }

  /** No starvation: a queued thread runs within `Bound` periods of at most three ticks. */
  lemma {:induction false} RunsWithin(s: Sched, t: Tid) returns (n: nat)
    requires Inv(s) && t in s.queue && Delta(s.tasks[s.current]) <= 2
    ensures n <= TicksLeft(s, t)
    ensures Ticks(s, n).Ok? && Ticks(s, n).s.current == t
    decreases TicksLeft(s, t)
  {
    TickTowards(s, t);
    var s' := TickStep(s).s;
    if s'.current == t {
      n := 1;
      assert Ticks(s', 0) == Ok(s');
    } else {
      n := RunsWithin(s', t);
      n := n + 1;
    }
    TicksStep(s, n);
  }

  /** The bound in terms of all runnable threads: at most `Phi` periods, counting the thread itself. */
  lemma {:induction false} NoStarvation(s: Sched, t: Tid) returns (n: nat)
    requires Inv(s) && t in s.queue && Delta(s.tasks[s.current]) <= 2
    ensures n <= 3 * Phi(s, t)
    ensures Ticks(s, n).Ok? && Ticks(s, n).s.current == t
  {
    n := RunsWithin(s, t);
  }

  /**
   Fairness of every run from boot: whatever has happened, a waiting thread runs within `Phi` periods once only the
   timer drives the system.
   */
  lemma {:induction false} EveryWaiterRuns(main: Tid, idle: Tid, steps: seq<Step>, t: Tid) returns (n: nat)
    requires main != idle && Legal(Boot(main, idle), steps)
    requires Run(Boot(main, idle), steps).Ok? ==> t in Run(Boot(main, idle), steps).s.queue
    ensures Run(Boot(main, idle), steps).Ok? && WellFormed(Run(Boot(main, idle), steps).s)
    ensures var s := Run(Boot(main, idle), steps).s;
      t in s.tasks && n <= 3 * Phi(s, t) && Ticks(s, n).Ok? && Ticks(s, n).s.current == t
  {
    EveryRunIsSafe(main, idle, steps);
    n := NoStarvation(Run(Boot(main, idle), steps).s, t);
  }

  /** The current thread is the least, and no runnable thread is more than `d` ahead of it. */
  ghost predicate Spread(s: Sched, d: nat)
    requires WellFormed(s)
  {
    forall t <- s.queue :: s.tasks[s.current].vruntime <= s.tasks[t].vruntime <= s.tasks[s.current].vruntime + d
  }

  lemma {:induction false} SpreadRotates(s: Sched, s': Sched, p: nat, k: nat, d: nat)
    requires Rotated(s, s', p, k) && Spread(s, d) && d >= 52428 && NoDup(s.queue) && s.current !in s.queue
    ensures Spread(s', d)
  {
    InsertElems(s.queue, p, s.current);
    var r := InsertAt(s.queue, p, s.current);
    assert r[0] == s'.current && r[1..] == s'.queue;
    assert forall t <- s'.queue :: t in r;
  }

  /** A state of a timer-driven run whose spread is at most `d`. */
  ghost predicate Close(s: Sched, d: nat) { Inv(s) && Delta(s.tasks[s.current]) <= 2 && Spread(s, d) }

  lemma {:induction false} SpreadTick(s: Sched, d: nat)
    requires Close(s, d) && d >= 52428
    ensures TickStep(s).Ok? && Close(TickStep(s).s, d)
  {
    if Delta(s.tasks[s.current]) < 2 {
      QuietTick(s);
      assert Spread(Ticked(s), d);
    } else {
      var p, k := PeriodTick(s);
      assert s.current !in s.queue by { assert s.tasks[s.current].status == RUNNING; }
      SpreadRotates(s, TickStep(s).s, p, k, d);
    }
  }

  /**
   However long the timer drives it, the spread never exceeds the larger of the first spread and one lightest period.
   */
  lemma {:induction false} SpreadStays(s: Sched, d: nat, n: nat)
    requires Close(s, d) && d >= 52428
    ensures StillClose(Ticks(s, n), d)
    decreases n
  {
    if n > 0 {
      SpreadTick(s, d);
      TicksStep(s, n);
      SpreadStays(TickStep(s).s, d, n - 1);
      SameOutcome(Ticks(s, n), Ticks(TickStep(s).s, n - 1), d);
    }
  }

  ghost predicate StillClose(r: Outcome, d: nat) { r.Ok? && Close(r.s, d) }

  lemma {:induction false} SameOutcome(r: Outcome, r': Outcome, d: nat)
    requires r == r' && StillClose(r', d)
    ensures StillClose(r, d)
  {
  }
}
