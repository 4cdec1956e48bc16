/** What every run of the scheduler keeps. */
module SchedInv {
  import opened Common
  import opened SchedSpec

  ghost predicate Sorted(q: seq<Tid>, tasks: map<Tid, Task>)
  {
    forall i, j | 0 <= i < j < |q| && q[i] in tasks && q[j] in tasks :: tasks[q[i]].vruntime <= tasks[q[j]].vruntime
  }

  /** Queued threads are READY and not below `minV`. */
  ghost predicate Queued(q: seq<Tid>, tasks: map<Tid, Task>, minV: nat) {
    forall t <- q :: t in tasks && tasks[t].status == READY && minV <= tasks[t].vruntime
  }

  /** No READY thread is missing from the queue. */
  ghost predicate Complete(q: seq<Tid>, tasks: map<Tid, Task>) {
    forall t <- tasks :: tasks[t].status == READY ==> t in q
  }

  /** The clocks and the weight of a thread are in range. */
  predicate TaskOk(t: Task) { t.execStart <= t.elapsed && 15 <= t.weight <= 88761 }

  ghost predicate TasksOk(tasks: map<Tid, Task>) { forall t <- tasks :: TaskOk(tasks[t]) }

  /** The queue holds each READY thread once, by virtual time, none below `minV`. */
  ghost predicate QueueOk(s: Sched) {
    && WellFormed(s)
    && NoDup(s.queue)
    && Queued(s.queue, s.tasks, s.minV)
    && Complete(s.queue, s.tasks)
    && Sorted(s.queue, s.tasks)
    && TasksOk(s.tasks)
  }

  /** Between two steps exactly `current` is RUNNING, and idle runs, waits in the queue or sleeps in `idle()`. */
  ghost predicate Inv(s: Sched) {
    && QueueOk(s)
    && (forall t <- s.tasks :: s.tasks[t].status == RUNNING <==> t == s.current)
    && s.minV <= s.tasks[s.current].vruntime
    && s.tasks[s.idle].status in {RUNNING, READY, BLOCKED}
  }

  // ---------- the queue operations ----------

  lemma {:induction false} PosSplits(q: seq<Tid>, tasks: map<Tid, Task>, v: nat)
    requires (forall i :: 0 <= i < |q| ==> q[i] in tasks) && Sorted(q, tasks)
    ensures var p := Pos(q, tasks, v);
      && (forall i :: 0 <= i < p ==> tasks[q[i]].vruntime <= v)
      && (forall i :: p <= i < |q| ==> v < tasks[q[i]].vruntime)
  {
    if q != [] && tasks[q[0]].vruntime <= v {
      var r := q[1..];
      PosSplits(r, tasks, v);
      var p := Pos(q, tasks, v);
      forall i | 0 <= i < p ensures tasks[q[i]].vruntime <= v {
        if i > 0 { assert q[i] == r[i - 1]; }
      }
      forall i | p <= i < |q| ensures v < tasks[q[i]].vruntime {
        assert q[i] == r[i - 1];
      }
    }
  }

  lemma {:induction false} InsertElems(q: seq<Tid>, p: nat, t: Tid)
    requires p <= |q| && NoDup(q) && t !in q
    ensures var r := InsertAt(q, p, t);
      NoDup(r) && t in r && (forall u <- r :: u == t || u in q) && (forall u <- q :: u in r)
  {
    var r := InsertAt(q, p, t);
    assert r[p] == t;
    forall u | u in q ensures u in r {
      var i :| 0 <= i < |q| && q[i] == u;
      assert r[if i < p then i else i + 1] == u;
    }
  }

  lemma {:induction false} InsertSorted(q: seq<Tid>, p: nat, t: Tid, tasks: map<Tid, Task>)
    requires p <= |q| && t in tasks && Sorted(q, tasks)
    requires forall i :: 0 <= i < p && q[i] in tasks ==> tasks[q[i]].vruntime <= tasks[t].vruntime
    requires forall i :: p <= i < |q| && q[i] in tasks ==> tasks[t].vruntime <= tasks[q[i]].vruntime
    ensures Sorted(InsertAt(q, p, t), tasks)
  {
    var r := InsertAt(q, p, t);
    assert forall i :: 0 <= i < |r| ==> r[i] == if i < p then q[i] else if i == p then t else q[i - 1];
  }

  /** A change to a thread that is not queued leaves the queue sorted. */
  lemma {:induction false} SortedElsewhere(q: seq<Tid>, tasks: map<Tid, Task>, t: Tid, task: Task)
    requires Sorted(q, tasks) && t !in q
    ensures Sorted(q, tasks[t := task])
  {
    assert forall i :: 0 <= i < |q| ==> q[i] != t;
  }

  /** The place found after a change to a thread that is not queued. */
  lemma {:induction false} PosElsewhere(q: seq<Tid>, tasks: map<Tid, Task>, t: Tid, task: Task, v: nat)
    requires (forall i :: 0 <= i < |q| ==> q[i] in tasks) && Sorted(q, tasks) && t !in q
    ensures var p := Pos(q, tasks[t := task], v);
      && (forall i :: 0 <= i < p ==> tasks[q[i]].vruntime <= v)
      && (forall i :: p <= i < |q| ==> v < tasks[q[i]].vruntime)
  {
    SortedElsewhere(q, tasks, t, task);
    PosSplits(q, tasks[t := task], v);
    assert forall i :: 0 <= i < |q| ==> q[i] != t;
  }

  /** Putting a thread at a place that splits the queue by virtual time. */
  lemma {:induction false} Placed(s: Sched, t: Tid, task: Task, p: nat)
    requires QueueOk(s) && t in s.tasks && t !in s.queue && p <= |s.queue| && task.status == READY && TaskOk(task)
    requires s.minV <= task.vruntime
    requires forall i :: 0 <= i < p ==> s.tasks[s.queue[i]].vruntime <= task.vruntime
    requires forall i :: p <= i < |s.queue| ==> task.vruntime <= s.tasks[s.queue[i]].vruntime
    ensures QueueOk(s.(tasks := s.tasks[t := task], queue := InsertAt(s.queue, p, t)))
  {
    var tasks' := s.tasks[t := task];
    InsertElems(s.queue, p, t);
    SortedElsewhere(s.queue, s.tasks, t, task);
    InsertSorted(s.queue, p, t, tasks');
  }

  /**
   A thread that becomes READY goes behind every queued thread of equal or smaller virtual time, before all others.
   */
  lemma {:induction false} EnqueueOk(s: Sched, t: Tid)
    requires QueueOk(s) && t in s.tasks && s.tasks[t].status != READY
    ensures var s' := Enqueue(SetStatus(s, t, READY), t);
      && QueueOk(s') && s'.minV == s.minV && s'.current == s.current && s'.idle == s.idle
      && s'.tasks == s.tasks[t := s.tasks[t].(status := READY, vruntime := Max(s.tasks[t].vruntime, s.minV))]
      && s'.queue != []
  {
    var v := Max(s.tasks[t].vruntime, s.minV);
    var task := s.tasks[t].(status := READY);
    assert t !in s.queue;
    EnqueueEq(s, t);
    PosElsewhere(s.queue, s.tasks, t, task, v);
    Placed(s, t, task.(vruntime := v), Pos(s.queue, s.tasks[t := task], v));
  }

  lemma {:induction false} EnqueueEq(s: Sched, t: Tid)
    requires t in s.tasks && forall i :: 0 <= i < |s.queue| ==> s.queue[i] in s.tasks
    ensures var task, v := s.tasks[t].(status := READY), Max(s.tasks[t].vruntime, s.minV);
      Enqueue(SetStatus(s, t, READY), t)
      == s.(tasks := s.tasks[t := task.(vruntime := v)],
            queue := InsertAt(s.queue, Pos(s.queue, s.tasks[t := task], v), t))
  {
    var task, v := s.tasks[t].(status := READY), Max(s.tasks[t].vruntime, s.minV);
    assert s.tasks[t := task][t := task.(vruntime := v)] == s.tasks[t := task.(vruntime := v)];
  }

  /** Accounting for the current thread moves only its own clock and `minV`, and `minV` only forward. */
  lemma {:induction false} UpdateOk(s: Sched)
    requires QueueOk(s) && s.current !in s.queue && s.minV <= s.tasks[s.current].vruntime
    ensures var s' := UpdateCurr(s, s.current);
      && QueueOk(s') && s.minV <= s'.minV <= s'.tasks[s.current].vruntime
      && s'.tasks[s.current].status == s.tasks[s.current].status
      && (forall t <- s.tasks :: t != s.current ==> s'.tasks[t] == s.tasks[t])
  {
    var s' := UpdateCurr(s, s.current);
    SortedElsewhere(s.queue, s.tasks, s.current, s'.tasks[s.current]);
    assert s'.tasks == s.tasks[s.current := s'.tasks[s.current]];
    if s.queue != [] {
      HeadLeast(s.queue, s.tasks);
    }
  }

  lemma {:induction false} HeadLeast(q: seq<Tid>, tasks: map<Tid, Task>)
    requires q != [] && Sorted(q, tasks) && forall t <- q :: t in tasks
    ensures q[0] in q && forall t <- q :: tasks[q[0]].vruntime <= tasks[t].vruntime
  {
  }

  lemma {:induction false} WithoutHead(q: seq<Tid>)
    requires q != [] && NoDup(q)
    ensures Without(q, q[0]) == q[1..] && q[0] !in q[1..]
    ensures forall t :: t in q <==> t == q[0] || t in q[1..]
  {
  }

  lemma {:induction false} TailSorted(q: seq<Tid>, tasks: map<Tid, Task>)
    requires q != [] && Sorted(q, tasks) && NoDup(q)
    ensures Sorted(q[1..], tasks) && NoDup(q[1..])
  {
    var r := q[1..];
    assert forall i :: 0 <= i < |r| ==> r[i] == q[i + 1];
  }

  /** Taking the head of the queue. */
  lemma {:induction false} SwitchOk(s: Sched)
    requires QueueOk(s) && s.queue != [] && (forall t <- s.tasks :: s.tasks[t].status != RUNNING)
    requires s.tasks[s.idle].status in {READY, BLOCKED}
    ensures Inv(SwitchTo(s, s.queue[0]))
  {
    var n, q := s.queue[0], s.queue[1..];
    WithoutHead(s.queue);
    TailSorted(s.queue, s.tasks);
    assert n in s.queue;
    var s' := SwitchTo(s, n);
    assert s'.queue == q && s'.tasks == s.tasks[n := s'.tasks[n]];
    SortedElsewhere(q, s.tasks, n, s'.tasks[n]);
  }

  /** What `schedule` may be called on: the current thread runs or has just put itself to sleep. */
  ghost predicate Schedulable(s: Sched) {
    && QueueOk(s) && s.current !in s.queue && s.minV <= s.tasks[s.current].vruntime
    && (forall t <- s.tasks :: s.tasks[t].status == RUNNING ==> t == s.current)
    && (s.tasks[s.current].status == RUNNING || Asleep(s.tasks[s.current]))
    && s.tasks[s.idle].status in {RUNNING, READY, BLOCKED}
  }

  /** Half-way through `schedule` nothing runs, and an empty queue means that idle sleeps, unless it is what ran. */
  lemma {:induction false} RequeueOk(s: Sched)
    requires Schedulable(s)
    ensures var s1 := Requeue(s);
      && QueueOk(s1) && s.minV <= s1.minV && (forall t <- s1.tasks :: s1.tasks[t].status != RUNNING)
      && s1.tasks[s.idle].status in {READY, BLOCKED}
      && s1.minV <= s1.tasks[s.current].vruntime
      && (s1.queue == [] ==> Asleep(s1.tasks[s.current]))
      && (s1.queue == [] ==> s1.tasks[s.idle].status == BLOCKED)
  {
    UpdateOk(s);
    var u := UpdateCurr(s, s.current);
    if u.tasks[s.current].status == RUNNING {
      EnqueueOk(u, s.current);
    }
  }

  /** `schedule` neither fails the assertion in `thread_unblock` nor falls through, and restores the invariant. */
  lemma {:induction false} ScheduleOk(s: Sched)
    requires Schedulable(s)
    ensures Schedule(s).Ok? && Inv(Schedule(s).s) && Schedule(s).s.minV >= s.minV
  {
    RequeueOk(s);
    var s1 := Requeue(s);
    if s1.queue != [] {
      SwitchOk(s1);
    } else if s.current != s.idle {
      EnqueueOk(s1, s.idle);
      SwitchOk(Unblock(s1, s.idle).s);
    }
  }

  // ---------- yielding ----------

  /** The virtual time the current thread has once its ticks are accounted for. */
  function Due(t: Task): nat { if Delta(t) == 0 then t.vruntime else t.vruntime + VDelta(t.weight, Delta(t)) }

  /** No queued thread lies strictly between the current thread's virtual time and what it owes. */
  ghost predicate YieldSafe(s: Sched)
    requires WellFormed(s)
  {
    var c := s.tasks[s.current];
    forall t <- s.queue :: c.vruntime < s.tasks[t].vruntime ==> Due(c) <= s.tasks[t].vruntime
  }

  /** The state in which `thread_yield` calls `schedule`. */
  function Yielding(s: Sched): Sched
    requires WellFormed(s)
  {
    Enqueue(SetStatus(s, s.current, READY), s.current)
  }

  /** Its state after `update_curr`: the thread has a new key but its old place. */
  function Rekeyed(s: Sched): Sched
    requires WellFormed(s)
  {
    UpdateCurr(Yielding(s), s.current)
  }

  /** Re-keying a queued thread in place: the rest of `thread_yield`. */
  lemma {:induction false} YieldEq(s: Sched)
    requires Inv(s)
    ensures var s1 := Yielding(s); var c := s.tasks[s.current];
      && WellFormed(s1) && s1.queue != [] && s1.current == s.current && s1.idle == s.idle
      && YieldStep(s) == Ok(SwitchTo(Rekeyed(s), s1.queue[0]))
    ensures var s2 := Rekeyed(s); var c := s.tasks[s.current];
      && s2 == Yielding(s).(tasks := s2.tasks, minV := s2.minV)
      && s2.tasks == s.tasks[s.current := s2.tasks[s.current]]
      && s2.tasks[s.current].vruntime == Due(c) && s2.tasks[s.current].status == READY && TaskOk(s2.tasks[s.current])
      && s2.minV == if Delta(c) == 0 then s.minV else Max(Min(Due(c), s2.tasks[s2.queue[0]].vruntime), s.minV)
  {
    EnqueueOk(s, s.current);
    var s1 := Yielding(s);
    var c, c1 := s.tasks[s.current], s1.tasks[s.current];
    assert c1 == c.(status := READY);
    assert Delta(c1) == Delta(c);
  }

  /** Where the yielding thread stands in the queue. */
  lemma {:induction false} YieldPlace(s: Sched) returns (p: nat)
    requires Inv(s)
    ensures p <= |s.queue| && Yielding(s).queue == InsertAt(s.queue, p, s.current)
    ensures var v := s.tasks[s.current].vruntime;
      && (forall i :: 0 <= i < p ==> s.tasks[s.queue[i]].vruntime <= v)
      && (forall i :: p <= i < |s.queue| ==> v < s.tasks[s.queue[i]].vruntime)
  {
    var c := s.tasks[s.current];
    p := Pos(s.queue, s.tasks[s.current := c.(status := READY)], c.vruntime);
    EnqueueEq(s, s.current);
    assert s.current !in s.queue;
    PosElsewhere(s.queue, s.tasks, s.current, c.(status := READY), c.vruntime);
  }

  /** A yield that overtakes nobody leaves the queue in order. */
  lemma {:induction false} YieldQueued(s: Sched)
    requires Inv(s) && YieldSafe(s)
    ensures QueueOk(Rekeyed(s))
  {
    var p := YieldPlace(s);
    var c := s.current;
    var s2 := Rekeyed(s);
    var task := s2.tasks[c];
    YieldEq(s);
    assert c !in s.queue;
    assert forall i :: 0 <= i < |s.queue| ==> s.queue[i] in s.queue;
    Placed(s, c, task, p);
    var s3 := s.(tasks := s.tasks[c := task], queue := InsertAt(s.queue, p, c));
    assert s2.tasks == s3.tasks;
    RaiseMin(s3, s2.minV);
    assert s2 == s3.(minV := s2.minV);
  }

  /** And it keeps the invariant. */
  lemma {:induction false} YieldKeeps(s: Sched)
    requires Inv(s) && YieldSafe(s)
    ensures YieldStep(s).Ok? && Inv(YieldStep(s).s)
  {
    YieldEq(s);
    YieldQueued(s);
    SwitchOk(Rekeyed(s));
  }

  lemma {:induction false} RaiseMin(s: Sched, m: nat)
    requires QueueOk(s) && s.queue != [] && m <= s.tasks[s.queue[0]].vruntime
    ensures QueueOk(s.(minV := m))
  {
    HeadLeast(s.queue, s.tasks);
  }

  /** A yield that overtakes some thread breaks it: the queue is out of order, or `minV` is above a queued thread. */
  lemma {:induction false} YieldBreaks(s: Sched)
    requires Inv(s) && !YieldSafe(s)
    ensures YieldStep(s).Ok? && !Inv(YieldStep(s).s)
  {
    var i := OvertakenThread(s);
    var p := YieldFacts(s);
    YieldOvertakes(Rekeyed(s), s.queue, p, s.current, i);
  }

  lemma {:induction false} YieldFacts(s: Sched) returns (p: nat)
    requires Inv(s)
    ensures var s2 := Rekeyed(s); var c := s.current;
      && YieldStep(s) == Ok(SwitchTo(s2, s2.queue[0]))
      && p <= |s.queue| && s2.queue == InsertAt(s.queue, p, c) && NoDup(s.queue) && c !in s.queue
      && s2.queue[0] in s2.tasks && c in s2.tasks && s2.tasks[c].vruntime == Due(s.tasks[c])
      && (forall i :: 0 <= i < |s.queue| ==> s.queue[i] in s2.tasks && s2.tasks[s.queue[i]] == s.tasks[s.queue[i]])
      && (forall i :: 0 <= i < p ==> s.tasks[s.queue[i]].vruntime <= s.tasks[c].vruntime)
      && (Delta(s.tasks[c]) > 0 ==>
           s2.tasks[c].vruntime <= s2.minV || s2.tasks[s2.queue[0]].vruntime < s2.tasks[c].vruntime)
  {
    p := YieldPlace(s);
    YieldEq(s);
    assert s.current !in s.queue by { assert s.tasks[s.current].status == RUNNING; }
    assert forall i :: 0 <= i < |s.queue| ==> s.queue[i] != s.current;
    var s2 := Rekeyed(s);
    assert s2.queue[0] == if p == 0 then s.current else s.queue[0];
  }

  lemma {:induction false} YieldOvertakes(s: Sched, q: seq<Tid>, p: nat, c: Tid, i: nat)
    requires p <= i < |q| && s.queue == InsertAt(q, p, c) && NoDup(q) && c !in q
    requires s.queue[0] in s.tasks && c in s.tasks && q[i] in s.tasks
    requires s.tasks[q[i]].vruntime < s.tasks[c].vruntime
    requires s.tasks[c].vruntime <= s.minV || s.tasks[s.queue[0]].vruntime < s.tasks[c].vruntime
    ensures !Inv(SwitchTo(s, s.queue[0]))
  {
    InsertElems(q, p, c);
    TailAt(q, p, c, i);
    Overtaken(s, q, p, c, i);
  }

  lemma {:induction false} OvertakenThread(s: Sched) returns (i: nat)
    requires WellFormed(s) && !YieldSafe(s)
    ensures i < |s.queue|
    ensures var c, u := s.tasks[s.current], s.tasks[s.queue[i]]; c.vruntime < u.vruntime < Due(c)
  {
    var u :| u in s.queue && s.tasks[s.current].vruntime < s.tasks[u].vruntime < Due(s.tasks[s.current]);
    i :| 0 <= i < |s.queue| && s.queue[i] == u;
  }

  lemma {:induction false} Overtaken(s: Sched, q: seq<Tid>, p: nat, c: Tid, i: nat)
    requires p <= i < |q| && s.queue == InsertAt(q, p, c) && NoDup(s.queue)
    requires s.queue[0] in s.tasks && c in s.tasks && q[i] in s.tasks
    requires s.tasks[q[i]].vruntime < s.tasks[c].vruntime && (p == 0 ==> s.tasks[q[i]].vruntime < s.minV)
    ensures !Inv(SwitchTo(s, s.queue[0]))
  {
    WithoutHead(s.queue);
    TailAt(q, p, c, i);
    var s' := SwitchTo(s, s.queue[0]);
    var r := s'.queue;
    assert r == s.queue[1..];
    if p == 0 {
      assert !Queued(r, s'.tasks, s'.minV);
    } else {
      assert r[p - 1] == c && r[i] == q[i];
      assert !Sorted(r, s'.tasks);
    }
  }

  lemma {:induction false} TailAt(q: seq<Tid>, p: nat, c: Tid, i: nat)
    requires p <= i < |q|
    ensures var r := InsertAt(q, p, c)[1..]; |r| == |q| && r[i] == q[i] && q[i] in r && (p > 0 ==> r[p - 1] == c)
    ensures p == 0 ==> InsertAt(q, p, c)[0] == c
  {
    var r := InsertAt(q, p, c)[1..];
    assert r[i] == q[i];
  }

  /** `thread_yield` keeps the scheduler's invariant exactly when it is safe in this sense; it never panics. */
  lemma {:induction false} YieldExact(s: Sched)
    requires Inv(s)
    ensures YieldStep(s).Ok?
    ensures Inv(YieldStep(s).s) <==> YieldSafe(s)
  {
    if YieldSafe(s) { YieldKeeps(s); } else { YieldBreaks(s); }
  }

  /** Such a state: `c` has run one tick unaccounted and `u` is closer than that tick is worth. */
  lemma {:induction false} YieldUnsafeExample(idle: Tid, c: Tid, u: Tid)
    requires idle != c && idle != u && c != u
    ensures var s :=
      Sched(map[idle := Task(BLOCKED, 0, 110, 0, 0, 0), c := Task(RUNNING, 0, 1024, 0, 1, 0),
                u := Task(READY, 100, 1024, 0, 0, 0)],
                           [u], 0, c, idle);
      Inv(s) && !YieldSafe(s) && YieldStep(s).Ok? && !Inv(YieldStep(s).s)
  {
    var s :=
      Sched(map[idle := Task(BLOCKED, 0, 110, 0, 0, 0), c := Task(RUNNING, 0, 1024, 0, 1, 0),
                u := Task(READY, 100, 1024, 0, 0, 0)],
                   [u], 0, c, idle);
    assert s.queue[0] == u;
    assert u in s.queue;
    assert Due(s.tasks[c]) == 256;
    YieldExact(s);
  }
}
