/**
 The scheduler (code/kernel/sched.c, code/thread/thread.c, code/device/timer.c) over plain values: the ready queue
 is a sequence of threads. Counters are unbounded; the 32-bit shift in `calc_vruntime_delta` is written out.
 */
module SchedSpec {
  import opened Common
  import opened RbShape

  datatype Status = RUNNING | READY | BLOCKED | WAITING | HANGING | DIED

  /** The fields of `task_struct` that scheduling uses. */
  datatype Task = Task(status: Status, vruntime: nat, weight: nat, execStart: nat, elapsed: nat, sumExec: nat)

  /** A thread is known by the tree node embedded in it, as `rb_entry` does. */
  type Tid = Node

  datatype Sched = Sched(tasks: map<Tid, Task>, queue: seq<Tid>, minV: nat, current: Tid, idle: Tid)

  /** A step ends in a new state or in a failed ASSERT. */
  datatype Outcome = Ok(s: Sched) | Panic

  // ---------- weights and virtual time ----------

  const PRIO_TO_WEIGHT: seq<nat> := [
    88761, 71755, 56483, 46273, 36291,
    29154, 23254, 18705, 14949, 11916,
    9548, 7620, 6100, 4904, 3906,
    3121, 2501, 1991, 1586, 1277,
    1024, 820, 655, 526, 423,
    335, 272, 215, 172, 137,
    110, 87, 70, 56, 45,
    36, 29, 23, 18, 15
  ]

  /** `nice_to_weight` */
  function NiceToWeight(nice: int): (w: nat)
    ensures 15 <= w <= 88761
  {
    var n := if nice < -20 then -20 else if nice > 19 then 19 else nice;
    PRIO_TO_WEIGHT[n + 20]
  }

  const TWO64: nat := 0x1_0000_0000_0000_0000

  /** The vruntime added for `delta` ticks: at least 1, and computed in 32 bits. */
  function VDelta(weight: nat, delta: nat): (d: nat)
    ensures d >= 1
  {
    var w := if weight == 0 then 1024 else weight;
    var scaled := ((delta % TWO32) * 0x40000) % TWO32;
    var d := scaled / w;
    if d == 0 then 1 else d
  }

  /**
   It is the weighted time the design calls for, `delta * 2^18 / weight` and at least 1, exactly below 16384 ticks; the
   shift wraps from there on.
   */
  lemma {:induction false} VDeltaExact(w: nat, delta: nat)
    requires 15 <= w <= 88761 && delta < TWO32
    ensures VDelta(w, delta) == Max(1, delta * 0x40000 / w) <==> delta < 0x4000
  {
    var p := delta * 0x40000;
    var scaled := p % TWO32;
    if delta >= 0x4000 {
      assert p >= TWO32 && scaled <= p - TWO32;
      Further(p, scaled, w);
    }
  }

  lemma {:induction false} AtLeast(p: nat, w: nat, k: nat)
    requires w > 0 && k * w <= p
    ensures p / w >= k
  {
    var q := p / w;
    assert p < q * w + w;
    if q < k { Times(q + 1, k, w); }
  }

  lemma {:induction false} Further(p: nat, s: nat, w: nat)
    requires w > 0 && s + 2 * w <= p
    ensures p / w >= s / w + 2
  {
    var q := s / w;
    assert q * w <= s;
    assert (q + 2) * w == q * w + 2 * w;
    AtLeast(p, w, q + 2);
  }

  lemma {:induction false} AtMost(p: nat, w: nat, k: nat)
    requires w > 0 && p < (k + 1) * w
    ensures p / w <= k
  {
    var q := p / w;
    assert q * w <= p;
    if q > k { Times(k + 1, q, w); }
  }

  lemma {:induction false} Times(a: nat, b: nat, w: nat)
    requires a <= b
    ensures a * w <= b * w
  {
  }

  /** One scheduling period adds between 8 and 52428 to the virtual time, whatever the priority. */
  lemma {:induction false} VDeltaBounds(w: nat)
    requires 15 <= w <= 88761
    ensures 8 <= VDelta(w, SCHED_LATENCY_TICKS) <= 52428
  {
    AtLeast(786432, w, 8);
    AtMost(786432, w, 52428);
  }

  /** Ticks not yet accounted, as a 64-bit difference. */
  function Delta(t: Task): nat {
    if t.elapsed >= t.execStart then t.elapsed - t.execStart else (t.elapsed + TWO64 - t.execStart % TWO64) % TWO64
  }

  function Max(a: nat, b: nat): nat { if a < b then b else a }

  function Min(a: nat, b: nat): nat { if b < a then b else a }

  // ---------- the queue ----------

  ghost predicate WellFormed(s: Sched) {
    && s.current in s.tasks && s.idle in s.tasks
    && forall i :: 0 <= i < |s.queue| ==> s.queue[i] in s.tasks
  }

  /** The number of threads before the place where a thread of virtual time `v` goes. */
  function Pos(q: seq<Tid>, tasks: map<Tid, Task>, v: nat): (p: nat)
    requires forall i :: 0 <= i < |q| ==> q[i] in tasks
    ensures p <= |q|
  {
    if q == [] || v < tasks[q[0]].vruntime then 0 else 1 + Pos(q[1..], tasks, v)
  }

  function InsertAt(q: seq<Tid>, p: nat, t: Tid): seq<Tid>
    requires p <= |q|
  {
    q[..p] + [t] + q[p..]
  }

  /**
   Where the walk through the tree ends. In a queue that is in order this is the place of the virtual time, `InOrder`;
   in one that is not, it depends on the shape of the tree and may be any place.
   */
  datatype Place = InOrder | Anywhere(p: nat)

  function PlaceOf(s: Sched, v: nat, at: Place): (p: nat)
    requires forall i :: 0 <= i < |s.queue| ==> s.queue[i] in s.tasks
    ensures p <= |s.queue|
  {
    if at.InOrder? then Pos(s.queue, s.tasks, v) else Min(at.p, |s.queue|)
  }

  /** `enqueue_task` */
  function Enqueue(s: Sched, t: Tid, at: Place := InOrder): (s': Sched)
    requires t in s.tasks && forall i :: 0 <= i < |s.queue| ==> s.queue[i] in s.tasks
  {
    var v := Max(s.tasks[t].vruntime, s.minV);
    var p := PlaceOf(s, v, at);
    s.(tasks := s.tasks[t := s.tasks[t].(vruntime := v)], queue := InsertAt(s.queue, p, t))
  }

  function Without(q: seq<Tid>, t: Tid): seq<Tid> {
    if q == [] then [] else if q[0] == t then q[1..] else [q[0]] + Without(q[1..], t)
  }

  /** `update_curr` */
  function UpdateCurr(s: Sched, t: Tid): (s': Sched)
    requires t in s.tasks && forall i :: 0 <= i < |s.queue| ==> s.queue[i] in s.tasks
    ensures s'.tasks.Keys == s.tasks.Keys && s'.queue == s.queue && s'.current == s.current && s'.idle == s.idle
    ensures s'.tasks == s.tasks[t := s'.tasks[t]] && s.minV <= s'.minV
    ensures Delta(s'.tasks[t]) == 0 && s'.tasks[t].status == s.tasks[t].status
    ensures s.tasks[t].vruntime <= s'.tasks[t].vruntime
  {
    var task := s.tasks[t];
    var delta := Delta(task);
    if delta == 0 then s
    else
      var w := if task.weight == 0 then 1024 else task.weight;
      var task' :=
        task.(weight := w, vruntime := task.vruntime + VDelta(w, delta), execStart := task.elapsed,
              sumExec := task.sumExec + delta);
      var tasks := s.tasks[t := task'];
      var least := if s.queue == [] then task'.vruntime else Min(task'.vruntime, tasks[s.queue[0]].vruntime);
      s.(tasks := tasks, minV := Max(least, s.minV))
  }

  // ---------- switching ----------

  /** The end of `schedule`: take `n` off the queue and run it. */
  function SwitchTo(s: Sched, n: Tid): Sched
    requires n in s.tasks
  {
    var t := s.tasks[n];
    s.(queue := Without(s.queue, n), tasks := s.tasks[n := t.(status := RUNNING, execStart := t.elapsed)], current := n)
  }

  predicate Asleep(t: Task) { t.status == BLOCKED || t.status == WAITING || t.status == HANGING }

  function SetStatus(s: Sched, t: Tid, k: Status): Sched
    requires t in s.tasks
  {
    s.(tasks := s.tasks[t := s.tasks[t].(status := k)])
  }

  /** `thread_unblock` */
  function Unblock(s: Sched, t: Tid, at: Place := InOrder): Outcome
    requires t in s.tasks && forall i :: 0 <= i < |s.queue| ==> s.queue[i] in s.tasks
  {
    if !Asleep(s.tasks[t]) then Panic
    else Ok(Enqueue(SetStatus(s, t, READY), t, at))
  }

  /** `schedule` up to the choice of the next thread: account for the current one and queue it if it still runs. */
  function Requeue(s: Sched, at: Place := InOrder): (s': Sched)
    requires WellFormed(s)
    ensures WellFormed(s') && s'.current == s.current && s'.idle == s.idle
  {
    var s1 := UpdateCurr(s, s.current);
    if s1.tasks[s.current].status == RUNNING then Enqueue(SetStatus(s1, s.current, READY), s.current, at) else s1
  }

  /** The choice of the next thread in `schedule`. The code's last fallback is unreachable. */
  function Dispatch(s: Sched): Outcome
    requires WellFormed(s)
  {
    if s.queue != [] then Ok(SwitchTo(s, s.queue[0]))
    else if s.current == s.idle then Ok(SetStatus(s, s.idle, RUNNING))
    else
      match Unblock(s, s.idle)
      case Panic => Panic
      case Ok(s') => if s'.queue != [] then Ok(SwitchTo(s', s'.queue[0])) else assert false; Panic
  }

  /** `schedule` */
  function Schedule(s: Sched, at: Place := InOrder): Outcome
    requires WellFormed(s)
  {
    Dispatch(Requeue(s, at))
  }

  // ---------- the steps of the machine ----------

  datatype Step =
    | Start(t: Tid, nice: int)
    | Tick
    | Block(stat: Status)
    | Wake(t: Tid)
    | Yield

  const SCHED_LATENCY_TICKS: nat := 3

  /** `timer_interrupt_handler` */
  function TickStep(s: Sched, at: Place := InOrder): Outcome
    requires WellFormed(s)
  {
    var t := s.tasks[s.current];
    var s1 := s.(tasks := s.tasks[s.current := t.(elapsed := t.elapsed + 1)]);
    if Delta(s1.tasks[s.current]) >= SCHED_LATENCY_TICKS then Schedule(s1, at) else Ok(s1)
  }

  /** `thread_block` */
  function BlockStep(s: Sched, stat: Status): Outcome
    requires WellFormed(s)
  {
    if stat != BLOCKED && stat != WAITING && stat != HANGING then Panic
    else Schedule(SetStatus(s, s.current, stat))
  }

  /** `thread_start`: a fresh thread is queued. */
  function StartStep(s: Sched, t: Tid, nice: int, at: Place := InOrder): Sched
    requires WellFormed(s)
  {
    Enqueue(s.(tasks := s.tasks[t := Task(READY, 0, NiceToWeight(nice), 0, 0, 0)]), t, at)
  }

  /** `thread_yield`: the thread is queued first and accounted for afterwards. */
  function YieldStep(s: Sched, at: Place := InOrder): Outcome
    requires WellFormed(s)
  {
    Schedule(Enqueue(SetStatus(s, s.current, READY), s.current, at))
  }

  function Apply(s: Sched, step: Step, at: Place := InOrder): Outcome
    requires WellFormed(s)
  {
    match step
    case Start(t, nice) => Ok(StartStep(s, t, nice, at))
    case Tick => TickStep(s, at)
    case Block(stat) => BlockStep(s, stat)
    case Wake(t) => if t in s.tasks then Unblock(s, t, at) else Panic
    case Yield => YieldStep(s, at)
  }
}
