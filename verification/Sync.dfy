/**
 Semaphores and the re-entrant lock (code/thread/sync.c) as steps of any number of threads.

 Code that runs with interrupts off is one step. A thread that `sema_up` has woken is not let in: it checks the value
 again when it runs, and another thread may have taken the value before it.
 */
module Sync {
  import opened Common

  type Tid = nat

  // ---------- semaphores ----------

  /** A semaphore, and the threads that have been woken but have not checked again. */
  datatype Sem = Sem(value: nat, waiters: seq<Tid>, woken: set<Tid>)

  /** The check of `sema_down`, made by a thread that arrives or wakes up: it waits, or takes one off the value. */
  function Check(s: Sem, t: Tid): Sem {
    if s.value == 0 then Sem(0, s.waiters + [t], s.woken - {t}) else Sem(s.value - 1, s.waiters, s.woken - {t})
  }

  /** `sema_up`; the value is 8 bits wide, and the assertion after the increment fails when it wraps. */
  function Up(s: Sem): Option<Sem> {
    if s.value == 255 then None
    else if s.waiters == [] then Some(s.(value := s.value + 1))
    else Some(Sem(s.value + 1, s.waiters[1..], s.woken + {s.waiters[0]}))
  }

  datatype SemStep = Down(t: Tid) | Recheck(t: Tid) | Raise

  /** The thread named in a step is where the step needs it. */
  predicate Can(s: Sem, e: SemStep) {
    match e
    case Down(t) => t !in s.waiters && t !in s.woken
    case Recheck(t) => t in s.woken
    case Raise => s.value < 255
  }

  function SemNext(s: Sem, e: SemStep): Sem
    requires Can(s, e)
  {
    match e
    case Down(t) => Check(s, t)
    case Recheck(t) => Check(s, t)
    case Raise => Up(s).value
  }

  /** No wake-up is lost: while anyone waits, as many threads are about to check as the value lets in. */
  ghost predicate SemInv(s: Sem) {
    && NoDup(s.waiters) && (forall t <- s.waiters :: t !in s.woken)
    && (s.waiters != [] ==> |s.woken| >= s.value)
  }

  lemma {:induction false} SemKeeps(s: Sem, e: SemStep)
    requires SemInv(s) && Can(s, e)
    ensures SemInv(SemNext(s, e))
  {
    match e
    case Down(t) => CheckInv(s, t);
    case Recheck(t) => CheckInv(s, t);
    case Raise => UpInv(s);
  }

  lemma {:induction false} CheckInv(s: Sem, t: Tid)
    requires SemInv(s) && t !in s.waiters
    ensures SemInv(Check(s, t))
  {
    assert t in s.woken ==> |s.woken - {t}| == |s.woken| - 1;
    assert t !in s.woken ==> s.woken - {t} == s.woken;
  }

  lemma {:induction false} UpInv(s: Sem)
    requires SemInv(s) && s.value < 255
    ensures SemInv(Up(s).value)
  {
    if s.waiters != [] {
      var t := s.waiters[0];
      assert s.waiters == [t] + s.waiters[1..];
      assert t !in s.woken && |s.woken + {t}| == |s.woken| + 1;
      assert forall u <- s.waiters[1..] :: u in s.waiters && u != t;
    }
  }

  function SemRun(s: Sem, es: seq<SemStep>): (r: Option<Sem>)
    decreases |es|
  {
    if es == [] then Some(s) else if !Can(s, es[0]) then None else SemRun(SemNext(s, es[0]), es[1..])
  }

  /** After any run, from any initial value, no wake-up has been lost. */
  lemma {:induction false} NoLostWakeup(s: Sem, es: seq<SemStep>)
    requires SemInv(s)
    ensures SemRun(s, es).Some? ==> SemInv(SemRun(s, es).value)
    decreases |es|
  {
    if es != [] && Can(s, es[0]) {
      SemKeeps(s, es[0]);
      NoLostWakeup(SemNext(s, es[0]), es[1..]);
    }
  }

  /**
   The number of times a thread has been let in less the number of raises: the value falls by one for every thread let
   in and rises by one for every raise.
   */
  function LetIn(s: Sem, es: seq<SemStep>): int
    decreases |es|
  {
    if es == [] || !Can(s, es[0]) then 0
    else (if es[0] == Raise then -1 else if s.value > 0 then 1 else 0) + LetIn(SemNext(s, es[0]), es[1..])
  }

  lemma {:induction false} ValueCounts(s: Sem, es: seq<SemStep>)
    ensures SemRun(s, es).Some? ==> SemRun(s, es).value.value == s.value - LetIn(s, es)
    decreases |es|
  {
    if es != [] && Can(s, es[0]) {
      ValueCounts(SemNext(s, es[0]), es[1..]);
    }
  }

  /** The threads that begin to wait, in that order. */
  function Joins(s: Sem, es: seq<SemStep>): seq<Tid>
    decreases |es|
  {
    if es == [] || !Can(s, es[0]) then []
    else (if es[0] != Raise && s.value == 0 then [es[0].t] else []) + Joins(SemNext(s, es[0]), es[1..])
  }

  /** The thread that a step wakes, if any. */
  ghost function WokenBy(s: Sem, e: SemStep): seq<Tid>
    requires Can(s, e)
  {
    var up := SemNext(s, e).woken - s.woken;
    if up == {} then [] else var t :| t in up; [t]
  }

  /** The threads that are woken, in that order. */
  ghost function Wakes(s: Sem, es: seq<SemStep>): seq<Tid>
    decreases |es|
  {
    if es == [] || !Can(s, es[0]) then [] else WokenBy(s, es[0]) + Wakes(SemNext(s, es[0]), es[1..])
  }

  /** A raise wakes the first of those who wait; nothing else wakes anybody. */
  lemma {:induction false} OneWoken(s: Sem, e: SemStep)
    requires SemInv(s) && Can(s, e)
    ensures if e == Raise then WokenBy(s, e) + SemNext(s, e).waiters == s.waiters else WokenBy(s, e) == []
  {
    var up := SemNext(s, e).woken - s.woken;
    if e == Raise && s.waiters != [] {
      assert up == {s.waiters[0]};
    } else {
      assert up == {};
    }
  }

  /** First come, first woken: in every run, those who wait are those who came, less those who were woken, in order. */
  lemma {:induction false} FirstWoken(s: Sem, es: seq<SemStep>)
    requires SemInv(s) && SemRun(s, es).Some?
    ensures s.waiters + Joins(s, es) == Wakes(s, es) + SemRun(s, es).value.waiters
    decreases |es|
  {
    if es != [] {
      var s1, rest := SemNext(s, es[0]), Joins(SemNext(s, es[0]), es[1..]);
      SemKeeps(s, es[0]);
      FirstWoken(s1, es[1..]);
      OneWoken(s, es[0]);
      var end := SemRun(s, es).value.waiters;
      if es[0] == Raise {
        Join(WokenBy(s, es[0]), s1.waiters, rest);
        Join(WokenBy(s, es[0]), Wakes(s1, es[1..]), end);
      } else if s.value == 0 {
        Join(s.waiters, [es[0].t], rest);
      }
      assert [] + Wakes(s1, es[1..]) == Wakes(s1, es[1..]) && [] + rest == rest;
    }
  }

  // ---------- the lock ----------

  /** Where a thread is in `lock_acquire` and `lock_release`. */
  datatype Place =
    | Out                   // does not have the lock, and does not ask for it
    | Asking                // waits for the semaphore, or has been woken
    | Entered               // past `sema_down`, not yet the holder
    | Owner                 // the holder, the count not yet set
    | Held                  // has the lock, as often as the count says
    | Resigned              // no longer the holder, the count not yet cleared
    | Leaving               // before `sema_up`

  datatype Lock = Lock(sem: Sem, holder: Option<Tid>, repeat: nat, at: map<Tid, Place>)

  /** A step of thread `t`. */
  datatype Act = Acquire | Wake | Own | Count | Release | Clear | Leave

  datatype Result = Ok(lock: Lock) | Blocked | Failed

  /** The place of a thread after the check of `sema_down`. */
  function Checked(s: Sem): Place { if s.value == 0 then Asking else Entered }

  /** The first step of `lock_acquire`: once more for the holder, the semaphore for all others. */
  function Ask(k: Lock, t: Tid): Result
    requires t in k.at
  {
    if k.holder == Some(t)
      then Ok(k.(repeat := k.repeat + 1, at := k.at[t := Held]))
    else Ok(k.(sem := Check(k.sem, t), at := k.at[t := Checked(k.sem)]))
  }

  /** One step of thread `t`; `Blocked` when it is not at such a step, `Failed` when an assertion fails. */
  function Step(k: Lock, t: Tid, a: Act): Result
    requires t in k.at
  {
    match (a, k.at[t])
    case (Acquire, Out) => Ask(k, t)
    case (Acquire, Held) => Ask(k, t)
    case (Wake, Asking) => if t in k.sem.woken then Ok(k.(sem := Check(k.sem, t), at := k.at[t := Checked(k.sem)]))
      else Blocked
    case (Own, Entered) => Ok(k.(holder := Some(t), at := k.at[t := Owner]))
    case (Count, Owner) => if k.repeat != 0 then Failed else Ok(k.(repeat := 1, at := k.at[t := Held]))
    case (Release, Held) =>
      if k.holder != Some(t) then Failed
      else if k.repeat > 1 then Ok(k.(repeat := k.repeat - 1))
      else if k.repeat != 1 then Failed
      else Ok(k.(holder := None, at := k.at[t := Resigned]))
    case (Clear, Resigned) => Ok(k.(repeat := 0, at := k.at[t := Leaving]))
    case (Leave, Leaving) => if Up(k.sem).None? then Failed else Ok(k.(sem := Up(k.sem).value, at := k.at[t := Out]))
    case _ => Blocked
  }

  /** Between `sema_down` and `sema_up`. */
  predicate Inside(p: Place) { p.Entered? || p.Owner? || p.Held? || p.Resigned? || p.Leaving? }

  /** What the holder and the count say about a thread that is inside. */
  predicate Recorded(k: Lock, t: Tid, p: Place) {
    match p
    case Entered => k.holder == None && k.repeat == 0
    case Owner => k.holder == Some(t) && k.repeat == 0
    case Held => k.holder == Some(t) && k.repeat >= 1
    case Resigned => k.holder == None && k.repeat == 1
    case Leaving => k.holder == None && k.repeat == 0
    case _ => true
  }

  /** The threads that ask are those that wait or have been woken. */
  ghost predicate Askers(s: Sem, at: map<Tid, Place>) {
    && (forall t :: t in s.waiters || t in s.woken ==> t in at && at[t] == Asking)
    && (forall t <- at :: at[t] == Asking ==> t in s.waiters || t in s.woken)
  }

  /** No thread but perhaps `who` is inside. */
  ghost predicate Only(at: map<Tid, Place>, who: Option<Tid>) { forall t <- at :: Inside(at[t]) ==> who == Some(t) }

  /** Nobody is inside, and the value is 1; or `who` is, the value is 0, and holder and count describe `who`. */
  ghost predicate LockInv(k: Lock, who: Option<Tid>) {
    && SemInv(k.sem) && Askers(k.sem, k.at) && Only(k.at, who)
    && match who
       case None => k.sem.value == 1 && k.holder == None && k.repeat == 0
       case Some(t) => k.sem.value == 0 && t in k.at && Inside(k.at[t]) && Recorded(k, t, k.at[t])
  }

  /** Who is inside after a step. */
  function Who(k: Lock, t: Tid, a: Act, who: Option<Tid>): Option<Tid>
    requires t in k.at
  {
    if Step(k, t, a).Ok? && t in Step(k, t, a).lock.at then
      if Inside(Step(k, t, a).lock.at[t]) then Some(t) else if who == Some(t) then None else who
    else who
  }

  /** Every step keeps the invariant, and no assertion of `lock_acquire` and `lock_release` fails. */
  lemma {:induction false} LockKeeps(k: Lock, who: Option<Tid>, t: Tid, a: Act)
    requires LockInv(k, who) && t in k.at
    ensures !Step(k, t, a).Failed?
    ensures Step(k, t, a).Ok? ==> LockInv(Step(k, t, a).lock, Who(k, t, a, who))
  {
    var p, r := k.at[t], Step(k, t, a);
    if (a == Acquire && p == Out) || (a == Wake && p == Asking && t in k.sem.woken) {
      CheckKeeps(k, who, t);
    } else if a == Leave && p == Leaving {
      LeaveKeeps(k, t);
    } else {
      InsideKeeps(k, who, t, a);
    }
  }

  /** The other steps are those of the thread inside. */
  lemma {:induction false} InsideKeeps(k: Lock, who: Option<Tid>, t: Tid, a: Act)
    requires LockInv(k, who) && t in k.at && !(a == Acquire && k.at[t] == Out)
    requires !(a == Wake && k.at[t] == Asking && t in k.sem.woken) && !(a == Leave && k.at[t] == Leaving)
    ensures !Step(k, t, a).Failed?
    ensures Step(k, t, a).Ok? ==> LockInv(Step(k, t, a).lock, Who(k, t, a, who))
  {
    var r := Step(k, t, a);
    if r.Ok? { MoveKeeps(k, t, r.lock); }
  }

  /** A step of the thread inside that does not touch the semaphore. */
  lemma {:induction false} MoveKeeps(k: Lock, t: Tid, k1: Lock)
    requires LockInv(k, Some(t)) && t in k1.at && k1.sem == k.sem && k1.at == k.at[t := k1.at[t]] && Inside(k1.at[t])
    requires Recorded(k1, t, k1.at[t])
    ensures LockInv(k1, Some(t))
  {
    assert Askers(k1.sem, k1.at);
  }

  lemma {:induction false} CheckAskers(s: Sem, at: map<Tid, Place>, t: Tid)
    requires Askers(s, at) && t in at && t !in s.waiters && (at[t] == Out || t in s.woken)
    ensures Askers(Check(s, t), at[t := Checked(s)])
  {
    var s1 := Check(s, t);
    assert forall u :: u in s1.waiters <==> u in s.waiters || (s.value == 0 && u == t);
  }

  lemma {:induction false} CheckKeeps(k: Lock, who: Option<Tid>, t: Tid)
    requires LockInv(k, who) && t in k.at && (k.at[t] == Out || t in k.sem.woken)
    ensures LockInv(k.(sem := Check(k.sem, t), at := k.at[t := Checked(k.sem)]), if k.sem.value == 0 then who
      else Some(t))
  {
    CheckInv(k.sem, t);
    CheckAskers(k.sem, k.at, t);
  }

  lemma {:induction false} LeaveKeeps(k: Lock, t: Tid)
    requires LockInv(k, Some(t)) && t in k.at && k.at[t] == Leaving
    ensures Up(k.sem).Some? && LockInv(k.(sem := Up(k.sem).value, at := k.at[t := Out]), None)
  {
    UpInv(k.sem);
    UpAskers(k.sem, k.at, t);
  }

  lemma {:induction false} UpAskers(s: Sem, at: map<Tid, Place>, t: Tid)
    requires Askers(s, at) && t in at && at[t] == Leaving && s.value < 255 && SemInv(s)
    ensures Askers(Up(s).value, at[t := Out])
  {
    if s.waiters != [] {
      assert s.waiters == [s.waiters[0]] + s.waiters[1..];
      assert forall u :: u in s.waiters <==> u == s.waiters[0] || u in s.waiters[1..];
    }
  }

  // ---------- runs ----------

  /** A run of steps, each by some thread; the run stops where a thread is not at its step. */
  function Run(k: Lock, steps: seq<(Tid, Act)>): Result
    decreases |steps|
  {
    if steps == [] then Ok(k)
    else if steps[0].0 !in k.at then Blocked
    else
      var r := Step(k, steps[0].0, steps[0].1);
      if r.Ok? then Run(r.lock, steps[1..]) else r
  }

  /** `lock_init`, with any threads. */
  function Init(threads: set<Tid>): Lock { Lock(Sem(1, [], {}), None, 0, map t | t in threads :: Out) }

  lemma {:induction false} RunKeeps(k: Lock, who: Option<Tid>, steps: seq<(Tid, Act)>) returns (who': Option<Tid>)
    requires LockInv(k, who)
    ensures !Run(k, steps).Failed?
    ensures Run(k, steps).Ok? ==> LockInv(Run(k, steps).lock, who')
    decreases |steps|
  {
    who' := who;
    if steps != [] && steps[0].0 in k.at {
      LockKeeps(k, who, steps[0].0, steps[0].1);
      var r := Step(k, steps[0].0, steps[0].1);
      if r.Ok? {
        who' := RunKeeps(r.lock, Who(k, steps[0].0, steps[0].1, who), steps[1..]);
      }
    }
  }

  /**
   In every run of any number of threads: no assertion fails; two threads are never between `sema_down` and `sema_up`
   together; and while the lock is free and somebody waits, somebody is about to try again.
   */
  lemma {:induction false} LockSafe(threads: set<Tid>, steps: seq<(Tid, Act)>)
    ensures !Run(Init(threads), steps).Failed?
    ensures Run(Init(threads), steps).Ok? ==>
      var k := Run(Init(threads), steps).lock;
      && (forall t, u :: t in k.at && u in k.at && Inside(k.at[t]) && Inside(k.at[u]) ==> t == u)
      && (k.sem.value == 1 <==> forall t <- k.at :: !Inside(k.at[t]))
      && (forall t <- k.at :: k.at[t].Held? ==> k.holder == Some(t))
      && (k.sem.value == 1 && k.sem.waiters != [] ==> k.sem.woken != {})
  {
    var who := RunKeeps(Init(threads), None, steps);
  }

  // ---------- nested acquires ----------

  /** The calls of `lock_acquire` that thread `t` has begun less its calls of `lock_release`. */
  function Balance(steps: seq<(Tid, Act)>, t: Tid): int
    decreases |steps|
  {
    if steps == [] then 0 else Call(steps[0], t) + Balance(steps[1..], t)
  }

  function Call(step: (Tid, Act), t: Tid): int {
    if step == (t, Acquire) then 1 else if step == (t, Release) then -1 else 0
  }

  /** The place of a thread, and for the one that has the lock the count, agree with its balance `b`. */
  predicate Matches(k: Lock, t: Tid, b: int)
    requires t in k.at
  {
    match k.at[t]
    case Held => k.repeat == b >= 1
    case Asking => b == 1
    case Entered => b == 1
    case Owner => b == 1
    case _ => b == 0
  }

  ghost predicate AllMatch(k: Lock, bal: map<Tid, int>) {
    bal.Keys == k.at.Keys && forall t <- k.at :: Matches(k, t, bal[t])
  }

  lemma {:induction false} StepMatches(k: Lock, who: Option<Tid>, t: Tid, a: Act, bal: map<Tid, int>)
    requires LockInv(k, who) && t in k.at && Step(k, t, a).Ok? && AllMatch(k, bal)
    ensures AllMatch(Step(k, t, a).lock, bal[t := bal[t] + Call((t, a), t)])
  {
    var k1, bal1 := Step(k, t, a).lock, bal[t := bal[t] + Call((t, a), t)];
    forall u | u in k1.at ensures Matches(k1, u, bal1[u]) {
      assert Matches(k, u, bal[u]);
    }
  }

  lemma {:induction false} StepOk(k: Lock, who: Option<Tid>, t: Tid, a: Act) returns (who': Option<Tid>)
    requires LockInv(k, who) && t in k.at && Step(k, t, a).Ok?
    ensures LockInv(Step(k, t, a).lock, who')
  {
    LockKeeps(k, who, t, a);
    who' := Who(k, t, a, who);
  }

  lemma {:induction false} RunMatches(k: Lock, who: Option<Tid>, steps: seq<(Tid, Act)>, bal: map<Tid, int>, t: Tid)
    requires LockInv(k, who) && AllMatch(k, bal) && t in k.at
    ensures Run(k, steps).Ok? ==>
      t in Run(k, steps).lock.at && Matches(Run(k, steps).lock, t, bal[t] + Balance(steps, t))
    decreases |steps|
  {
    if steps != [] && steps[0].0 in k.at {
      var (u, a) := steps[0];
      var r := Step(k, u, a);
      if r.Ok? {
        var who' := StepOk(k, who, u, a);
        StepMatches(k, who, u, a, bal);
        RunMatches(r.lock, who', steps[1..], bal[u := bal[u] + Call((u, a), u)], t);
      }
    }
  }

  /**
   In every run, for every thread: while it has the lock, the count is the number of its calls of `lock_acquire` less
   those of `lock_release`; and it has given the lock up, or never had it, exactly when these are equal.
   */
  lemma {:induction false} CountIsBalance(threads: set<Tid>, steps: seq<(Tid, Act)>, t: Tid)
    requires t in threads && Run(Init(threads), steps).Ok?
    ensures var k := Run(Init(threads), steps).lock;
      && t in k.at && Balance(steps, t) >= 0
      && (k.at[t] == Held ==> k.holder == Some(t) && k.repeat == Balance(steps, t))
      && (Balance(steps, t) == 0 <==> k.at[t] == Out || k.at[t] == Resigned || k.at[t] == Leaving)
  {
    var bal := map u: Tid | u in threads :: 0;
    RunMatches(Init(threads), None, steps, bal, t);
    var who := RunKeeps(Init(threads), None, steps);
  }

  lemma {:induction false} RunSplit(k: Lock, a: seq<(Tid, Act)>, b: seq<(Tid, Act)>)
    requires Run(k, a).Ok?
    ensures Run(k, a + b) == Run(Run(k, a).lock, b)
    decreases |a|
  {
    if a == [] {
      assert a + b == b;
    } else {
      assert (a + b)[1..] == a[1..] + b;
      RunSplit(Step(k, a[0].0, a[0].1).lock, a[1..], b);
    }
  }

  lemma {:induction false} BalanceSplit(a: seq<(Tid, Act)>, b: seq<(Tid, Act)>, t: Tid)
    ensures Balance(a + b, t) == Balance(a, t) + Balance(b, t)
    decreases |a|
  {
    if a == [] {
      assert a + b == b;
    } else {
      assert (a + b)[1..] == a[1..] + b;
      BalanceSplit(a[1..], b, t);
    }
  }

  /** A release by the thread that has the lock gives it up exactly when it matches the first acquire. */
  lemma {:induction false} LastRelease(threads: set<Tid>, steps: seq<(Tid, Act)>, t: Tid)
    requires t in threads && Run(Init(threads), steps).Ok?
    requires t in Run(Init(threads), steps).lock.at && Run(Init(threads), steps).lock.at[t] == Held
    ensures var r := Run(Init(threads), steps + [(t, Release)]);
      && r.Ok? && t in r.lock.at
      && (if Balance(steps, t) == 1 then r.lock.at[t] == Resigned && r.lock.holder == None
          else r.lock.at[t] == Held && r.lock.holder == Some(t))
  {
    CountIsBalance(threads, steps, t);
    RunSplit(Init(threads), steps, [(t, Release)]);
    var k := Run(Init(threads), steps).lock;
    var r := Step(k, t, Release);
    assert [(t, Release)][1..] == [];
    assert Run(k, [(t, Release)]) == r;
  }

  // ---------- nobody is held up ----------

  /** The steps with which a thread that has the lock `n` times leaves it. */
  function Exit(t: Tid, n: nat): seq<(Tid, Act)> {
    if n == 0 then [(t, Clear), (t, Leave)] else [(t, Release)] + Exit(t, n - 1)
  }

  /** A thread that has the lock leaves it by as many releases as it has acquires, and the lock is free. */
  lemma {:induction false} Leaves(k: Lock, t: Tid)
    requires LockInv(k, Some(t)) && k.at[t] == Held
    ensures var r := Run(k, Exit(t, k.repeat)); r.Ok? && LockInv(r.lock, None) && r.lock.at == k.at[t := Out]
    decreases k.repeat
  {
    var r := Step(k, t, Release);
    LockKeeps(k, Some(t), t, Release);
    assert Exit(t, k.repeat)[1..] == Exit(t, k.repeat - 1);
    if k.repeat > 1 {
      Leaves(r.lock, t);
      assert r.lock.at[t := Out] == k.at[t := Out];
    } else {
      Resigns(r.lock, t);
      assert r.lock.at[t := Out] == k.at[t := Out];
    }
  }

  lemma {:induction false} Resigns(k: Lock, t: Tid)
    requires LockInv(k, Some(t)) && k.at[t] == Resigned
    ensures var r := Run(k, Exit(t, 0)); r.Ok? && LockInv(r.lock, None) && r.lock.at == k.at[t := Out]
  {
    var e: seq<(Tid, Act)> := Exit(t, 0);
    var k1 := Step(k, t, Clear).lock;
    LockKeeps(k, Some(t), t, Clear);
    LeaveKeeps(k1, t);
    assert e[1..] == [(t, Leave)] && e[1..][1..] == [];
    assert Run(k1, e[1..]) == Step(k1, t, Leave);
    assert k1.at[t := Out] == k.at[t := Out];
  }

  /** Past the semaphore, a thread becomes the holder, once. */
  lemma {:induction false} Settles(k: Lock, t: Tid)
    requires LockInv(k, Some(t)) && k.at[t] == Entered
    ensures var r := Run(k, [(t, Own), (t, Count)]);
      r.Ok? && LockInv(r.lock, Some(t)) && r.lock.at == k.at[t := Held] && r.lock.repeat == 1
  {
    var e: seq<(Tid, Act)> := [(t, Own), (t, Count)];
    LockKeeps(k, Some(t), t, Own);
    var k1 := Step(k, t, Own).lock;
    LockKeeps(k1, Some(t), t, Count);
    assert e[1..] == [(t, Count)] && e[1..][1..] == [];
    assert Run(k1, e[1..]) == Step(k1, t, Count);
    assert k1.at[t := Held] == k.at[t := Held];
  }

  /** Into a free lock, a thread gets from outside, or when it has been woken. */
  lemma {:induction false} Enters(k: Lock, t: Tid)
    requires LockInv(k, None) && t in k.at && (k.at[t] == Out || t in k.sem.woken)
    ensures var first := if k.at[t] == Out then Acquire else Wake;
      var r := Run(k, [(t, first)] + [(t, Own), (t, Count)]);
      r.Ok? && LockInv(r.lock, Some(t)) && r.lock.at == k.at[t := Held] && r.lock.repeat == 1
  {
    var first := if k.at[t] == Out then Acquire else Wake;
    LockKeeps(k, None, t, first);
    var k1 := Step(k, t, first).lock;
    Settles(k1, t);
    assert ([(t, first)] + [(t, Own), (t, Count)])[1..] == [(t, Own), (t, Count)];
    assert k1.at[t := Held] == k.at[t := Held];
  }
}
