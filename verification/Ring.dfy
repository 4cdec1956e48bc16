/**
 The ring buffer between the keyboard and its readers (code/device/ioqueue.c, code/device/keyboard.c), as steps of one
 producer, which looks at `ioq_full` first, and one consumer. The lock is taken and given back as in module `Sync`.
 */
module Ring {
  import opened Common

  const SIZE: nat := 64

  /** Where the producer is in `ioq_putchar`. */
  datatype Producer = Ready | Checked | Admitted | Locked | Stored | Advanced | Unlocked

  /** Where the consumer is in `ioq_getchar`; `taken` is the byte it has read. */
  datatype Consumer = Idle | Waiting | Woken | Let | Held | Taken(taken: Byte) | Moved | Free

  datatype Owner = Nobody | ByProducer | ByConsumer

  /** The queue, both threads, and all bytes ever written and read. */
  datatype Queue = Queue(buf: seq<Byte>, head: nat, tail: nat, hasData: nat, hasSpace: nat, lock: Owner,
                         prod: Producer, cons: Consumer, byte: Byte, written: seq<Byte>, read: seq<Byte>)

  function NextPos(pos: nat): nat { (pos + 1) % SIZE }

  predicate IsFull(q: Queue) { NextPos(q.head) == q.tail }
  predicate IsEmpty(q: Queue) { q.head == q.tail }

  /**
   `Disabled`: the thread cannot run now. `Stuck`: the producer would wait for space. `Failed`: an assertion fails.
   */
  datatype Outcome = Ok(queue: Queue) | Disabled | Stuck | Failed

  /** A step of the producer; `b` is the byte that a key gives when it is ready for one. */
  function Put(q: Queue, b: Byte): Outcome
    requires |q.buf| == SIZE && q.head < SIZE
  {
    match q.prod
    case Ready => if IsFull(q) then Ok(q) else Ok(q.(prod := Checked, byte := b))
    case Checked => if q.hasSpace == 0 then Stuck else Ok(q.(prod := Admitted, hasSpace := q.hasSpace - 1))
    case Admitted => if q.lock != Nobody then Disabled else Ok(q.(prod := Locked, lock := ByProducer))
    case Locked => if IsFull(q) then Failed else Ok(q.(prod := Stored, buf := q.buf[q.head := q.byte]))
    case Stored => Ok(q.(prod := Advanced, head := NextPos(q.head), written := q.written + [q.byte]))
    case Advanced => Ok(q.(prod := Unlocked, lock := Nobody))
    case Unlocked =>
      if q.hasData == 255 then Failed
      else Ok(q.(prod := Ready, hasData := q.hasData + 1, cons := if q.cons == Waiting then Woken else q.cons))
  }

  /** A step of the consumer. */
  function Get(q: Queue): Outcome
    requires |q.buf| == SIZE && q.tail < SIZE
  {
    match q.cons
    case Waiting => Disabled
    case Let => if q.lock != Nobody then Disabled else Ok(q.(cons := Held, lock := ByConsumer))
    case Held => if IsEmpty(q) then Failed else Ok(q.(cons := Taken(q.buf[q.tail])))
    case Taken(b) => Ok(q.(cons := Moved, tail := NextPos(q.tail), read := q.read + [b]))
    case Moved => Ok(q.(cons := Free, lock := Nobody))
    case Free => if q.hasSpace == 255 then Failed else Ok(q.(cons := Idle, hasSpace := q.hasSpace + 1))
    case _ => if q.hasData == 0 then Ok(q.(cons := Waiting)) else Ok(q.(cons := Let, hasData := q.hasData - 1))
  }

  // ---------- what every step keeps ----------

  function Written(q: Queue): nat { |q.written| }
  function Count(q: Queue): int { |q.written| - |q.read| }

  /** The producer has advanced the head but not raised `hasData`. */
  function Unraised(q: Queue): nat { if q.prod.Advanced? || q.prod.Unlocked? then 1 else 0 }
  /** The consumer has been let in but has not advanced the tail. */
  function Untaken(q: Queue): nat { if q.cons.Let? || q.cons.Held? || q.cons.Taken? then 1 else 0 }
  /** The producer has been let in but has not advanced the head. */
  function Unstored(q: Queue): nat { if q.prod.Admitted? || q.prod.Locked? || q.prod.Stored? then 1 else 0 }
  /** The consumer has advanced the tail but not raised `hasSpace`. */
  function Unfreed(q: Queue): nat { if q.cons.Moved? || q.cons.Free? then 1 else 0 }

  /** Positions and semaphores agree with what has been written and read. */
  predicate Counted(q: Queue) {
    && 0 <= Count(q) <= SIZE - 1
    && q.head == |q.written| % SIZE && q.tail == |q.read| % SIZE
    && q.hasData == Count(q) - Unraised(q) - Untaken(q)
    && q.hasSpace == SIZE - Count(q) - Unstored(q) - Unfreed(q)
    && (q.prod.Checked? || Unstored(q) == 1 ==> Count(q) <= SIZE - 2)
    && (q.cons == Waiting ==> q.hasData == 0)
  }

  /** What has been written and not read is in the buffer, and what has been read was written. */
  ghost predicate Stocked(q: Queue) {
    && |q.buf| == SIZE && |q.read| <= |q.written|
    && (forall k :: 0 <= k < |q.read| ==> q.read[k] == q.written[k])
    && (forall k :: |q.read| <= k < |q.written| ==> q.buf[k % SIZE] == q.written[k])
    && (q.prod.Stored? ==> q.buf[|q.written| % SIZE] == q.byte)
    && (q.cons.Taken? ==> |q.read| < |q.written| && q.cons.taken == q.written[|q.read|])
  }

  predicate LockOk(q: Queue) {
    && (q.lock == ByProducer <==> q.prod.Locked? || q.prod.Stored? || q.prod.Advanced?)
    && (q.lock == ByConsumer <==> q.cons.Held? || q.cons.Taken? || q.cons.Moved?)
  }

  ghost predicate Inv(q: Queue) { Counted(q) && Stocked(q) && LockOk(q) }

  lemma {:induction false} Positions(w: nat, r: nat)
    requires r <= w <= r + SIZE - 1
    ensures NextPos(w % SIZE) == (w + 1) % SIZE
    ensures forall k :: r <= k < w ==> k % SIZE != w % SIZE
  {
    forall k | r <= k < w ensures k % SIZE != w % SIZE {
      Apart(k, w);
    }
    NextOf(w);
  }

  /** Positions in the ring: the head meets the tail only when nothing or everything is in use. */
  lemma {:induction false} Meet(w: nat, r: nat)
    requires r <= w <= r + SIZE - 1
    ensures NextPos(w % SIZE) == (w + 1) % SIZE
    ensures NextPos(w % SIZE) == r % SIZE <==> w - r == SIZE - 1
    ensures w % SIZE == r % SIZE <==> w == r
  {
    NextOf(w);
    if w == r + SIZE - 1 { Around(r); } else { Apart(r, w + 1); }
    if r < w { Apart(r, w); }
  }

  lemma {:induction false} NextOf(w: nat)
    ensures NextPos(w % SIZE) == (w + 1) % SIZE
  {
    var q, r := w / SIZE, w % SIZE;
    if r + 1 < SIZE { Digit(w + 1, q, r + 1); } else { Digit(w + 1, q + 1, 0); }
  }

  lemma {:induction false} Digit(x: nat, q: nat, r: nat)
    requires x == SIZE * q + r && r < SIZE
    ensures x % SIZE == r
  {
  }

  lemma {:induction false} Around(r: nat)
    ensures (r + SIZE) % SIZE == r % SIZE
  {
  }

  lemma {:induction false} Apart(k: nat, w: nat)
    requires k < w < k + SIZE
    ensures k % SIZE != w % SIZE
  {
    assert w == k + (w - k);
  }

  lemma {:induction false} PutCounted(q: Queue, b: Byte)
    requires |q.buf| == SIZE && Counted(q)
    ensures !Put(q, b).Failed? && !Put(q, b).Stuck?
    ensures Put(q, b).Ok? ==> Counted(Put(q, b).queue)
  {
    Meet(|q.written|, |q.read|);
  }

  lemma {:induction false} PutLock(q: Queue, b: Byte)
    requires |q.buf| == SIZE && q.head < SIZE && LockOk(q)
    ensures Put(q, b).Ok? ==> LockOk(Put(q, b).queue)
  {
  }

  lemma {:induction false} PutStocked(q: Queue, b: Byte)
    requires Inv(q) && Put(q, b).Ok?
    ensures Stocked(Put(q, b).queue)
  {
    Positions(|q.written|, |q.read|);
  }

  lemma {:induction false} PutKeeps(q: Queue, b: Byte)
    requires Inv(q)
    ensures !Put(q, b).Failed? && !Put(q, b).Stuck?
    ensures Put(q, b).Ok? ==> Inv(Put(q, b).queue)
  {
    PutCounted(q, b);
    PutLock(q, b);
    if Put(q, b).Ok? { PutStocked(q, b); }
  }

  lemma {:induction false} GetCounted(q: Queue)
    requires |q.buf| == SIZE && Counted(q)
    ensures !Get(q).Failed? && !Get(q).Stuck?
    ensures Get(q).Ok? ==> Counted(Get(q).queue)
  {
    Meet(|q.written|, |q.read|);
    Meet(|q.read|, |q.read|);
  }

  lemma {:induction false} GetLock(q: Queue)
    requires |q.buf| == SIZE && q.tail < SIZE && LockOk(q)
    ensures Get(q).Ok? ==> LockOk(Get(q).queue)
  {
  }

  lemma {:induction false} GetStocked(q: Queue)
    requires Inv(q) && Get(q).Ok?
    ensures Stocked(Get(q).queue)
  {
    Positions(|q.written|, |q.read|);
  }

  lemma {:induction false} GetKeeps(q: Queue)
    requires Inv(q)
    ensures !Get(q).Failed? && !Get(q).Stuck?
    ensures Get(q).Ok? ==> Inv(Get(q).queue)
  {
    GetCounted(q);
    GetLock(q);
    if Get(q).Ok? { GetStocked(q); }
  }

  // ---------- runs ----------

  datatype Turn = Producing(byte: Byte) | Consuming

  function Step(q: Queue, t: Turn): Outcome
    requires |q.buf| == SIZE && q.head < SIZE && q.tail < SIZE
  {
    match t
    case Producing(b) => Put(q, b)
    case Consuming => Get(q)
  }

  /** Any interleaving; a thread that cannot run is passed over. */
  function Run(q: Queue, turns: seq<Turn>): Outcome
    decreases |turns|
  {
    if turns == [] then Ok(q)
    else if |q.buf| != SIZE || q.head >= SIZE || q.tail >= SIZE then Failed
    else
      match Step(q, turns[0])
      case Ok(q1) => Run(q1, turns[1..])
      case Disabled => Run(q, turns[1..])
      case r => r
  }

  /** `ioqueue_init`: space for 64 bytes is announced, though the ring holds 63. */
  function Init(buf: seq<Byte>): Queue { Queue(buf, 0, 0, 0, SIZE, Nobody, Ready, Idle, 0, [], []) }

  lemma {:induction false} RunKeeps(q: Queue, turns: seq<Turn>)
    requires Inv(q)
    ensures Run(q, turns).Ok? && Inv(Run(q, turns).queue)
    decreases |turns|
  {
    if turns != [] {
      match turns[0] {
        case Producing(b) => PutKeeps(q, b);
        case Consuming => GetKeeps(q);
      }
      var r := Step(q, turns[0]);
      RunKeeps(if r.Ok? then r.queue else q, turns[1..]);
    }
  }

  /** The keys that are taken: those that find the producer ready and less than 63 bytes in the ring. */
  function Accepted(q: Queue, turns: seq<Turn>): seq<Byte>
    decreases |turns|
  {
    if turns == [] || |q.buf| != SIZE || q.head >= SIZE || q.tail >= SIZE then []
    else
      var r := Step(q, turns[0]);
      Key(q, turns[0]) + Accepted(if r.Ok? then r.queue else q, turns[1..])
  }

  function Key(q: Queue, t: Turn): seq<Byte> {
    if t.Producing? && q.prod == Ready && Count(q) < SIZE - 1 then [t.byte] else []
  }

  /** The key that the producer has taken and not yet counted as written. */
  function InHand(q: Queue): seq<Byte> { if q.prod.Checked? || Unstored(q) == 1 then [q.byte] else [] }

  lemma {:induction false} StepWrites(q: Queue, t: Turn)
    requires Inv(q)
    ensures var r := Step(q, t); r.Ok? ==> r.queue.written + InHand(r.queue) == q.written + InHand(q) + Key(q, t)
    ensures Step(q, t).Disabled? ==> Key(q, t) == []
  {
    Meet(|q.written|, |q.read|);
  }

  lemma {:induction false} RunWrites(q: Queue, turns: seq<Turn>)
    requires Inv(q)
    ensures Run(q, turns).Ok?
    ensures var q1 := Run(q, turns).queue; q1.written + InHand(q1) == q.written + InHand(q) + Accepted(q, turns)
    decreases |turns|
  {
    RunKeeps(q, turns);
    if turns != [] {
      var r := Step(q, turns[0]);
      StepWrites(q, turns[0]);
      RunKeeps(q, turns[..1]);
      assert turns[..1][0] == turns[0] && turns[..1][1..] == [];
      var q1 := if r.Ok? then r.queue else q;
      RunWrites(q1, turns[1..]);
      Join(q.written + InHand(q), Key(q, turns[0]), Accepted(q1, turns[1..]));
    }
  }

  /**
   In every interleaving no assertion fails, the producer never waits for space, what has been written is what keys were
   taken, in order, but for one in hand, and what has been read is a prefix of it, at most 63 bytes behind.
   */
  lemma {:induction false} PrefixRead(buf: seq<Byte>, turns: seq<Turn>)
    requires |buf| == SIZE
    ensures Run(Init(buf), turns).Ok?
    ensures var q := Run(Init(buf), turns).queue;
      && q.written + InHand(q) == Accepted(Init(buf), turns)
      && |q.read| <= |q.written| <= |q.read| + 63 && q.read <= Accepted(Init(buf), turns)
  {
    RunKeeps(Init(buf), turns);
    RunWrites(Init(buf), turns);
  }

  // ---------- nobody is held up ----------

  /** A thread is held up by the other in the lock only, or when there is nothing to read. */
  lemma {:induction false} HeldUp(q: Queue, b: Byte)
    requires Inv(q)
    ensures Put(q, b).Disabled? ==> q.lock == ByConsumer && !Get(q).Disabled?
    ensures Get(q).Disabled? ==> (q.lock == ByProducer && !Put(q, b).Disabled?) || Count(q) == Unraised(q)
  {
  }

  /** The turns that a consumer that is alone still takes before it has read everything. */
  function ToRead(q: Queue): int {
    6 * Count(q) +
      match q.cons
      case Let => -1
      case Held => -2
      case Taken(_) => -3
      case Moved => 2
      case Free => 1
      case _ => 0
  }

  function Consume(n: nat): seq<Turn> { if n == 0 then [] else [Consuming] + Consume(n - 1) }

  lemma {:induction false} ReadAlone(q: Queue)
    requires Inv(q) && q.prod == Ready && ToRead(q) > 0
    ensures var r := Get(q);
      && r.Ok? && Inv(r.queue) && r.queue.prod == Ready
      && r.queue.written == q.written && ToRead(r.queue) == ToRead(q) - 1
  {
    Meet(|q.written|, |q.read|);
    GetKeeps(q);
  }

  /** A consumer that runs while no key comes reads all that has been written. */
  lemma {:induction false} Drains(q: Queue, n: nat)
    requires Inv(q) && q.prod == Ready && ToRead(q) == n
    ensures var r := Run(q, Consume(n)); r.Ok? && r.queue.read == q.written
    decreases n
  {
    if n > 0 {
      ReadAlone(q);
      assert Consume(n)[1..] == Consume(n - 1);
      Drains(Get(q).queue, n - 1);
    }
  }

  /**
   The semaphore alone would let the producer into a full ring, and its assertion would fail: the look at `ioq_full` is
   needed.
   */
  lemma {:induction false} CheckNeeded(q: Queue, b: Byte)
    requires Inv(q) && q.prod == Ready && q.cons == Idle && Count(q) == 63
    ensures q.hasSpace == 1 && Put(q, b) == Ok(q)
    ensures var q1 := q.(prod := Checked, byte := b);
      Put(q1, b).Ok? && Put(Put(q1, b).queue, b).Ok? && Put(Put(Put(q1, b).queue, b).queue, b).Failed?
  {
    Positions(|q.written|, |q.read|);
  }

  // ---------- a full ring ----------

  function Turns(n: nat): seq<Turn> { if n == 0 then [] else [Producing(0)] + Turns(n - 1) }

  /** The turns a producer that is alone still takes before it is ready with a full ring. */
  function Left(q: Queue): int {
    7 * (63 - Count(q)) -
      match q.prod
      case Ready => 0
      case Checked => 1
      case Admitted => 2
      case Locked => 3
      case Stored => 4
      case Advanced => -2
      case Unlocked => -1
  }

  lemma {:induction false} StepAlone(q: Queue)
    requires Inv(q) && q.cons == Idle && Left(q) > 0
    ensures var r := Put(q, 0); r.Ok? && Inv(r.queue) && r.queue.cons == Idle && Left(r.queue) == Left(q) - 1
  {
    Meet(|q.written|, |q.read|);
    PutKeeps(q, 0);
  }

  lemma {:induction false} Fills(q: Queue, n: nat)
    requires Inv(q) && q.cons == Idle && Left(q) == n
    ensures var r := Run(q, Turns(n)); r.Ok? && Inv(r.queue) && r.queue.cons == Idle && Left(r.queue) == 0
    decreases n
  {
    if n > 0 {
      StepAlone(q);
      assert Turns(n)[1..] == Turns(n - 1);
      Fills(Put(q, 0).queue, n - 1);
    }
  }

  /** A full ring with both threads outside it can be reached: `CheckNeeded` speaks of it. */
  lemma {:induction false} FullReached(buf: seq<Byte>)
    requires |buf| == SIZE
    ensures var r := Run(Init(buf), Turns(441));
      r.Ok? && Inv(r.queue) && r.queue.prod == Ready && r.queue.cons == Idle && Count(r.queue) == 63
  {
    Fills(Init(buf), 441);
  }
}
