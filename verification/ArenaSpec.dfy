/**
 The arena allocator (code/kernel/syscall.c: `sys_malloc`, `sys_free`; code/kernel/memory.c: `block_desc_init`).

 A page that holds an arena starts with an 8-byte header. In a small arena the blocks of its class follow; a large arena
 spans whole pages and is handed out in one piece. A block is named by its page and its place in it; `Address` is where
 it lies.
 */
module ArenaSpec {
  import opened Common
  import opened BitSpec

  const CLASSES: nat := 7
  const HEADER: nat := 8

  /** The block size of a class. */
  function Size(i: nat): (n: nat)
    requires i < CLASSES
    ensures 16 <= n <= 1024
  {
    [16, 32, 64, 128, 256, 512, 1024][i]
  }

  /** `blocks_per_arena` */
  function Count(i: nat): (n: nat)
    requires i < CLASSES
    ensures n > 0
  {
    (PG_SIZE - HEADER) / Size(i)
  }

  /** As many blocks as fit into a page behind the header. */
  lemma {:induction false} CountExact(i: nat, n: nat)
    requires i < CLASSES
    ensures n <= Count(i) <==> HEADER + n * Size(i) <= PG_SIZE
  {
    if i == 0 || i == 1 || i == 2 || i == 3 || i == 4 || i == 5 || i == 6 {
    }
  }

  /** Every class has blocks twice as large as the one before, from 16 bytes on. */
  lemma {:induction false} SizesDouble(i: nat)
    requires i < CLASSES
    ensures Size(i) == if i == 0 then 16 else 2 * Size(i - 1)
  {
  }

  datatype Header = Small(cls: nat, cnt: int) | Large(pages: nat)

  datatype Block = Block(page: nat, idx: nat)

  /**
   The allocator: the marks of the address range from page `base` on, the headers, a free list per class, and what is
   handed out.
   */
  datatype Heap = Heap(base: nat, pages: seq<bool>, arenas: map<nat, Header>, free: seq<seq<Block>>, live: set<Block>)

  /** `Wild`: the page layer has made frame 0 a page table twice. */
  datatype Got = Null | Ptr(block: Block) | Panic | Wild

  /**
   What the page layer answers: no run of pages; a run marked for which the frames ran out; one at which an assertion
   fails; or one that is mapped.
   */
  datatype Room = NoRoom | Short(k: nat) | Fatal(k: nat) | Room(k: nat)

  // ---------- lists ----------

  /** The list without the first `n` blocks of a page. */
  function Minus(s: seq<Block>, p: nat, n: nat): seq<Block> {
    if s == [] then []
    else if s[0].page == p && s[0].idx < n then Minus(s[1..], p, n)
    else [s[0]] + Minus(s[1..], p, n)
  }

  lemma {:induction false} MinusIn(s: seq<Block>, p: nat, n: nat)
    ensures forall x :: x in Minus(s, p, n) <==> x in s && !(x.page == p && x.idx < n)
    ensures NoDup(s) ==> NoDup(Minus(s, p, n))
  {
    if s != [] { MinusIn(s[1..], p, n); }
  }

  /** The blocks of class `i` in page `p` that are in a list. */
  function In(s: seq<Block>, i: nat, p: nat): set<nat>
    requires i < CLASSES
  {
    set b | 0 <= b < Count(i) && Block(p, b) in s
  }

  // ---------- addresses ----------

  function Address(h: Heap, x: Block): nat
    requires x.page in h.arenas && (h.arenas[x.page].Small? ==> h.arenas[x.page].cls < CLASSES)
  {
    match h.arenas[x.page]
    case Small(i, _) => PG_SIZE * x.page + HEADER + x.idx * Size(i)
    case Large(_) => PG_SIZE * x.page + HEADER
  }

  function Capacity(h: Heap, x: Block): int
    requires x.page in h.arenas && (h.arenas[x.page].Small? ==> h.arenas[x.page].cls < CLASSES)
  {
    match h.arenas[x.page]
    case Small(i, _) => Size(i)
    case Large(n) => PG_SIZE * n - HEADER
  }

  // ---------- what always holds ----------

  /** The pages that an arena takes. */
  function Span(a: Header): nat { if a.Large? then a.pages else 1 }

  predicate Marked(h: Heap, p: nat) { h.base <= p < h.base + |h.pages| && h.pages[p - h.base] }

  /** Arenas lie in marked pages and do not overlap. */
  ghost predicate ArenasOk(h: Heap) {
    && (forall p, q :: p in h.arenas && p <= q < p + Span(h.arenas[p]) ==> Marked(h, q))
    && (forall p, q :: p in h.arenas && q in h.arenas && p < q ==> p + Span(h.arenas[p]) <= q)
    && (forall p <- h.arenas :: h.arenas[p].Large? ==> h.arenas[p].pages >= 1)
  }

  /** Block `x` lies in an arena of class `i`. */
  predicate BlockOf(h: Heap, i: nat, x: Block)
    requires i < CLASSES
  {
    x.page in h.arenas && h.arenas[x.page].Small? && h.arenas[x.page].cls == i && x.idx < Count(i)
  }

  /** A free list holds blocks of its class, once each. */
  ghost predicate ListOk(h: Heap, i: nat)
    requires i < CLASSES == |h.free|
  {
    NoDup(h.free[i]) && forall x <- h.free[i] :: BlockOf(h, i, x)
  }

  /** In the arena at `p` every block is either live or free, and `cnt` is the number of free ones. */
  ghost predicate ArenaOk(h: Heap, p: nat)
    requires |h.free| == CLASSES && p in h.arenas
  {
    match h.arenas[p]
    case Small(i, cnt) =>
      && i < CLASSES && cnt == |In(h.free[i], i, p)|
      && forall b :: 0 <= b < Count(i) ==> (Block(p, b) in h.live <==> Block(p, b) !in h.free[i])
    case Large(_) => Block(p, 0) in h.live
  }

  /** What is handed out lies in an arena. */
  predicate LiveOk(h: Heap, x: Block) {
    && x.page in h.arenas
    && (match h.arenas[x.page] case Small(i, _) => i < CLASSES && x.idx < Count(i) case Large(_) => x.idx == 0)
  }

  /** What holds within an operation too. */
  ghost predicate Sound(h: Heap) {
    && |h.free| == CLASSES && ArenasOk(h)
    && (forall i :: 0 <= i < CLASSES ==> ListOk(h, i))
    && (forall p <- h.arenas :: ArenaOk(h, p))
    && (forall x <- h.live :: LiveOk(h, x))
  }

  /** Some block of the arena at `p` is live. */
  predicate Used(h: Heap, p: nat)
    requires p in h.arenas
  {
    h.arenas[p].Small? ==> h.arenas[p].cls < CLASSES && h.arenas[p].cnt < Count(h.arenas[p].cls)
  }

  /** What holds between operations: no arena is left that is all free. */
  ghost predicate Ok(h: Heap) { Sound(h) && forall p <- h.arenas :: Used(h, p) }

  // ---------- live allocations ----------

  lemma {:induction false} Fits(i: nat, b: nat)
    requires i < CLASSES && b < Count(i)
    ensures HEADER + b * Size(i) + Size(i) <= PG_SIZE
  {
    assert b * Size(i) + Size(i) == (b + 1) * Size(i);
    if i == 0 || i == 1 || i == 2 || i == 3 || i == 4 || i == 5 || i == 6 {
    }
  }

  lemma {:induction false} BlocksApart(i: nat, b: nat, c: nat)
    requires i < CLASSES && b < c
    ensures b * Size(i) + Size(i) <= c * Size(i)
  {
    if i == 0 || i == 1 || i == 2 || i == 3 || i == 4 || i == 5 || i == 6 {
    }
  }

  /** A live allocation lies in the pages of its arena, past the header, and masking its address finds the arena. */
  lemma {:induction false} LiveInside(h: Heap, x: Block)
    requires Ok(h) && x in h.live
    ensures LiveOk(h, x) && Address(h, x) / PG_SIZE == x.page
    ensures PG_SIZE * x.page + HEADER <= Address(h, x)
    ensures Address(h, x) + Capacity(h, x) <= PG_SIZE * (x.page + Span(h.arenas[x.page]))
  {
    if h.arenas[x.page].Small? {
      Fits(h.arenas[x.page].cls, x.idx);
      InPage(x.page, Address(h, x));
    } else {
      InPage(x.page, Address(h, x));
    }
  }

  lemma {:induction false} InPage(p: nat, a: nat)
    requires PG_SIZE * p <= a < PG_SIZE * p + PG_SIZE
    ensures a / PG_SIZE == p
  {
  }

  /** Live allocations do not overlap. */
  lemma {:induction false} LiveApart(h: Heap, x: Block, y: Block)
    requires Ok(h) && x in h.live && y in h.live && x != y
    ensures LiveOk(h, x) && LiveOk(h, y)
    ensures Address(h, x) + Capacity(h, x) <= Address(h, y) || Address(h, y) + Capacity(h, y) <= Address(h, x)
  {
    LiveInside(h, x);
    LiveInside(h, y);
    if x.page == y.page {
      var a := h.arenas[x.page];
      if x.idx < y.idx { BlocksApart(a.cls, x.idx, y.idx); } else { BlocksApart(a.cls, y.idx, x.idx); }
    } else {
      ArenasApart(h, x.page, y.page);
    }
  }

  lemma {:induction false} ArenasApart(h: Heap, p: nat, q: nat)
    requires ArenasOk(h) && p in h.arenas && q in h.arenas && p != q
    ensures PG_SIZE * (p + Span(h.arenas[p])) <= PG_SIZE * q || PG_SIZE * (q + Span(h.arenas[q])) <= PG_SIZE * p
  {
  }

  // ---------- sys_malloc ----------

  /** The first class whose blocks are large enough. */
  function ClassOf(size: nat): (i: nat)
    requires 0 < size <= 1024
    ensures i < CLASSES && size <= Size(i) && forall j :: 0 <= j < i ==> Size(j) < size
    ensures Size(i) < 2 * size || i == 0
  {
    if size <= 16 then 0 else if size <= 32 then 1 else if size <= 64 then 2 else if size <= 128 then 3
    else if size <= 256 then 4 else if size <= 512 then 5 else 6
  }

  /** The pages for a large allocation; the sum is a 32-bit one. */
  function PagesFor(size: nat): nat { (size + HEADER + PG_SIZE - 1) % TWO32 / PG_SIZE }

  /** The marks of an allocation of `cnt` pages at index `k` of the address range. */
  function Take(h: Heap, k: nat, cnt: nat): Heap
    requires k + cnt <= |h.pages|
  {
    h.(pages := WithRun(h.pages, k, cnt, true))
  }

  /** The blocks of a new arena, in order. */
  function Fresh(p: nat, n: nat): (s: seq<Block>)
    ensures |s| == n && forall b :: 0 <= b < n ==> s[b] == Block(p, b)
  {
    if n == 0 then [] else Fresh(p, n - 1) + [Block(p, n - 1)]
  }

  /** A new arena of class `i` at page `p`, all of it in the free list. */
  function NewArena(h: Heap, i: nat, p: nat): Heap
    requires i < CLASSES == |h.free|
  {
    h.(arenas := h.arenas[p := Small(i, Count(i))], free := h.free[i := h.free[i] + Fresh(p, Count(i))])
  }

  /** The first block of free list `i` is handed out. */
  function Pop(h: Heap, i: nat): Heap
    requires i < CLASSES == |h.free| && h.free[i] != [] && BlockOf(h, i, h.free[i][0])
  {
    var x := h.free[i][0];
    h.(arenas := h.arenas[x.page := Small(i, h.arenas[x.page].cnt - 1)], free := h.free[i := h.free[i][1..]],
       live := h.live + {x})
  }

  /** The pages that `sys_malloc` asks for, if it does. */
  function Asked(size: nat): nat { if size > 1024 then PagesFor(size) else 1 }

  /** A run that the page layer has found was not marked. */
  predicate RoomOk(h: Heap, size: nat, r: Room) { r.NoRoom? || ClearRun(h.pages, r.k, Asked(size)) }

  /** What an allocation that the page layer refuses leaves behind. */
  function Refused(h: Heap, r: Room, n: nat): (Heap, Got)
    requires r.NoRoom? || r.k + n <= |h.pages|
  {
    if r.NoRoom? then (h, Null) else (Take(h, r.k, n), if r.Fatal? then Panic else Null)
  }

  /** `sys_malloc`; `r` is what the page layer answers if it is asked. */
  function Malloc(h: Heap, size: nat, r: Room): (res: (Heap, Got))
    requires Ok(h) && size < TWO32 && RoomOk(h, size, r)
  {
    if size == 0 then (h, Null)
    else if size > 1024 then
      var n := PagesFor(size);
      if !(0 < n < 3840) then (h, Panic)
      else if !r.Room? then Refused(h, r, n)
      else
        var h1 := Take(h, r.k, n);
        (h1.(arenas := h1.arenas[h.base + r.k := Large(n)], live := h1.live + {Block(h.base + r.k, 0)}),
         Ptr(Block(h.base + r.k, 0)))
    else
      var i := ClassOf(size);
      if h.free[i] != [] then
        FirstFree(h, i);
        (Pop(h, i), Ptr(h.free[i][0]))
      else if !r.Room? then Refused(h, r, 1)
      else
        var h2 := NewArena(Take(h, r.k, 1), i, h.base + r.k);
        assert h2.free[i][0] == Block(h.base + r.k, 0);
        (Pop(h2, i), Ptr(h2.free[i][0]))
  }

  /** The block found is large enough exactly when the sum does not wrap, and then a page less would not do. */
  lemma {:induction false} CapacityExact(size: nat)
    requires 1024 < size < TWO32 && 0 < PagesFor(size)
    ensures size + HEADER + PG_SIZE - 1 < TWO32 ==> PG_SIZE * (PagesFor(size) - 1) - HEADER < size
    ensures PG_SIZE * PagesFor(size) - HEADER >= size <==> size + HEADER + PG_SIZE - 1 < TWO32
    ensures size + HEADER + PG_SIZE - 1 >= TWO32 ==> size >= TWO32 - 7 && PagesFor(size) == 1
  {
  }

  // ---------- sys_free ----------

  /** `sys_free` of a live block. */
  function Free(h: Heap, x: Block): Heap
    requires Ok(h) && x in h.live
  {
    var p := x.page;
    match h.arenas[p]
    case Large(n) =>
      ArenaInside(h, p);
      h.(arenas := h.arenas - {p}, pages := WithRun(h.pages, p - h.base, n, false), live := h.live - {x})
    case Small(i, cnt) =>
      var list := h.free[i] + [x];
      if cnt + 1 == Count(i) then
        ArenaInside(h, p);
        h.(arenas := h.arenas - {p}, pages := WithRun(h.pages, p - h.base, 1, false),
           free := h.free[i := Minus(list, p, Count(i))], live := h.live - {x})
      else h.(arenas := h.arenas[p := Small(i, cnt + 1)], free := h.free[i := list], live := h.live - {x})
  }

  /** An arena lies inside the address range. */
  lemma {:induction false} ArenaInside(h: Heap, p: nat)
    requires ArenasOk(h) && p in h.arenas
    ensures h.base <= p && p + Span(h.arenas[p]) <= h.base + |h.pages|
  {
    assert Marked(h, p) && Marked(h, p + Span(h.arenas[p]) - 1);
  }

  lemma {:induction false} FirstFree(h: Heap, i: nat)
    requires i < CLASSES == |h.free| && ListOk(h, i) && h.free[i] != []
    ensures BlockOf(h, i, h.free[i][0])
  {
    assert h.free[i][0] in h.free[i];
  }
}
