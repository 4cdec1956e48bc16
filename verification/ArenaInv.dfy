/** The arena allocator keeps its invariant, and freeing undoes allocating. */
module ArenaInv {
  import opened Common
  import opened ArenaSpec
  import opened BitSpec

  // ---------- free blocks of an arena ----------

  lemma {:induction false} InTail(s: seq<Block>, i: nat, p: nat)
    requires i < CLASSES && NoDup(s) && s != []
    ensures In(s[1..], i, p) == In(s, i, p) - if s[0].page == p then {s[0].idx} else {}
  {
    assert s == [s[0]] + s[1..];
    assert s[0] !in s[1..];
  }

  lemma {:induction false} InAppend(s: seq<Block>, i: nat, p: nat, x: Block)
    requires i < CLASSES && (x.page == p ==> x.idx < Count(i))
    ensures In(s + [x], i, p) == In(s, i, p) + if x.page == p then {x.idx} else {}
  {
  }

  function Below(n: nat): (r: set<nat>)
    ensures |r| == n && forall b: nat :: b in r <==> b < n
  {
    if n == 0 then {} else Below(n - 1) + {n - 1}
  }

  /** A subset with as many elements is the whole. */
  lemma {:induction false} SameSize(a: set<nat>, b: set<nat>)
    requires a <= b && |a| == |b|
    ensures a == b
  {
    assert b == a + (b - a);
  }

  /** As many free blocks as there are blocks: all of them. */
  lemma {:induction false} AllIn(s: seq<Block>, i: nat, p: nat)
    requires i < CLASSES && |In(s, i, p)| == Count(i)
    ensures forall b :: 0 <= b < Count(i) ==> Block(p, b) in s
  {
    var all := Below(Count(i));
    SameSize(In(s, i, p), all);
    forall b | 0 <= b < Count(i) ensures Block(p, b) in s {
      assert b in all;
    }
  }

  // ---------- pages ----------

  lemma {:induction false} TakeSound(h: Heap, k: nat, n: nat)
    requires Sound(h) && k + n <= |h.pages|
    ensures Sound(Take(h, k, n))
    ensures forall q :: k <= q - h.base < k + n ==> Marked(Take(h, k, n), q)
  {
    var h1 := Take(h, k, n);
    forall q | Marked(h, q) ensures Marked(h1, q) {
    }
    assert forall p <- h.arenas :: ArenaOk(h, p) ==> ArenaOk(h1, p);
    assert forall i :: 0 <= i < CLASSES ==> ListOk(h, i) && ListOk(h1, i);
  }

  /** Pages that were not marked belong to no arena. */
  lemma {:induction false} NoArena(h: Heap, k: nat, n: nat, p: nat)
    requires ArenasOk(h) && ClearRun(h.pages, k, n) && p in h.arenas
    ensures p + Span(h.arenas[p]) <= h.base + k || h.base + k + n <= p || n == 0
  {
    ArenaInside(h, p);
    if h.base + k < p + Span(h.arenas[p]) && p < h.base + k + n {
      var q := if p < h.base + k then h.base + k else p;
      assert Marked(h, q);
    }
  }

  // ---------- sys_malloc ----------

  /** All arenas but perhaps the one at `p` have a live block. */
  ghost predicate UsedBut(h: Heap, p: nat) { forall q <- h.arenas :: q == p || Used(h, q) }

  /** A change to the count of a small arena leaves the arenas in order. */
  lemma {:induction false} ArenasKept(h: Heap, h1: Heap, p: nat)
    requires ArenasOk(h) && p in h.arenas && h.arenas[p].Small? && h1.base == h.base && h1.pages == h.pages
    requires p in h1.arenas && h1.arenas[p].Small? && h1.arenas == h.arenas[p := h1.arenas[p]]
    ensures ArenasOk(h1)
  {
    assert forall q <- h.arenas :: Span(h1.arenas[q]) == Span(h.arenas[q]);
    forall q, r | q in h1.arenas && q <= r < q + Span(h1.arenas[q]) ensures Marked(h1, r) {
      assert Marked(h, r);
    }
  }

  lemma {:induction false} PopList(h: Heap, i: nat, j: nat)
    requires Sound(h) && i < CLASSES && h.free[i] != [] && BlockOf(h, i, h.free[i][0]) && j < CLASSES
    ensures ListOk(Pop(h, i), j)
  {
    var h1 := Pop(h, i);
    assert ListOk(h, j);
    forall x | x in h1.free[j] ensures BlockOf(h1, j, x) {
      assert x in h.free[j];
    }
  }

  lemma {:induction false} PopArena(h: Heap, i: nat, p: nat)
    requires Sound(h) && i < CLASSES && h.free[i] != [] && BlockOf(h, i, h.free[i][0]) && p in h.arenas
    ensures ArenaOk(Pop(h, i), p)
    ensures p == h.free[i][0].page || Used(h, p) ==> Used(Pop(h, i), p)
  {
    var h1, x := Pop(h, i), h.free[i][0];
    assert ArenaOk(h, p) && ListOk(h, i);
    InTail(h.free[i], i, p);
    if h.arenas[p].Small? && h.arenas[p].cls == i {
      CountIn(h.free[i], i, p);
      TailIn(h.free[i]);
      forall b | 0 <= b < Count(i) ensures Block(p, b) in h1.live <==> Block(p, b) !in h1.free[i] {
      }
    } else {
      assert x.page != p;
    }
  }

  lemma {:induction false} TailIn(s: seq<Block>)
    requires NoDup(s) && s != []
    ensures forall x :: x in s[1..] <==> x in s && x != s[0]
  {
    assert s == [s[0]] + s[1..];
  }

  lemma {:induction false} CountIn(s: seq<Block>, i: nat, p: nat)
    requires i < CLASSES
    ensures |In(s, i, p)| <= Count(i)
  {
    SubsetSize(In(s, i, p), Below(Count(i)));
  }

  lemma {:induction false} SubsetSize(a: set<nat>, b: set<nat>)
    requires a <= b
    ensures |a| <= |b|
  {
    assert b == a + (b - a);
  }

  lemma {:induction false} PopOk(h: Heap, i: nat)
    requires Sound(h) && i < CLASSES && h.free[i] != [] && BlockOf(h, i, h.free[i][0]) && UsedBut(h, h.free[i][0].page)
    ensures Ok(Pop(h, i))
  {
    var h1 := Pop(h, i);
    forall j | 0 <= j < CLASSES ensures ListOk(h1, j) { PopList(h, i, j); }
    forall p | p in h1.arenas ensures ArenaOk(h1, p) && Used(h1, p) { PopArena(h, i, p); }
    ArenasKept(h, h1, h.free[i][0].page);
  }

  /** A page outside all arenas. */
  ghost predicate Outside(h: Heap, p: nat, n: nat) {
    forall q <- h.arenas :: q + Span(h.arenas[q]) <= p || p + n <= q
  }

  /** With an arena more, in marked pages outside the others, arenas still do not overlap. */
  lemma {:induction false} ArenasMore(h: Heap, h1: Heap, p: nat, a: Header)
    requires ArenasOk(h) && Span(a) >= 1 && Outside(h, p, Span(a))
    requires forall q :: p <= q < p + Span(a) ==> Marked(h, q)
    requires h1.arenas == h.arenas[p := a] && h1.pages == h.pages && h1.base == h.base
    ensures ArenasOk(h1) && p !in h.arenas
  {
    forall q, r | q in h1.arenas && q <= r < q + Span(h1.arenas[q]) ensures Marked(h1, r) {
      assert Marked(h, r);
    }
  }

  lemma {:induction false} FreshBlocks(p: nat, n: nat)
    ensures NoDup(Fresh(p, n)) && forall x <- Fresh(p, n) :: x.page == p && x.idx < n
    ensures n > 0 ==> forall x <- Fresh(p, n)[1..] :: x.page == p && x.idx < n
  {
  }

  lemma {:induction false} NewArenaList(h: Heap, i: nat, p: nat, j: nat)
    requires Sound(h) && i < CLASSES && p !in h.arenas && h.free[i] == [] && j < CLASSES
    ensures ListOk(NewArena(h, i, p), j)
  {
    var h1 := NewArena(h, i, p);
    assert ListOk(h, j);
    assert h.free[i] + Fresh(p, Count(i)) == Fresh(p, Count(i));
    FreshBlocks(p, Count(i));
    forall x | x in h1.free[j] ensures BlockOf(h1, j, x) {
      assert j != i ==> BlockOf(h, j, x);
    }
  }

  lemma {:induction false} NewArenaSound(h: Heap, i: nat, p: nat)
    requires Ok(h) && i < CLASSES && Outside(h, p, 1) && Marked(h, p) && h.free[i] == []
    ensures Sound(NewArena(h, i, p)) && UsedBut(NewArena(h, i, p), p)
  {
    var h1 := NewArena(h, i, p);
    ArenasMore(h, h1, p, Small(i, Count(i)));
    forall j | 0 <= j < CLASSES ensures ListOk(h1, j) { NewArenaList(h, i, p, j); }
    forall q | q in h1.arenas ensures ArenaOk(h1, q) {
      NewArenaArena(h, i, p, q);
    }
    assert forall q <- h.arenas :: Used(h, q) && (q != p ==> Used(h1, q));
  }

  lemma {:induction false} NewArenaArena(h: Heap, i: nat, p: nat, q: nat)
    requires Sound(h) && i < CLASSES && p !in h.arenas && h.free[i] == [] && (q == p || q in h.arenas)
    ensures ArenaOk(NewArena(h, i, p), q)
  {
    var h1 := NewArena(h, i, p);
    assert h1.free[i] == Fresh(p, Count(i));
    if q == p {
      FreshIn(i, p);
      forall b | 0 <= b < Count(i) ensures Block(p, b) !in h.live && Block(p, b) in h1.free[i] {
        assert h1.free[i][b] == Block(p, b);
        assert Block(p, b) in h.live ==> LiveOk(h, Block(p, b));
      }
    } else {
      assert ArenaOk(h, q);
      assert In(h1.free[i], i, q) == {} == In(h.free[i], i, q);
    }
  }

  lemma {:induction false} FreshIn(i: nat, p: nat)
    requires i < CLASSES
    ensures |In(Fresh(p, Count(i)), i, p)| == Count(i)
  {
    forall b | 0 <= b < Count(i) ensures Block(p, b) in Fresh(p, Count(i)) {
      assert Fresh(p, Count(i))[b] == Block(p, b);
    }
    assert In(Fresh(p, Count(i)), i, p) == Below(Count(i));
  }

  /** A large arena in marked pages outside the others. */
  lemma {:induction false} LargeOk(h: Heap, h1: Heap, p: nat, n: nat)
    requires Ok(h) && n >= 1 && Outside(h, p, n) && (forall q :: p <= q < p + n ==> Marked(h, q))
    requires h1 == h.(arenas := h.arenas[p := Large(n)], live := h.live + {Block(p, 0)})
    ensures Ok(h1)
  {
    ArenasMore(h, h1, p, Large(n));
    forall j | 0 <= j < CLASSES ensures ListOk(h1, j) {
      assert ListOk(h, j);
      assert forall x <- h.free[j] :: BlockOf(h, j, x) && BlockOf(h1, j, x);
    }
    forall q | q in h1.arenas ensures ArenaOk(h1, q) && Used(h1, q) {
      assert q != p ==> ArenaOk(h, q) && Used(h, q);
    }
    assert forall x <- h.live :: LiveOk(h, x) && LiveOk(h1, x);
  }

  /**
   `sys_malloc` keeps the invariant, and hands out a block that was not live, of the size asked for unless the page
   count wrapped.
   */
  lemma {:induction false} MallocOk(h: Heap, size: nat, r: Room)
    requires Ok(h) && size < TWO32 && RoomOk(h, size, r)
    ensures var (h1, g) := Malloc(h, size, r);
      && Ok(h1)
      && (g.Ptr? ==> g.block !in h.live && h1.live == h.live + {g.block} && LiveOk(h1, g.block))
      && (g.Ptr? && size <= TWO32 - 8 ==> Capacity(h1, g.block) >= size)
      && (!g.Ptr? ==> h1.live == h.live && h1.arenas == h.arenas && h1.free == h.free)
  {
    if size == 0 {
    } else if size > 1024 {
      if 0 < PagesFor(size) < 3840 && !r.NoRoom? { MallocLarge(h, size, r); }
    } else {
      MallocSmall(h, size, r);
    }
  }

  lemma {:induction false} MallocLarge(h: Heap, size: nat, r: Room)
    requires Ok(h) && 1024 < size < TWO32 && 0 < PagesFor(size) < 3840 && !r.NoRoom?
    requires ClearRun(h.pages, r.k, PagesFor(size))
    ensures var (h1, g) := Malloc(h, size, r);
      && Ok(h1)
      && (g.Ptr? ==> g.block !in h.live && h1.live == h.live + {g.block} && LiveOk(h1, g.block))
      && (g.Ptr? && size <= TWO32 - 8 ==> Capacity(h1, g.block) >= size)
  {
    var n := PagesFor(size);
    TakeOk(h, r.k, n);
    if r.Room? {
      LargeOk(Take(h, r.k, n), Malloc(h, size, r).0, h.base + r.k, n);
      CapacityExact(size);
      NothingLive(h, h.base + r.k);
    }
  }

  lemma {:induction false} NothingLive(h: Heap, p: nat)
    requires Sound(h) && p !in h.arenas
    ensures forall x <- h.live :: x.page != p
  {
    forall x | x in h.live ensures x.page != p {
      assert LiveOk(h, x);
    }
  }

  lemma {:induction false} TakeOk(h: Heap, k: nat, n: nat)
    requires Ok(h) && ClearRun(h.pages, k, n) && n > 0
    ensures Ok(Take(h, k, n)) && Outside(Take(h, k, n), h.base + k, n)
    ensures forall q :: h.base + k <= q < h.base + k + n ==> Marked(Take(h, k, n), q)
    ensures h.base + k !in h.arenas
  {
    TakeSound(h, k, n);
    forall p | p in h.arenas
      ensures Used(Take(h, k, n), p) && (p + Span(h.arenas[p]) <= h.base + k || h.base + k + n <= p)
    {
      assert Used(h, p);
      NoArena(h, k, n, p);
    }
  }

  /** What `sys_malloc` promises of the block it returns. */
  ghost predicate Handed(h: Heap, h1: Heap, x: Block, size: nat) {
    x !in h.live && h1.live == h.live + {x} && LiveOk(h1, x) && Capacity(h1, x) >= size
  }

  lemma {:induction false} PopHanded(h: Heap, i: nat, size: nat)
    requires Sound(h) && i < CLASSES && h.free[i] != [] && BlockOf(h, i, h.free[i][0]) && UsedBut(h, h.free[i][0].page)
    requires size <= Size(i)
    ensures Ok(Pop(h, i)) && Handed(h, Pop(h, i), h.free[i][0], size)
  {
    PopOk(h, i);
    FreeNotLive(h, i, h.free[i][0]);
  }

  lemma {:induction false} MallocSmall(h: Heap, size: nat, r: Room)
    requires Ok(h) && 0 < size <= 1024 && RoomOk(h, size, r)
    ensures Result(h, Malloc(h, size, r), size)
  {
    var i := ClassOf(size);
    if h.free[i] != [] {
      MallocFromList(h, size, r);
    } else if r.Room? {
      MallocFromPage(h, size, r.k);
    } else {
      assert Malloc(h, size, r) == Refused(h, r, 1);
      if !r.NoRoom? { TakeOk(h, r.k, 1); }
    }
  }

  lemma {:induction false} MallocFromList(h: Heap, size: nat, r: Room)
    requires Ok(h) && 0 < size <= 1024 && RoomOk(h, size, r) && h.free[ClassOf(size)] != []
    ensures Result(h, Malloc(h, size, r), size)
  {
    var i := ClassOf(size);
    FirstFree(h, i);
    assert Malloc(h, size, r) == (Pop(h, i), Ptr(h.free[i][0]));
    PopHanded(h, i, size);
  }

  lemma {:induction false} MallocFromPage(h: Heap, size: nat, k: nat)
    requires Ok(h) && 0 < size <= 1024 && ClearRun(h.pages, k, 1) && h.free[ClassOf(size)] == []
    ensures Result(h, Malloc(h, size, Room(k)), size)
  {
    MallocPage(h, size, k);
    PageResult(h, size, k, Pop(NewArena(Take(h, k, 1), ClassOf(size), h.base + k), ClassOf(size)));
  }

  lemma {:induction false} PageResult(h: Heap, size: nat, k: nat, h1: Heap)
    requires Ok(h) && 0 < size <= 1024 && ClearRun(h.pages, k, 1) && h.free[ClassOf(size)] == []
    requires BlockOf(NewArena(Take(h, k, 1), ClassOf(size), h.base + k), ClassOf(size), Block(h.base + k, 0))
    requires NewArena(Take(h, k, 1), ClassOf(size), h.base + k).free[ClassOf(size)] ==
      Fresh(h.base + k, Count(ClassOf(size)))
    requires h1 == Pop(NewArena(Take(h, k, 1), ClassOf(size), h.base + k), ClassOf(size))
    ensures Malloc(h, size, Room(k)) == (h1, Ptr(Block(h.base + k, 0)))
  {
  }

  ghost predicate Result(h: Heap, r: (Heap, Got), size: nat) {
    && Ok(r.0)
    && if r.1.Ptr? then Handed(h, r.0, r.1.block, size)
         else r.0.live == h.live && r.0.arenas == h.arenas && r.0.free == h.free
  }

  lemma {:induction false} MallocPage(h: Heap, size: nat, k: nat)
    requires Ok(h) && 0 < size <= 1024 && ClearRun(h.pages, k, 1) && h.free[ClassOf(size)] == []
    ensures var h2 := NewArena(Take(h, k, 1), ClassOf(size), h.base + k);
      && h2.free[ClassOf(size)] == Fresh(h.base + k, Count(ClassOf(size)))
      && BlockOf(h2, ClassOf(size), Block(h.base + k, 0))
      && Ok(Pop(h2, ClassOf(size))) && Handed(h, Pop(h2, ClassOf(size)), Block(h.base + k, 0), size)
  {
    TakeOk(h, k, 1);
    FirstOfNew(Take(h, k, 1), NewArena(Take(h, k, 1), ClassOf(size), h.base + k), ClassOf(size), h.base + k, size);
  }

  /** The first block of a new arena handed out. */
  lemma {:induction false} FirstOfNew(h: Heap, h2: Heap, i: nat, p: nat, size: nat)
    requires Ok(h) && i < CLASSES && h.free[i] == [] && Outside(h, p, 1) && p !in h.arenas && Marked(h, p)
    requires size <= Size(i)
    requires h2 == NewArena(h, i, p)
    ensures h2.free[i] == Fresh(p, Count(i)) && BlockOf(h2, i, Block(p, 0))
    ensures Ok(Pop(h2, i)) && Handed(h, Pop(h2, i), Block(p, 0), size)
  {
    NewArenaSound(h, i, p);
    assert h2.free[i] == Fresh(p, Count(i));
    PopHanded(h2, i, size);
  }

  lemma {:induction false} FreeNotLive(h: Heap, i: nat, x: Block)
    requires Sound(h) && i < CLASSES && x in h.free[i]
    ensures x !in h.live
  {
    assert ListOk(h, i) && BlockOf(h, i, x);
    assert ArenaOk(h, x.page);
    assert Block(x.page, x.idx) == x;
  }

  // ---------- sys_free ----------

  /** Without the arena at `p` and the marks of its pages, the arenas are still in order. */
  lemma {:induction false} ArenasLess(h: Heap, h1: Heap, p: nat)
    requires ArenasOk(h) && p in h.arenas && h.base <= p && p - h.base + Span(h.arenas[p]) <= |h.pages|
    requires h1.arenas == h.arenas - {p} && h1.base == h.base
    requires h1.pages == WithRun(h.pages, p - h.base, Span(h.arenas[p]), false)
    ensures ArenasOk(h1)
  {
    forall q, r | q in h1.arenas && q <= r < q + Span(h1.arenas[q]) ensures Marked(h1, r) {
      assert Marked(h, r);
      assert q + Span(h.arenas[q]) <= p || p + Span(h.arenas[p]) <= q;
    }
  }

  /** What dropping the arena at `p` needs: no list and no live block mentions it any more. */
  lemma {:induction false} DropOk(h: Heap, h1: Heap, p: nat)
    requires Ok(h) && ArenasOk(h1) && h1.arenas == h.arenas - {p} && |h1.free| == CLASSES
    requires forall i, x :: 0 <= i < CLASSES && x in h1.free[i] ==> x.page != p
    requires forall i :: 0 <= i < CLASSES ==> NoDup(h1.free[i])
    requires forall i, x: Block :: 0 <= i < CLASSES && x.page != p ==> (x in h1.free[i] <==> x in h.free[i])
    requires forall x :: x in h1.live <==> x in h.live && x.page != p
    ensures Ok(h1)
  {
    forall i | 0 <= i < CLASSES ensures ListOk(h1, i) {
      assert ListOk(h, i);
      forall x | x in h1.free[i] ensures BlockOf(h1, i, x) {
        assert BlockOf(h, i, x);
      }
    }
    forall q | q in h1.arenas ensures ArenaOk(h1, q) && Used(h1, q) {
      assert ArenaOk(h, q) && Used(h, q);
      if h.arenas[q].Small? {
        var i := h.arenas[q].cls;
        assert In(h1.free[i], i, q) == In(h.free[i], i, q);
      }
    }
    forall x | x in h1.live ensures LiveOk(h1, x) {
      assert LiveOk(h, x);
    }
  }

  lemma {:induction false} FreeLargeOk(h: Heap, x: Block)
    requires Ok(h) && x in h.live && x.page in h.arenas && h.arenas[x.page].Large?
    ensures Ok(Free(h, x)) && Free(h, x).live == h.live - {x}
  {
    var p, h1 := x.page, Free(h, x);
    ArenaInside(h, p);
    ArenasLess(h, h1, p);
    forall i, y | 0 <= i < CLASSES && y in h.free[i] ensures y.page != p {
      assert ListOk(h, i) && BlockOf(h, i, y);
    }
    forall y | y in h.live && y.page == p ensures y == x {
      assert LiveOk(h, y) && LiveOk(h, x);
    }
    forall i | 0 <= i < CLASSES ensures NoDup(h1.free[i]) { assert ListOk(h, i); }
    DropOk(h, h1, p);
  }

  /** The free list of the block's class with the block at its end. */
  lemma {:induction false} Appended(h: Heap, x: Block, i: nat)
    requires Sound(h) && x in h.live && i < CLASSES && x.page in h.arenas && h.arenas[x.page].Small?
    requires h.arenas[x.page].cls == i
    ensures x.idx < Count(i) && x !in h.free[i] && NoDup(h.free[i] + [x]) && BlockOf(h, i, x)
    ensures |In(h.free[i] + [x], i, x.page)| == h.arenas[x.page].cnt + 1
  {
    assert LiveOk(h, x) && ArenaOk(h, x.page) && ListOk(h, i);
    assert Block(x.page, x.idx) == x;
    InAppend(h.free[i], i, x.page, x);
  }

  lemma {:induction false} FreeSmallOk(h: Heap, x: Block, i: nat, cnt: int)
    requires Ok(h) && x in h.live && i < CLASSES && x.page in h.arenas && h.arenas[x.page] == Small(i, cnt)
    requires cnt + 1 != Count(i)
    ensures Ok(Free(h, x)) && Free(h, x).live == h.live - {x}
  {
    var p, h1 := x.page, Free(h, x);
    Appended(h, x, i);
    ArenasKept(h, h1, p);
    forall j | 0 <= j < CLASSES ensures ListOk(h1, j) {
      assert ListOk(h, j);
      forall y | y in h1.free[j] ensures BlockOf(h1, j, y) {
        assert BlockOf(h, j, y);
      }
    }
    forall q | q in h1.arenas ensures ArenaOk(h1, q) && Used(h1, q) { FreeSmallArena(h, x, i, cnt, q); }
    assert forall y <- h1.live :: LiveOk(h, y) && LiveOk(h1, y);
  }

  lemma {:induction false} FreeSmallArena(h: Heap, x: Block, i: nat, cnt: int, q: nat)
    requires Ok(h) && x in h.live && i < CLASSES && x.page in h.arenas && h.arenas[x.page] == Small(i, cnt)
    requires cnt + 1 != Count(i) && q in h.arenas
    ensures ArenaOk(Free(h, x), q) && Used(Free(h, x), q)
  {
    var p, h1 := x.page, Free(h, x);
    Appended(h, x, i);
    assert ArenaOk(h, q) && Used(h, q) && Used(h, p);
    if q != p && h.arenas[q].Small? {
      InAppend(h.free[i], i, q, x);
      var j := h.arenas[q].cls;
      assert In(h1.free[j], j, q) == In(h.free[j], j, q);
    }
  }

  lemma {:induction false} FreeLastOk(h: Heap, x: Block, i: nat, cnt: int)
    requires Ok(h) && x in h.live && i < CLASSES && x.page in h.arenas && h.arenas[x.page] == Small(i, cnt)
    requires cnt + 1 == Count(i)
    ensures Ok(Free(h, x)) && Free(h, x).live == h.live - {x}
  {
    var p, h1, list := x.page, Free(h, x), h.free[i] + [x];
    ArenaInside(h, p);
    ArenasLess(h, h1, p);
    Appended(h, x, i);
    AllIn(list, i, p);
    MinusIn(list, p, Count(i));
    forall y | y in h.live && y.page == p ensures y == x {
      assert LiveOk(h, y) && ArenaOk(h, p);
      assert Block(p, y.idx) == y && y in list;
    }
    forall j, y | 0 <= j < CLASSES && y in h1.free[j] ensures y.page != p {
      NotInPage(h, x, i, j, y);
    }
    forall j | 0 <= j < CLASSES ensures NoDup(h1.free[j]) { assert ListOk(h, j); }
    DropOk(h, h1, p);
  }

  lemma {:induction false} NotInPage(h: Heap, x: Block, i: nat, j: nat, y: Block)
    requires Ok(h) && x in h.live && i < CLASSES && x.page in h.arenas && h.arenas[x.page].Small?
    requires h.arenas[x.page].cls == i && j < CLASSES
    requires y in (if j == i then Minus(h.free[i] + [x], x.page, Count(i)) else h.free[j])
    ensures y.page != x.page
  {
    MinusIn(h.free[i] + [x], x.page, Count(i));
    assert ListOk(h, j);
    if j != i {
      assert BlockOf(h, j, y);
    } else if y != x {
      assert y in h.free[i] && BlockOf(h, i, y);
    } else {
      assert LiveOk(h, x);
    }
  }

  /** `sys_free` keeps the invariant, and takes back just the block. */
  lemma {:induction false} FreeOk(h: Heap, x: Block)
    requires Ok(h) && x in h.live
    ensures Ok(Free(h, x)) && Free(h, x).live == h.live - {x}
  {
    assert LiveOk(h, x) && ArenaOk(h, x.page);
    match h.arenas[x.page]
    case Large(_) => FreeLargeOk(h, x);
    case Small(i, cnt) => if cnt + 1 == Count(i) { FreeLastOk(h, x, i, cnt); } else { FreeSmallOk(h, x, i, cnt); }
  }

  // ---------- which block, and when ----------

  /**
   `sys_malloc` succeeds exactly when there is a free block of the class, or the page layer gives pages for an arena of
   at most 15 MB; a block of a small class is the first of its free list, which loses just that one.
   */
  lemma {:induction false} MallocExact(h: Heap, size: nat, r: Room)
    requires Ok(h) && size < TWO32 && RoomOk(h, size, r)
    ensures var (h1, g) := Malloc(h, size, r);
      && (g.Ptr? <==>
            if 0 < size <= 1024 then h.free[ClassOf(size)] != [] || r.Room?
            else size > 0 && 0 < PagesFor(size) < 3840 && r.Room?)
      && (0 < size <= 1024 && h.free[ClassOf(size)] != [] ==>
            g == Ptr(h.free[ClassOf(size)][0]) && h1.pages == h.pages
            && h1.free == h.free[ClassOf(size) := h.free[ClassOf(size)][1..]])
  {
  }

  /** A block that is freed goes to the end of its list, unless it was the last of its arena. */
  lemma {:induction false} FreeAppends(h: Heap, x: Block)
    requires Ok(h) && x in h.live && LiveOk(h, x) && h.arenas[x.page].Small?
    requires h.arenas[x.page].cnt + 1 < Count(h.arenas[x.page].cls)
    ensures var i := h.arenas[x.page].cls; i < |h.free| && Free(h, x).free == h.free[i := h.free[i] + [x]]
  {
    assert ArenaOk(h, x.page);
  }

  /** What `n` calls in a row hand out. */
  function Allocated(h: Heap, size: nat, n: nat): seq<Block>
    requires Ok(h) && 0 < size <= 1024
    decreases n
  {
    MallocOk(h, size, NoRoom);
    var (h1, g) := Malloc(h, size, NoRoom);
    if n == 0 || !g.Ptr? then [] else [g.block] + Allocated(h1, size, n - 1)
  }

  /** Free blocks are handed out in the order in which they were freed. */
  lemma {:induction false} FirstFreed(h: Heap, size: nat, n: nat)
    requires Ok(h) && 0 < size <= 1024 && n <= |h.free[ClassOf(size)]|
    ensures Allocated(h, size, n) == h.free[ClassOf(size)][..n]
    decreases n
  {
    if n > 0 {
      MallocExact(h, size, NoRoom);
      MallocOk(h, size, NoRoom);
      FirstFreed(Malloc(h, size, NoRoom).0, size, n - 1);
    }
  }

  // ---------- sys_malloc, then sys_free ----------

  /** The same pages, arenas and live blocks, and the same free blocks in perhaps another order. */
  ghost predicate Same(h: Heap, h2: Heap) {
    && h2.base == h.base && h2.pages == h.pages && h2.arenas == h.arenas && h2.live == h.live
    && |h2.free| == |h.free| && forall i :: 0 <= i < |h.free| ==> multiset(h2.free[i]) == multiset(h.free[i])
  }

  lemma {:induction false} BackToList(h: Heap, i: nat)
    requires Ok(h) && i < CLASSES && h.free[i] != [] && BlockOf(h, i, h.free[i][0]) && Ok(Pop(h, i))
    requires h.free[i][0] !in h.live
    ensures Same(h, Free(Pop(h, i), h.free[i][0]))
  {
    var x, h1 := h.free[i][0], Pop(h, i);
    assert Used(h, x.page);
    assert h.free[i] == [x] + h.free[i][1..];
    assert h1.arenas[x.page := h.arenas[x.page]] == h.arenas;
    assert h1.live - {x} == h.live;
  }

  lemma {:induction false} MinusAll(s: seq<Block>, p: nat, n: nat)
    requires forall x <- s :: x.page == p && x.idx < n
    ensures Minus(s, p, n) == []
  {
    MinusIn(s, p, n);
    if Minus(s, p, n) != [] {
      assert Minus(s, p, n)[0] in Minus(s, p, n);
    }
  }

  lemma {:induction false} FreshPopped(h: Heap, i: nat, k: nat)
    requires i < CLASSES == |h.free| && h.free[i] == [] && k + 1 <= |h.pages|
    requires var h2 := NewArena(Take(h, k, 1), i, h.base + k);
      h2.free[i] == Fresh(h.base + k, Count(i)) && BlockOf(h2, i, Block(h.base + k, 0))
    ensures Pop(NewArena(Take(h, k, 1), i, h.base + k), i) ==
      Heap(h.base, WithRun(h.pages, k, 1, true), h.arenas[h.base + k := Small(i, Count(i) - 1)],
           h.free[i := Fresh(h.base + k, Count(i))[1..]], h.live + {Block(h.base + k, 0)})
  {
  }

  lemma {:induction false} MapBack(m: map<nat, Header>, p: nat, a: Header)
    requires p !in m
    ensures m[p := a] - {p} == m
  {
  }

  lemma {:induction false} SetBack(s: set<Block>, x: Block)
    requires x !in s
    ensures (s + {x}) - {x} == s
  {
  }

  lemma {:induction false} BackToPages(h: Heap, i: nat, k: nat, h1: Heap, rest: seq<Block>)
    requires i < CLASSES == |h.free| && h.free[i] == [] && ClearRun(h.pages, k, 1) && h.base + k !in h.arenas
    requires Block(h.base + k, 0) !in h.live
    requires Ok(h1) && h1.base == h.base && h1.pages == WithRun(h.pages, k, 1, true)
    requires h1.arenas == h.arenas[h.base + k := Small(i, Count(i) - 1)] && h1.free == h.free[i := rest]
    requires forall y <- rest :: y.page == h.base + k && y.idx < Count(i)
    requires h1.live == h.live + {Block(h.base + k, 0)}
    ensures Same(h, Free(h1, Block(h.base + k, 0)))
  {
    var p, x := h.base + k, Block(h.base + k, 0);
    MinusAll(rest + [x], p, Count(i));
    WithRunBack(h.pages, k, 1);
    MapBack(h.arenas, p, Small(i, Count(i) - 1));
    SetBack(h.live, x);
    assert h.free[i := rest][i := []] == h.free;
  }

  lemma {:induction false} BackToSpan(h: Heap, n: nat, k: nat, h1: Heap)
    requires Ok(h) && 0 < n && ClearRun(h.pages, k, n) && Block(h.base + k, 0) !in h.live
    requires h1 == Take(h, k, n).(arenas := h.arenas[h.base + k := Large(n)], live := h.live + {Block(h.base + k, 0)})
    requires Ok(h1)
    ensures Same(h, Free(h1, Block(h.base + k, 0)))
  {
    TakeOk(h, k, n);
    WithRunBack(h.pages, k, n);
    assert h1.arenas - {h.base + k} == h.arenas;
    assert h1.live - {Block(h.base + k, 0)} == h.live;
  }

  lemma {:induction false} PageBack(h: Heap, size: nat, k: nat)
    requires Ok(h) && 0 < size <= 1024 && ClearRun(h.pages, k, 1) && h.free[ClassOf(size)] == []
    ensures var r := Malloc(h, size, Room(k));
      r.1 == Ptr(Block(h.base + k, 0)) && Ok(r.0) && Block(h.base + k, 0) in r.0.live
      && Same(h, Free(r.0, Block(h.base + k, 0)))
  {
    var i := ClassOf(size);
    MallocPage(h, size, k);
    var h1 := Pop(NewArena(Take(h, k, 1), i, h.base + k), i);
    PageResult(h, size, k, h1);
    FreshPopped(h, i, k);
    TakeOk(h, k, 1);
    FreshBlocks(h.base + k, Count(i));
    BackToPages(h, i, k, h1, Fresh(h.base + k, Count(i))[1..]);
  }

  /** Freeing what was just allocated restores the marked pages, the arenas and the free blocks. */
  lemma {:induction false} MallocThenFree(h: Heap, size: nat, r: Room)
    requires Ok(h) && size < TWO32 && RoomOk(h, size, r)
    ensures var (h1, g) := Malloc(h, size, r); g.Ptr? ==> Ok(h1) && g.block in h1.live && Same(h, Free(h1, g.block))
  {
    MallocOk(h, size, r);
    var (h1, g) := Malloc(h, size, r);
    if g.Ptr? {
      if size > 1024 {
        BackToSpan(h, PagesFor(size), r.k, h1);
      } else {
        LittleBack(h, size, r);
      }
    }
  }

  lemma {:induction false} LittleBack(h: Heap, size: nat, r: Room)
    requires Ok(h) && 0 < size <= 1024 && RoomOk(h, size, r) && Malloc(h, size, r).1.Ptr?
    requires var (h1, g) := Malloc(h, size, r); Ok(h1) && g.block in h1.live && g.block !in h.live
    ensures var (h1, g) := Malloc(h, size, r); Same(h, Free(h1, g.block))
  {
    var i := ClassOf(size);
    if h.free[i] != [] {
      FirstFree(h, i);
      BackToList(h, i);
    } else {
      PageBack(h, size, r.k);
    }
  }
}
