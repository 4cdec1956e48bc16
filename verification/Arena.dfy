/** `sys_malloc` and `sys_free` (code/kernel/syscall.c) as they change the free lists and headers. */
module Arena {
  import opened Common
  import opened ArenaSpec
  import opened ArenaInv
  import opened ArenaPages
  import opened BitSpec
  import Paging
  import PageLayer
  import PageAlloc
  import BitmapScan

  /** `list_remove` */
  function Remove(s: seq<Block>, x: Block): seq<Block> {
    if s == [] then [] else if s[0] == x then s[1..] else [s[0]] + Remove(s[1..], x)
  }

  /** Unlinking block `n` of a page from a list that holds it once. */
  lemma {:induction false} RemoveNext(s: seq<Block>, p: nat, n: nat)
    requires NoDup(s) && Block(p, n) in s
    ensures Remove(Minus(s, p, n), Block(p, n)) == Minus(s, p, n + 1)
  {
    if s[0] == Block(p, n) {
      assert Block(p, n) !in s[1..];
      MinusSame(s[1..], p, n);
    } else {
      RemoveNext(s[1..], p, n);
      if s[0].page == p && s[0].idx < n {
      } else {
        assert ([s[0]] + Minus(s[1..], p, n))[1..] == Minus(s[1..], p, n);
      }
    }
  }

  lemma {:induction false} MinusSame(s: seq<Block>, p: nat, n: nat)
    requires Block(p, n) !in s
    ensures Minus(s, p, n) == Minus(s, p, n + 1)
  {
    if s != [] {
      MinusSame(s[1..], p, n);
      assert s[0] in s;
    }
  }

  lemma {:induction false} MinusNone(s: seq<Block>, p: nat)
    ensures Minus(s, p, 0) == s
  {
    if s != [] { MinusNone(s[1..], p); }
  }

  lemma {:induction false} RefillResult(h: Heap, size: nat, k: nat, h2: Heap)
    requires Ok(h) && 0 < size <= 1024 && ClearRun(h.pages, k, 1) && h.free[ClassOf(size)] == []
    requires h2 == NewArena(Take(h, k, 1), ClassOf(size), h.base + k)
    ensures |h2.free| == CLASSES && h2.free[ClassOf(size)] != [] && h2.free[ClassOf(size)][0] == Block(h.base + k, 0)
    ensures BlockOf(h2, ClassOf(size), Block(h.base + k, 0))
    ensures Malloc(h, size, Room(k)) == (Pop(h2, ClassOf(size)), Ptr(Block(h.base + k, 0)))
  {
    MallocPage(h, size, k);
    PageResult(h, size, k, Pop(h2, ClassOf(size)));
  }

  /** Pages that are not marked lie beside all arenas. */
  lemma {:induction false} AllBeside(h: Heap, n: nat)
    requires ArenasOk(h) && n > 0
    ensures forall k :: ClearRun(h.pages, k, n) ==> Beside(h.arenas, h.base + k, n)
  {
    forall k | ClearRun(h.pages, k, n) ensures Beside(h.arenas, h.base + k, n) {
      forall q | q in h.arenas ensures q + Span(h.arenas[q]) <= h.base + k || h.base + k + n <= q {
        NoArena(h, k, n, q);
      }
    }
  }

  /** The other arenas lie beside an arena. */
  lemma {:induction false} OthersBeside(h: Heap, p: nat)
    requires ArenasOk(h) && p in h.arenas
    ensures Beside(h.arenas - {p}, p, Span(h.arenas[p]))
  {
  }

  lemma {:induction false} SameArenas(h: Heap, h1: Heap)
    requires ArenasOk(h) && h1.base == h.base && h1.pages == h.pages && h1.arenas == h.arenas
    ensures ArenasOk(h1)
  {
    forall q | Marked(h, q) ensures Marked(h1, q) {
    }
  }

  lemma {:induction false} NoArenas(h: Heap)
    requires h.arenas == map[] && h.free == [[], [], [], [], [], [], []] && h.live == {}
    ensures Ok(h)
  {
  }

  /** How the answer of the page layer shows in the heap. */
  ghost predicate Answered(h: Heap, h1: Heap, g: PageAlloc.Grant, r: Room, n: nat) {
    && (g.NoAddress? <==> r.NoRoom?) && (g.NoFrame? <==> r.Short?) && (g.Panic? <==> r.Fatal?)
    && (g.Granted? <==> r.Room?)
    && (r.NoRoom? || ClearRun(h.pages, r.k, n)) && h1 == if r.NoRoom? then h else Take(h, r.k, n)
  }

  /** The answer of the page layer, with the place of the run at `v`. */
  function RoomFor(g: PageAlloc.Grant, v: nat, base: nat): Room {
    if g.NoAddress? || g.Wild? || v / PG_SIZE < base then NoRoom
    else var k := v / PG_SIZE - base; if g.Granted? then Room(k) else if g.Panic? then Fatal(k) else Short(k)
  }

  /** The heap without the arena at `p` and the marks of its pages. */
  function PagesFreed(h: Heap, p: nat, n: nat): Heap
    requires h.base <= p && p - h.base + n <= |h.pages|
  {
    h.(arenas := h.arenas - {p}, pages := WithRun(h.pages, p - h.base, n, false))
  }

  /** The heap after the marks of an arena have been cleared. */
  lemma {:induction false} FreedView(h: Heap, was: PageLayer.Marks, now: PageLayer.Marks, pool: PageLayer.PoolId,
                                     p: nat, n: nat)
    requires h.pages == was.Of(pool) && PageAlloc.Unmarked(was, now, pool, h.base, p, n)
    ensures h.base <= p && p - h.base + n <= |h.pages|
    ensures Heap(h.base, now.Of(pool), h.arenas - {p}, h.free, h.live) == PagesFreed(h, p, n)
  {
  }

  /** The heap after pages have been marked. */
  lemma {:induction false} TakenView(h: Heap, h1: Heap, was: PageLayer.Marks, now: PageLayer.Marks,
                                     pool: PageLayer.PoolId, g: PageAlloc.Grant, v: nat, n: nat)
    requires h.pages == was.Of(pool) && !g.Wild?
    requires if g.NoAddress? then now == was else PageAlloc.Marking(was, now, pool, h.base, v, n)
    requires h1 == Heap(h.base, now.Of(pool), h.arenas, h.free, h.live)
    ensures Answered(h, h1, g, RoomFor(g, v, h.base), n)
    ensures g.Granted? ==> Paging.Page(v) == h.base + RoomFor(g, v, h.base).k
    ensures g.Granted? ==> v == PG_SIZE * (h.base + RoomFor(g, v, h.base).k)
  {
  }

  /** `sys_malloc` when the page layer has refused. */
  lemma {:induction false} NotGranted(h: Heap, h1: Heap, size: nat, g: PageAlloc.Grant, r: Room)
    requires Ok(h) && 0 < size < TWO32 && 0 < Asked(size) < 3840 && (size <= 1024 ==> h.free[ClassOf(size)] == [])
    requires Answered(h, h1, g, r, Asked(size)) && !g.Wild? && !g.Granted?
    ensures RoomOk(h, size, r) && Malloc(h, size, r) == (h1, if g.Panic? then Panic else Null)
  {
  }

  /** `sys_malloc` of this size has to ask the page layer. */
  predicate Asks(h: Heap, size: nat)
    requires |h.free| == CLASSES
  {
    && size > 0 && (size > 1024 ==> 0 < PagesFor(size) < 3840)
    && (size <= 1024 ==> h.free[ClassOf(size)] == [])
  }

  /**
   The block handed out lies in an arena that was there, and no page has been mapped; or in a new arena over exactly the
   pages from `v` on that have been mapped to the frames `fs`, which were not marked.
   */
  ghost predicate Placed(h: Heap, h1: Heap, x: Block, v: nat, fs: seq<nat>) {
    if x.page in h.arenas then fs == []
    else
      && v == PG_SIZE * x.page && h.base <= x.page && ClearRun(h.pages, x.page - h.base, |fs|)
      && x.page in h1.arenas && |fs| == Span(h1.arenas[x.page])
  }

  class Allocator {
    const layer: PageLayer.Layer
    const pool: PageLayer.PoolId
    var arenas: map<nat, Header>
    var free: seq<seq<Block>>
    ghost var live: set<Block>

    function Base(): nat { PageAlloc.BaseOf(layer.userBase, pool) }

    ghost function View(): Heap
      reads this, layer`pages
    {
      Heap(Base(), layer.pages.Of(pool), arenas, free, live)
    }

    ghost predicate Valid()
      reads this, layer
    {
      Ok(View()) && Standing(layer, pool, arenas)
    }

    /** No arena yet: `block_desc_init` over a page layer. */
    constructor (layer: PageLayer.Layer, pool: PageLayer.PoolId)
      requires layer.Valid() && PageAlloc.Spaces(layer.mem, layer.cr3, layer.pages, layer.userBase)
      ensures Valid() && this.layer == layer && this.pool == pool
      ensures arenas == map[] && free == [[], [], [], [], [], [], []] && live == {}
    {
      this.layer, this.pool, arenas, live := layer, pool, map[], {};
      free := [[], [], [], [], [], [], []];
      new;
      NoArenas(View());
    }

    /** All blocks of a new arena go to the end of the free list of their class. */
    method Carve(i: nat, p: nat)
      requires i < CLASSES == |free|
      modifies this`free
      ensures free == old(free)[i := old(free)[i] + Fresh(p, Count(i))]
      ensures unchanged(layer)
    {
      var b := 0;
      ghost var list := free[i];
      assert list + Fresh(p, 0) == list;
      while b < Count(i)
        invariant b <= Count(i) && |free| == CLASSES && free == old(free)[i := list + Fresh(p, b)]
      {
        assert list + Fresh(p, b) + [Block(p, b)] == list + Fresh(p, b + 1);
        free := free[i := free[i] + [Block(p, b)]];
        b := b + 1;
      }
    }

    /** All blocks of an arena are unlinked from the free list of their class. */
    method Unlink(i: nat, p: nat)
      requires i < CLASSES == |free| && NoDup(free[i]) && forall b :: 0 <= b < Count(i) ==> Block(p, b) in free[i]
      modifies this`free
      ensures free == old(free)[i := Minus(old(free)[i], p, Count(i))]
      ensures unchanged(layer)
    {
      var b, n := 0, Count(i);
      ghost var f0, list := free, free[i];
      MinusNone(list, p);
      while b < n
        invariant b <= n && free == f0[i := Minus(list, p, b)]
      {
        RemoveNext(list, p, b);
        UnlinkOne(i, Block(p, b), f0, Minus(list, p, b));
        b := b + 1;
      }
    }

    method UnlinkOne(i: nat, x: Block, ghost f0: seq<seq<Block>>, ghost list: seq<Block>)
      requires i < |f0| && free == f0[i := list]
      modifies this`free
      ensures free == f0[i := Remove(list, x)]
    {
      free := free[i := Remove(free[i], x)];
    }

    /** `malloc_page` as the allocator sees it. */
    method TakePages(n: nat)
      returns (g: PageAlloc.Grant, ghost r: Room, ghost v: nat, ghost fs: seq<nat>, ghost ts: seq<nat>)
      requires Valid() && 0 < n < 3840
      modifies layer`mem, layer`cache, layer`pools, layer`pages
      ensures !g.Wild? ==> Standing(layer, pool, arenas) && Answered(old(View()), View(), g, r, n)
      ensures g.Granted? ==> g.v / PG_SIZE == Base() + r.k && Held(Base() + r.k, n)
      ensures g.Granted? ==> v == PG_SIZE * (Base() + r.k) && |fs| == n
      ensures !g.Wild? ==> Answer(r, old(View()).pages, n)
      ensures !g.Wild? ==> PagesGiven(old(layer.mem), old(layer.pools), v, fs, ts)
      ensures g.Wild? ==> GoneWild(old(layer.mem), old(layer.pools), v, fs, ts)
    {
      ghost var h, was := View(), layer.pages;
      AllBeside(h, n);
      g, v, fs, ts := TakeRun(layer, pool, n, arenas);
      r := RoomFor(g, v, h.base);
      if !g.Wild? { TakenView(h, View(), was, layer.pages, pool, g, v, n); }
    }

    /** The page layer finds no run exactly when there is none to be found, and no frame when its pool is used up. */
    ghost predicate Answer(r: Room, pages: seq<bool>, n: nat)
      reads layer`pools
    {
      (r.NoRoom? <==> BitmapScan.NoneFound(pages, n)) && (r.Short? ==> Full(layer.pools.Of(pool)))
    }

    /** The pages from page number `p` on are mapped to frames of the pool. */
    ghost predicate Held(p: nat, n: nat)
      reads layer
    {
      RunHeld(layer.mem, layer.cr3, layer.dirs, Low(layer.pools, pool), High(layer.pools, pool), p, n)
    }

    /** The page layer has mapped the frames `fs` from `v` on and used `ts` for page tables, and nothing else. */
    ghost predicate PagesGiven(m: Paging.Mem, pools: PageLayer.Pools, v: nat, fs: seq<nat>, ts: seq<nat>)
      reads layer
    {
      forall l :: l == fs ==> PageAlloc.Gave(m, layer.mem, layer.cr3, layer.dirs, pools, layer.pools, pool, v, l, ts)
    }

    /** After the frames `fs`, the page layer has made frame 0 a page table for a second time. */
    ghost predicate GoneWild(m: Paging.Mem, pools: PageLayer.Pools, v: nat, fs: seq<nat>, ts: seq<nat>)
      reads layer`cr3, layer`homes, layer`dirs
    {
      PageAlloc.WildAt(m, layer.cr3, layer.homes, layer.dirs, pools, pool, v, fs, ts)
    }

    /** Nothing asked of the page layer. */
    lemma {:induction false} NoPages(v: nat)
      requires Standing(layer, pool, arenas)
      ensures PagesGiven(layer.mem, layer.pools, v, [], [])
    {
      assert Stands(layer.mem, layer.cr3, layer.cache, layer.homes, layer.dirs, layer.pools, layer.pages,
                    layer.userBase,
                    pool, arenas);
      NothingGiven(layer.mem, layer.cr3, layer.cache, layer.homes, layer.dirs, layer.pools, pool, v);
    }

    /** The loop that looks for the class. */
    method FindClass(size: nat) returns (i: nat)
      requires 0 < size <= 1024
      ensures i == ClassOf(size)
    {
      i := 0;
      while i < CLASSES
        invariant i <= CLASSES && forall j :: 0 <= j < i ==> Size(j) < size
      {
        if size <= Size(i) {
          break;
        }
        i := i + 1;
      }
      assert Size(6) == 1024;
    }

    /** The pages to ask for: `None` when the free list of the class has a block. */
    method Need(size: nat) returns (n: Option<nat>)
      requires 0 < size && |free| == CLASSES
      ensures n == if size > 1024 then Some(PagesFor(size)) else if free[ClassOf(size)] == [] then Some(1) else None
    {
      if size > 1024 {
        return Some(PagesFor(size));
      }
      var i := FindClass(size);
      n := if free[i] == [] then Some(1) else None;
    }

    /** `list_pop`, and one free block less in the header of its arena. */
    method PopBlock(i: nat) returns (x: Block)
      requires i < CLASSES == |free| && free[i] != [] && BlockOf(View(), i, free[i][0])
      modifies this`free, this`arenas, this`live
      ensures x == old(free)[i][0] && View() == Pop(old(View()), i)
      ensures unchanged(layer)
    {
      x := free[i][0];
      free := free[i := free[i][1..]];
      arenas := arenas[x.page := Small(i, arenas[x.page].cnt - 1)];
      live := live + {x};
    }

    /** `sys_malloc` from a free list. */
    method Serve(size: nat) returns (g: Got)
      requires Ok(View()) && 0 < size <= 1024 && free[ClassOf(size)] != []
      modifies this`free, this`arenas, this`live
      ensures (View(), g) == Malloc(old(View()), size, NoRoom) && SameSpans(old(arenas), arenas)
      ensures g.Ptr? && g.block.page in old(arenas)
      ensures unchanged(layer)
    {
      FirstFree(View(), ClassOf(size));
      var i := FindClass(size);
      var x := PopBlock(i);
      g := Ptr(x);
    }

    /** `sys_malloc` in the new pages from page number `p` on. */
    method Settle(size: nat, p: nat, n: nat, ghost h: Heap, ghost k: nat) returns (g: Got)
      requires Ok(h) && 0 < size < TWO32 && n == Asked(size) && 0 < n < 3840 && ClearRun(h.pages, k, n)
      requires p == h.base + k
      requires View() == Take(h, k, n) && (size <= 1024 ==> free[ClassOf(size)] == [])
      modifies this`free, this`arenas, this`live
      ensures (View(), g) == Malloc(h, size, Room(k)) && p in arenas && Span(arenas[p]) == n && g == Ptr(Block(p, 0))
      ensures arenas == old(arenas)[p := arenas[p]]
      ensures unchanged(layer)
    {
      if size > 1024 {
        arenas := arenas[p := Large(n)];
        live := live + {Block(p, 0)};
        return Ptr(Block(p, 0));
      }
      var i := FindClass(size);
      StartArena(i, p);
      RefillResult(h, size, k, View());
      var x := PopBlock(i);
      g := Ptr(x);
    }

    /** A new arena. */
    method StartArena(i: nat, p: nat)
      requires i < CLASSES == |free|
      modifies this`arenas, this`free
      ensures View() == NewArena(old(View()), i, p)
      ensures unchanged(layer)
    {
      arenas := arenas[p := Small(i, Count(i))];
      Carve(i, p);
    }

    /**
     `sys_malloc`: a block that is not live yet, from a free list, or from pages that the page layer maps for it. `Wild`
     is the answer only when the page layer makes frame 0 a page table twice; no more is promised then.
     */
    method SysMalloc(size: nat) returns (g: Got, ghost r: Room, ghost v: nat, ghost fs: seq<nat>, ghost ts: seq<nat>)
      requires Valid() && size < TWO32
      modifies this`free, this`arenas, this`live, layer`mem, layer`cache, layer`pools, layer`pages
      ensures g != Wild ==> Valid() && RoomOk(old(View()), size, r) && (View(), g) == Malloc(old(View()), size, r)
      ensures g != Wild ==> PagesGiven(old(layer.mem), old(layer.pools), v, fs, ts)
      ensures g != Wild && Asks(old(View()), size) ==> Answer(r, old(View()).pages, Asked(size))
      ensures g == Wild ==> Asks(old(View()), size) && GoneWild(old(layer.mem), old(layer.pools), v, fs, ts)
      ensures g.Ptr? ==> Placed(old(View()), View(), g.block, v, fs)
    {
      ghost var h := View();
      r, v, fs, ts := NoRoom, 0, [], [];
      if size == 0 {
        NoPages(0);
        return Null, r, v, fs, ts;
      }
      var need := Need(size);
      if need.None? {
        ghost var was := arenas;
        g := Serve(size);
        StandingSpans(layer, pool, was, arenas);
        NoPages(0);
      } else if !(0 < need.value < 3840) {
        NoPages(0);
        g := Panic;
      } else {
        g, r, v, fs, ts := MallocInPages(size, need.value);
      }
      if g != Wild { MallocOk(h, size, r); }
    }

    /** `sys_malloc` that asks the page layer. */
    method MallocInPages(size: nat, n: nat)
      returns (g: Got, ghost r: Room, ghost v: nat, ghost fs: seq<nat>, ghost ts: seq<nat>)
      requires Valid() && 0 < size < TWO32 && n == Asked(size) && 0 < n < 3840
      requires size <= 1024 ==> free[ClassOf(size)] == []
      modifies this`free, this`arenas, this`live, layer`mem, layer`cache, layer`pools, layer`pages
      ensures g != Wild ==>
        RoomOk(old(View()), size, r) && (View(), g) == Malloc(old(View()), size, r) && Standing(layer, pool, arenas)
      ensures g != Wild ==> PagesGiven(old(layer.mem), old(layer.pools), v, fs, ts)
      ensures g != Wild ==> Answer(r, old(View()).pages, n)
      ensures g == Wild ==> GoneWild(old(layer.mem), old(layer.pools), v, fs, ts)
      ensures g.Ptr? ==> Placed(old(View()), View(), g.block, v, fs)
    {
      ghost var h := View();
      var a;
      a, r, v, fs, ts := TakePages(n);
      if a.Wild? {
        return Wild, r, v, fs, ts;
      }
      g := Conclude(size, n, a, h, r, v, fs);
    }

    /**
     `sys_malloc` after the page layer has answered: new pages become an arena, and one of its blocks is handed out.
     */
    method Conclude(size: nat, n: nat, a: PageAlloc.Grant, ghost h: Heap, ghost r: Room, ghost v: nat,
                    ghost fs: seq<nat>) returns (g: Got)
      requires Ok(h) && 0 < size < TWO32 && n == Asked(size) && 0 < n < 3840
      requires size <= 1024 ==> h.free[ClassOf(size)] == []
      requires !a.Wild? && Answered(h, View(), a, r, n) && Standing(layer, pool, arenas)
      requires a.Granted? ==> a.v / PG_SIZE == h.base + r.k && Held(h.base + r.k, n)
      requires a.Granted? ==> v == PG_SIZE * (h.base + r.k) && |fs| == n
      modifies this`free, this`arenas, this`live
      ensures g != Wild && RoomOk(h, size, r) && (View(), g) == Malloc(h, size, r) && Standing(layer, pool, arenas)
      ensures g.Ptr? ==> Placed(h, View(), g.block, v, fs)
      ensures unchanged(layer)
    {
      if a.Granted? {
        TakeOk(h, r.k, n);
        g := SettleOn(size, a.v / PG_SIZE, n, h, r, a);
      } else {
        NotGranted(h, View(), size, a, r);
        g := if a.Panic? then Panic else Null;
      }
    }

    method SettleOn(size: nat, p: nat, n: nat, ghost h: Heap, ghost r: Room, ghost a: PageAlloc.Grant) returns (g: Got)
      requires Ok(h) && 0 < size < TWO32 && n == Asked(size) && 0 < n < 3840
      requires size <= 1024 ==> h.free[ClassOf(size)] == []
      requires Answered(h, View(), a, r, n) && r.Room? && p == h.base + r.k && Standing(layer, pool, arenas)
      requires Held(p, n)
      modifies this`free, this`arenas, this`live
      ensures RoomOk(h, size, r) && (View(), g) == Malloc(h, size, r) && Standing(layer, pool, arenas)
      ensures g == Ptr(Block(p, 0)) && p in arenas && Span(arenas[p]) == n
      ensures unchanged(layer)
    {
      ghost var was := arenas;
      g := Settle(size, p, n, h, r.k);
      StandingMore(layer, pool, was, p, arenas[p]);
    }

    // ---------- sys_free ----------

    /**
     The page layer has taken the pages from page number `p` on back, which led to the frames `fs`, and nothing else.
     */
    ghost predicate PagesTaken(m: Paging.Mem, pools: PageLayer.Pools, p: nat, fs: seq<nat>)
      reads layer
    {
      Returned(m, layer.mem, layer.cr3, layer.dirs, pools, layer.pools, p, fs)
    }

    /** The changes to lists and headers; the pages that go back then, if any. */
    method Detach(x: Block) returns (n: nat)
      requires Ok(View()) && x in live
      modifies this`free, this`arenas, this`live
      ensures ArenasOk(View()) && x.page in arenas && SameSpans(old(arenas), arenas)
      ensures n == 0 ==> View() == Free(old(View()), x)
      ensures n > 0 ==> n == Span(arenas[x.page]) && Base() <= x.page && x.page - Base() + n <= |View().pages|
      ensures n > 0 ==> PagesFreed(View(), x.page, n) == Free(old(View()), x)
      ensures unchanged(layer)
    {
      ghost var h := View();
      assert LiveOk(h, x) && ArenaOk(h, x.page);
      ArenaInside(h, x.page);
      match arenas[x.page] {
        case Large(c) =>
          live := live - {x};
          n := c;
          SameArenas(h, View());
        case Small(i, cnt) =>
          if cnt + 1 == Count(i) {
            DetachLast(x, i, cnt);
            n := 1;
            SameArenas(h, View());
          } else {
            DetachOne(x, i, cnt);
            n := 0;
          }
      }
    }

    /** A block of an arena with other live blocks: back to the free list. */
    method DetachOne(x: Block, i: nat, cnt: int)
      requires Ok(View()) && x in live && i < CLASSES && x.page in arenas && arenas[x.page] == Small(i, cnt)
      requires cnt + 1 != Count(i)
      modifies this`free, this`arenas, this`live
      ensures View() == Free(old(View()), x) && ArenasOk(View()) && SameSpans(old(arenas), arenas)
      ensures unchanged(layer)
    {
      FreeOk(View(), x);
      free := free[i := free[i] + [x]];
      arenas := arenas[x.page := Small(i, cnt + 1)];
      live := live - {x};
    }

    /** The last live block of an arena: all its blocks are unlinked. */
    method DetachLast(x: Block, i: nat, cnt: int)
      requires Ok(View()) && x in live && i < CLASSES && x.page in arenas && arenas[x.page] == Small(i, cnt)
      requires cnt + 1 == Count(i) && Base() <= x.page && x.page - Base() + 1 <= |View().pages|
      modifies this`free, this`live
      ensures PagesFreed(View(), x.page, 1) == Free(old(View()), x)
      ensures unchanged(layer)
    {
      Appended(View(), x, i);
      AllIn(free[i] + [x], i, x.page);
      LinkUnlink(i, x);
      live := live - {x};
    }

    /** `sys_free` of a block that is handed out, or of NULL. */
    method SysFree(ptr: Option<Block>) returns (ghost fs: seq<nat>)
      requires Valid() && (ptr.Some? ==> ptr.value in live)
      modifies this`free, this`arenas, this`live, layer`mem, layer`pools, layer`pages
      ensures Valid() && View() == if ptr.Some? then Free(old(View()), ptr.value) else old(View())
      ensures PagesTaken(old(layer.mem), old(layer.pools), if ptr.Some? then ptr.value.page else 0, fs)
      ensures |fs| == if ptr.None? || ptr.value.page in arenas then 0 else Span(old(arenas)[ptr.value.page])
    {
      if ptr.None? {
        NoneTaken(0);
        return [];
      }
      ghost var was := arenas;
      FreeOk(View(), ptr.value);
      var n := Detach(ptr.value);
      StandingSpans(layer, pool, was, arenas);
      if n > 0 {
        fs := GivePages(ptr.value.page, n);
      } else {
        fs := [];
        NoneTaken(ptr.value.page);
      }
    }

    lemma {:induction false} NoneTaken(p: nat)
      ensures PagesTaken(layer.mem, layer.pools, p, [])
    {
      assert layer.pools.Free() + PageLayer.Listed([]) == layer.pools.Free();
    }

    method LinkUnlink(i: nat, x: Block)
      requires i < CLASSES == |free| && NoDup(free[i] + [x])
      requires forall b :: 0 <= b < Count(i) ==> Block(x.page, b) in free[i] + [x]
      modifies this`free
      ensures free == old(free)[i := Minus(old(free)[i] + [x], x.page, Count(i))]
      ensures unchanged(layer)
    {
      free := free[i := free[i] + [x]];
      Unlink(i, x.page);
    }

    /** `mfree_page` of the pages of an arena. */
    method GivePages(p: nat, n: nat) returns (ghost fs: seq<nat>)
      requires ArenasOk(View()) && Standing(layer, pool, arenas) && p in arenas && Span(arenas[p]) == n >= 1
      modifies this`arenas, layer`mem, layer`pools, layer`pages
      ensures Base() <= p && p - Base() + n <= |old(View()).pages| && View() == PagesFreed(old(View()), p, n)
      ensures Standing(layer, pool, arenas) && PagesTaken(old(layer.mem), old(layer.pools), p, fs) && |fs| == n
    {
      ghost var h, was := View(), layer.pages;
      ArenaInside(h, p);
      OthersBeside(h, p);
      StandingLess(layer, pool, arenas, p);
      fs := ReturnRun(layer, pool, p, n, arenas - {p});
      FreedView(h, was, layer.pages, pool, p, n);
      arenas := arenas - {p};
    }

    /**
     What is allocated and freed again leaves every address space, the marks, the arenas and the live blocks as they
     were, the free blocks but for their order, and the frames but for page tables `ts`.
     */
    method AllocateAndFree(size: nat) returns (g: Got, ghost ts: seq<nat>)
      requires Valid() && size < TWO32
      modifies this`free, this`arenas, this`live, layer`mem, layer`cache, layer`pools, layer`pages
      ensures g != Wild ==> Valid()
      ensures g.Ptr? ==> Same(old(View()), View())
      ensures g.Ptr? ==> Paging.SameWalks(old(layer.mem), layer.mem, PageLayer.Elements(layer.dirs))
      ensures g.Ptr? ==> layer.pools.Free() == old(layer.pools).Free() - PageLayer.Listed(ts)
    {
      ghost var h := View();
      ghost var r, v, fs;
      StandingKnown(layer, pool, arenas);
      g, r, v, fs, ts := SysMalloc(size);
      if g.Ptr? {
        MallocOk(h, size, r);
        MallocThenFree(h, size, r);
        FreeAllocated(g.block, h, v, fs, ts, old(layer.mem), old(layer.cache), old(layer.pools));
      }
    }

    /** `sys_free` of what `sys_malloc` has just handed out. */
    method FreeAllocated(x: Block, ghost h: Heap, ghost v: nat, ghost fs: seq<nat>, ghost ts: seq<nat>,
                         ghost m: Paging.Mem, ghost cache: seq<nat>, ghost pools: PageLayer.Pools)
      requires Valid() && x in live && Placed(h, View(), x, v, fs) && PagesGiven(m, pools, v, fs, ts)
      requires Known(m, layer.cr3, layer.dirs, cache, h.pages, h.base) && Same(h, Free(View(), x))
      modifies this`free, this`arenas, this`live, layer`mem, layer`pools, layer`pages
      ensures Valid() && Same(h, View()) && Paging.SameWalks(m, layer.mem, PageLayer.Elements(layer.dirs))
      ensures layer.pools.Free() == pools.Free() - PageLayer.Listed(ts)
    {
      ghost var m1, pools1 := layer.mem, layer.pools;
      ghost var back := SysFree(Some(x));
      assert |back| == |fs|;
      RunBack(m, m1, layer.mem, layer.cr3, cache, layer.dirs, pools, pools1, layer.pools, h.pages, h.base, pool, v,
              x.page,
              fs, ts, back);
    }
  }
}
