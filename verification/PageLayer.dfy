/**
 Page allocation and page tables (code/kernel/memory.c: `page_table_add`, `palloc`, `malloc_page`, `mfree_page`;
 code/userprog/process.c: `create_page_dir`).
 */
module PageLayer {
  import opened Common
  import opened Paging
  import opened BitSpec

  /** Virtual address at which the kernel's page directory is always mapped. */
  const KERNEL_PAGE_DIR: nat := 0xc010_0000

  /** The frames of a pool, and those of them that are free. */
  predicate InPool(bits: seq<bool>, start: nat, f: nat) { start <= f < start + |bits| }
  predicate IsFree(bits: seq<bool>, start: nat, f: nat) { InPool(bits, start, f) && !bits[f - start] }

  ghost function Frames(bits: seq<bool>, start: nat): iset<nat> { iset f: nat | InPool(bits, start, f) }
  ghost function FreeFrames(bits: seq<bool>, start: nat): iset<nat> { iset f: nat | IsFree(bits, start, f) }

  /**
   What always holds of memory: tables in order, kernel half shared, pool frames with one use each, free frames with
   none.
   */
  ghost predicate State(m: Mem, dirs: set<nat>, cache: seq<nat>, pool: iset<nat>, free: iset<nat>) {
    && Tables(m, dirs) && Coherent(m, dirs, cache) && Sole(m, dirs, pool)
    && forall f <- free :: Idle(m, dirs, f)
  }

  lemma {:induction false} AddTable(m: Mem, m': Mem, dirs: set<nat>, cache: seq<nat>, pool: iset<nat>, free: iset<nat>,
                                    d: nat, i: nat, t: nat)
    requires State(m, dirs, cache, pool, free) && d in dirs && i < WINDOW && !Present(Load(m, d, i))
    requires NoTable(m, dirs, t) && (t in pool ==> Idle(m, dirs, t)) && t !in free
    requires Entered(m, m', Sharing(dirs, d, i), i, Entry(t))
    ensures var m'' := m'[t := Empty()];
      && State(m'', dirs, if i >= KERNEL_FIRST then cache[i - KERNEL_FIRST := Entry(t)] else cache, pool, free)
      && HasTable(m'', d, i, t) && SameWalks(m, m'', dirs)
      && forall f :: f != t && Idle(m, dirs, f) ==> Idle(m'', dirs, f)
  {
    var m'' := m'[t := Empty()];
    TableAdded(m, m', dirs, cache, d, i, t);
    StillSole(m, m'', dirs, pool, d, i, t);
    forall f | f != t && Idle(m, dirs, f) ensures Idle(m'', dirs, f) {
      StillIdle(m, m'', dirs, d, i, t, f);
    }
  }

  lemma {:induction false} AddEntry(m: Mem, dirs: set<nat>, cache: seq<nat>, pool: iset<nat>, free: iset<nat>, d: nat,
                                    v: nat, t: nat, f: nat)
    requires State(m, dirs, cache, pool, free) && d in dirs && v < TWO32 && Pdi(v) < WINDOW && HasTable(m, d, Pdi(v), t)
    requires Idle(m, dirs, f) && f !in free
    ensures var m' := Store(m, t, Pti(v), Entry(f));
      State(m', dirs, cache, pool, free) && OnePage(m, m', dirs, d, v, At(f, 0, ALL))
  {
    EntryParts(f);
    EntryWritten(m, dirs, cache, d, v, t, Entry(f));
    MappedSole(m, Store(m, t, Pti(v), Entry(f)), dirs, pool, d, v, f);
  }

  lemma {:induction false} DropEntry(m: Mem, dirs: set<nat>, cache: seq<nat>, pool: iset<nat>, free: iset<nat>, d: nat,
                                     v: nat, t: nat, f: nat)
    requires State(m, dirs, cache, pool, free) && d in dirs && v < TWO32 && Pdi(v) < WINDOW && HasTable(m, d, Pdi(v), t)
    requires Maps(m, d, v, f) && f in pool && f !in dirs
    ensures var m' := Store(m, t, Pti(v), 0);
      State(m', dirs, cache, pool, free + iset{f}) && OnePage(m, m', dirs, d, v, Fault)
  {
    EntryWritten(m, dirs, cache, d, v, t, 0);
    UnmappedSole(m, Store(m, t, Pti(v), 0), dirs, pool, d, v, f);
  }

  /** Entering a table in some directories does not move what lies under other entries. */
  lemma {:induction false} EnteredWalk(m: Mem, m': Mem, dirs: set<nat>, some: set<nat>, i: nat, w: nat, d: nat, a: nat)
    requires Tables(m, dirs) && some <= dirs && d in dirs && i < WINDOW && Entered(m, m', some, i, w)
    requires a < TWO32 && Pdi(a) < WINDOW && Pdi(a) != i
    ensures Walk(m', d, a) == Walk(m, d, a)
  {
    var pde := Load(m, d, Pdi(a));
    if Present(pde) { assert HasTable(m, d, Pdi(a), pde / PG_SIZE); }
  }

  /** The directory with frame `f` is mapped at `p`. */
  ghost predicate Home(m: Mem, d: nat, p: nat, f: nat) {
    p < TWO32 && p % PG_SIZE == 0 && KERNEL_FIRST <= Pdi(p) < WINDOW && Walk(m, d, p) == At(f, 0, ALL)
  }

  function Elements(s: seq<nat>): set<nat> { set x | x in s }

  lemma {:induction false} Upto(d: nat, dirs: seq<nat>, k: nat)
    requires k <= |dirs| && d in dirs
    ensures {d} + Elements(dirs[..k]) <= Elements(dirs)
    ensures k < |dirs| ==> {d} + Elements(dirs[..k]) + {dirs[k]} == {d} + Elements(dirs[..k + 1])
    ensures k == |dirs| ==> {d} + Elements(dirs[..k]) == Elements(dirs)
  {
  }

  ghost predicate AtHome(m: Mem, d: nat, homes: seq<nat>, dirs: seq<nat>)
    requires |homes| == |dirs|
  {
    |homes| > 0 && homes[0] == KERNEL_PAGE_DIR && forall k :: 0 <= k < |homes| ==> Home(m, d, homes[k], dirs[k])
  }

  /** No directory is mapped under directory entry `i`. */
  ghost predicate Clear(homes: seq<nat>, i: nat) { forall k :: 0 <= k < |homes| ==> Pdi(homes[k]) != i }

  /** Entry `i` of a mapped directory. */
  lemma {:induction false} EntryOf(m: Mem, d: nat, p: nat, f: nat, i: nat)
    requires Home(m, d, p, f) && i < 1024
    ensures p + 4 * i < TWO32 && Walk(m, d, p + 4 * i) == At(f, 4 * i, ALL)
  {
    SamePage(p + 4 * i, p);
  }

  /** One more directory has the entry. */
  lemma {:induction false} EnteredMore(m: Mem, m1: Mem, some: set<nat>, i: nat, w: nat, f: nat)
    requires i < 1024 && Entered(m, m1, some, i, w)
    ensures Entered(m, Store(m1, f, i, w), some + {f}, i, w)
  {
    var m2 := Store(m1, f, i, w);
    forall g: nat, j | 0 <= j < 1024 ensures Load(m2, g, j) == if g in some + {f} && j == i then w else Load(m, g, j) {
      assert Load(m1, g, j) == if g in some && j == i then w else Load(m, g, j);
    }
  }

  /**
   The pages of address space `d`, and of the others where they share it, from `v` on lead to the frames `fs`; all
   others stay.
   */
  ghost predicate Pages(m: Mem, m': Mem, dirs: set<nat>, d: nat, v: nat, fs: seq<nat>) {
    forall e, a: nat :: e in dirs && a < TWO32 && Pdi(a) < WINDOW ==>
      Walk(m', e, a) == if Page(v) <= Page(a) < Page(v) + |fs| && Shows(d, e, Pdi(a))
        then At(fs[Page(a) - Page(v)], Off(a), ALL) else Walk(m, e, a)
  }

  lemma {:induction false} ClearOf(m: Mem, d: nat, homes: seq<nat>, dirs: seq<nat>, i: nat)
    requires |homes| == |dirs| && AtHome(m, d, homes, dirs) && i < WINDOW && !Present(Load(m, d, i))
    ensures Clear(homes, i)
  {
    forall k | 0 <= k < |homes| ensures Pdi(homes[k]) != i {
      assert Home(m, d, homes[k], dirs[k]);
    }
  }

  lemma {:induction false} StillHome(m: Mem, m': Mem, D: set<nat>, d: nat, homes: seq<nat>, dirs: seq<nat>)
    requires |homes| == |dirs| && AtHome(m, d, homes, dirs) && d in D && SameWalks(m, m', D)
    ensures AtHome(m', d, homes, dirs)
  {
    forall k | 0 <= k < |homes| ensures Home(m', d, homes[k], dirs[k]) {
      assert Home(m, d, homes[k], dirs[k]);
    }
  }

  lemma {:induction false} EnteredOne(m: Mem, d: nat, i: nat, w: nat)
    requires i < 1024
    ensures Entered(m, Store(m, d, i, w), {d}, i, w)
  {
  }

  lemma {:induction false} ShareSets(D: set<nat>, d: nat, i: nat)
    requires d in D
    ensures Sharing(D, d, i) == if i >= KERNEL_FIRST then D else {d}
  {
  }

  lemma {:induction false} EnteredKeeps(m: Mem, m': Mem, D: set<nat>, d: nat, i: nat, t: nat)
    requires d in D && i < WINDOW && SelfMapped(m, d) && Entered(m, m', Sharing(D, d, i), i, Entry(t))
    ensures SelfMapped(m', d) && HasTable(m', d, i, t)
  {
    EntryParts(t);
    assert Load(m', d, WINDOW) == Load(m, d, WINDOW);
  }

  /** The page of the window that holds the page table of `v`. */
  lemma {:induction false} WindowPage(m: Mem, d: nat, v: nat)
    requires v < TWO32 && SelfMapped(m, d) && Present(Load(m, d, Pdi(v)))
    ensures var a := PtePtr(v) - PtePtr(v) % PG_SIZE;
      && 0 <= a < TWO32 && Walk(m, d, a).At? && Walk(m, d, a).frame == Load(m, d, Pdi(v)) / PG_SIZE
      && Walk(m, d, a).off == 0
  {
    PteParts(v);
    var a := PtePtr(v) - PtePtr(v) % PG_SIZE;
    assert Page(a) == Page(PtePtr(v)) && Off(a) == 0;
    SamePage(a, PtePtr(v));
  }

  datatype PoolId = Kernel | User

  /** The bitmaps of the kernel's and the running process's address ranges. */
  datatype Marks = Marks(kernel: seq<bool>, user: seq<bool>) {
    function Of(p: PoolId): seq<bool> { if p == Kernel then kernel else user }

    function With(p: PoolId, bits: seq<bool>): Marks { if p == Kernel then Marks(bits, user) else Marks(kernel, bits) }
  }

  /** The two pools: a bit for every frame from the first on. */
  datatype Pools = Pools(kernelStart: nat, userStart: nat, bits: Marks) {
    function Of(p: PoolId): seq<bool> { bits.Of(p) }

    function Start(p: PoolId): nat { if p == Kernel then kernelStart else userStart }

    function Put(p: PoolId, k: nat, b: bool): Pools
      requires k < |Of(p)|
    {
      Pools(kernelStart, userStart, bits.With(p, Of(p)[k := b]))
    }

    ghost function All(): iset<nat> { Frames(bits.kernel, kernelStart) + Frames(bits.user, userStart) }

    ghost function Free(): iset<nat> { FreeFrames(bits.kernel, kernelStart) + FreeFrames(bits.user, userStart) }

    predicate Apart() { kernelStart + |bits.kernel| <= userStart }
  }

  /** What holds between the operations of the page layer. Frame 0 is no directory and in no pool. */
  ghost predicate Good(m: Mem, cr3: nat, cache: seq<nat>, homes: seq<nat>, dirs: seq<nat>, pools: Pools) {
    && State(m, Elements(dirs), cache, pools.All(), pools.Free()) && cr3 in dirs && pools.Apart() && 0 !in dirs
    && 0 !in pools.All()
    && |homes| == |dirs| && AtHome(m, cr3, homes, dirs)
  }

  function Other(p: PoolId): PoolId { if p == Kernel then User else Kernel }

  ghost function Listed(fs: seq<nat>): iset<nat> { iset f | f in fs }

  lemma {:induction false} Taken(pools: Pools, p: PoolId, k: nat)
    requires pools.Apart() && k < |pools.Of(p)| && !pools.Of(p)[k]
    ensures var pools' := pools.Put(p, k, true);
      && pools'.Apart() && pools'.All() == pools.All() && pools.Start(p) + k in pools.Free()
      && pools'.Free() == pools.Free() - iset{pools.Start(p) + k}
  {
    var pools', start := pools.Put(p, k, true), pools.Start(p);
    assert IsFree(pools.Of(p), start, start + k);
    forall f: nat ensures f in pools'.Free() <==> f in pools.Free() && f != start + k {
    }
  }

  /** Pools over the same frames. */
  ghost predicate SameFrames(a: Pools, b: Pools) {
    && b.kernelStart == a.kernelStart && b.userStart == a.userStart && |b.bits.kernel| == |a.bits.kernel|
    && |b.bits.user| == |a.bits.user| && b.All() == a.All()
  }

  /** Directories stay where they are when a page that is not theirs changes. */
  lemma {:induction false} HomeKept(m: Mem, m': Mem, D: set<nat>, d: nat, homes: seq<nat>, dirs: seq<nat>, v: nat,
                                    f: Place)
    requires |homes| == |dirs| && AtHome(m, d, homes, dirs) && d in D && v < TWO32 && OnePage(m, m', D, d, v, f)
    requires forall k :: 0 <= k < |homes| ==> Page(homes[k]) != Page(v)
    ensures AtHome(m', d, homes, dirs)
  {
    forall k | 0 <= k < |homes| ensures Home(m', d, homes[k], dirs[k]) {
      assert Home(m, d, homes[k], dirs[k]);
    }
  }

  lemma {:induction false} OnePageAfter(m: Mem, m1: Mem, m2: Mem, D: set<nat>, d: nat, v: nat, f: Place)
    requires v < TWO32 && SameWalks(m, m1, D) && OnePage(m1, m2, D, d, v, f)
    ensures OnePage(m, m2, D, d, v, f)
  {
  }

  /** A frame that can become a page table: in hand if it is from a pool, and no directory and no table yet. */
  ghost predicate CanBeTable(m: Mem, dirs: seq<nat>, pools: Pools, t: nat) {
    NoTable(m, Elements(dirs), t) && (t in pools.All() ==> Idle(m, Elements(dirs), t)) && t !in pools.Free()
  }

  /** The page layer `m'` has a page table `t` more than `m` had. */
  ghost predicate WithTable(m: Mem, m': Mem, d: nat, cache: seq<nat>, homes: seq<nat>, dirs: seq<nat>, pools: Pools,
                            i: nat, t: nat)
    requires i < WINDOW
  {
    && Good(m', d, cache, homes, dirs, pools) && HasTable(m', d, i, t) && SameWalks(m, m', Elements(dirs))
    && forall f :: f != t && Idle(m, Elements(dirs), f) ==> Idle(m', Elements(dirs), f)
  }

  /**
   The directories of `m'` are those of `m`, but entry `i` leads to frame `t` in `d` and wherever that is shared; frame
   `t` is empty.
   */
  ghost predicate EnteredTable(m: Mem, m': Mem, dirs: set<nat>, d: nat, i: nat, t: nat)
    requires i < WINDOW
  {
    && Frame(m', t) == Empty() && SelfMapped(m', d) && HasTable(m', d, i, t)
    && forall e, j :: e in dirs && 0 <= j < 1024 ==>
         Load(m', e, j) == if Shows(d, e, i) && j == i then Entry(t) else Load(m, e, j)
  }

  lemma {:induction false} TableCleared(m: Mem, m1: Mem, dirs: set<nat>, d: nat, i: nat, t: nat)
    requires d in dirs && i < WINDOW && t !in dirs && SelfMapped(m, d)
    requires Entered(m, m1, Sharing(dirs, d, i), i, Entry(t))
    ensures EnteredTable(m, m1[t := Empty()], dirs, d, i, t)
  {
    var m' := m1[t := Empty()];
    EntryParts(t);
    forall e, j | e in dirs && 0 <= j < 1024
      ensures Load(m', e, j) == if Shows(d, e, i) && j == i then Entry(t) else Load(m, e, j)
    {
      assert Load(m', e, j) == Load(m1, e, j);
    }
  }

  /** The address under directory entry `i` and page table entry `k`. */
  function AddressOf(i: nat, k: nat): nat { i * 0x40_0000 + k * PG_SIZE }

  lemma {:induction false} AddressParts(i: nat, k: nat)
    requires i < 1024 && k < 1024
    ensures var a := AddressOf(i, k); a < TWO32 && Pdi(a) == i && Pti(a) == k && Off(a) == 0
  {
    var a := AddressOf(i, k);
    assert a / PG_SIZE == 1024 * i + k;
  }

  /** Entering a frame that is a page table already gives a second page with every entry: more than one page changes. */
  lemma {:induction false} TableTwice(m: Mem, m1: Mem, dirs: set<nat>, cache: seq<nat>, d: nat, v: nat, t: nat, f: nat,
                                      e: nat, j: nat)
    requires Coherent(m, dirs, cache) && d in dirs && v < TWO32 && Pdi(v) < WINDOW && !Present(Load(m, d, Pdi(v)))
    requires t !in dirs && Idle(m, dirs, f)
    requires EnteredTable(m, m1, dirs, d, Pdi(v), t) && e in dirs && j < WINDOW && HasTable(m, e, j, t)
    ensures !OnePage(m, Store(m1, t, Pti(v), Entry(f)), dirs, d, v, At(f, 0, ALL))
  {
    var m', a := Store(m1, t, Pti(v), Entry(f)), AddressOf(j, Pti(v));
    AddressParts(j, Pti(v));
    EntryParts(f);
    SamePage(a, v);
    assert Load(m', e, j) == Load(m, e, j);
    assert Walk(m', e, a) == At(f, 0, ALL);
    assert !Maps(m, e, a, f);
  }

  /**
   Page `v` leads to frame `f` and no other page changes, in any address space, exactly when all is `sane`; then the
   page layer is in order.
   */
  ghost predicate Mapped(m: Mem, m': Mem, d: nat, cache: seq<nat>, homes: seq<nat>, dirs: seq<nat>, pools: Pools,
                         v: nat, f: nat, sane: bool)
    requires v < TWO32
  {
    (OnePage(m, m', Elements(dirs), d, v, At(f, 0, ALL)) <==> sane) && (sane ==> Good(m', d, cache, homes, dirs, pools))
  }

  /** A page mapped in a new page table `t`: all is well exactly when the frame could become a table. */
  lemma {:induction false} NewMapped(m: Mem, m1: Mem, m2: Mem, d: nat, cache: seq<nat>, cache': seq<nat>,
                                     homes: seq<nat>, dirs: seq<nat>, pools: Pools, v: nat, t: nat, f: nat)
    requires Good(m, d, cache, homes, dirs, pools) && v < TWO32 && Pdi(v) < WINDOW && !Present(Load(m, d, Pdi(v)))
    requires t !in dirs && t != f
    requires (t in pools.All() ==> Idle(m, Elements(dirs), t)) && t !in pools.Free()
    requires Idle(m, Elements(dirs), f) && f !in pools.Free()
    requires EnteredTable(m, m1, Elements(dirs), d, Pdi(v), t)
    requires CanBeTable(m, dirs, pools, t) ==> WithTable(m, m1, d, cache', homes, dirs, pools, Pdi(v), t)
    requires m2 == Store(m1, t, Pti(v), Entry(f))
    ensures Mapped(m, m2, d, cache', homes, dirs, pools, v, f, CanBeTable(m, dirs, pools, t))
  {
    if CanBeTable(m, dirs, pools, t) {
      PageEntered(m1, d, cache', homes, dirs, pools, v, t, f);
      OnePageAfter(m, m1, m2, Elements(dirs), d, v, At(f, 0, ALL));
    } else {
      var e, j :| e in Elements(dirs) && 0 <= j < WINDOW && HasTable(m, e, j, t);
      TableTwice(m, m1, Elements(dirs), cache, d, v, t, f, e, j);
    }
  }

  /**
   The frames `tables` have been made page tables: none if there `was` one; else a free frame, which is taken from the
   pool, or frame 0. They were all free exactly when there was a table or a free frame.
   */
  ghost predicate Charged(pools: Pools, pools': Pools, was: bool, tables: seq<nat>) {
    && |tables| <= 1 && (tables == [] <==> was) && (forall t <- tables :: t == 0 || t in pools.Free())
    && ((forall t <- tables :: t in pools.Free()) <==> was || !Full(pools.Of(Kernel)))
    && SameFrames(pools, pools') && pools'.Free() == pools.Free() - Listed(tables)
    && pools'.bits.user == pools.bits.user
  }

  lemma {:induction false} NotCharged(pools: Pools)
    ensures Charged(pools, pools, true, [])
  {
  }

  lemma {:induction false} ChargedOne(pools: Pools, pools': Pools, t: nat)
    requires SameFrames(pools, pools') && pools'.bits.user == pools.bits.user && 0 !in pools.All()
    requires if Full(pools.Of(Kernel)) then t == 0 && pools' == pools
      else t in pools.Free() && pools'.Free() == pools.Free() - iset{t}
    ensures Charged(pools, pools', false, [t])
  {
    assert t in [t];
    assert Listed([t]) == iset{t};
    assert 0 !in pools.Free();
  }

  /** Some directory entry leads to frame `t`. */
  predicate IsTable(m: Mem, dirs: set<nat>, t: nat) {
    exists d, i :: d in dirs && 0 <= i < WINDOW && HasTable(m, d, i, t)
  }

  /** The page layer with a new page table. */
  lemma {:induction false} TableEntered(m: Mem, m': Mem, d: nat, cache: seq<nat>, homes: seq<nat>, dirs: seq<nat>,
                                        pools: Pools, i: nat, t: nat)
    requires Good(m, d, cache, homes, dirs, pools) && i < WINDOW && !Present(Load(m, d, i))
    requires CanBeTable(m, dirs, pools, t)
    requires Entered(m, m', Sharing(Elements(dirs), d, i), i, Entry(t))
    ensures WithTable(m, m'[t := Empty()], d, if i >= KERNEL_FIRST then cache[i - KERNEL_FIRST := Entry(t)]
      else cache, homes, dirs, pools, i, t)
  {
    AddTable(m, m', Elements(dirs), cache, pools.All(), pools.Free(), d, i, t);
    StillHome(m, m'[t := Empty()], Elements(dirs), d, homes, dirs);
  }

  /** The page layer with a page more. */
  lemma {:induction false} PageEntered(m: Mem, d: nat, cache: seq<nat>, homes: seq<nat>, dirs: seq<nat>, pools: Pools,
                                       v: nat, t: nat, f: nat)
    requires Good(m, d, cache, homes, dirs, pools) && v < TWO32 && Pdi(v) < WINDOW && HasTable(m, d, Pdi(v), t)
    requires Walk(m, d, v) == Fault
    requires Idle(m, Elements(dirs), f) && f !in pools.Free()
    ensures var m' := Store(m, t, Pti(v), Entry(f));
      Good(m', d, cache, homes, dirs, pools) && OnePage(m, m', Elements(dirs), d, v, At(f, 0, ALL))
  {
    AddEntry(m, Elements(dirs), cache, pools.All(), pools.Free(), d, v, t, f);
    forall k | 0 <= k < |homes| ensures Page(homes[k]) != Page(v) {
      assert Home(m, d, homes[k], dirs[k]);
      SamePage(homes[k], v);
    }
    HomeKept(m, Store(m, t, Pti(v), Entry(f)), Elements(dirs), d, homes, dirs, v, At(f, 0, ALL));
  }

  class Layer {
    var mem: Mem
    var cr3: nat
    var cache: seq<nat>
    var homes: seq<nat>
    var dirs: seq<nat>
    var pools: Pools
    var pages: Marks
    const userBase: nat

    constructor (m: Mem, d: nat, cache: seq<nat>, homes: seq<nat>, dirs: seq<nat>, pools: Pools, pages: Marks,
                 userBase: nat)
      ensures mem == m && cr3 == d && this.cache == cache && this.homes == homes && this.dirs == dirs
      ensures this.pools == pools
      ensures this.pages == pages && this.userBase == userBase
    {
      mem, cr3 := m, d;
      this.cache, this.homes, this.dirs, this.pools := cache, homes, dirs, pools;
      this.pages, this.userBase := pages, userBase;
    }

    ghost predicate Valid()
      reads this`mem, this`cr3, this`cache, this`homes, this`dirs, this`pools
    {
      // The quantifier keeps the solver from unfolding what is only passed on.
      forall p :: p == pools ==> Good(mem, cr3, cache, homes, dirs, p)
    }

    /** `*pde_p = w`, through the window. */
    method SetDirEntry(v: nat, w: nat)
      requires v < TWO32 && SelfMapped(mem, cr3)
      modifies this`mem
      ensures mem == Store(old(mem), cr3, Pdi(v), w)
    {
      PdeWalk(mem, cr3, v);
      mem := Poke(mem, cr3, PdePtr(v), w);
    }

    /** `*pte_p = w`, through the window. */
    method SetPageEntry(v: nat, w: nat, ghost t: nat)
      requires v < TWO32 && SelfMapped(mem, cr3) && HasTable(mem, cr3, Pdi(v), t)
      modifies this`mem
      ensures mem == Store(old(mem), t, Pti(v), w)
    {
      PteWalk(mem, cr3, v);
      mem := Poke(mem, cr3, PtePtr(v), w);
    }

    /** The new directory entry goes to the kernel's directory and to those of all processes. */
    method Share(i: nat, w: nat, ghost m: Mem)
      requires |cache| == 255 && KERNEL_FIRST <= i < WINDOW && Tables(m, Elements(dirs)) && cr3 in dirs
      requires Entered(m, mem, {cr3}, i, w)
      requires |homes| == |dirs| && AtHome(m, cr3, homes, dirs) && Clear(homes, i)
      modifies this`mem, this`cache
      ensures Entered(m, mem, Elements(dirs), i, w) && cache == old(cache)[i - KERNEL_FIRST := w]
    {
      cache := cache[i - KERNEL_FIRST := w];
      var k := 0;
      while k < |homes|
        invariant k <= |homes| && Entered(m, mem, {cr3} + Elements(dirs[..k]), i, w)
        invariant cache == old(cache)[i - KERNEL_FIRST := w]
      {
        EnterNext(k, i, w, m);
        k := k + 1;
      }
      Upto(cr3, dirs, k);
    }

    method EnterNext(k: nat, i: nat, w: nat, ghost m: Mem)
      requires i < WINDOW && Tables(m, Elements(dirs)) && cr3 in dirs && k < |homes| == |dirs|
      requires AtHome(m, cr3, homes, dirs) && Clear(homes, i) && Entered(m, mem, {cr3} + Elements(dirs[..k]), i, w)
      modifies this`mem
      ensures Entered(m, mem, {cr3} + Elements(dirs[..k + 1]), i, w)
    {
      Upto(cr3, dirs, k);
      EnterAt(k, i, w, m, {cr3} + Elements(dirs[..k]));
    }

    method EnterAt(k: nat, i: nat, w: nat, ghost m: Mem, ghost some: set<nat>)
      requires i < WINDOW && Tables(m, Elements(dirs)) && cr3 in dirs && Entered(m, mem, some, i, w)
      requires some <= Elements(dirs)
      requires k < |homes| == |dirs| && Home(m, cr3, homes[k], dirs[k]) && Pdi(homes[k]) != i
      modifies this`mem
      ensures Entered(m, mem, some + {dirs[k]}, i, w)
    {
      EnteredWalk(m, mem, Elements(dirs), some, i, w, cr3, homes[k]);
      EntryOf(mem, cr3, homes[k], dirs[k], i);
      EnteredMore(m, mem, some, i, w, dirs[k]);
      SetAt(homes[k] + 4 * i, w, dirs[k], i);
    }

    method SetAt(a: nat, w: nat, ghost f: nat, ghost i: nat)
      requires a < TWO32 && i < 1024 && Walk(mem, cr3, a) == At(f, 4 * i, ALL)
      modifies this`mem
      ensures mem == Store(old(mem), f, i, w)
    {
      mem := Poke(mem, cr3, a, w);
    }

    /** Clears the page table of `v` through the window. */
    method ClearTable(v: nat, ghost t: nat)
      requires v < TWO32 && SelfMapped(mem, cr3) && HasTable(mem, cr3, Pdi(v), t)
      modifies this`mem
      ensures mem == old(mem)[t := Empty()]
    {
      WindowPage(mem, cr3, v);
      mem := mem[Walk(mem, cr3, PtePtr(v) - PtePtr(v) % PG_SIZE).frame := Empty()];
    }

    /** Enters frame `t` as the page table for `v`, wherever it has to show up, and clears it. */
    method NewTable(v: nat, t: nat)
      requires Valid() && v < TWO32 && Pdi(v) < WINDOW && !Present(Load(mem, cr3, Pdi(v))) && t !in dirs
      modifies this`mem, this`cache
      ensures EnteredTable(old(mem), mem, Elements(dirs), cr3, Pdi(v), t)
      ensures CanBeTable(old(mem), dirs, pools, t) ==>
        WithTable(old(mem), mem, cr3, cache, homes, dirs, pools, Pdi(v), t)
    {
      NewEntry(v, t);
      ClearTable(v, t);
    }

    /** All that will hold once frame `t` is cleared. */
    method NewEntry(v: nat, t: nat)
      requires Valid() && v < TWO32 && Pdi(v) < WINDOW && !Present(Load(mem, cr3, Pdi(v))) && t !in dirs
      modifies this`mem, this`cache
      ensures EnteredTable(old(mem), mem[t := Empty()], Elements(dirs), cr3, Pdi(v), t)
      ensures CanBeTable(old(mem), dirs, pools, t) ==>
        WithTable(old(mem), mem[t := Empty()], cr3, cache, homes, dirs, pools, Pdi(v), t)
      ensures SelfMapped(mem, cr3) && HasTable(mem, cr3, Pdi(v), t)
    {
      ghost var m := mem;
      EnterTable(v, t);
      TableCleared(m, mem, Elements(dirs), cr3, Pdi(v), t);
      if CanBeTable(m, dirs, pools, t) {
        TableEntered(m, mem, cr3, old(cache), homes, dirs, pools, Pdi(v), t);
      }
    }

    /** Frame `t` in the directory entry for `v`, wherever that is shared. */
    method EnterTable(v: nat, t: nat)
      requires Good(mem, cr3, cache, homes, dirs, pools)
      requires v < TWO32 && Pdi(v) < WINDOW && !Present(Load(mem, cr3, Pdi(v)))
      modifies this`mem, this`cache
      ensures Entered(old(mem), mem, Sharing(Elements(dirs), cr3, Pdi(v)), Pdi(v), Entry(t))
      ensures SelfMapped(mem, cr3) && HasTable(mem, cr3, Pdi(v), t)
      ensures cache == if Pdi(v) >= KERNEL_FIRST then old(cache)[Pdi(v) - KERNEL_FIRST := Entry(t)] else old(cache)
    {
      ghost var m := mem;
      var i := Pdi(v);
      ClearOf(m, cr3, homes, dirs, i);
      SetDirEntry(v, Entry(t));
      EnteredOne(m, cr3, i, Entry(t));
      ShareSets(Elements(dirs), cr3, i);
      if i >= KERNEL_FIRST {
        Share(i, Entry(t), m);
      }
      EnteredKeeps(m, mem, Elements(dirs), cr3, i, t);
    }

    /** `palloc`: the lowest free frame of a pool, or -1. */
    method Palloc(p: PoolId) returns (f: int)
      requires Valid()
      modifies this`pools
      ensures Valid() && pools.All() == old(pools).All()
      ensures f == -1 ==> pools == old(pools) && Full(pools.Of(p))
      ensures f != -1 ==>
        && f >= 0 && f in old(pools).Free() && pools.Free() == old(pools).Free() - iset{f}
        && Idle(mem, Elements(dirs), f)
        && IsFree(old(pools).Of(p), old(pools).Start(p), f) && pools == old(pools).Put(p, f - old(pools).Start(p), true)
        && forall g :: IsFree(old(pools).Of(p), old(pools).Start(p), g) ==> f <= g
    {
      assert Good(mem, cr3, cache, homes, dirs, pools);
      var k := LowestRun(pools.Of(p), 1);
      if k == -1 {
        assert forall j :: 0 <= j < |pools.Of(p)| && !pools.Of(p)[j] ==> ClearRun(pools.Of(p), j, 1);
        return -1;
      }
      assert !pools.Of(p)[k];
      f := pools.Start(p) + k;
      forall g: nat | IsFree(pools.Of(p), pools.Start(p), g) ensures f <= g {
        assert ClearRun(pools.Of(p), g - pools.Start(p), 1);
      }
      Taken(pools, p, k);
      pools := pools.Put(p, k, true);
    }

    /**
     `page_table_add`. The source does not look at the answer of `palloc` for a page table: without a free frame it
     enters frame 0. So page `v` leads to frame `f` and no other page changes, in any address space, exactly when there
     is a page table, or a free frame for one, or frame 0 is none yet; and the frame made a page table (in `tables`) was
     free exactly in the first two cases. (`sane` says so; the source does not compute it.)
     */
    method PageTableAdd(v: nat, f: nat) returns (sane: bool, ghost tables: seq<nat>)
      requires Valid() && v < TWO32 && Pdi(v) < WINDOW && Walk(mem, cr3, v) == Fault
      requires Idle(mem, Elements(dirs), f) && f !in pools.Free() && f != 0
      modifies this`mem, this`cache, this`pools
      ensures sane <==>
        Present(old(Load(mem, cr3, Pdi(v)))) || !Full(old(pools).Of(Kernel)) || !IsTable(old(mem), Elements(dirs), 0)
      ensures Mapped(old(mem), mem, cr3, cache, homes, dirs, pools, v, f, sane)
      ensures Charged(old(pools), pools, Present(old(Load(mem, cr3, Pdi(v)))), tables)
      ensures forall t <- tables :: HasTable(mem, cr3, Pdi(v), t)
    {
      assert Good(mem, cr3, cache, homes, dirs, pools);
      var present := TablePresent(v);
      if present {
        MapPage(v, f);
        sane, tables := true, [];
        NotCharged(pools);
      } else {
        sane, tables := MapInNew(v, f);
      }
    }

    /** `*pde_p & 1` */
    method TablePresent(v: nat) returns (b: bool)
      requires v < TWO32 && SelfMapped(mem, cr3)
      ensures b == Present(Load(mem, cr3, Pdi(v)))
    {
      PdeWalk(mem, cr3, v);
      b := Peek(mem, cr3, PdePtr(v)) % 2 == 1;
    }

    /** The branch for an address without a page table: a free frame, or frame 0, becomes its page table. */
    method MapInNew(v: nat, f: nat) returns (sane: bool, ghost tables: seq<nat>)
      requires Valid() && v < TWO32 && Pdi(v) < WINDOW && !Present(Load(mem, cr3, Pdi(v)))
      requires Idle(mem, Elements(dirs), f) && f !in pools.Free() && f != 0
      modifies this`mem, this`cache, this`pools
      ensures sane <==> !Full(old(pools).Of(Kernel)) || !IsTable(old(mem), Elements(dirs), 0)
      ensures Mapped(old(mem), mem, cr3, cache, homes, dirs, pools, v, f, sane)
      ensures Charged(old(pools), pools, false, tables) && forall t <- tables :: HasTable(mem, cr3, Pdi(v), t)
    {
      var t := TakeTable(f);
      tables := [t];
      sane := t != 0 || !IsTable(mem, Elements(dirs), 0);
      MapUnder(v, t, f);
    }

    /** Frame `t` becomes the page table of `v`, and `f` its page. */
    method MapUnder(v: nat, t: nat, f: nat)
      requires Valid() && v < TWO32 && Pdi(v) < WINDOW && !Present(Load(mem, cr3, Pdi(v))) && t !in dirs && t != f
      requires (t in pools.All() ==> Idle(mem, Elements(dirs), t)) && t !in pools.Free()
      requires Idle(mem, Elements(dirs), f) && f !in pools.Free()
      modifies this`mem, this`cache
      ensures Mapped(old(mem), mem, cr3, cache, homes, dirs, pools, v, f, CanBeTable(old(mem), dirs, pools, t))
      ensures HasTable(mem, cr3, Pdi(v), t)
    {
      ghost var m, cache0 := mem, cache;
      NewTable(v, t);
      ghost var m1 := mem;
      SetPageEntry(v, Entry(f), t);
      assert Load(mem, cr3, Pdi(v)) == Load(m1, cr3, Pdi(v));
      NewMapped(m, m1, mem, cr3, cache0, cache, homes, dirs, pools, v, t, f);
    }

    /** `palloc(&kernel_pool)` as `page_table_add` uses it: NULL is frame 0. Frame `f` is in hand meanwhile. */
    method TakeTable(ghost f: nat) returns (t: nat)
      requires Valid() && Idle(mem, Elements(dirs), f) && f !in pools.Free() && f != 0
      modifies this`pools
      ensures Valid() && t != f && t !in dirs && (t in pools.All() ==> Idle(mem, Elements(dirs), t))
      ensures t !in pools.Free()
      ensures Charged(old(pools), pools, false, [t])
      ensures CanBeTable(mem, dirs, pools, t) <==> !Full(old(pools).Of(Kernel)) || !IsTable(mem, Elements(dirs), 0)
    {
      assert Good(mem, cr3, cache, homes, dirs, pools);
      var k := Palloc(Kernel);
      t := if k == -1 then 0 else k;
      ChargedOne(old(pools), pools, t);
    }

    method MapPage(v: nat, f: nat)
      requires Valid() && v < TWO32 && Pdi(v) < WINDOW && Walk(mem, cr3, v) == Fault && Present(Load(mem, cr3, Pdi(v)))
      requires Idle(mem, Elements(dirs), f) && f !in pools.Free()
      modifies this`mem
      ensures Mapped(old(mem), mem, cr3, cache, homes, dirs, pools, v, f, true)
    {
      assert Good(mem, cr3, cache, homes, dirs, pools);
      ghost var m, t := mem, Load(mem, cr3, Pdi(v)) / PG_SIZE;
      PageEntered(m, cr3, cache, homes, dirs, pools, v, t, f);
      SetPageEntry(v, Entry(f), t);
    }
  }
}
