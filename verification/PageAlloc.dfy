/** Allocation of runs of pages (code/kernel/memory.c: `vaddr_get`, `malloc_page`, `mfree_page`). */
module PageAlloc {
  import opened Common
  import opened Paging
  import opened PageLayer
  import opened BitSpec
  import BitmapScan

  /** First page of the kernel heap. */
  const KERNEL_BASE: nat := 0xc0100

  /** Pages that are mapped are marked in the bitmap of their address range. */
  ghost predicate Marked(m: Mem, d: nat, pages: seq<bool>, base: nat) {
    forall a: nat :: a < TWO32 && base <= Page(a) < base + |pages| && Walk(m, d, a).At? ==> pages[Page(a) - base]
  }

  function BaseOf(userBase: nat, p: PoolId): nat { if p == Kernel then KERNEL_BASE else userBase }

  /** The bitmap of an address range knows every mapped page. */
  ghost predicate Space(m: Mem, d: nat, pages: seq<bool>, base: nat, low: nat, high: nat) {
    |pages| % 8 == 0 && low * 1024 <= base && base + |pages| <= high * 1024 && Marked(m, d, pages, base)
  }

  function LowOf(p: PoolId): nat { if p == Kernel then KERNEL_FIRST else 0 }
  function HighOf(p: PoolId): nat { if p == Kernel then WINDOW else KERNEL_FIRST }

  ghost predicate SpaceOk(m: Mem, d: nat, marks: Marks, userBase: nat, p: PoolId) {
    Space(m, d, marks.Of(p), BaseOf(userBase, p), LowOf(p), HighOf(p))
  }

  /** The address ranges lie in their halves, and their bitmaps are right. */
  ghost predicate Spaces(m: Mem, d: nat, marks: Marks, userBase: nat) {
    SpaceOk(m, d, marks, userBase, Kernel) && SpaceOk(m, d, marks, userBase, User)
  }

  // ---------- runs of pages ----------

  lemma {:induction false} NextPage(v: nat, k: nat)
    requires v % PG_SIZE == 0
    ensures Page(v + PG_SIZE * k) == Page(v) + k && (v + PG_SIZE * k) % PG_SIZE == 0
  {
  }

  /** The half an address lies in depends on its page alone. */
  lemma {:induction false} HalfOf(a: nat)
    ensures Pdi(a) == Page(a) / 1024
  {
  }

  /** One page more. */
  lemma {:induction false} PagesMore(m: Mem, m1: Mem, m2: Mem, dirs: set<nat>, d: nat, v: nat, fs: seq<nat>, w: nat,
                                     f: nat)
    requires v % PG_SIZE == 0 && w == v + PG_SIZE * |fs| < TWO32
    requires Pages(m, m1, dirs, d, v, fs) && OnePage(m1, m2, dirs, d, w, At(f, 0, ALL))
    ensures Pages(m, m2, dirs, d, v, fs + [f])
  {
    NextPage(v, |fs|);
    forall e, a: nat | e in dirs && a < TWO32 && Pdi(a) < WINDOW
      ensures Walk(m2, e, a) == if Page(v) <= Page(a) < Page(v) + |fs| + 1 && Shows(d, e, Pdi(a))
        then At((fs + [f])[Page(a) - Page(v)], Off(a), ALL) else Walk(m, e, a)
    {
      HalfOf(a);
      HalfOf(w);
    }
  }

  /** The pages from `v` on, `n` of them, lead nowhere; all others stay. */
  ghost predicate Gone(m: Mem, m': Mem, dirs: set<nat>, d: nat, v: nat, n: nat) {
    forall e, a: nat :: e in dirs && a < TWO32 && Pdi(a) < WINDOW ==>
      Walk(m', e, a) == if Page(v) <= Page(a) < Page(v) + n && Shows(d, e, Pdi(a)) then Fault else Walk(m, e, a)
  }

  lemma {:induction false} GoneMore(m: Mem, m1: Mem, m2: Mem, dirs: set<nat>, d: nat, v: nat, n: nat, w: nat)
    requires v % PG_SIZE == 0 && w == v + PG_SIZE * n < TWO32
    requires Gone(m, m1, dirs, d, v, n) && OnePage(m1, m2, dirs, d, w, Fault)
    ensures Gone(m, m2, dirs, d, v, n + 1)
  {
    NextPage(v, n);
    forall e, a: nat | e in dirs && a < TWO32 && Pdi(a) < WINDOW
      ensures Walk(m2, e, a) == if Page(v) <= Page(a) < Page(v) + n + 1 && Shows(d, e, Pdi(a)) then Fault
        else Walk(m, e, a)
    {
      HalfOf(a);
      HalfOf(w);
    }
  }

  /** Mapping pages that led nowhere and unmapping them again restores every address space. */
  lemma {:induction false} MappedAndGone(m: Mem, m1: Mem, m2: Mem, dirs: set<nat>, d: nat, v: nat, fs: seq<nat>)
    requires Pages(m, m1, dirs, d, v, fs) && Gone(m1, m2, dirs, d, v, |fs|)
    requires forall e, a: nat ::
      e in dirs && a < TWO32 && Pdi(a) < WINDOW && Page(v) <= Page(a) < Page(v) + |fs| && Shows(d, e, Pdi(a)) ==>
      Walk(m, e, a) == Fault
    ensures SameWalks(m, m2, dirs)
  {
  }

  // ---------- malloc_page ----------

  /**
   `NoFrame`: a frame is missing half-way. `Wild`: frame 0 became a page table twice. `Panic`: the assertion on user
   addresses fails.
   */
  datatype Grant = Granted(v: nat) | NoAddress | NoFrame | Wild | Panic

  /** The run of `cnt` pages from address `v` on was not marked, and now is. */
  ghost predicate Marking(was: Marks, now: Marks, p: PoolId, base: nat, v: nat, cnt: nat) {
    && v % PG_SIZE == 0 && Page(v) >= base && ClearRun(was.Of(p), Page(v) - base, cnt)
    && now == was.With(p, WithRun(was.Of(p), Page(v) - base, cnt, true))
  }

  /** `vaddr_get`: the address of a run of pages that were not marked, now marked; none when the search finds none. */
  method VaddrGet(l: Layer, p: PoolId, cnt: nat) returns (found: bool, v: nat)
    requires cnt > 0 && |l.pages.Of(p)| % 8 == 0
    modifies l`pages
    ensures !found <==> BitmapScan.NoneFound(old(l.pages).Of(p), cnt)
    ensures if found then Marking(old(l.pages), l.pages, p, BaseOf(l.userBase, p), v, cnt) else l.pages == old(l.pages)
  {
    var k := BitmapScan.Search(l.pages.Of(p), cnt);
    if k == -1 {
      return false, 0;
    }
    var r := SetRun(l.pages.Of(p), k, cnt, true);
    l.pages := l.pages.With(p, r);
    Aligned(BaseOf(l.userBase, p) + k);
    return true, PG_SIZE * (BaseOf(l.userBase, p) + k);
  }

  /** The address behind which no user page may start: the page below it is the user stack. */
  const USER_END: nat := 0xbfff_f000

  /** One turn of the loop of `malloc_page`: a frame for the page at `v`. */
  method MapNext(l: Layer, p: PoolId, v: nat) returns (f: int, sane: bool, ghost tables: seq<nat>)
    requires l.Valid() && v < TWO32 && Pdi(v) < WINDOW && Walk(l.mem, l.cr3, v) == Fault
    modifies l`mem, l`cache, l`pools
    ensures f == -1 ==>
      sane && tables == [] && l.pools == old(l.pools) && l.mem == old(l.mem) && l.cache == old(l.cache)
      && Full(l.pools.Of(p))
    ensures f != -1 ==>
      f >= 0 && IsFree(old(l.pools).Of(p), old(l.pools).Start(p), f) && Spent(old(l.pools), l.pools, f, tables)
    ensures f != -1 ==> Mapped(old(l.mem), l.mem, l.cr3, l.cache, l.homes, l.dirs, l.pools, v, f, sane)
    ensures f == -1 <==> Full(old(l.pools).Of(p))
    ensures !sane <==> GoesWild(old(l.mem), l.cr3, Elements(l.dirs), old(l.pools), p, v)
    ensures !sane ==> Full(l.pools.Of(Kernel))
  {
    ghost var pools := l.pools;
    f := l.Palloc(p);
    if f == -1 {
      return -1, true, [];
    }
    assert Good(l.mem, l.cr3, l.cache, l.homes, l.dirs, l.pools);
    sane, tables := MapTaken(l, p, v, f, pools);
  }

  /** Frame `f` has left its pool. */
  ghost predicate TakenFrom(pools: Pools, pools': Pools, p: PoolId, f: nat) {
    && IsFree(pools.Of(p), pools.Start(p), f) && pools' == pools.Put(p, f - pools.Start(p), true)
    && pools'.All() == pools.All()
    && f in pools.Free() && pools'.Free() == pools.Free() - iset{f} && 0 !in pools.All() && pools.Apart()
  }

  /**
   Mapping the page at `v` makes frame 0 a page table for a second time: there is a frame for the page but none for the
   page table that it needs, and frame 0 is a page table already.
   */
  ghost predicate GoesWild(m: Mem, d: nat, dirs: set<nat>, pools: Pools, p: PoolId, v: nat)
    requires v < TWO32
  {
    && !Full(pools.Of(p)) && !Present(Load(m, d, Pdi(v))) && IsTable(m, dirs, 0)
    && if p == User then Full(pools.Of(Kernel)) else NearlyFull(pools.Of(Kernel))
  }

  /** When the kernel's pool has no frame left after one has been taken. */
  lemma {:induction false} FullAfter(pools: Pools, pools': Pools, p: PoolId, f: nat)
    requires TakenFrom(pools, pools', p, f)
    ensures !Full(pools.Of(p))
    ensures Full(pools'.Of(Kernel)) <==> if p == User then Full(pools.Of(Kernel)) else NearlyFull(pools.Of(Kernel))
  {
    var k := f - pools.Start(p);
    if p == Kernel {
      var was, now := pools.Of(Kernel), pools'.Of(Kernel);
      assert now == was[k := true];
      if Full(now) {
        forall j | 0 <= j < |was| && !was[j] ensures j == k {
          assert now[j];
        }
      }
    }
  }

  /** `page_table_add` for a frame that has just been taken. */
  method MapTaken(l: Layer, p: PoolId, v: nat, f: nat, ghost pools: Pools) returns (sane: bool, ghost tables: seq<nat>)
    requires l.Valid() && v < TWO32 && Pdi(v) < WINDOW && Walk(l.mem, l.cr3, v) == Fault
    requires TakenFrom(pools, l.pools, p, f) && Idle(l.mem, Elements(l.dirs), f)
    modifies l`mem, l`cache, l`pools
    ensures Spent(pools, l.pools, f, tables) && (!sane ==> Full(l.pools.Of(Kernel)))
    ensures !sane <==> GoesWild(old(l.mem), l.cr3, Elements(l.dirs), pools, p, v)
    ensures Mapped(old(l.mem), l.mem, l.cr3, l.cache, l.homes, l.dirs, l.pools, v, f, sane)
  {
    ghost var pools1, was := l.pools, Present(Load(l.mem, l.cr3, Pdi(v)));
    FullAfter(pools, pools1, p, f);
    sane, tables := l.PageTableAdd(v, f);
    SpentBy(pools, pools1, l.pools, p, f, tables, was);
  }

  /** Frame `f` and the page tables have left the pools; a page table can also be frame 0. */
  ghost predicate Spent(pools: Pools, pools': Pools, f: nat, tables: seq<nat>) {
    && SameFrames(pools, pools') && f in pools.Free() && pools'.Free() == pools.Free() - iset{f} - Listed(tables)
    && 0 !in pools.Free() && |tables| <= 1
    && forall t <- tables :: t != f && (t == 0 || t in pools.Free())
  }

  lemma {:induction false} SpentBy(pools: Pools, pools1: Pools, pools2: Pools, p: PoolId, f: nat, tables: seq<nat>,
                                   was: bool)
    requires TakenFrom(pools, pools1, p, f) && Charged(pools1, pools2, was, tables)
    ensures Spent(pools, pools2, f, tables)
    ensures !was && Full(pools1.Of(Kernel)) ==> Full(pools2.Of(Kernel))
  {
    assert forall t <- tables :: t == 0 || t in pools1.Free();
    assert 0 !in pools.Free();
    if !was && Full(pools1.Of(Kernel)) { StillFull(pools1, pools2, tables); }
  }

  /** A full pool stays full when only frames are taken. */
  lemma {:induction false} StillFull(pools: Pools, pools': Pools, tables: seq<nat>)
    requires SameFrames(pools, pools') && Full(pools.Of(Kernel)) && pools'.Free() == pools.Free() - Listed(tables)
    requires pools'.Apart()
    ensures Full(pools'.Of(Kernel))
  {
    forall k | 0 <= k < |pools'.bits.kernel| ensures pools'.bits.kernel[k] {
      var f := pools.kernelStart + k;
      assert !IsFree(pools.bits.kernel, pools.kernelStart, f) && !IsFree(pools.bits.user, pools.userStart, f);
      assert f !in pools'.Free();
      assert !IsFree(pools'.bits.kernel, pools'.kernelStart, f);
    }
  }

  /**
   From the frames `free`, `fs` (between `low` and `high`) and the page tables `ts` have been taken, and `now` are left.
   */
  ghost predicate Accounts(free: iset<nat>, now: iset<nat>, fs: seq<nat>, ts: seq<nat>, low: nat, high: nat) {
    && 0 !in free && now == free - Listed(fs) - Listed(ts) && |ts| <= |fs|
    && NoDup(fs) && (forall f <- fs :: f in free && low <= f < high)
    && forall t <- ts :: t !in fs && (t == 0 || t in free)
  }

  lemma {:induction false} AccountsMore(free: iset<nat>, now: iset<nat>, next: iset<nat>, fs: seq<nat>, ts: seq<nat>,
                                        low: nat, high: nat, f: nat, tables: seq<nat>)
    requires Accounts(free, now, fs, ts, low, high) && f in now && low <= f < high
    requires next == now - iset{f} - Listed(tables) && |tables| <= 1
    requires forall t <- tables :: t != f && (t == 0 || t in now)
    ensures Accounts(free, next, fs + [f], ts + tables, low, high)
  {
    assert next == free - Listed(fs + [f]) - Listed(ts + tables);
    assert f !in fs && f !in ts;
    forall t | t in ts + tables ensures t !in fs + [f] && (t == 0 || t in free) {
      assert t in ts || t in tables;
    }
  }

  /** The pages from `v` on lead to the frames `fs`, which with the page tables `ts` are taken from the pools. */
  ghost predicate Given(m: Mem, m': Mem, d: nat, cache: seq<nat>, homes: seq<nat>, dirs: seq<nat>, pools: Pools,
                        pools': Pools, p: PoolId, v: nat, fs: seq<nat>, ts: seq<nat>) {
    // The quantifier keeps the solver from unfolding what is only passed on.
    forall ps :: ps == pools' ==> Good(m', d, cache, homes, dirs, ps) && Gave(m, m', d, dirs, pools, ps, p, v, fs, ts)
  }

  /** The same without what always holds of the page layer. */
  ghost predicate Gave(m: Mem, m': Mem, d: nat, dirs: seq<nat>, pools: Pools, pools': Pools, p: PoolId, v: nat,
                       fs: seq<nat>, ts: seq<nat>) {
    && Pages(m, m', Elements(dirs), d, v, fs) && SameFrames(pools, pools')
    && Accounts(pools.Free(), pools'.Free(), fs, ts, pools.Start(p), pools.Start(p) + |pools.Of(p)|)
  }

  lemma {:induction false} GivenMore(m: Mem, m1: Mem, m2: Mem, d: nat, cache: seq<nat>, cache': seq<nat>,
                                     homes: seq<nat>, dirs: seq<nat>, pools: Pools, pools1: Pools, pools2: Pools,
                                     p: PoolId, v: nat, fs: seq<nat>, ts: seq<nat>, a: nat, f: nat, tables: seq<nat>)
    requires Given(m, m1, d, cache, homes, dirs, pools, pools1, p, v, fs, ts) && v % PG_SIZE == 0
    requires a == v + PG_SIZE * |fs| < TWO32
    requires IsFree(pools1.Of(p), pools1.Start(p), f) && Spent(pools1, pools2, f, tables)
    requires Mapped(m1, m2, d, cache', homes, dirs, pools2, a, f, true)
    ensures Given(m, m2, d, cache', homes, dirs, pools, pools2, p, v, fs + [f], ts + tables)
  {
    assert Gave(m, m1, d, dirs, pools, pools1, p, v, fs, ts);
    PagesMore(m, m1, m2, Elements(dirs), d, v, fs, a, f);
    AccountsMore(pools.Free(), pools1.Free(), pools2.Free(), fs, ts, pools.Start(p), pools.Start(p) + |pools.Of(p)|, f,
                 tables);
  }

  /** After the pages for the frames `fs`, mapping the next one goes wild. */
  ghost predicate WildAt(m: Mem, d: nat, homes: seq<nat>, dirs: seq<nat>, pools: Pools, p: PoolId, v: nat,
                         fs: seq<nat>, ts: seq<nat>) {
    && v + PG_SIZE * |fs| < TWO32
    && exists m1: Mem, cache1: seq<nat>, pools1: Pools ::
         WildWith(m, m1, d, cache1, homes, dirs, pools, pools1, p, v, fs, ts)
  }

  ghost predicate WildWith(m: Mem, m1: Mem, d: nat, cache1: seq<nat>, homes: seq<nat>, dirs: seq<nat>, pools: Pools,
                           pools1: Pools, p: PoolId, v: nat, fs: seq<nat>, ts: seq<nat>)
    requires v + PG_SIZE * |fs| < TWO32
  {
    && Given(m, m1, d, cache1, homes, dirs, pools, pools1, p, v, fs, ts)
    && GoesWild(m1, d, Elements(dirs), pools1, p, v + PG_SIZE * |fs|)
  }

  lemma {:induction false} WildNow(m: Mem, m1: Mem, d: nat, cache1: seq<nat>, homes: seq<nat>, dirs: seq<nat>,
                                   pools: Pools, pools1: Pools, p: PoolId, v: nat, fs: seq<nat>, ts: seq<nat>, a: nat)
    requires Given(m, m1, d, cache1, homes, dirs, pools, pools1, p, v, fs, ts) && a == v + PG_SIZE * |fs| < TWO32
    requires GoesWild(m1, d, Elements(dirs), pools1, p, a)
    ensures WildAt(m, d, homes, dirs, pools, p, v, fs, ts)
  {
    assert WildWith(m, m1, d, cache1, homes, dirs, pools, pools1, p, v, fs, ts);
  }

  method MapTurn(l: Layer, p: PoolId, v: nat, ghost fs: seq<nat>, ghost ts: seq<nat>, ghost m: Mem, ghost pools: Pools,
                 a: nat)
    returns (g: Grant, ghost fs': seq<nat>, ghost ts': seq<nat>)
    requires Given(m, l.mem, l.cr3, l.cache, l.homes, l.dirs, pools, l.pools, p, v, fs, ts)
    requires v % PG_SIZE == 0 && a == v + PG_SIZE * |fs| && a < TWO32 && Pdi(a) < WINDOW
    requires Walk(l.mem, l.cr3, a) == Fault
    modifies l`mem, l`cache, l`pools
    ensures g == Granted(v) || g == NoFrame || g == Wild
    ensures g != Wild ==> Given(m, l.mem, l.cr3, l.cache, l.homes, l.dirs, pools, l.pools, p, v, fs', ts')
    ensures |fs'| == if g == Granted(v) then |fs| + 1 else |fs|
    ensures g == NoFrame <==> Full(old(l.pools).Of(p))
    ensures g == NoFrame ==> Full(l.pools.Of(p))
    ensures g == Wild <==> GoesWild(old(l.mem), l.cr3, Elements(l.dirs), old(l.pools), p, a)
    ensures g == Wild ==> Full(l.pools.Of(Kernel)) && WildAt(m, l.cr3, l.homes, l.dirs, pools, p, v, fs', ts')
  {
    ghost var m1, pools1, cache1 := l.mem, l.pools, l.cache;
    var f, sane, tables := MapNext(l, p, a);
    fs', ts' := fs, ts;
    if f == -1 {
      return NoFrame, fs, ts;
    }
    if !sane {
      WildNow(m, m1, l.cr3, cache1, l.homes, l.dirs, pools, pools1, p, v, fs, ts, a);
      return Wild, fs, ts;
    }
    ghost var frame: nat := f;
    GivenMore(m, m1, l.mem, l.cr3, cache1, l.cache, l.homes, l.dirs, pools, pools1, l.pools, p, v, fs, ts, a, frame,
              tables);
    g, fs', ts' := Granted(v), fs + [frame], ts + tables;
  }

  /** A page of the run that has not had its turn yet is not mapped. */
  lemma {:induction false} NotYet(m: Mem, m1: Mem, dirs: set<nat>, d: nat, pages: seq<bool>, base: nat, k: nat,
                                  cnt: nat, v: nat, fs: seq<nat>, a: nat)
    requires Marked(m, d, pages, base) && ClearRun(pages, k, cnt) && v % PG_SIZE == 0 && Page(v) == base + k
    requires |fs| < cnt && a == v + PG_SIZE * |fs|
    requires d in dirs && base + |pages| <= WINDOW * 1024 && Pages(m, m1, dirs, d, v, fs)
    ensures a < TWO32 && Pdi(a) < WINDOW && Walk(m1, d, a) == Fault
  {
    NextPage(v, |fs|);
    HalfOf(a);
    assert Page(a) - base == k + |fs|;
  }

  /** Marks are right after pages of a marked run have been mapped. */
  lemma {:induction false} MarkedRun(m: Mem, m1: Mem, dirs: set<nat>, d: nat, pages: seq<bool>, base: nat, k: nat,
                                     cnt: nat, v: nat, fs: seq<nat>)
    requires Marked(m, d, pages, base) && k + cnt <= |pages| && Page(v) == base + k && |fs| <= cnt
    requires d in dirs && base + |pages| <= WINDOW * 1024 && Pages(m, m1, dirs, d, v, fs)
    ensures Marked(m1, d, WithRun(pages, k, cnt, true), base)
  {
    forall a: nat | a < TWO32 && base <= Page(a) < base + |pages| && Walk(m1, d, a).At?
      ensures WithRun(pages, k, cnt, true)[Page(a) - base]
    {
      HalfOf(a);
    }
  }

  /** And in the other address range. */
  lemma {:induction false} MarkedElsewhere(m: Mem, m1: Mem, dirs: set<nat>, d: nat, pages: seq<bool>, base: nat, v: nat,
                                           fs: seq<nat>)
    requires Marked(m, d, pages, base) && d in dirs && base + |pages| <= WINDOW * 1024 && Pages(m, m1, dirs, d, v, fs)
    requires Page(v) + |fs| <= base || base + |pages| <= Page(v)
    ensures Marked(m1, d, pages, base)
  {
    forall a: nat | a < TWO32 && base <= Page(a) < base + |pages| && Walk(m1, d, a).At? ensures pages[Page(a) - base] {
      HalfOf(a);
    }
  }

  lemma {:induction false} NoneGiven(pools: Pools, p: PoolId)
    requires 0 !in pools.All()
    ensures Accounts(pools.Free(), pools.Free(), [], [], pools.Start(p), pools.Start(p) + |pools.Of(p)|)
  {
    assert 0 !in pools.Free();
    assert pools.Free() - Listed([]) - Listed([]) == pools.Free();
  }

  lemma {:induction false} StartRun(m: Mem, dirs: set<nat>, d: nat, v: nat)
    ensures Pages(m, m, dirs, d, v, [])
  {
  }

  /** One turn for the next page of a run that was not marked. */
  method MapStep(l: Layer, p: PoolId, ghost pages: seq<bool>, ghost k: nat, v: nat, c: nat, ghost cnt: nat,
                 ghost fs: seq<nat>, ghost ts: seq<nat>, ghost m: Mem, ghost pools: Pools)
    returns (g: Grant, ghost fs': seq<nat>, ghost ts': seq<nat>)
    requires Given(m, l.mem, l.cr3, l.cache, l.homes, l.dirs, pools, l.pools, p, v, fs, ts) && c == |fs| < cnt
    requires Marked(m, l.cr3, pages, BaseOf(l.userBase, p)) && ClearRun(pages, k, cnt)
    requires Page(v) == BaseOf(l.userBase, p) + k && BaseOf(l.userBase, p) + |pages| <= WINDOW * 1024
    requires v % PG_SIZE == 0
    requires fs == [] ==> l.mem == m && l.pools == pools
    modifies l`mem, l`cache, l`pools
    ensures g == Granted(v) || g == NoFrame || g == Wild
    ensures g != Wild ==> Given(m, l.mem, l.cr3, l.cache, l.homes, l.dirs, pools, l.pools, p, v, fs', ts')
    ensures |fs'| == if g == Granted(v) then c + 1 else c
    ensures g == NoFrame ==> Full(l.pools.Of(p))
    ensures g == Wild ==> Full(l.pools.Of(Kernel)) && WildAt(m, l.cr3, l.homes, l.dirs, pools, p, v, fs', ts')
    ensures v < TWO32 && (c == 0 ==> (g == Wild <==> GoesWild(m, l.cr3, Elements(l.dirs), pools, p, v)))
  {
    var a := v + PG_SIZE * c;
    assert Good(l.mem, l.cr3, l.cache, l.homes, l.dirs, l.pools);
    NotYet(m, l.mem, Elements(l.dirs), l.cr3, pages, BaseOf(l.userBase, p), k, cnt, v, fs, a);
    assert c == 0 ==> a == v;
    g, fs', ts' := MapTurn(l, p, v, fs, ts, m, pools, a);
  }

  /** The loop of `malloc_page`: frames for the `cnt` pages from `v` on. */
  method MapRun(l: Layer, p: PoolId, ghost pages: seq<bool>, ghost k: nat, v: nat, cnt: nat)
    returns (g: Grant, ghost fs: seq<nat>, ghost ts: seq<nat>)
    requires l.Valid() && 0 < cnt && Marked(l.mem, l.cr3, pages, BaseOf(l.userBase, p)) && ClearRun(pages, k, cnt)
    requires Page(v) == BaseOf(l.userBase, p) + k
    requires BaseOf(l.userBase, p) + |pages| <= WINDOW * 1024 && v % PG_SIZE == 0
    modifies l`mem, l`cache, l`pools
    ensures g == Granted(v) || g == NoFrame || g == Wild
    ensures g != Wild ==>
      |fs| <= cnt && (|fs| == cnt <==> g == Granted(v))
      && Given(old(l.mem), l.mem, l.cr3, l.cache, l.homes, l.dirs, old(l.pools), l.pools, p, v, fs, ts)
    ensures g == NoFrame ==> Full(l.pools.Of(p))
    ensures v < TWO32 && (g == Wild && fs == [] <==> GoesWild(old(l.mem), l.cr3, Elements(l.dirs), old(l.pools), p, v))
    ensures g == Wild ==> Full(l.pools.Of(Kernel)) && |fs| < cnt
    ensures g == Wild ==> WildAt(old(l.mem), l.cr3, l.homes, l.dirs, old(l.pools), p, v, fs, ts)
  {
    ghost var m, pools := l.mem, l.pools;
    assert Good(l.mem, l.cr3, l.cache, l.homes, l.dirs, l.pools);
    NoneGiven(pools, p);
    fs, ts, g := [], [], Granted(v);
    StartRun(m, Elements(l.dirs), l.cr3, v);
    var c := 0;
    while c < cnt
      invariant c == |fs| <= cnt && g == Granted(v) && (c == 0 ==> l.mem == m && l.pools == pools)
      invariant Given(m, l.mem, l.cr3, l.cache, l.homes, l.dirs, pools, l.pools, p, v, fs, ts)
      invariant c > 0 ==> v < TWO32 && !GoesWild(m, l.cr3, Elements(l.dirs), pools, p, v)
    {
      g, fs, ts := MapStep(l, p, pages, k, v, c, cnt, fs, ts, m, pools);
      if g != Granted(v) {
        return;
      }
      c := c + 1;
    }
  }

  lemma {:induction false} Aligned(b: nat)
    ensures PG_SIZE * b % PG_SIZE == 0 && Page(PG_SIZE * b) == b
  {
  }

  /**
   `malloc_page`: `cnt` consecutive pages that were not mapped now lead to frames `fs` of the pool, all different, and
   nothing else changes in any address space; besides `fs`, only page tables `ts` have been taken. When frames run out
   half-way, the pages mapped so far and all marks stay. The model stops where frame 0 would be a page table twice.
   */
  method MallocPage(l: Layer, p: PoolId, cnt: nat)
    returns (g: Grant, ghost v: nat, ghost fs: seq<nat>, ghost ts: seq<nat>)
    requires l.Valid() && Spaces(l.mem, l.cr3, l.pages, l.userBase) && 0 < cnt < 3840
    modifies l`mem, l`cache, l`pools, l`pages
    ensures g == Granted(v) || !g.Granted?
    ensures !g.Wild? ==> l.Valid() && Spaces(l.mem, l.cr3, l.pages, l.userBase)
    ensures !g.NoAddress? ==> Marking(old(l.pages), l.pages, p, BaseOf(l.userBase, p), v, cnt)
    ensures g.Granted? || g.NoFrame? ==>
      |fs| <= cnt && (|fs| == cnt <==> g.Granted?)
      && Given(old(l.mem), l.mem, l.cr3, l.cache, l.homes, l.dirs, old(l.pools), l.pools, p, v, fs, ts)
    ensures g.NoAddress? <==> BitmapScan.NoneFound(old(l.pages).Of(p), cnt)
    ensures g.NoAddress? ==> l.mem == old(l.mem) && l.pools == old(l.pools) && l.pages == old(l.pages)
    ensures g.Panic? ==> l.mem == old(l.mem) && l.pools == old(l.pools)
    ensures !g.NoAddress? ==> (g.Panic? <==> p == User && v >= USER_END)
    ensures g.NoFrame? ==> Full(l.pools.Of(p))
    ensures g.Wild? ==> Full(l.pools.Of(Kernel)) && |fs| < cnt
    ensures g.Wild? ==> WildAt(old(l.mem), l.cr3, l.homes, l.dirs, old(l.pools), p, v, fs, ts)
    ensures !g.NoAddress? && !g.Panic? ==>
      v < TWO32 && (g.Wild? && fs == [] <==> GoesWild(old(l.mem), l.cr3, Elements(l.dirs), old(l.pools), p, v))
  {
    ghost var was, m := l.pages, l.mem;
    var found, a := VaddrGet(l, p, cnt);
    v := a;
    if !found {
      return NoAddress, v, [], [];
    }
    if p == User && a >= USER_END {
      g, fs, ts := Panic, [], [];
      assert Good(l.mem, l.cr3, l.cache, l.homes, l.dirs, l.pools);
      StartRun(m, Elements(l.dirs), l.cr3, v);
      SpacesMapped(m, m, Elements(l.dirs), l.cr3, was, l.pages, l.userBase, p, v, cnt, []);
      return;
    }
    g, fs, ts := MapFound(l, p, a, cnt, was);
  }

  method MapFound(l: Layer, p: PoolId, v: nat, cnt: nat, ghost was: Marks)
    returns (g: Grant, ghost fs: seq<nat>, ghost ts: seq<nat>)
    requires l.Valid() && Spaces(l.mem, l.cr3, was, l.userBase) && 0 < cnt
    requires Marking(was, l.pages, p, BaseOf(l.userBase, p), v, cnt)
    modifies l`mem, l`cache, l`pools
    ensures g == Granted(v) || g == NoFrame || g == Wild
    ensures g != Wild ==> l.Valid() && Spaces(l.mem, l.cr3, l.pages, l.userBase)
    ensures g != Wild ==>
      |fs| <= cnt && (|fs| == cnt <==> g == Granted(v))
      && Given(old(l.mem), l.mem, l.cr3, l.cache, l.homes, l.dirs, old(l.pools), l.pools, p, v, fs, ts)
    ensures g == NoFrame ==> Full(l.pools.Of(p))
    ensures v < TWO32 && (g == Wild && fs == [] <==> GoesWild(old(l.mem), l.cr3, Elements(l.dirs), old(l.pools), p, v))
    ensures g == Wild ==> Full(l.pools.Of(Kernel)) && |fs| < cnt
    ensures g == Wild ==> WildAt(old(l.mem), l.cr3, l.homes, l.dirs, old(l.pools), p, v, fs, ts)
  {
    ghost var m := l.mem;
    assert SpaceOk(m, l.cr3, was, l.userBase, p);
    g, fs, ts := MapRun(l, p, was.Of(p), Page(v) - BaseOf(l.userBase, p), v, cnt);
    if g != Wild {
      assert Good(l.mem, l.cr3, l.cache, l.homes, l.dirs, l.pools);
      SpacesMapped(m, l.mem, Elements(l.dirs), l.cr3, was, l.pages, l.userBase, p, v, cnt, fs);
    }
  }

  /** The bitmaps stay right when a marked run is mapped. */
  lemma {:induction false} SpacesMapped(m: Mem, m1: Mem, dirs: set<nat>, d: nat, was: Marks, now: Marks, userBase: nat,
                                        p: PoolId, v: nat, cnt: nat, fs: seq<nat>)
    requires Spaces(m, d, was, userBase) && d in dirs && Pages(m, m1, dirs, d, v, fs) && |fs| <= cnt
    requires Marking(was, now, p, BaseOf(userBase, p), v, cnt)
    ensures Spaces(m1, d, now, userBase)
  {
    var q := Other(p);
    SpaceRun(m, m1, dirs, d, was.Of(p), BaseOf(userBase, p), LowOf(p), HighOf(p), Page(v) - BaseOf(userBase, p), cnt, v,
             fs);
    SpaceElsewhere(m, m1, dirs, d, was.Of(q), BaseOf(userBase, q), LowOf(q), HighOf(q), LowOf(p), HighOf(p), v, fs);
    assert SpaceOk(m1, d, now, userBase, p) && SpaceOk(m1, d, now, userBase, q);
  }

  lemma {:induction false} SpaceRun(m: Mem, m1: Mem, dirs: set<nat>, d: nat, pages: seq<bool>, base: nat, low: nat,
                                    high: nat, k: nat, cnt: nat, v: nat, fs: seq<nat>)
    requires Space(m, d, pages, base, low, high) && high <= WINDOW && k + cnt <= |pages| && Page(v) == base + k
    requires |fs| <= cnt
    requires d in dirs && Pages(m, m1, dirs, d, v, fs)
    ensures Space(m1, d, WithRun(pages, k, cnt, true), base, low, high)
  {
    MarkedRun(m, m1, dirs, d, pages, base, k, cnt, v, fs);
  }

  lemma {:induction false} SpaceElsewhere(m: Mem, m1: Mem, dirs: set<nat>, d: nat, pages: seq<bool>, base: nat,
                                          low: nat, high: nat, low': nat, high': nat, v: nat, fs: seq<nat>)
    requires Space(m, d, pages, base, low, high) && high <= WINDOW && (high' <= low || high <= low')
    requires low' * 1024 <= Page(v) && Page(v) + |fs| <= high' * 1024 && d in dirs && Pages(m, m1, dirs, d, v, fs)
    ensures Space(m1, d, pages, base, low, high)
  {
    MarkedElsewhere(m, m1, dirs, d, pages, base, v, fs);
  }

  // ---------- mfree_page ----------

  lemma {:induction false} Released(pools: Pools, p: PoolId, f: nat)
    requires pools.Apart() && InPool(pools.Of(p), pools.Start(p), f)
    ensures var pools' := pools.Put(p, f - pools.Start(p), false);
      pools'.Apart() && SameFrames(pools, pools') && f in pools.All() && pools'.Free() == pools.Free() + iset{f}
  {
    var pools' := pools.Put(p, f - pools.Start(p), false);
    assert IsFree(pools'.Of(p), pools.Start(p), f);
    forall g: nat ensures g in pools'.Free() <==> g in pools.Free() || g == f {
    }
  }

  /** A directory is not mapped at a page whose frame is none. */
  lemma {:induction false} NotHome(m: Mem, d: nat, homes: seq<nat>, dirs: seq<nat>, v: nat, f: nat)
    requires |homes| == |dirs| && AtHome(m, d, homes, dirs) && Maps(m, d, v, f) && f !in dirs
    ensures forall k :: 0 <= k < |homes| ==> Page(homes[k]) != Page(v)
  {
    forall k | 0 <= k < |homes| ensures Page(homes[k]) != Page(v) {
      assert Home(m, d, homes[k], dirs[k]);
      SamePage(homes[k], v);
    }
  }

  /** The page layer has one page less, the one at `v`, and its frame `f` is free. */
  ghost predicate Without(m: Mem, m': Mem, d: nat, cache: seq<nat>, homes: seq<nat>, dirs: seq<nat>, pools: Pools,
                          pools': Pools, v: nat, f: nat)
    requires v < TWO32
  {
    && Good(m', d, cache, homes, dirs, pools') && OnePage(m, m', Elements(dirs), d, v, Fault)
    && SameFrames(pools, pools') && pools'.Free() == pools.Free() + iset{f}
  }

  /** `bitmap_set(&pool, k, 0)` together with `*pte = 0`: the page at `v` goes, and its frame is free. */
  method FreeOne(l: Layer, p: PoolId, v: nat, ghost f: nat)
    requires l.Valid() && v % PG_SIZE == 0 && Maps(l.mem, l.cr3, v, f) && InPool(l.pools.Of(p), l.pools.Start(p), f)
    requires f !in l.dirs
    modifies l`mem, l`pools
    ensures Without(old(l.mem), l.mem, l.cr3, l.cache, l.homes, l.dirs, old(l.pools), l.pools, v, f)
  {
    ghost var m, pools, t := l.mem, l.pools, Load(l.mem, l.cr3, Pdi(v)) / PG_SIZE;
    assert Good(l.mem, l.cr3, l.cache, l.homes, l.dirs, l.pools);
    assert SelfMapped(m, l.cr3) && HasTable(m, l.cr3, Pdi(v), t);
    DropFrame(l, p, v, t, f);
    Dropped(m, l.mem, l.cr3, l.cache, l.homes, l.dirs, pools, l.pools, p, v, t, f);
  }

  method DropFrame(l: Layer, p: PoolId, v: nat, ghost t: nat, ghost f: nat)
    requires v % PG_SIZE == 0 && SelfMapped(l.mem, l.cr3) && Maps(l.mem, l.cr3, v, f)
    requires InPool(l.pools.Of(p), l.pools.Start(p), f) && HasTable(l.mem, l.cr3, Pdi(v), t)
    modifies l`mem, l`pools
    ensures l.mem == Store(old(l.mem), t, Pti(v), 0) && l.pools == old(l.pools).Put(p, f - old(l.pools).Start(p), false)
  {
    var a := PhysicalOf(l, v, f);
    l.pools := l.pools.Put(p, a / PG_SIZE - l.pools.Start(p), false);
    l.SetPageEntry(v, 0, t);
  }

  lemma {:induction false} Dropped(m: Mem, m': Mem, d: nat, cache: seq<nat>, homes: seq<nat>, dirs: seq<nat>,
                                   pools: Pools, pools': Pools, p: PoolId, v: nat, t: nat, f: nat)
    requires Good(m, d, cache, homes, dirs, pools) && Maps(m, d, v, f) && InPool(pools.Of(p), pools.Start(p), f)
    requires f !in dirs && HasTable(m, d, Pdi(v), t)
    requires m' == Store(m, t, Pti(v), 0) && pools' == pools.Put(p, f - pools.Start(p), false)
    ensures Without(m, m', d, cache, homes, dirs, pools, pools', v, f)
  {
    Released(pools, p, f);
    DropEntry(m, Elements(dirs), cache, pools.All(), pools.Free(), d, v, t, f);
    NotHome(m, d, homes, dirs, v, f);
    HomeKept(m, m', Elements(dirs), d, homes, dirs, v, Fault);
  }

  /** `addr_v2p` */
  method PhysicalOf(l: Layer, v: nat, ghost f: nat) returns (a: nat)
    requires v % PG_SIZE == 0 && SelfMapped(l.mem, l.cr3) && Maps(l.mem, l.cr3, v, f)
    ensures a / PG_SIZE == f && a % PG_SIZE == 0
  {
    V2P(l.mem, l.cr3, v);
    var pte := Peek(l.mem, l.cr3, PtePtr(v));
    a := pte - pte % PG_SIZE + v % PG_SIZE;
  }

  /** The pages from `v` on lead to the frames `fs` of a pool, none of them a directory. */
  ghost predicate Holding(m: Mem, d: nat, dirs: seq<nat>, v: nat, fs: seq<nat>, low: nat, high: nat) {
    forall i :: 0 <= i < |fs| ==> Maps(m, d, v + PG_SIZE * i, fs[i]) && low <= fs[i] < high && fs[i] !in dirs
  }

  lemma {:induction false} StillHolding(m: Mem, m1: Mem, d: nat, dirs: seq<nat>, v: nat, fs: seq<nat>, low: nat,
                                        high: nat, c: nat, a: nat)
    requires Holding(m, d, dirs, v, fs, low, high) && v % PG_SIZE == 0 && d in dirs
    requires Gone(m, m1, Elements(dirs), d, v, c) && c < |fs|
    requires a == v + PG_SIZE * c
    ensures a % PG_SIZE == 0 && Maps(m1, d, a, fs[c]) && low <= fs[c] < high && fs[c] !in dirs
  {
    NextPage(v, c);
    assert Maps(m, d, v + PG_SIZE * c, fs[c]);
  }

  /** What the loop of `mfree_page` has done after `c` turns. */
  ghost predicate Freed(m: Mem, m': Mem, d: nat, cache: seq<nat>, homes: seq<nat>, dirs: seq<nat>, pools: Pools,
                        pools': Pools, v: nat, fs: seq<nat>, c: nat)
    requires c <= |fs|
  {
    // The quantifier keeps the solver from unfolding what is only passed on.
    forall ps :: ps == pools' ==>
      && Good(m', d, cache, homes, dirs, ps) && Gone(m, m', Elements(dirs), d, v, c)
      && SameFrames(pools, ps) && ps.Free() == pools.Free() + Listed(fs[..c])
  }

  /** What is known before a turn. */
  lemma {:induction false} ToFree(l: Layer, p: PoolId, v: nat, fs: seq<nat>, c: nat, m: Mem, pools: Pools, a: nat)
    requires c < |fs| && v % PG_SIZE == 0 && a == v + PG_SIZE * c
    requires Holding(m, l.cr3, l.dirs, v, fs, pools.Start(p), pools.Start(p) + |pools.Of(p)|)
    requires Freed(m, l.mem, l.cr3, l.cache, l.homes, l.dirs, pools, l.pools, v, fs, c)
    ensures l.Valid() && a % PG_SIZE == 0 && a < TWO32 && Maps(l.mem, l.cr3, a, fs[c])
    ensures InPool(l.pools.Of(p), l.pools.Start(p), fs[c]) && fs[c] !in l.dirs
  {
    assert Good(l.mem, l.cr3, l.cache, l.homes, l.dirs, l.pools);
    StillHolding(m, l.mem, l.cr3, l.dirs, v, fs, pools.Start(p), pools.Start(p) + |pools.Of(p)|, c, a);
  }

  method FreeTurn(l: Layer, p: PoolId, v: nat, ghost fs: seq<nat>, c: nat, ghost m: Mem, ghost pools: Pools)
    requires c < |fs| && v % PG_SIZE == 0
    requires Holding(m, l.cr3, l.dirs, v, fs, pools.Start(p), pools.Start(p) + |pools.Of(p)|)
    requires Freed(m, l.mem, l.cr3, l.cache, l.homes, l.dirs, pools, l.pools, v, fs, c)
    modifies l`mem, l`pools
    ensures Freed(m, l.mem, l.cr3, l.cache, l.homes, l.dirs, pools, l.pools, v, fs, c + 1)
  {
    var a := v + PG_SIZE * c;
    ToFree(l, p, v, fs, c, m, pools, a);
    ghost var m1, pools1 := l.mem, l.pools;
    FreeOne(l, p, a, fs[c]);
    FreedMore(m, m1, l.mem, l.cr3, l.cache, l.homes, l.dirs, pools, pools1, l.pools, v, fs, c, a);
  }

  lemma {:induction false} FreedMore(m: Mem, m1: Mem, m2: Mem, d: nat, cache: seq<nat>, homes: seq<nat>, dirs: seq<nat>,
                                     pools: Pools, pools1: Pools, pools2: Pools, v: nat, fs: seq<nat>, c: nat, a: nat)
    requires c < |fs| && v % PG_SIZE == 0 && a == v + PG_SIZE * c < TWO32
    requires Freed(m, m1, d, cache, homes, dirs, pools, pools1, v, fs, c)
    requires Without(m1, m2, d, cache, homes, dirs, pools1, pools2, a, fs[c])
    ensures Freed(m, m2, d, cache, homes, dirs, pools, pools2, v, fs, c + 1)
  {
    assert Good(m1, d, cache, homes, dirs, pools1);
    GoneMore(m, m1, m2, Elements(dirs), d, v, c, a);
    ListedMore(pools.Free(), fs, c);
  }

  lemma {:induction false} ListedMore(free: iset<nat>, fs: seq<nat>, c: nat)
    requires c < |fs|
    ensures free + Listed(fs[..c]) + iset{fs[c]} == free + Listed(fs[..c + 1])
  {
  }

  lemma {:induction false} NoneFreed(m: Mem, d: nat, cache: seq<nat>, homes: seq<nat>, dirs: seq<nat>, pools: Pools,
                                     v: nat, fs: seq<nat>)
    requires Good(m, d, cache, homes, dirs, pools)
    ensures Freed(m, m, d, cache, homes, dirs, pools, pools, v, fs, 0)
  {
    assert pools.Free() + Listed(fs[..0]) == pools.Free();
  }

  /** The loop of `mfree_page`. */
  method FreeRun(l: Layer, p: PoolId, v: nat, cnt: nat, ghost fs: seq<nat>)
    requires l.Valid() && v % PG_SIZE == 0 && cnt == |fs|
    requires Holding(l.mem, l.cr3, l.dirs, v, fs, l.pools.Start(p), l.pools.Start(p) + |l.pools.Of(p)|)
    modifies l`mem, l`pools
    ensures Freed(old(l.mem), l.mem, l.cr3, l.cache, l.homes, l.dirs, old(l.pools), l.pools, v, fs, cnt)
  {
    ghost var m, pools := l.mem, l.pools;
    NoneFreed(m, l.cr3, l.cache, l.homes, l.dirs, pools, v, fs);
    var c := 0;
    while c < cnt
      invariant c <= cnt && Freed(m, l.mem, l.cr3, l.cache, l.homes, l.dirs, pools, l.pools, v, fs, c)
    {
      FreeTurn(l, p, v, fs, c, m, pools);
      c := c + 1;
    }
  }

  /**
   The pages from `v` on go, their frames `fs` are free again and their marks cleared; all other pages, frames and marks
   stay.
   */
  ghost predicate Unmapped(m: Mem, m': Mem, d: nat, cache: seq<nat>, homes: seq<nat>, dirs: seq<nat>, pools: Pools,
                           pools': Pools, was: Marks, now: Marks, userBase: nat, p: PoolId, v: nat, fs: seq<nat>) {
    && Good(m', d, cache, homes, dirs, pools') && Spaces(m', d, now, userBase)
    && Gone(m, m', Elements(dirs), d, v, |fs|) && SameFrames(pools, pools')
    && pools'.Free() == pools.Free() + Listed(fs)
    && Unmarked(was, now, p, BaseOf(userBase, p), Page(v), |fs|)
  }

  /** The marks of the `n` pages from page number `q` on are cleared. */
  ghost predicate Unmarked(was: Marks, now: Marks, p: PoolId, base: nat, q: nat, n: nat) {
    base <= q && q - base + n <= |was.Of(p)| && now == was.With(p, WithRun(was.Of(p), q - base, n, false))
  }

  /** `mfree_page` */
  method MfreePage(l: Layer, p: PoolId, v: nat, cnt: nat, ghost fs: seq<nat>)
    requires l.Valid() && Spaces(l.mem, l.cr3, l.pages, l.userBase) && cnt >= 1 && v % PG_SIZE == 0
    requires BaseOf(l.userBase, p) <= Page(v) && Page(v) - BaseOf(l.userBase, p) + cnt <= |l.pages.Of(p)|
    requires cnt == |fs| && Holding(l.mem, l.cr3, l.dirs, v, fs, l.pools.Start(p), l.pools.Start(p) + |l.pools.Of(p)|)
    modifies l`mem, l`pools, l`pages
    ensures Unmapped(old(l.mem), l.mem, l.cr3, l.cache, l.homes, l.dirs, old(l.pools), l.pools, old(l.pages), l.pages,
                     l.userBase, p, v, fs)
  {
    ghost var m, pools, was := l.mem, l.pools, l.pages;
    FreeRun(l, p, v, cnt, fs);
    ClearMarks(l, p, Page(v) - BaseOf(l.userBase, p), cnt);
    RunUnmapped(m, l.mem, l.cr3, l.cache, l.homes, l.dirs, pools, l.pools, was, l.pages, l.userBase, p, v, fs);
  }

  lemma {:induction false} RunUnmapped(m: Mem, m': Mem, d: nat, cache: seq<nat>, homes: seq<nat>, dirs: seq<nat>,
                                       pools: Pools, pools': Pools, was: Marks, now: Marks, userBase: nat, p: PoolId,
                                       v: nat, fs: seq<nat>)
    requires Freed(m, m', d, cache, homes, dirs, pools, pools', v, fs, |fs|) && Spaces(m, d, was, userBase)
    requires BaseOf(userBase, p) <= Page(v) && Page(v) - BaseOf(userBase, p) + |fs| <= |was.Of(p)|
    requires now == was.With(p, WithRun(was.Of(p), Page(v) - BaseOf(userBase, p), |fs|, false))
    ensures Unmapped(m, m', d, cache, homes, dirs, pools, pools', was, now, userBase, p, v, fs)
  {
    assert fs[..|fs|] == fs && Good(m', d, cache, homes, dirs, pools');
    SpacesGone(m, m', Elements(dirs), d, was, now, userBase, p, v, |fs|);
  }

  /** The bitmaps stay right when a run is unmapped and its marks cleared. */
  lemma {:induction false} SpacesGone(m: Mem, m1: Mem, dirs: set<nat>, d: nat, was: Marks, now: Marks, userBase: nat,
                                      p: PoolId, v: nat, cnt: nat)
    requires Spaces(m, d, was, userBase) && d in dirs && Gone(m, m1, dirs, d, v, cnt)
    requires BaseOf(userBase, p) <= Page(v) && Page(v) - BaseOf(userBase, p) + cnt <= |was.Of(p)|
    requires now == was.With(p, WithRun(was.Of(p), Page(v) - BaseOf(userBase, p), cnt, false))
    ensures Spaces(m1, d, now, userBase)
  {
    var q := Other(p);
    SpaceGone(m, m1, dirs, d, was.Of(p), BaseOf(userBase, p), LowOf(p), HighOf(p), Page(v) - BaseOf(userBase, p), cnt,
              v);
    SpaceShrunk(m, m1, dirs, d, was.Of(q), BaseOf(userBase, q), LowOf(q), HighOf(q), v, cnt);
    assert SpaceOk(m1, d, now, userBase, p) && SpaceOk(m1, d, now, userBase, q);
  }

  method ClearMarks(l: Layer, p: PoolId, k: nat, cnt: nat)
    requires k + cnt <= |l.pages.Of(p)|
    modifies l`pages
    ensures l.pages == old(l.pages).With(p, WithRun(old(l.pages).Of(p), k, cnt, false))
  {
    var r := SetRun(l.pages.Of(p), k, cnt, false);
    l.pages := l.pages.With(p, r);
  }

  lemma {:induction false} SpaceGone(m: Mem, m1: Mem, dirs: set<nat>, d: nat, pages: seq<bool>, base: nat, low: nat,
                                     high: nat, k: nat, cnt: nat, v: nat)
    requires Space(m, d, pages, base, low, high) && high <= WINDOW && k + cnt <= |pages| && Page(v) == base + k
    requires d in dirs && Gone(m, m1, dirs, d, v, cnt)
    ensures Space(m1, d, WithRun(pages, k, cnt, false), base, low, high)
  {
    forall a: nat | a < TWO32 && base <= Page(a) < base + |pages| && Walk(m1, d, a).At?
      ensures WithRun(pages, k, cnt, false)[Page(a) - base]
    {
      HalfOf(a);
    }
  }

  lemma {:induction false} SpaceShrunk(m: Mem, m1: Mem, dirs: set<nat>, d: nat, pages: seq<bool>, base: nat, low: nat,
                                       high: nat, v: nat, cnt: nat)
    requires Space(m, d, pages, base, low, high) && high <= WINDOW && d in dirs && Gone(m, m1, dirs, d, v, cnt)
    ensures Space(m1, d, pages, base, low, high)
  {
    forall a: nat | a < TWO32 && base <= Page(a) < base + |pages| && Walk(m1, d, a).At? ensures pages[Page(a) - base] {
      HalfOf(a);
    }
  }

  // ---------- malloc_page, then mfree_page ----------

  /** The kernel half reads the same in all address spaces. */
  lemma {:induction false} KernelSame(m: Mem, dirs: set<nat>, cache: seq<nat>, d: nat, e: nat, a: nat)
    requires Coherent(m, dirs, cache) && d in dirs && e in dirs && a < TWO32 && KERNEL_FIRST <= Pdi(a) < WINDOW
    ensures Walk(m, e, a) == Walk(m, d, a)
  {
    assert Load(m, e, Pdi(a)) == cache[Pdi(a) - KERNEL_FIRST];
    assert Load(m, d, Pdi(a)) == cache[Pdi(a) - KERNEL_FIRST];
  }

  /** The pages that `malloc_page` has granted are such as `mfree_page` takes. */
  lemma {:induction false} GrantHolds(m: Mem, m1: Mem, dirs: seq<nat>, d: nat, v: nat, fs: seq<nat>, ts: seq<nat>,
                                      free: iset<nat>, now: iset<nat>, low: nat, high: nat)
    requires v % PG_SIZE == 0 && Page(v) + |fs| <= WINDOW * 1024 && d in dirs
    requires forall f <- free :: Idle(m, Elements(dirs), f)
    requires Pages(m, m1, Elements(dirs), d, v, fs) && Accounts(free, now, fs, ts, low, high)
    ensures Holding(m1, d, dirs, v, fs, low, high)
  {
    forall i | 0 <= i < |fs| ensures Maps(m1, d, v + PG_SIZE * i, fs[i]) && low <= fs[i] < high && fs[i] !in dirs {
      NextPage(v, i);
      HalfOf(v + PG_SIZE * i);
      assert fs[i] in fs;
    }
  }

  /**
   `malloc_page` then `mfree_page` restores every address space and all marks, and of the frames keeps only those for
   page tables.
   */
  lemma {:induction false} MallocThenFree(m: Mem, m1: Mem, m2: Mem, dirs: set<nat>, cache: seq<nat>, d: nat, v: nat,
                                          fs: seq<nat>, ts: seq<nat>, free: iset<nat>, free1: iset<nat>,
                                          free2: iset<nat>, low: nat, high: nat, was: Marks, mid: Marks, p: PoolId,
                                          base: nat)
    requires Coherent(m, dirs, cache) && d in dirs && base + |was.Of(p)| <= WINDOW * 1024
    requires Marked(m, d, was.Of(p), base) && Marking(was, mid, p, base, v, |fs|)
    requires Pages(m, m1, dirs, d, v, fs) && Accounts(free, free1, fs, ts, low, high)
    requires Gone(m1, m2, dirs, d, v, |fs|) && free2 == free1 + Listed(fs)
    ensures SameWalks(m, m2, dirs) && free2 == free - Listed(ts)
    ensures mid.With(p, WithRun(mid.Of(p), Page(v) - base, |fs|, false)) == was
  {
    forall e, a: nat | e in dirs && a < TWO32 && Pdi(a) < WINDOW && Page(v) <= Page(a) < Page(v) + |fs|
      && Shows(d, e, Pdi(a)) ensures Walk(m, e, a) == Fault
    {
      assert !was.Of(p)[Page(a) - base];
      if e != d { KernelSame(m, dirs, cache, d, e, a); }
    }
    MappedAndGone(m, m1, m2, dirs, d, v, fs);
    WithRunBack(was.Of(p), Page(v) - base, |fs|);
    assert forall t <- ts :: t !in fs && (t == 0 || t in free);
  }

  /** Everything is as it was, but for the frames of page tables. */
  ghost predicate Restored(m: Mem, m': Mem, dirs: set<nat>, was: Marks, now: Marks, pools: Pools, pools': Pools,
                           ts: seq<nat>) {
    SameWalks(m, m', dirs) && now == was && pools'.Free() == pools.Free() - Listed(ts)
  }

  /**
   A program that takes pages and gives them back leaves every address space, all marks and all frames as they were, but
   for page tables.
   */
  method MapAndUnmap(l: Layer, p: PoolId, cnt: nat) returns (g: Grant, ghost ts: seq<nat>)
    requires l.Valid() && Spaces(l.mem, l.cr3, l.pages, l.userBase) && 0 < cnt < 3840
    modifies l`mem, l`cache, l`pools, l`pages
    ensures !g.Wild? ==> l.Valid() && Spaces(l.mem, l.cr3, l.pages, l.userBase)
    ensures g.Granted? ==>
      Restored(old(l.mem), l.mem, Elements(l.dirs), old(l.pages), l.pages, old(l.pools), l.pools, ts)
  {
    ghost var m, was, pools, cache := l.mem, l.pages, l.pools, l.cache;
    ghost var v, fs;
    assert Good(l.mem, l.cr3, l.cache, l.homes, l.dirs, l.pools);
    g, v, fs, ts := MallocPage(l, p, cnt);
    if g.Granted? {
      GiveBack(l, p, g.v, cnt, fs, ts, m, pools, cache, was);
    }
  }

  /** What has to be known of the page layer before a run is granted, for giving the run back. */
  ghost predicate Before(m: Mem, d: nat, cache: seq<nat>, dirs: seq<nat>, pools: Pools, was: Marks, userBase: nat,
                         p: PoolId) {
    && Coherent(m, Elements(dirs), cache) && d in dirs && (forall f <- pools.Free() :: Idle(m, Elements(dirs), f))
    && SpaceOk(m, d, was, userBase, p)
  }

  /** `mfree_page` of what `malloc_page` has granted. */
  method GiveBack(l: Layer, p: PoolId, v: nat, cnt: nat, ghost fs: seq<nat>, ghost ts: seq<nat>, ghost m: Mem,
                  ghost pools: Pools, ghost cache: seq<nat>, ghost was: Marks)
    requires Before(m, l.cr3, cache, l.dirs, pools, was, l.userBase, p) && cnt == |fs| > 0
    requires Given(m, l.mem, l.cr3, l.cache, l.homes, l.dirs, pools, l.pools, p, v, fs, ts)
    requires Spaces(l.mem, l.cr3, l.pages, l.userBase)
    requires Marking(was, l.pages, p, BaseOf(l.userBase, p), v, cnt)
    modifies l`mem, l`pools, l`pages
    ensures Unmapped(old(l.mem), l.mem, l.cr3, l.cache, l.homes, l.dirs, old(l.pools), l.pools, old(l.pages), l.pages,
                     l.userBase, p, v, fs)
    ensures Restored(m, l.mem, Elements(l.dirs), was, l.pages, pools, l.pools, ts)
  {
    ghost var m1, mid, pools1 := l.mem, l.pages, l.pools;
    GivenHolds(m, m1, l.cr3, cache, l.cache, l.homes, l.dirs, pools, pools1, was, mid, l.userBase, p, v, fs, ts);
    MfreePage(l, p, v, cnt, fs);
    GivenBack(m, m1, l.mem, l.cr3, cache, l.cache, l.homes, l.dirs, pools, pools1, l.pools, was, mid, l.pages,
              l.userBase, p, v, fs, ts);
  }

  lemma {:induction false} GivenHolds(m: Mem, m1: Mem, d: nat, cache: seq<nat>, cache1: seq<nat>, homes: seq<nat>,
                                      dirs: seq<nat>, pools: Pools, pools1: Pools, was: Marks, mid: Marks,
                                      userBase: nat, p: PoolId, v: nat, fs: seq<nat>, ts: seq<nat>)
    requires Before(m, d, cache, dirs, pools, was, userBase, p) && Marking(was, mid, p, BaseOf(userBase, p), v, |fs|)
    requires Given(m, m1, d, cache1, homes, dirs, pools, pools1, p, v, fs, ts)
    ensures Holding(m1, d, dirs, v, fs, pools1.Start(p), pools1.Start(p) + |pools1.Of(p)|)
    ensures Page(v) - BaseOf(userBase, p) + |fs| <= |mid.Of(p)|
  {
    assert Gave(m, m1, d, dirs, pools, pools1, p, v, fs, ts);
    GrantHolds(m, m1, dirs, d, v, fs, ts, pools.Free(), pools1.Free(), pools.Start(p), pools.Start(p) + |pools.Of(p)|);
  }

  lemma {:induction false} GivenBack(m: Mem, m1: Mem, m2: Mem, d: nat, cache: seq<nat>, cache1: seq<nat>,
                                     homes: seq<nat>, dirs: seq<nat>, pools: Pools, pools1: Pools, pools2: Pools,
                                     was: Marks, mid: Marks, now: Marks, userBase: nat, p: PoolId, v: nat, fs: seq<nat>,
                                     ts: seq<nat>)
    requires Before(m, d, cache, dirs, pools, was, userBase, p)
    requires Given(m, m1, d, cache1, homes, dirs, pools, pools1, p, v, fs, ts)
    requires Marking(was, mid, p, BaseOf(userBase, p), v, |fs|)
    requires Gone(m1, m2, Elements(dirs), d, v, |fs|) && pools2.Free() == pools1.Free() + Listed(fs)
    requires Unmarked(mid, now, p, BaseOf(userBase, p), Page(v), |fs|)
    ensures Restored(m, m2, Elements(dirs), was, now, pools, pools2, ts)
  {
    assert Gave(m, m1, d, dirs, pools, pools1, p, v, fs, ts);
    MallocThenFree(m, m1, m2, Elements(dirs), cache, d, v, fs, ts, pools.Free(), pools1.Free(), pools2.Free(),
                   pools.Start(p), pools.Start(p) + |pools.Of(p)|, was, mid, p, BaseOf(userBase, p));
  }
}
