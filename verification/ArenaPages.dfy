/** The pages under the arenas: every page of an arena leads to a frame of its pool. */
module ArenaPages {
  import opened Common
  import opened Paging
  import opened PageLayer
  import opened PageAlloc
  import opened BitSpec
  import ArenaSpec
  import BitmapScan

  /** Page number `q` leads to a frame between `low` and `high`, which is no directory. */
  ghost predicate PageHeld(m: Mem, d: nat, dirs: seq<nat>, low: nat, high: nat, q: nat) {
    var a := PG_SIZE * q;
    && a < TWO32 && Pdi(a) < WINDOW && Walk(m, d, a).At?
    && low <= Walk(m, d, a).frame < high && Walk(m, d, a).frame !in dirs
  }

  ghost predicate RunHeld(m: Mem, d: nat, dirs: seq<nat>, low: nat, high: nat, p: nat, n: nat) {
    forall q :: p <= q < p + n ==> PageHeld(m, d, dirs, low, high, q)
  }

  /** All pages of all arenas are held. */
  ghost predicate Backed(m: Mem, d: nat, dirs: seq<nat>, low: nat, high: nat, arenas: map<nat, ArenaSpec.Header>) {
    forall p <- arenas :: RunHeld(m, d, dirs, low, high, p, ArenaSpec.Span(arenas[p]))
  }

  lemma {:induction false} AtPage(q: nat)
    ensures Page(PG_SIZE * q) == q && Off(PG_SIZE * q) == 0 && PG_SIZE * q % PG_SIZE == 0
  {
  }

  lemma {:induction false} ToPage(v: nat)
    requires v % PG_SIZE == 0
    ensures v == PG_SIZE * Page(v)
  {
  }

  /** Pages outside a run stay held when the run is mapped. */
  lemma {:induction false} HeldAfter(m: Mem, m': Mem, d: nat, dirs: seq<nat>, low: nat, high: nat, v: nat, fs: seq<nat>,
                                     p: nat, n: nat)
    requires RunHeld(m, d, dirs, low, high, p, n) && d in dirs && Pages(m, m', Elements(dirs), d, v, fs)
    requires p + n <= Page(v) || Page(v) + |fs| <= p
    ensures RunHeld(m', d, dirs, low, high, p, n)
  {
    forall q | p <= q < p + n ensures PageHeld(m', d, dirs, low, high, q) {
      assert PageHeld(m, d, dirs, low, high, q);
      AtPage(q);
    }
  }

  lemma {:induction false} HeldWithout(m: Mem, m': Mem, d: nat, dirs: seq<nat>, low: nat, high: nat, v: nat, c: nat,
                                       p: nat, n: nat)
    requires RunHeld(m, d, dirs, low, high, p, n) && d in dirs && Gone(m, m', Elements(dirs), d, v, c)
    requires p + n <= Page(v) || Page(v) + c <= p
    ensures RunHeld(m', d, dirs, low, high, p, n)
  {
    forall q | p <= q < p + n ensures PageHeld(m', d, dirs, low, high, q) {
      assert PageHeld(m, d, dirs, low, high, q);
      AtPage(q);
    }
  }

  /** A run that holds frames of the pool is held. */
  lemma {:induction false} HoldingHeld(m: Mem, d: nat, dirs: seq<nat>, low: nat, high: nat, v: nat, fs: seq<nat>)
    requires Holding(m, d, dirs, v, fs, low, high) && v % PG_SIZE == 0
    ensures RunHeld(m, d, dirs, low, high, Page(v), |fs|)
  {
    ToPage(v);
    forall q | Page(v) <= q < Page(v) + |fs| ensures PageHeld(m, d, dirs, low, high, q) {
      var i := q - Page(v);
      assert v + PG_SIZE * i == PG_SIZE * q;
      assert Maps(m, d, v + PG_SIZE * i, fs[i]);
    }
  }

  /** The frames of a run of pages. */
  ghost function FramesOf(m: Mem, d: nat, dirs: seq<nat>, low: nat, high: nat, p: nat, n: nat): (fs: seq<nat>)
    requires RunHeld(m, d, dirs, low, high, p, n)
    ensures |fs| == n
    ensures forall i :: 0 <= i < n ==> Maps(m, d, PG_SIZE * (p + i), fs[i]) && low <= fs[i] < high && fs[i] !in dirs
  {
    if n == 0 then []
    else
      assert PageHeld(m, d, dirs, low, high, p + n - 1);
      FramesOf(m, d, dirs, low, high, p, n - 1) + [Walk(m, d, PG_SIZE * (p + n - 1)).frame]
  }

  lemma {:induction false} FramesHolding(m: Mem, d: nat, dirs: seq<nat>, low: nat, high: nat, p: nat, n: nat)
    requires RunHeld(m, d, dirs, low, high, p, n)
    ensures Holding(m, d, dirs, PG_SIZE * p, FramesOf(m, d, dirs, low, high, p, n), low, high)
  {
    forall i: nat | i < n ensures PG_SIZE * p + PG_SIZE * i == PG_SIZE * (p + i) {
    }
  }

  // ---------- the page layer under an allocator ----------

  /** The first frame of a pool, and the one behind its last. */
  function Low(pools: Pools, p: PoolId): nat { pools.Start(p) }
  function High(pools: Pools, p: PoolId): nat { pools.Start(p) + |pools.Of(p)| }

  /** The page layer is in order, and holds the pages of the arenas. */
  ghost predicate Stands(m: Mem, d: nat, cache: seq<nat>, homes: seq<nat>, dirs: seq<nat>, pools: Pools, marks: Marks,
                         userBase: nat, p: PoolId, arenas: map<nat, ArenaSpec.Header>) {
    && Good(m, d, cache, homes, dirs, pools) && Spaces(m, d, marks, userBase)
    && Backed(m, d, dirs, Low(pools, p), High(pools, p), arenas)
  }

  ghost predicate Standing(l: Layer, p: PoolId, arenas: map<nat, ArenaSpec.Header>)
    reads l
  {
    // The quantifier keeps the solver from unfolding what is only passed on.
    forall a :: a == arenas ==> Stands(l.mem, l.cr3, l.cache, l.homes, l.dirs, l.pools, l.pages, l.userBase, p, a)
  }

  /** No arena overlaps a run of pages. */
  ghost predicate Beside(arenas: map<nat, ArenaSpec.Header>, p: nat, n: nat) {
    forall q <- arenas :: q + ArenaSpec.Span(arenas[q]) <= p || p + n <= q
  }

  lemma {:induction false} NothingGiven(m: Mem, d: nat, cache: seq<nat>, homes: seq<nat>, dirs: seq<nat>, pools: Pools,
                                        p: PoolId, v: nat)
    requires Good(m, d, cache, homes, dirs, pools)
    ensures Given(m, m, d, cache, homes, dirs, pools, pools, p, v, [], [])
  {
    NoneGiven(pools, p);
    StartRun(m, Elements(dirs), d, v);
  }

  /** The pages of the arenas stay, and those of the run are held as far as they are mapped. */
  lemma {:induction false} RunGiven(m: Mem, m': Mem, d: nat, cache: seq<nat>, homes: seq<nat>, dirs: seq<nat>,
                                    pools: Pools, pools': Pools, p: PoolId, v: nat, fs: seq<nat>, ts: seq<nat>, n: nat,
                                    arenas: map<nat, ArenaSpec.Header>)
    requires Given(m, m', d, cache, homes, dirs, pools, pools', p, v, fs, ts)
    requires forall f <- pools.Free() :: Idle(m, Elements(dirs), f)
    requires v % PG_SIZE == 0 && |fs| <= n && Page(v) + n <= WINDOW * 1024 && Beside(arenas, Page(v), n)
    requires Backed(m, d, dirs, Low(pools, p), High(pools, p), arenas)
    ensures Backed(m', d, dirs, Low(pools', p), High(pools', p), arenas)
    ensures RunHeld(m', d, dirs, Low(pools', p), High(pools', p), Page(v), |fs|)
  {
    var low, high := Low(pools, p), High(pools, p);
    assert Gave(m, m', d, dirs, pools, pools', p, v, fs, ts);
    assert Low(pools', p) == low && High(pools', p) == high;
    GrantHolds(m, m', dirs, d, v, fs, ts, pools.Free(), pools'.Free(), low, high);
    HoldingHeld(m', d, dirs, low, high, v, fs);
    forall q | q in arenas ensures RunHeld(m', d, dirs, low, high, q, ArenaSpec.Span(arenas[q])) {
      HeldAfter(m, m', d, dirs, low, high, v, fs, q, ArenaSpec.Span(arenas[q]));
    }
  }

  /** The pages of the other arenas stay when a run goes. */
  lemma {:induction false} RunGone(m: Mem, m': Mem, d: nat, dirs: seq<nat>, low: nat, high: nat, v: nat, n: nat,
                                   arenas: map<nat, ArenaSpec.Header>)
    requires Backed(m, d, dirs, low, high, arenas) && d in dirs && Gone(m, m', Elements(dirs), d, v, n)
    requires Beside(arenas, Page(v), n)
    ensures Backed(m', d, dirs, low, high, arenas)
  {
    forall q | q in arenas ensures RunHeld(m', d, dirs, low, high, q, ArenaSpec.Span(arenas[q])) {
      HeldWithout(m, m', d, dirs, low, high, v, n, q, ArenaSpec.Span(arenas[q]));
    }
  }

  /** `malloc_page` as an allocator uses it. */
  method TakeRun(l: Layer, p: PoolId, n: nat, ghost arenas: map<nat, ArenaSpec.Header>)
    returns (g: Grant, ghost v: nat, ghost fs: seq<nat>, ghost ts: seq<nat>)
    requires Standing(l, p, arenas) && 0 < n < 3840
    requires forall k :: ClearRun(l.pages.Of(p), k, n) ==> Beside(arenas, BaseOf(l.userBase, p) + k, n)
    modifies l`mem, l`cache, l`pools, l`pages
    ensures g == Granted(v) || !g.Granted?
    ensures !g.Wild? ==> Standing(l, p, arenas)
    ensures !g.NoAddress? ==> Marking(old(l.pages), l.pages, p, BaseOf(l.userBase, p), v, n)
    ensures g.NoAddress? ==> l.pages == old(l.pages)
    ensures g.Granted? ==> RunHeld(l.mem, l.cr3, l.dirs, Low(l.pools, p), High(l.pools, p), Page(v), n)
    ensures !g.Wild? ==> Gave(old(l.mem), l.mem, l.cr3, l.dirs, old(l.pools), l.pools, p, v, fs, ts)
    ensures !g.Wild? ==> |fs| <= n && (|fs| == n <==> g.Granted?)
    ensures g.NoAddress? <==> BitmapScan.NoneFound(old(l.pages).Of(p), n)
    ensures g.NoFrame? ==> Full(l.pools.Of(p))
    ensures g.Wild? ==> WildAt(old(l.mem), l.cr3, l.homes, l.dirs, old(l.pools), p, v, fs, ts)
  {
    ghost var m, cache, pools, was := l.mem, l.cache, l.pools, l.pages;
    assert Stands(l.mem, l.cr3, l.cache, l.homes, l.dirs, l.pools, l.pages, l.userBase, p, arenas);
    g, v, fs, ts := MallocPage(l, p, n);
    if g.Wild? {
      return;
    }
    if g.NoAddress? || g.Panic? {
      fs, ts := [], [];
      NothingGiven(m, l.cr3, l.cache, l.homes, l.dirs, pools, p, v);
    }
    if !g.NoAddress? {
      assert SpaceOk(m, l.cr3, was, l.userBase, p);
      RunGiven(m, l.mem, l.cr3, l.cache, l.homes, l.dirs, pools, l.pools, p, v, fs, ts, n, arenas);
    }
  }

  /** What `mfree_page` has done with the `n` pages from page number `q` on, which led to the frames `fs`. */
  ghost predicate Returned(m: Mem, m': Mem, d: nat, dirs: seq<nat>, pools: Pools, pools': Pools, q: nat, fs: seq<nat>) {
    && Gone(m, m', Elements(dirs), d, PG_SIZE * q, |fs|) && pools'.Free() == pools.Free() + Listed(fs)
    && forall i :: 0 <= i < |fs| ==> Maps(m, d, PG_SIZE * (q + i), fs[i])
  }

  lemma {:induction false} StandingGood(l: Layer, p: PoolId, arenas: map<nat, ArenaSpec.Header>)
    requires Standing(l, p, arenas)
    ensures l.Valid() && Spaces(l.mem, l.cr3, l.pages, l.userBase)
    ensures Backed(l.mem, l.cr3, l.dirs, Low(l.pools, p), High(l.pools, p), arenas)
  {
    assert Stands(l.mem, l.cr3, l.cache, l.homes, l.dirs, l.pools, l.pages, l.userBase, p, arenas);
  }

  /** `mfree_page` as an allocator uses it; the arenas that are left lie beside the run. */
  method ReturnRun(l: Layer, p: PoolId, q: nat, n: nat, ghost rest: map<nat, ArenaSpec.Header>)
    returns (ghost fs: seq<nat>)
    requires Standing(l, p, rest) && n >= 1 && RunHeld(l.mem, l.cr3, l.dirs, Low(l.pools, p), High(l.pools, p), q, n)
    requires BaseOf(l.userBase, p) <= q && q - BaseOf(l.userBase, p) + n <= |l.pages.Of(p)| && Beside(rest, q, n)
    modifies l`mem, l`pools, l`pages
    ensures Standing(l, p, rest) && |fs| == n
    ensures Returned(old(l.mem), l.mem, l.cr3, l.dirs, old(l.pools), l.pools, q, fs)
    ensures Unmarked(old(l.pages), l.pages, p, BaseOf(l.userBase, p), q, n)
  {
    ghost var m, pools, was := l.mem, l.pools, l.pages;
    StandingGood(l, p, rest);
    fs := FramesOf(m, l.cr3, l.dirs, Low(pools, p), High(pools, p), q, n);
    FramesHolding(m, l.cr3, l.dirs, Low(pools, p), High(pools, p), q, n);
    AtPage(q);
    MfreePage(l, p, PG_SIZE * q, n, fs);
    RunReturned(m, l.mem, l.cr3, l.cache, l.homes, l.dirs, pools, l.pools, was, l.pages, l.userBase, p, q, fs, rest);
  }

  lemma {:induction false} RunReturned(m: Mem, m': Mem, d: nat, cache: seq<nat>, homes: seq<nat>, dirs: seq<nat>,
                                       pools: Pools, pools': Pools, was: Marks, now: Marks, userBase: nat, p: PoolId,
                                       q: nat, fs: seq<nat>, rest: map<nat, ArenaSpec.Header>)
    requires Backed(m, d, dirs, Low(pools, p), High(pools, p), rest) && Beside(rest, q, |fs|)
    requires forall i :: 0 <= i < |fs| ==> Maps(m, d, PG_SIZE * (q + i), fs[i])
    requires Unmapped(m, m', d, cache, homes, dirs, pools, pools', was, now, userBase, p, PG_SIZE * q, fs)
    ensures Stands(m', d, cache, homes, dirs, pools', now, userBase, p, rest)
    ensures Returned(m, m', d, dirs, pools, pools', q, fs) && Unmarked(was, now, p, BaseOf(userBase, p), q, |fs|)
  {
    AtPage(q);
    assert Low(pools', p) == Low(pools, p) && High(pools', p) == High(pools, p);
    RunGone(m, m', d, dirs, Low(pools, p), High(pools, p), PG_SIZE * q, |fs|, rest);
  }

  /** Another arena over pages that are held. */
  lemma {:induction false} StandingMore(l: Layer, p: PoolId, arenas: map<nat, ArenaSpec.Header>, q: nat,
                                        a: ArenaSpec.Header)
    requires Standing(l, p, arenas)
    requires RunHeld(l.mem, l.cr3, l.dirs, Low(l.pools, p), High(l.pools, p), q, ArenaSpec.Span(a))
    ensures Standing(l, p, arenas[q := a])
  {
    assert Stands(l.mem, l.cr3, l.cache, l.homes, l.dirs, l.pools, l.pages, l.userBase, p, arenas);
  }

  /** Headers may change, but not where arenas are and how long. */
  predicate SameSpans(arenas: map<nat, ArenaSpec.Header>, arenas': map<nat, ArenaSpec.Header>) {
    arenas'.Keys == arenas.Keys && forall q <- arenas :: ArenaSpec.Span(arenas'[q]) == ArenaSpec.Span(arenas[q])
  }

  lemma {:induction false} StandingSpans(l: Layer, p: PoolId, arenas: map<nat, ArenaSpec.Header>,
                                         arenas': map<nat, ArenaSpec.Header>)
    requires Standing(l, p, arenas) && SameSpans(arenas, arenas')
    ensures Standing(l, p, arenas')
  {
    assert Stands(l.mem, l.cr3, l.cache, l.homes, l.dirs, l.pools, l.pages, l.userBase, p, arenas);
  }

  lemma {:induction false} StandingLess(l: Layer, p: PoolId, arenas: map<nat, ArenaSpec.Header>, q: nat)
    requires Standing(l, p, arenas) && q in arenas
    ensures Standing(l, p, arenas - {q})
    ensures RunHeld(l.mem, l.cr3, l.dirs, Low(l.pools, p), High(l.pools, p), q, ArenaSpec.Span(arenas[q]))
  {
    assert Stands(l.mem, l.cr3, l.cache, l.homes, l.dirs, l.pools, l.pages, l.userBase, p, arenas);
  }

  /** What has to be known of the page layer before a run is given: pages that are not marked are not mapped. */
  ghost predicate Known(m: Mem, d: nat, dirs: seq<nat>, cache: seq<nat>, pages: seq<bool>, base: nat) {
    d in dirs && Coherent(m, Elements(dirs), cache) && base + |pages| <= WINDOW * 1024 && Marked(m, d, pages, base)
  }

  /** A page layer in order is such. */
  lemma {:induction false} StandingKnown(l: Layer, p: PoolId, arenas: map<nat, ArenaSpec.Header>)
    requires Standing(l, p, arenas)
    ensures Known(l.mem, l.cr3, l.dirs, l.cache, l.pages.Of(p), BaseOf(l.userBase, p))
  {
    assert Stands(l.mem, l.cr3, l.cache, l.homes, l.dirs, l.pools, l.pages, l.userBase, p, arenas);
    assert SpaceOk(l.mem, l.cr3, l.pages, l.userBase, p);
  }

  /** A run that is given and then returned: every address space is as it was, and only page tables are gone. */
  lemma {:induction false} GivenReturned(m: Mem, m1: Mem, m2: Mem, d: nat, cache: seq<nat>, dirs: seq<nat>,
                                         pools: Pools, pools1: Pools, pools2: Pools, pages: seq<bool>, base: nat,
                                         p: PoolId, q: nat, fs: seq<nat>, ts: seq<nat>, back: seq<nat>)
    requires Known(m, d, dirs, cache, pages, base) && base <= q && ClearRun(pages, q - base, |fs|)
    requires Gave(m, m1, d, dirs, pools, pools1, p, PG_SIZE * q, fs, ts)
    requires Returned(m1, m2, d, dirs, pools1, pools2, q, back) && |back| == |fs|
    ensures SameWalks(m, m2, Elements(dirs)) && pools2.Free() == pools.Free() - Listed(ts)
  {
    AtPage(q);
    SameRun(m, m1, d, dirs, q, fs, back);
    forall e, a: nat | e in Elements(dirs) && a < TWO32 && Pdi(a) < WINDOW && q <= Page(a) < q + |fs|
      && Shows(d, e, Pdi(a))
      ensures Walk(m, e, a) == Fault
    {
      assert !pages[Page(a) - base];
      if e != d { KernelSame(m, Elements(dirs), cache, d, e, a); }
    }
    MappedAndGone(m, m1, m2, Elements(dirs), d, PG_SIZE * q, fs);
    FreeAgain(pools.Free(), pools1.Free(), fs, ts, Low(pools, p), High(pools, p));
  }

  lemma {:induction false} FreeAgain(free: iset<nat>, free1: iset<nat>, fs: seq<nat>, ts: seq<nat>, low: nat, high: nat)
    requires Accounts(free, free1, fs, ts, low, high)
    ensures free1 + Listed(fs) == free - Listed(ts)
  {
    assert forall t <- ts :: t !in fs;
  }

  /** The frames that come back are those that were given. */
  lemma {:induction false} SameRun(m: Mem, m1: Mem, d: nat, dirs: seq<nat>, q: nat, fs: seq<nat>, back: seq<nat>)
    requires Pages(m, m1, Elements(dirs), d, PG_SIZE * q, fs) && d in dirs && |back| == |fs|
    requires forall i :: 0 <= i < |back| ==> Maps(m1, d, PG_SIZE * (q + i), back[i])
    ensures back == fs
  {
    AtPage(q);
    forall i | 0 <= i < |fs| ensures back[i] == fs[i] {
      AtPage(q + i);
      assert Maps(m1, d, PG_SIZE * (q + i), back[i]);
    }
  }

  /** The run of an arena, or none, given and then returned. */
  lemma {:induction false} RunBack(m: Mem, m1: Mem, m2: Mem, d: nat, cache: seq<nat>, dirs: seq<nat>, pools: Pools,
                                   pools1: Pools, pools2: Pools, pages: seq<bool>, base: nat, p: PoolId, v: nat, q: nat,
                                   fs: seq<nat>, ts: seq<nat>, back: seq<nat>)
    requires Known(m, d, dirs, cache, pages, base) && |back| == |fs|
    requires fs != [] ==> v == PG_SIZE * q && base <= q && ClearRun(pages, q - base, |fs|)
    requires Gave(m, m1, d, dirs, pools, pools1, p, v, fs, ts) && Returned(m1, m2, d, dirs, pools1, pools2, q, back)
    ensures SameWalks(m, m2, Elements(dirs)) && pools2.Free() == pools.Free() - Listed(ts)
  {
    if fs == [] {
      FreeAgain(pools.Free(), pools1.Free(), [], ts, Low(pools, p), High(pools, p));
    } else {
      GivenReturned(m, m1, m2, d, cache, dirs, pools, pools1, pools2, pages, base, p, q, fs, ts, back);
    }
  }
}
