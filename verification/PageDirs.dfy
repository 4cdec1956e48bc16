/**
 New page directories (code/userprog/process.c: `create_page_dir`) and the pools (code/kernel/memory.c:
 `mem_pool_init`).
 */
module PageDirs {
  import opened Common
  import opened Paging
  import opened PageLayer
  import opened PageAlloc
  import opened BitSpec
  import BitmapScan

  /** `w |= PG_US_U` for a present entry. */
  function ForUser(w: nat): nat { if Present(w) && w / 4 % 2 == 0 then w + 4 else w }

  /**
   What `create_page_dir` writes: no user half, the kernel half of another directory opened to user mode, and itself.
   */
  ghost predicate Filled(row: Row, from: Row, f: nat) {
    && (forall i :: 0 <= i < KERNEL_FIRST ==> row[i] == 0)
    && (forall i :: KERNEL_FIRST <= i < WINDOW ==> row[i] == ForUser(from[i]))
    && row[WINDOW] == Entry(f)
  }

  /** A new directory: no user half, the kernel half of another directory, and itself. */
  ghost predicate IsNewDir(row: Row, from: Row, f: nat) {
    && (forall i :: 0 <= i < KERNEL_FIRST ==> row[i] == 0)
    && (forall i :: KERNEL_FIRST <= i < WINDOW ==> row[i] == from[i])
    && row[WINDOW] == Entry(f)
  }

  /** `create_page_dir` after it has its page. */
  method FillDir(from: Row, f: nat) returns (row: Row)
    ensures Filled(row, from, f)
  {
    row := Empty()[..768] + from[768..];
    var i := 768;
    while i < 1023
      invariant 768 <= i <= 1023
      invariant forall j :: 0 <= j < KERNEL_FIRST ==> row[j] == 0
      invariant forall j :: KERNEL_FIRST <= j < WINDOW ==> row[j] == if j < i then ForUser(from[j]) else from[j]
    {
      if row[i] % 2 == 1 {
        row := row[i := ForUser(row[i])];
      }
      i := i + 1;
    }
    row := row[1023 := Entry(f)];
  }

  /** Where the kernel half is open to user mode already, it is taken over as it is. */
  lemma {:induction false} FilledIsNewDir(m: Mem, dirs: set<nat>, cache: seq<nat>, d: nat, row: Row, f: nat)
    requires Coherent(m, dirs, cache) && d in dirs && Filled(row, Frame(m, d), f)
    ensures IsNewDir(row, Frame(m, d), f)
  {
    forall i | KERNEL_FIRST <= i < WINDOW ensures row[i] == Frame(m, d)[i] {
      assert Frame(m, d)[i] == Load(m, d, i);
    }
  }

  /** The walks in the new address space and in the old ones. */
  lemma {:induction false} NewDirWalk(m: Mem, dirs: set<nat>, cache: seq<nat>, pool: iset<nat>, d: nat, v: nat, f: nat,
                                      row: Row, e: nat, a: nat)
    requires Tables(m, dirs) && Coherent(m, dirs, cache) && Sole(m, dirs, pool) && d in dirs && Maps(m, d, v, f)
    requires f in pool && f !in dirs
    requires IsNewDir(row, Frame(m, d), f) && a < TWO32 && Pdi(a) < WINDOW
    ensures e in dirs ==> Walk(m[f := row], e, a) == Walk(m, e, a)
    ensures Walk(m[f := row], f, a) == if Pdi(a) >= KERNEL_FIRST then Walk(m, d, a) else Fault
  {
    var m' := m[f := row];
    assert forall x, i :: x in dirs && 0 <= i < WINDOW ==> !HasTable(m, x, i, f);
    if e in dirs && Present(Load(m, e, Pdi(a))) {
      assert HasTable(m, e, Pdi(a), Load(m, e, Pdi(a)) / PG_SIZE);
    }
    if Pdi(a) >= KERNEL_FIRST && Present(Load(m, d, Pdi(a))) {
      assert HasTable(m, d, Pdi(a), Load(m, d, Pdi(a)) / PG_SIZE);
    }
  }

  /**
   The tables of directory `f` in `m'` are those of the kernel half of `d` in `m`; the other directories have theirs,
   and `f` is no table.
   */
  ghost predicate Inherits(m: Mem, m': Mem, dirs: set<nat>, d: nat, f: nat) {
    && (forall e, i, t :: e in dirs && 0 <= i < WINDOW ==> HasTable(m', e, i, t) == HasTable(m, e, i, t))
    && (forall i, t :: 0 <= i < WINDOW ==> HasTable(m', f, i, t) == (i >= KERNEL_FIRST && HasTable(m, d, i, t)))
    && (forall e, i :: e in dirs && 0 <= i < WINDOW ==> !HasTable(m, e, i, f))
  }

  lemma {:induction false} NewDirInherits(m: Mem, dirs: set<nat>, pool: iset<nat>, d: nat, v: nat, f: nat, row: Row)
    requires Sole(m, dirs, pool) && d in dirs && Maps(m, d, v, f) && f in pool && f !in dirs
    requires IsNewDir(row, Frame(m, d), f)
    ensures Inherits(m, m[f := row], dirs, d, f)
    ensures forall e, i :: e in dirs && 0 <= i < 1024 ==> Load(m[f := row], e, i) == Load(m, e, i)
  {
    var m' := m[f := row];
    assert forall x, i :: x in dirs && 0 <= i < 1024 ==> Load(m', x, i) == Load(m, x, i);
  }

  lemma {:induction false} NewDirTables(m: Mem, m': Mem, dirs: set<nat>, cache: seq<nat>, d: nat, f: nat)
    requires Tables(m, dirs) && d in dirs && f !in dirs && Inherits(m, m', dirs, d, f)
    requires SelfMapped(m', f) && forall e :: e in dirs ==> SelfMapped(m', e)
    ensures Tables(m', dirs + {f})
  {
    forall e, i, t | e in dirs + {f} && 0 <= i < WINDOW && HasTable(m', e, i, t) ensures t !in dirs + {f} {
      assert e == f ==> HasTable(m, d, i, t);
    }
    forall e, i, e', j, t | e in dirs + {f} && 0 <= i < WINDOW && HasTable(m', e, i, t) && e' in dirs + {f}
      && 0 <= j < WINDOW && HasTable(m', e', j, t)
      ensures i == j && (e == e' || i >= KERNEL_FIRST)
    {
      assert e == f ==> i >= KERNEL_FIRST && HasTable(m, d, i, t);
      assert e' == f ==> j >= KERNEL_FIRST && HasTable(m, d, j, t);
    }
  }

  lemma {:induction false} NewDirCoherent(m: Mem, dirs: set<nat>, cache: seq<nat>, d: nat, f: nat, row: Row)
    requires Coherent(m, dirs, cache) && d in dirs && f !in dirs && IsNewDir(row, Frame(m, d), f)
    ensures Coherent(m[f := row], dirs + {f}, cache)
  {
    var m' := m[f := row];
    forall e, i | e in dirs + {f} && KERNEL_FIRST <= i < WINDOW
      ensures Load(m', e, i) == cache[i - KERNEL_FIRST]
    {
      assert Load(m', e, i) == if e == f then Load(m, d, i) else Load(m, e, i);
    }
    EntryParts(f);
    forall e, i | e in dirs + {f} && 0 <= i < 1024 && Present(Load(m', e, i)) ensures RightsIn(Load(m', e, i)) == ALL {
      if e == f {
        assert Load(m', f, i) == row[i] && Load(m, d, i) == Frame(m, d)[i];
      } else {
        assert Load(m', e, i) == Load(m, e, i);
      }
    }
  }

  /**
   The pages seen from directory `f` in `m'` are those of the kernel half of `d` in `m`; the other directories see what
   they saw.
   */
  ghost predicate Sees(m: Mem, m': Mem, dirs: set<nat>, d: nat, f: nat) {
    && (forall e, a, g :: e in dirs ==> Maps(m', e, a, g) == Maps(m, e, a, g))
    && (forall a, g :: Maps(m', f, a, g) == (Maps(m, d, a, g) && Pdi(a) >= KERNEL_FIRST))
  }

  lemma {:induction false} NewDirSees(m: Mem, dirs: set<nat>, cache: seq<nat>, pool: iset<nat>, d: nat, v: nat, f: nat,
                                      row: Row)
    requires Tables(m, dirs) && Coherent(m, dirs, cache) && Sole(m, dirs, pool) && d in dirs && Maps(m, d, v, f)
    requires f in pool && f !in dirs
    requires IsNewDir(row, Frame(m, d), f)
    ensures Sees(m, m[f := row], dirs, d, f) && SameWalks(m, m[f := row], dirs)
  {
    forall e, a: nat | a < TWO32 && Pdi(a) < WINDOW
      ensures e in dirs ==> Walk(m[f := row], e, a) == Walk(m, e, a)
      ensures Walk(m[f := row], f, a) == if Pdi(a) >= KERNEL_FIRST then Walk(m, d, a) else Fault
    {
      NewDirWalk(m, dirs, cache, pool, d, v, f, row, e, a);
    }
  }

  lemma {:induction false} NewDirOnePlace(m: Mem, m': Mem, dirs: set<nat>, pool: iset<nat>, d: nat, f: nat)
    requires OnePlace(m, dirs, pool) && d in dirs && f !in dirs && Sees(m, m', dirs, d, f)
    ensures OnePlace(m', dirs + {f}, pool)
  {
    var D := dirs + {f};
    forall e, a, e', b, g | e in D && e' in D && g in pool && Maps(m', e, a, g) && Maps(m', e', b, g)
      ensures Page(a) == Page(b) && (e == e' || Pdi(a) >= KERNEL_FIRST)
    {
      NewDirPair(m, m', dirs, pool, d, f, e, a, e', b, g);
    }
  }

  lemma {:induction false} NewDirNotTables(m: Mem, m': Mem, dirs: set<nat>, pool: iset<nat>, d: nat, f: nat)
    requires NotTables(m, dirs, pool) && d in dirs && f !in dirs && Sees(m, m', dirs, d, f)
    requires Inherits(m, m', dirs, d, f)
    ensures NotTables(m', dirs + {f}, pool)
  {
    var D := dirs + {f};
    forall e, a, e', i, g | e in D && e' in D && g in pool && 0 <= i < WINDOW && Maps(m', e, a, g)
      ensures !HasTable(m', e', i, g)
    {
      NewDirNoTable(m, m', dirs, pool, d, f, e, a, e', i, g);
    }
  }

  lemma {:induction false} NewDirNoTable(m: Mem, m': Mem, dirs: set<nat>, pool: iset<nat>, d: nat, f: nat, e: nat,
                                         a: nat, e': nat, i: nat, g: nat)
    requires NotTables(m, dirs, pool) && d in dirs && f !in dirs && Sees(m, m', dirs, d, f)
    requires Inherits(m, m', dirs, d, f)
    requires e in dirs + {f} && e' in dirs + {f} && g in pool && i < WINDOW && Maps(m', e, a, g)
    ensures !HasTable(m', e', i, g)
  {
    var x, y := if e == f then d else e, if e' == f then d else e';
    assert Maps(m, x, a, g) && !HasTable(m, y, i, g);
  }

  lemma {:induction false} NewDirPair(m: Mem, m': Mem, dirs: set<nat>, pool: iset<nat>, d: nat, f: nat, e: nat, a: nat,
                                      e': nat, b: nat, g: nat)
    requires OnePlace(m, dirs, pool) && d in dirs && f !in dirs && Sees(m, m', dirs, d, f)
    requires e in dirs + {f} && e' in dirs + {f} && g in pool && Maps(m', e, a, g) && Maps(m', e', b, g)
    ensures Page(a) == Page(b) && (e == e' || Pdi(a) >= KERNEL_FIRST)
  {
    var x, y := if e == f then d else e, if e' == f then d else e';
    assert Maps(m, x, a, g) && Maps(m, y, b, g);
    SamePage(a, b);
  }

  lemma {:induction false} NewDirIdle(m: Mem, m': Mem, dirs: set<nat>, d: nat, f: nat, g: nat)
    requires Idle(m, dirs, g) && g != f && d in dirs && Sees(m, m', dirs, d, f) && Inherits(m, m', dirs, d, f)
    ensures Idle(m', dirs + {f}, g)
  {
  }

  /**
   The page layer `m'` has a directory more than `m` had, frame `f` mapped at `v`; the other address spaces are as they
   were.
   */
  ghost predicate WithDir(m: Mem, m': Mem, d: nat, cache: seq<nat>, homes: seq<nat>, homes': seq<nat>, dirs: seq<nat>,
                          dirs': seq<nat>, pools: Pools, v: nat, f: nat) {
    && Good(m', d, cache, homes', dirs', pools) && SameWalks(m, m', Elements(dirs)) && homes' == homes + [v]
    && dirs' == dirs + [f]
  }

  lemma {:induction false} NewDirState(m: Mem, m': Mem, D: set<nat>, cache: seq<nat>, pool: iset<nat>, free: iset<nat>,
                                       d: nat, v: nat, f: nat, row: Row)
    requires State(m, D, cache, pool, free) && d in D && Maps(m, d, v, f) && f in pool && f !in D
    requires IsNewDir(row, Frame(m, d), f) && m' == m[f := row]
    ensures State(m', D + {f}, cache, pool, free) && SameWalks(m, m', D)
  {
    NewDirInherits(m, D, pool, d, v, f, row);
    NewDirSees(m, D, cache, pool, d, v, f, row);
    EntryParts(f);
    NewDirTables(m, m', D, cache, d, f);
    NewDirCoherent(m, D, cache, d, f, row);
    NewDirOnePlace(m, m', D, pool, d, f);
    NewDirNotTables(m, m', D, pool, d, f);
    forall g | g in free ensures Idle(m', D + {f}, g) {
      assert Idle(m, D, g) && !Maps(m, d, v, g);
      NewDirIdle(m, m', D, d, f, g);
    }
  }

  /**
   A filled-in directory joins the page layer: its kernel half agrees with the others, and no page changes elsewhere.
   */
  lemma {:induction false} NewDir(m: Mem, m': Mem, d: nat, cache: seq<nat>, homes: seq<nat>, homes': seq<nat>,
                                  dirs: seq<nat>, dirs': seq<nat>, pools: Pools, v: nat, f: nat, row: Row)
    requires Good(m, d, cache, homes, dirs, pools) && KernelHome(m, d, dirs, pools, v, f)
    requires IsNewDir(row, Frame(m, d), f) && m' == m[f := row] && homes' == homes + [v] && dirs' == dirs + [f]
    ensures WithDir(m, m', d, cache, homes, homes', dirs, dirs', pools, v, f)
  {
    assert Elements(dirs') == Elements(dirs) + {f};
    NewDirState(m, m', Elements(dirs), cache, pools.All(), pools.Free(), d, v, f, row);
    NewDirHomes(m, m', d, homes, homes', dirs, dirs', v, f);
  }

  lemma {:induction false} NewDirHomes(m: Mem, m': Mem, d: nat, homes: seq<nat>, homes': seq<nat>, dirs: seq<nat>,
                                       dirs': seq<nat>, v: nat, f: nat)
    requires |homes| == |dirs| && AtHome(m, d, homes, dirs) && d in dirs && SameWalks(m, m', Elements(dirs))
    requires v % PG_SIZE == 0 && Pdi(v) >= KERNEL_FIRST && Maps(m, d, v, f) && Walk(m, d, v).rights == ALL
    requires homes' == homes + [v] && dirs' == dirs + [f]
    ensures AtHome(m', d, homes', dirs')
  {
    forall k | 0 <= k < |homes| + 1 ensures Home(m', d, homes'[k], dirs'[k]) {
      assert k < |homes| ==> Home(m, d, homes[k], dirs[k]);
    }
  }

  /** What a fresh kernel page is good for: a directory of its own. */
  lemma {:induction false} FreshPage(m: Mem, m': Mem, d: nat, cache: seq<nat>, cache': seq<nat>, homes: seq<nat>,
                                     dirs: seq<nat>, pools: Pools, pools': Pools, was: Marks, now: Marks, userBase: nat,
                                     v: nat, f: nat, ts: seq<nat>)
    requires Good(m, d, cache, homes, dirs, pools) && Spaces(m, d, was, userBase)
    requires Marking(was, now, Kernel, BaseOf(userBase, Kernel), v, 1)
    requires Given(m, m', d, cache', homes, dirs, pools, pools', Kernel, v, [f], ts)
    ensures KernelHome(m', d, dirs, pools', v, f) && Pages(m, m', Elements(dirs), d, v, [f])
  {
    HalfOf(v);
    assert SpaceOk(m, d, was, userBase, Kernel);
    assert Gave(m, m', d, dirs, pools, pools', Kernel, v, [f], ts) && f in [f];
    assert InPool(pools'.Of(Kernel), pools'.Start(Kernel), f);
  }

  /**
   The answer to `get_kernel_pages(1)`: whether there is an address `v`, and whether its page table is frame 0 again.
   */
  ghost predicate OnePageAsked(m: Mem, d: nat, dirs: seq<nat>, pools: Pools, was: Marks, now: Marks, userBase: nat,
                               g: Grant, v: nat) {
    // The quantifier keeps the solver from unfolding what is only passed on.
    forall a :: a == v ==>
      && (g.NoAddress? <==> BitmapScan.NoneFound(was.Of(Kernel), 1))
      && (!g.NoAddress? ==>
           && Marking(was, now, Kernel, BaseOf(userBase, Kernel), a, 1) && a < TWO32
           && (g.Wild? <==> GoesWild(m, d, Elements(dirs), pools, Kernel, a)))
  }

  /** Frame `f` of the pools, no directory, is the page of the kernel half at `v`. */
  ghost predicate KernelHome(m: Mem, d: nat, dirs: seq<nat>, pools: Pools, v: nat, f: nat) {
    && v % PG_SIZE == 0 && Pdi(v) >= KERNEL_FIRST && Maps(m, d, v, f) && Walk(m, d, v).rights == ALL
    && f in pools.All() && f !in dirs
  }

  /** The frame of the current directory, through the window. */
  method CurrentDir(l: Layer) returns (row: Row)
    requires SelfMapped(l.mem, l.cr3)
    ensures row == Frame(l.mem, l.cr3)
  {
    PdeWalk(l.mem, l.cr3, 0);
    row := Frame(l.mem, Walk(l.mem, l.cr3, 0xffff_f000).frame);
  }

  /**
   `create_page_dir`: a page of the kernel heap becomes a directory that maps itself and shares the kernel half. Without
   a page, the directories stay as they are. `Wild` is the case in which the page makes frame 0 a page table twice.
   */
  method CreatePageDir(l: Layer) returns (g: Grant, ghost f: nat, ghost v: nat)
    requires l.Valid() && Spaces(l.mem, l.cr3, l.pages, l.userBase)
    modifies l
    ensures l.cr3 == old(l.cr3)
    ensures !g.Wild? ==> l.Valid() && Spaces(l.mem, l.cr3, l.pages, l.userBase)
    ensures g.Granted? ==> l.homes == old(l.homes) + [g.v] && l.dirs == old(l.dirs) + [f]
    ensures g.Granted? ==> Pages(old(l.mem), l.mem, Elements(old(l.dirs)), l.cr3, g.v, [f])
    ensures !g.Granted? ==> l.homes == old(l.homes) && l.dirs == old(l.dirs)
    ensures g.Wild? || g.NoFrame? ==> Full(l.pools.Of(Kernel))
    ensures OnePageAsked(old(l.mem), l.cr3, old(l.dirs), old(l.pools), old(l.pages), l.pages, l.userBase, g, v)
  {
    ghost var m := l.mem;
    g, f, v := KernelPage(l);
    if !g.Granted? {
      return;
    }
    ghost var m1, cache1, homes, dirs := l.mem, l.cache, l.homes, l.dirs;
    assert Good(m1, l.cr3, cache1, homes, dirs, l.pools);
    AddDir(l, g.v, f);
    DirAdded(m, m1, l.mem, l.cr3, l.cache, homes, l.homes, dirs, l.dirs, l.pools, l.pages, l.userBase, g.v, f);
  }

  /** The other address spaces with the new directory. */
  lemma {:induction false} DirAdded(m: Mem, m1: Mem, m2: Mem, d: nat, cache: seq<nat>, homes: seq<nat>,
                                    homes': seq<nat>, dirs: seq<nat>, dirs': seq<nat>, pools: Pools, marks: Marks,
                                    userBase: nat, v: nat, f: nat)
    requires WithDir(m1, m2, d, cache, homes, homes', dirs, dirs', pools, v, f) && d in dirs
    requires Spaces(m1, d, marks, userBase) && Pages(m, m1, Elements(dirs), d, v, [f])
    ensures Spaces(m2, d, marks, userBase) && Pages(m, m2, Elements(dirs), d, v, [f])
  {
    SpacesSame(m1, m2, Elements(dirs), d, marks, userBase);
    PagesSame(m, m1, m2, Elements(dirs), d, v, [f]);
  }

  /** `get_kernel_pages(1)` */
  method KernelPage(l: Layer) returns (g: Grant, ghost f: nat, ghost v: nat)
    requires l.Valid() && Spaces(l.mem, l.cr3, l.pages, l.userBase)
    modifies l`mem, l`cache, l`pools, l`pages
    ensures !g.Wild? ==> l.Valid() && Spaces(l.mem, l.cr3, l.pages, l.userBase)
    ensures g.Granted? ==> Pages(old(l.mem), l.mem, Elements(l.dirs), l.cr3, g.v, [f])
    ensures g.Granted? ==> KernelHome(l.mem, l.cr3, l.dirs, l.pools, g.v, f)
    ensures g.Wild? || g.NoFrame? ==> Full(l.pools.Of(Kernel))
    ensures OnePageAsked(old(l.mem), l.cr3, old(l.dirs), old(l.pools), old(l.pages), l.pages, l.userBase, g, v)
  {
    ghost var m, cache, pools, was := l.mem, l.cache, l.pools, l.pages;
    assert Good(l.mem, l.cr3, l.cache, l.homes, l.dirs, l.pools);
    ghost var fs, ts;
    g, v, fs, ts := MallocPage(l, Kernel, 1);
    f := 0;
    if g.Granted? {
      f := fs[0];
      assert fs == [f];
      FreshPage(m, l.mem, l.cr3, cache, l.cache, l.homes, l.dirs, pools, l.pools, was, l.pages, l.userBase, v, f, ts);
    }
  }

  lemma {:induction false} PagesSame(m: Mem, m1: Mem, m2: Mem, dirs: set<nat>, d: nat, v: nat, fs: seq<nat>)
    requires Pages(m, m1, dirs, d, v, fs) && SameWalks(m1, m2, dirs)
    ensures Pages(m, m2, dirs, d, v, fs)
  {
  }

  /** Fills in the page at `v` and makes it a directory. */
  method AddDir(l: Layer, v: nat, ghost f: nat)
    requires l.Valid() && KernelHome(l.mem, l.cr3, l.dirs, l.pools, v, f)
    modifies l`mem, l`homes, l`dirs
    ensures WithDir(old(l.mem), l.mem, l.cr3, l.cache, old(l.homes), l.homes, old(l.dirs), l.dirs, l.pools, v, f)
  {
    ghost var m, homes, dirs := l.mem, l.homes, l.dirs;
    assert Good(l.mem, l.cr3, l.cache, l.homes, l.dirs, l.pools);
    var a, row := MakeDir(l, v, f);
    l.mem := l.mem[a / PG_SIZE := row];
    l.homes, l.dirs := l.homes + [v], l.dirs + [a / PG_SIZE];
    NewDir(m, l.mem, l.cr3, l.cache, homes, l.homes, dirs, l.dirs, l.pools, v, f, row);
  }

  method MakeDir(l: Layer, v: nat, ghost f: nat) returns (a: nat, row: Row)
    requires SelfMapped(l.mem, l.cr3) && l.cr3 in l.dirs && Coherent(l.mem, Elements(l.dirs), l.cache)
    requires v % PG_SIZE == 0 && Maps(l.mem, l.cr3, v, f)
    ensures a / PG_SIZE == f && IsNewDir(row, Frame(l.mem, l.cr3), f)
  {
    var from := CurrentDir(l);
    a := PhysicalOf(l, v, f);
    row := FillDir(from, a / PG_SIZE);
    FilledIsNewDir(l.mem, Elements(l.dirs), l.cache, l.cr3, row, f);
  }

  lemma {:induction false} SpacesSame(m: Mem, m1: Mem, dirs: set<nat>, d: nat, marks: Marks, userBase: nat)
    requires Spaces(m, d, marks, userBase) && d in dirs && SameWalks(m, m1, dirs)
    ensures Spaces(m1, d, marks, userBase)
  {
    forall p: PoolId ensures SpaceOk(m1, d, marks, userBase, p) {
      assert SpaceOk(m, d, marks, userBase, p);
      SpaceShrunk(m, m1, dirs, d, marks.Of(p), BaseOf(userBase, p), LowOf(p), HighOf(p), 0, 0);
    }
  }

  // ---------- mem_pool_init ----------

  /** Low memory, the page directory and 255 page tables. */
  const USED: nat := 0x20_0000

  function FreeBits(n: nat): seq<bool> { seq(n, _ => false) }

  /**
   The pools for `allMem` bytes of memory; the subtraction is a 32-bit one, the number of pages is kept in 16 bits.
   */
  function PoolInit(allMem: nat): Pools
    requires allMem < TWO32
  {
    var free := (allMem - USED) % TWO32;
    var pages := free / PG_SIZE % 0x1_0000;
    var kernel := pages / 2;
    var user := pages - kernel;
    Pools(USED / PG_SIZE, USED / PG_SIZE + kernel, Marks(FreeBits(kernel / 8 * 8), FreeBits(user / 8 * 8)))
  }

  /**
   The pools never overlap, and stay above used memory; they stay below the end of memory exactly when there is more
   memory than is used.
   */
  lemma {:induction false} PoolInitApart(allMem: nat)
    requires allMem < TWO32
    ensures var p := PoolInit(allMem);
      && p.Apart() && p.kernelStart * PG_SIZE == USED && p.Free() == p.All()
      && ((p.userStart + |p.bits.user|) * PG_SIZE <= allMem <==> USED <= allMem)
  {
    var p := PoolInit(allMem);
    var free := (allMem - USED) % TWO32;
    var pages := free / PG_SIZE % 0x1_0000;
    if USED <= allMem {
      assert free == allMem - USED;
      assert pages <= free / PG_SIZE;
      assert p.userStart + |p.bits.user| <= USED / PG_SIZE + pages;
    }
    forall f: nat ensures f in p.Free() <==> f in p.All() {
    }
  }

  /** The two pools share the free pages equally, but for what does not fill a byte of their bitmaps. */
  lemma {:induction false} PoolInitHalves(allMem: nat)
    requires allMem < TWO32
    ensures var p := PoolInit(allMem);
      |p.bits.kernel| <= |p.bits.user| <= |p.bits.kernel| + 8 && p.userStart < p.kernelStart + |p.bits.kernel| + 8
  {
  }

  /** All but fewer than 16 free pages are in a pool exactly when there are fewer than 65536 of them. */
  lemma {:induction false} PoolInitCovers(allMem: nat)
    requires USED <= allMem < TWO32
    ensures var p := PoolInit(allMem);
      var pages := (allMem - USED) / PG_SIZE;
      pages < |p.bits.kernel| + |p.bits.user| + 16 <==> pages < 0x1_0000
  {
    assert (allMem - USED) % TWO32 == allMem - USED;
  }
}
