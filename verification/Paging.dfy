/**
 Two-level page tables with a directory that maps itself (code/kernel/memory.c; section 4.3 of volume 3A of the Intel
 64 and IA-32 Architectures Software Developer's Manual).

 Addresses are numbers below 2^32 and frames are numbers of 4096-byte pages, so that `x & 0xfffff000` is
 `x - x % 4096` and a table entry is 4096 times a frame plus its flags.
 */
module Paging {
  import opened Common

  const WINDOW: nat := 1023
  const KERNEL_FIRST: nat := 768

  function NoEntries(n: nat): (z: seq<nat>)
    ensures |z| == n && forall i :: 0 <= i < n ==> z[i] == 0
  {
    seq(n, _ => 0)
  }

  /** The words of a frame. */
  type Row = r: seq<nat> | |r| == 1024 witness NoEntries(1024)

  function Empty(): Row { NoEntries(1024) }

  type Mem = map<nat, Row>

  function Frame(m: Mem, f: nat): Row { if f in m then m[f] else Empty() }

  /** Word `i` of frame `f`. */
  function Load(m: Mem, f: nat, i: nat): nat
    requires i < 1024
  {
    Frame(m, f)[i]
  }

  function Store(m: Mem, f: nat, i: nat, w: nat): Mem
    requires i < 1024
  {
    m[f := Frame(m, f)[i := w]]
  }

  // ---------- the walk of the processor ----------

  function Pdi(v: nat): nat { v / 0x40_0000 }
  function Pti(v: nat): nat { v / PG_SIZE % 1024 }
  function Off(v: nat): nat { v % PG_SIZE }
  function Page(v: nat): nat { v / PG_SIZE }

  predicate Present(w: nat) { w % 2 == 1 }

  /** What an entry, or a page, is open to besides reading by the kernel. */
  datatype Rights = Rights(user: bool, write: bool)

  const ALL: Rights := Rights(true, true)

  function RightsIn(w: nat): Rights { Rights(w / 4 % 2 == 1, w / 2 % 2 == 1) }

  /** A right takes both levels. */
  function Both(r: Rights, q: Rights): Rights { Rights(r.user && q.user, r.write && q.write) }

  datatype Place = Fault | At(frame: nat, off: nat, rights: Rights)
  {
    /** The same page at another offset. */
    function Moved(to: nat): Place { if At? then At(frame, to, rights) else Fault }
  }

  /** What the processor finds at virtual address `v` when directory `d` is in force. */
  function Walk(m: Mem, d: nat, v: nat): Place
    requires v < TWO32
  {
    var pde := Load(m, d, Pdi(v));
    if !Present(pde) then Fault
    else
      var pte := Load(m, pde / PG_SIZE, Pti(v));
      if !Present(pte) then Fault else At(pte / PG_SIZE, Off(v), Both(RightsIn(pde), RightsIn(pte)))
  }

  /** The page that entry `w` of a page table leads to, if its directory leaves all rights to it. */
  function Leads(w: nat): Place { if Present(w) then At(w / PG_SIZE, 0, RightsIn(w)) else Fault }

  /** Entry 1023 of a directory leads back to it. */
  predicate SelfMapped(m: Mem, d: nat) { Present(Load(m, d, WINDOW)) && Load(m, d, WINDOW) / PG_SIZE == d }

  /** `pte_ptr` */
  function PtePtr(v: nat): nat { 0xffc0_0000 + (v - v % 0x40_0000) / 1024 + Pti(v) * 4 }

  /** `pde_ptr` */
  function PdePtr(v: nat): nat { 0xffff_f000 + Pdi(v) * 4 }

  lemma {:induction false} PteParts(v: nat)
    requires v < TWO32
    ensures PtePtr(v) < TWO32 && Pdi(PtePtr(v)) == WINDOW && Pti(PtePtr(v)) == Pdi(v) < 1024
    ensures Off(PtePtr(v)) == 4 * Pti(v)
  {
    var i, j := Pdi(v), Pti(v);
    assert v - v % 0x40_0000 == i * 0x40_0000;
    assert PtePtr(v) == 0xffc0_0000 + i * 4096 + j * 4;
    assert PtePtr(v) / PG_SIZE == 1023 * 1024 + i;
  }

  lemma {:induction false} PdeParts(v: nat)
    requires v < TWO32
    ensures PdePtr(v) < TWO32 && Pdi(PdePtr(v)) == WINDOW && Pti(PdePtr(v)) == WINDOW && Off(PdePtr(v)) == 4 * Pdi(v)
  {
    assert PdePtr(v) / PG_SIZE == 1023 * 1024 + 1023;
  }

  /** Through the window, `pte_ptr` reaches the page table entry of `v` exactly when `v` has a page table. */
  lemma {:induction false} PteWalk(m: Mem, d: nat, v: nat)
    requires v < TWO32 && SelfMapped(m, d)
    ensures PtePtr(v) < TWO32
    ensures Walk(m, d, PtePtr(v)) ==
      var pde := Load(m, d, Pdi(v));
      if Present(pde) then At(pde / PG_SIZE, 4 * Pti(v), Both(RightsIn(Load(m, d, WINDOW)), RightsIn(pde))) else Fault
  {
    PteParts(v);
  }

  /** Through the window, `pde_ptr` always reaches the directory entry of `v`. */
  lemma {:induction false} PdeWalk(m: Mem, d: nat, v: nat)
    requires v < TWO32 && SelfMapped(m, d)
    ensures PdePtr(v) < TWO32 && Walk(m, d, PdePtr(v)) == At(d, 4 * Pdi(v), RightsIn(Load(m, d, WINDOW)))
  {
    PdeParts(v);
  }

  /** A word read through the page tables. */
  function Peek(m: Mem, d: nat, a: nat): nat
    requires a < TWO32 && Walk(m, d, a).At?
  {
    Load(m, Walk(m, d, a).frame, Walk(m, d, a).off / 4)
  }

  function Poke(m: Mem, d: nat, a: nat, w: nat): Mem
    requires a < TWO32 && Walk(m, d, a).At?
  {
    Store(m, Walk(m, d, a).frame, Walk(m, d, a).off / 4, w)
  }

  /** `addr_v2p` of a mapped address is its physical address. */
  lemma {:induction false} V2P(m: Mem, d: nat, v: nat)
    requires v < TWO32 && SelfMapped(m, d) && Walk(m, d, v).At?
    ensures PtePtr(v) < TWO32 && Walk(m, d, PtePtr(v)).At?
    ensures var pte := Peek(m, d, PtePtr(v));
      pte - pte % PG_SIZE + v % PG_SIZE == Walk(m, d, v).frame * PG_SIZE + Walk(m, d, v).off
  {
    PteWalk(m, d, v);
  }

  /** A present, writable entry for user mode. */
  function Entry(f: nat): nat { f * PG_SIZE + 7 }

  lemma {:induction false} Odd(x: nat, h: nat)
    requires x == 2 * h + 1
    ensures x % 2 == 1
  {
  }

  lemma {:induction false} Quarter(x: nat, q: nat)
    requires 4 * q <= x < 4 * q + 4
    ensures x / 4 == q
  {
  }

  lemma {:induction false} EntryParts(f: nat)
    ensures Present(Entry(f)) && Entry(f) / PG_SIZE == f && RightsIn(Entry(f)) == ALL
  {
    Odd(Entry(f), 2048 * f + 3);
    Odd(Entry(f) / 2, 1024 * f + 1);
    Quarter(Entry(f), 1024 * f + 1);
    Odd(Entry(f) / 4, 512 * f);
  }

  // ---------- directories that share the kernel half ----------

  /** Entry `i` of directory `d` leads to page table `t`. */
  predicate HasTable(m: Mem, d: nat, i: nat, t: nat)
    requires i < 1024
  {
    Present(Load(m, d, i)) && Load(m, d, i) / PG_SIZE == t
  }

  /**
   Directories map themselves, and every page table has one place: one entry of one directory, or one of the kernel
   half.
   */
  ghost predicate Tables(m: Mem, dirs: set<nat>) {
    && (forall d <- dirs :: SelfMapped(m, d))
    && (forall d, i, t :: d in dirs && 0 <= i < WINDOW && HasTable(m, d, i, t) ==> t !in dirs)
    && (forall d, i, e, j, t ::
          d in dirs && 0 <= i < WINDOW && HasTable(m, d, i, t) && e in dirs && 0 <= j < WINDOW
            && HasTable(m, e, j, t) ==>
          i == j && (d == e || i >= KERNEL_FIRST))
  }

  /** Address `a`, below the window, leads to frame `f` in the address space of `d`. */
  predicate Maps(m: Mem, d: nat, a: nat, f: nat) {
    a < TWO32 && Pdi(a) < WINDOW && Walk(m, d, a).At? && Walk(m, d, a).frame == f
  }

  /** Frame `f` is neither a directory nor a page table. */
  ghost predicate NoTable(m: Mem, dirs: set<nat>, f: nat) {
    f !in dirs && forall d, i :: d in dirs && 0 <= i < WINDOW ==> !HasTable(m, d, i, f)
  }

  /** Frame `f` is neither a directory nor a page table nor mapped anywhere. */
  ghost predicate Idle(m: Mem, dirs: set<nat>, f: nat) {
    NoTable(m, dirs, f) && forall d, a :: d in dirs ==> !Maps(m, d, a, f)
  }

  /** A frame of the pools is mapped at one page of one address space, or one page of the kernel half. */
  ghost predicate OnePlace(m: Mem, dirs: set<nat>, pool: iset<nat>) {
    forall d, a, e, b, f :: d in dirs && e in dirs && f in pool && Maps(m, d, a, f) && Maps(m, e, b, f) ==>
      Page(a) == Page(b) && (d == e || Pdi(a) >= KERNEL_FIRST)
  }

  /** A frame of the pools that is mapped is no page table. */
  ghost predicate NotTables(m: Mem, dirs: set<nat>, pool: iset<nat>) {
    forall d, a, e, i, f :: d in dirs && e in dirs && f in pool && 0 <= i < WINDOW && Maps(m, d, a, f) ==>
      !HasTable(m, e, i, f)
  }

  ghost predicate Sole(m: Mem, dirs: set<nat>, pool: iset<nat>) { OnePlace(m, dirs, pool) && NotTables(m, dirs, pool) }

  /** Directories leave all rights to their page tables. */
  ghost predicate Opened(m: Mem, dirs: set<nat>) {
    forall d, i :: d in dirs && 0 <= i < 1024 && Present(Load(m, d, i)) ==> RightsIn(Load(m, d, i)) == ALL
  }

  /** The kernel half is the same in all directories and in the cache; and directories are open. */
  ghost predicate Coherent(m: Mem, dirs: set<nat>, cache: seq<nat>) {
    && |cache| == 255 && Opened(m, dirs)
    && forall d, i :: d in dirs && KERNEL_FIRST <= i < WINDOW ==> Load(m, d, i) == cache[i - KERNEL_FIRST]
  }

  /** The address spaces in which a page table of directory `d` at entry `i` shows up. */
  predicate Shows(d: nat, e: nat, i: nat) { e == d || i >= KERNEL_FIRST }

  function Sharing(dirs: set<nat>, d: nat, i: nat): set<nat> { set e | e in dirs && Shows(d, e, i) }

  /** Address spaces that differ in page `v` alone: there it now leads to frame `f`, or nowhere. */
  ghost predicate OnePage(m: Mem, m': Mem, dirs: set<nat>, d: nat, v: nat, f: Place)
    requires v < TWO32
  {
    forall e, a: nat :: e in dirs && a < TWO32 && Pdi(a) < WINDOW ==>
      Walk(m', e, a) == if Page(a) == Page(v) && Shows(d, e, Pdi(v)) then f.Moved(Off(a))
        else Walk(m, e, a)
  }

  lemma {:induction false} SamePage(a: nat, v: nat)
    ensures Page(a) == Page(v) <==> Pdi(a) == Pdi(v) && Pti(a) == Pti(v)
  {
    assert Pdi(a) == Page(a) / 1024 && Pdi(v) == Page(v) / 1024;
  }

  /** The directories alone decide which tables there are. */
  ghost predicate SameDirs(m: Mem, m': Mem, dirs: set<nat>) {
    forall e, i :: e in dirs && 0 <= i < 1024 ==> Load(m', e, i) == Load(m, e, i)
  }

  ghost predicate SameTables(m: Mem, m': Mem, dirs: set<nat>) {
    forall e, i, u :: e in dirs && 0 <= i < WINDOW ==> HasTable(m', e, i, u) == HasTable(m, e, i, u)
  }

  lemma {:induction false} TablesKept(m: Mem, m': Mem, dirs: set<nat>, cache: seq<nat>)
    requires Tables(m, dirs) && Coherent(m, dirs, cache) && SameDirs(m, m', dirs)
    ensures Tables(m', dirs) && Coherent(m', dirs, cache) && SameTables(m, m', dirs)
  {
    assert SameTables(m, m', dirs);
  }

  /** The walk to `a` after an entry of page table `t` has been written. */
  lemma {:induction false} EntryWalk(m: Mem, dirs: set<nat>, cache: seq<nat>, d: nat, v: nat, t: nat, w: nat, e: nat,
                                     a: nat)
    requires Tables(m, dirs) && Coherent(m, dirs, cache) && d in dirs && v < TWO32 && Pdi(v) < WINDOW
    requires HasTable(m, d, Pdi(v), t)
    requires e in dirs && a < TWO32 && Pdi(a) < WINDOW
    ensures Walk(Store(m, t, Pti(v), w), e, a) ==
      if Page(a) == Page(v) && Shows(d, e, Pdi(v)) then Leads(w).Moved(Off(a))
        else Walk(m, e, a)
  {
    SamePage(a, v);
    assert t !in dirs;
    if HasTable(m, e, Pdi(a), t) {
      assert Pdi(a) == Pdi(v);
    }
  }

  /** A page table entry written: one page changes, in every address space that has it. */
  lemma {:induction false} EntryWritten(m: Mem, dirs: set<nat>, cache: seq<nat>, d: nat, v: nat, t: nat, w: nat)
    requires Tables(m, dirs) && Coherent(m, dirs, cache) && d in dirs && v < TWO32 && Pdi(v) < WINDOW
    requires HasTable(m, d, Pdi(v), t)
    ensures var m' := Store(m, t, Pti(v), w);
      && Tables(m', dirs) && Coherent(m', dirs, cache) && SameTables(m, m', dirs)
      && OnePage(m, m', dirs, d, v, Leads(w))
  {
    var m' := Store(m, t, Pti(v), w);
    assert t !in dirs;
    TablesKept(m, m', dirs, cache);
    forall e, a: nat | e in dirs && a < TWO32 && Pdi(a) < WINDOW
      ensures Walk(m', e, a) == if Page(a) == Page(v) && Shows(d, e, Pdi(v))
        then Leads(w).Moved(Off(a)) else Walk(m, e, a)
    {
      EntryWalk(m, dirs, cache, d, v, t, w, e, a);
    }
  }

  /** Entry `i` set to `w` in some frames. */
  ghost predicate Entered(m: Mem, m': Mem, some: set<nat>, i: nat, w: nat)
    requires i < 1024
  {
    forall f, j :: 0 <= j < 1024 ==> Load(m', f, j) == if f in some && j == i then w else Load(m, f, j)
  }

  /** Two memories show the same pages in all address spaces. */
  ghost predicate SameWalks(m: Mem, m': Mem, dirs: set<nat>) {
    forall e, a: nat :: e in dirs && a < TWO32 && Pdi(a) < WINDOW ==> Walk(m', e, a) == Walk(m, e, a)
  }

  /** Table `t` joins the tables, at entry `i` of directory `d` and of those that share it. */
  ghost predicate MoreTables(m: Mem, m': Mem, dirs: set<nat>, d: nat, i: nat, t: nat) {
    forall e, j, u :: e in dirs && 0 <= j < WINDOW ==>
      HasTable(m', e, j, u) == (HasTable(m, e, j, u) || (Shows(d, e, i) && j == i && u == t))
  }

  /** The directory entries after the new table has been entered and cleared. */
  lemma {:induction false} EntriesAdded(m: Mem, m': Mem, dirs: set<nat>, cache: seq<nat>, d: nat, i: nat, t: nat)
    requires Tables(m, dirs) && Coherent(m, dirs, cache) && d in dirs && i < WINDOW && !Present(Load(m, d, i))
    requires NoTable(m, dirs, t)
    requires Entered(m, m', Sharing(dirs, d, i), i, Entry(t))
    ensures var m'' := m'[t := Empty()];
      && (forall e, j :: e in dirs && 0 <= j < 1024 ==>
           Load(m'', e, j) == if Shows(d, e, i) && j == i then Entry(t) else Load(m, e, j))
      && MoreTables(m, m'', dirs, d, i, t)
      && (forall e :: e in dirs && Shows(d, e, i) ==> !Present(Load(m, e, i)))
  {
    var m'' := m'[t := Empty()];
    forall e, j | e in dirs && 0 <= j < 1024
      ensures Load(m'', e, j) == if Shows(d, e, i) && j == i then Entry(t) else Load(m, e, j)
    {
      assert e != t;
      assert Load(m'', e, j) == Load(m', e, j);
    }
    forall e | e in dirs && Shows(d, e, i) ensures !Present(Load(m, e, i)) {
      assert i >= KERNEL_FIRST && e != d ==> Load(m, e, i) == cache[i - KERNEL_FIRST] == Load(m, d, i);
    }
    EntryParts(t);
  }

  /** A new, cleared page table: no page changes in any address space. */
  lemma {:induction false} TableAdded(m: Mem, m': Mem, dirs: set<nat>, cache: seq<nat>, d: nat, i: nat, t: nat)
    requires Tables(m, dirs) && Coherent(m, dirs, cache) && d in dirs && i < WINDOW && !Present(Load(m, d, i))
    requires NoTable(m, dirs, t)
    requires Entered(m, m', Sharing(dirs, d, i), i, Entry(t))
    ensures var m'' := m'[t := Empty()];
      && Tables(m'', dirs)
      && Coherent(m'', dirs, if i >= KERNEL_FIRST then cache[i - KERNEL_FIRST := Entry(t)] else cache)
      && HasTable(m'', d, i, t) && SameWalks(m, m'', dirs) && MoreTables(m, m'', dirs, d, i, t)
  {
    var m'' := m'[t := Empty()];
    EntriesAdded(m, m', dirs, cache, d, i, t);
    EntryParts(t);
    assert forall e, j, u :: e in dirs && 0 <= j < WINDOW && HasTable(m, e, j, u) ==> u != t;
    forall e, a: nat | e in dirs && a < TWO32 && Pdi(a) < WINDOW ensures Walk(m'', e, a) == Walk(m, e, a) {
      AddedWalk(m, m', dirs, cache, d, i, t, e, a);
    }
  }

  lemma {:induction false} AddedWalk(m: Mem, m': Mem, dirs: set<nat>, cache: seq<nat>, d: nat, i: nat, t: nat, e: nat,
                                     a: nat)
    requires Tables(m, dirs) && Coherent(m, dirs, cache) && d in dirs && i < WINDOW && !Present(Load(m, d, i))
    requires NoTable(m, dirs, t)
    requires Entered(m, m', Sharing(dirs, d, i), i, Entry(t))
    requires e in dirs && a < TWO32 && Pdi(a) < WINDOW
    ensures Walk(m'[t := Empty()], e, a) == Walk(m, e, a)
  {
    EntriesAdded(m, m', dirs, cache, d, i, t);
    var m'' := m'[t := Empty()];
    var pde := Load(m, e, Pdi(a));
    if Present(pde) {
      assert HasTable(m, e, Pdi(a), pde / PG_SIZE);
      assert Load(m'', pde / PG_SIZE, Pti(a)) == Load(m', pde / PG_SIZE, Pti(a));
    }
  }

  /** Frames stay idle when tables and pages do not take them. */
  lemma {:induction false} StillIdle(m: Mem, m': Mem, dirs: set<nat>, d: nat, i: nat, t: nat, f: nat)
    requires Idle(m, dirs, f) && f != t && SameWalks(m, m', dirs)
    requires MoreTables(m, m', dirs, d, i, t)
    ensures Idle(m', dirs, f)
  {
    forall e, a | e in dirs ensures !Maps(m', e, a, f) {
      assert !Maps(m, e, a, f);
    }
  }

  lemma {:induction false} StillSole(m: Mem, m': Mem, dirs: set<nat>, pool: iset<nat>, d: nat, i: nat, t: nat)
    requires Sole(m, dirs, pool) && (t in pool ==> Idle(m, dirs, t)) && SameWalks(m, m', dirs)
    requires MoreTables(m, m', dirs, d, i, t)
    ensures Sole(m', dirs, pool)
  {
    forall e, a, f | e in dirs && Maps(m', e, a, f) && f in pool ensures Maps(m, e, a, f) && f != t {
      assert t in pool ==> !Maps(m, e, a, t);
    }
  }

  /** A frame that was idle, mapped at a page that was not mapped. */
  lemma {:induction false} MappedSole(m: Mem, m': Mem, dirs: set<nat>, pool: iset<nat>, d: nat, v: nat, f: nat)
    requires Sole(m, dirs, pool) && Idle(m, dirs, f) && v < TWO32 && OnePage(m, m', dirs, d, v, At(f, 0, ALL))
    requires SameTables(m, m', dirs)
    ensures Sole(m', dirs, pool)
    ensures forall g :: g != f && Idle(m, dirs, g) ==> Idle(m', dirs, g)
  {
    forall e, a, g | e in dirs && Maps(m', e, a, g)
      ensures if Page(a) == Page(v) && Shows(d, e, Pdi(v)) then g == f else Maps(m, e, a, g) && g != f
    {
      assert !Maps(m, e, a, f);
    }
    forall a: nat | Page(a) == Page(v) ensures Pdi(a) == Pdi(v) { SamePage(a, v); }
  }

  /** A page unmapped leaves its frame idle. */
  lemma {:induction false} UnmappedSole(m: Mem, m': Mem, dirs: set<nat>, pool: iset<nat>, d: nat, v: nat, f: nat)
    requires Sole(m, dirs, pool) && d in dirs && Maps(m, d, v, f) && f in pool && f !in dirs
    requires OnePage(m, m', dirs, d, v, Fault)
    requires SameTables(m, m', dirs)
    ensures Sole(m', dirs, pool) && Idle(m', dirs, f)
    ensures forall g :: Idle(m, dirs, g) ==> Idle(m', dirs, g)
  {
    forall e, a, g | e in dirs && Maps(m', e, a, g) ensures Maps(m, e, a, g) && g != f {
      SamePage(a, v);
    }
  }
}
