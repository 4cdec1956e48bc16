/**
 The page tables that the loader sets up (code/loader.asm: `set_page`) and the page layer after `mem_init`
 (code/kernel/memory.c).
 */
module PageBoot {
  import opened Common
  import opened Paging
  import opened PageLayer
  import opened PageAlloc
  import opened PageDirs

  /** Frames of the kernel's directory, and of the page tables for low memory and for the kernel. */
  const DIR: nat := 0x100
  const LOW: nat := 0x101
  const HIGH: nat := 0x102

  /** Pages that the loader maps: the first megabyte. */
  const MEGABYTE: nat := 256

  /** A page table that leads to the first megabyte of memory, on top of what the frame held. */
  ghost predicate Identity(row: Row, was: Row) {
    forall i :: 0 <= i < 1024 ==> row[i] == if i < MEGABYTE then Entry(i) else was[i]
  }

  /** `.create_pte` */
  method CreateEntries(was: Row) returns (row: Row)
    ensures Identity(row, was)
  {
    row := was;
    var edx, esi := 7, 0;
    while esi < 256
      invariant esi <= 256 && edx == Entry(esi)
      invariant forall i :: 0 <= i < 1024 ==> row[i] == if i < esi then Entry(i) else was[i]
    {
      row := row[esi := edx];
      edx, esi := edx + 4096, esi + 1;
    }
  }

  ghost predicate BootDir(m: Mem) {
    forall i :: 0 <= i < 1024 ==>
      Load(m, DIR, i) ==
        if i == 0 then Entry(LOW) else if i == KERNEL_FIRST then Entry(HIGH) else if i == WINDOW then Entry(DIR) else 0
  }

  /** The directory and the two page tables as the loader leaves them, in a memory that held `m`. */
  ghost predicate Loaded(m: Mem, m': Mem) {
    && BootDir(m')
    && Identity(Frame(m', LOW), Frame(m, LOW)) && Identity(Frame(m', HIGH), Frame(m, HIGH))
    && forall f: nat :: f != DIR && f != LOW && f != HIGH ==> Frame(m', f) == Frame(m, f)
  }

  /** The first megabyte shows up at its own addresses and in the kernel half, open to all. */
  ghost predicate Visible(m: Mem) {
    forall a: nat :: a < TWO32 && (Pdi(a) == 0 || Pdi(a) == KERNEL_FIRST) && Pti(a) < MEGABYTE ==>
      Walk(m, DIR, a) == At(Pti(a), Off(a), ALL)
  }

  lemma {:induction false} LoadedVisible(m: Mem, m': Mem)
    requires Loaded(m, m')
    ensures Visible(m')
  {
    EntryParts(LOW);
    EntryParts(HIGH);
    forall a: nat | a < TWO32 && (Pdi(a) == 0 || Pdi(a) == KERNEL_FIRST) && Pti(a) < MEGABYTE
      ensures Walk(m', DIR, a) == At(Pti(a), Off(a), ALL)
    {
      EntryParts(Pti(a));
    }
  }

  /** `set_page` */
  method SetPage(m: Mem) returns (m': Mem)
    ensures Loaded(m, m') && Visible(m')
  {
    var dir: Row := Empty()[0 := Entry(LOW)][KERNEL_FIRST := Entry(LOW)][WINDOW := Entry(DIR)];
    var low := CreateEntries(Frame(m, LOW));
    dir := dir[KERNEL_FIRST := Entry(HIGH)];
    var high := CreateEntries(Frame(m, HIGH));
    m' := m[DIR := dir][LOW := low][HIGH := high];
    LoadedVisible(m, m');
  }

  /** Memory after `mem_pool_init` has mapped the directory; what lies behind the first megabyte is what was there. */
  ghost predicate Booted(m: Mem) {
    && BootDir(m) && (forall i :: 0 <= i < MEGABYTE ==> Load(m, LOW, i) == Load(m, HIGH, i) == Entry(i))
    && Load(m, HIGH, MEGABYTE) == Entry(DIR)
  }

  /**
   The entries of the two page tables that neither the loader nor `mem_pool_init` writes lead to no frame of the pools.
   */
  ghost predicate Clean(m: Mem, pool: iset<nat>) {
    && (forall i :: MEGABYTE <= i < 1024 && Present(Load(m, LOW, i)) ==> Load(m, LOW, i) / PG_SIZE !in pool)
    && (forall i :: MEGABYTE < i < 1024 && Present(Load(m, HIGH, i)) ==> Load(m, HIGH, i) / PG_SIZE !in pool)
  }

  /** Nor do they map a page of the kernel heap, which has `n` pages. */
  ghost predicate HeapClear(m: Mem, n: nat) {
    forall i :: MEGABYTE < i < 1024 && i < MEGABYTE + n ==> !Present(Load(m, HIGH, i))
  }

  lemma {:induction false} BootTables(m: Mem, i: nat, t: nat)
    requires Booted(m) && i < WINDOW
    ensures HasTable(m, DIR, i, t) <==> (i == 0 && t == LOW) || (i == KERNEL_FIRST && t == HIGH)
  {
    EntryParts(LOW);
    EntryParts(HIGH);
  }

  /** An address leads where its entry in one of the two page tables says. */
  lemma {:induction false} BootMaps(m: Mem, a: nat, f: nat)
    requires Booted(m)
    ensures Maps(m, DIR, a, f) <==>
      && a < TWO32 && (Pdi(a) == 0 || Pdi(a) == KERNEL_FIRST)
      && HasTable(m, if Pdi(a) == 0 then LOW else HIGH, Pti(a), f)
  {
    EntryParts(LOW);
    EntryParts(HIGH);
  }

  /** Frames of the pools are mapped only through entries that were there before. */
  lemma {:induction false} BootUnmapped(m: Mem, a: nat, f: nat)
    requires Booted(m) && Maps(m, DIR, a, f) && f > DIR
    ensures
      || (Pdi(a) == 0 && Pti(a) >= MEGABYTE && HasTable(m, LOW, Pti(a), f))
      || (Pdi(a) == KERNEL_FIRST && Pti(a) > MEGABYTE && HasTable(m, HIGH, Pti(a), f))
  {
    BootMaps(m, a, f);
    EntryParts(DIR);
    EntryParts(Pti(a));
  }

  ghost predicate Cached(m: Mem, cache: seq<nat>) {
    |cache| == 255 && forall i :: 0 <= i < 255 ==> cache[i] == Load(m, DIR, KERNEL_FIRST + i)
  }

  /** A clean memory maps no frame of the pools, which lie behind the directory. */
  lemma {:induction false} CleanUnmapped(m: Mem, pool: iset<nat>, a: nat, f: nat)
    requires Booted(m) && Clean(m, pool) && Maps(m, DIR, a, f) && forall g <- pool :: g > HIGH
    ensures f !in pool
  {
    if f in pool { BootUnmapped(m, a, f); }
  }

  /**
   The kernel's directory alone, mapped at its address, with free pools: the page layer is in order if memory was clean.
   */
  lemma {:induction false} BootGood(m: Mem, cache: seq<nat>, pools: Pools)
    requires Booted(m) && Cached(m, cache) && pools.Apart() && pools.kernelStart >= 0x200 && Clean(m, pools.All())
    ensures Good(m, DIR, cache, [KERNEL_PAGE_DIR], [DIR], pools)
  {
    assert Elements([DIR]) == {DIR};
    forall i, t | 0 <= i < WINDOW && HasTable(m, DIR, i, t)
      ensures (i == 0 && t == LOW) || (i == KERNEL_FIRST && t == HIGH)
    {
      BootTables(m, i, t);
    }
    assert forall g <- pools.All() :: g > HIGH;
    forall a: nat, f: nat | Maps(m, DIR, a, f) ensures f !in pools.All() { CleanUnmapped(m, pools.All(), a, f); }
    EntryParts(DIR);
    EntryParts(HIGH);
    BootMaps(m, KERNEL_PAGE_DIR, DIR);
  }

  /** And only then. */
  lemma {:induction false} GoodClean(m: Mem, cache: seq<nat>, pools: Pools)
    requires Booted(m) && Good(m, DIR, cache, [KERNEL_PAGE_DIR], [DIR], pools) && pools.Free() == pools.All()
    ensures Clean(m, pools.All())
  {
    assert DIR in Elements([DIR]);
    forall i | MEGABYTE <= i < 1024 && Present(Load(m, LOW, i)) ensures Load(m, LOW, i) / PG_SIZE !in pools.All() {
      NotFree(m, pools, AddressOf(0, i), 0, i, Load(m, LOW, i) / PG_SIZE);
    }
    forall i | MEGABYTE < i < 1024 && Present(Load(m, HIGH, i)) ensures Load(m, HIGH, i) / PG_SIZE !in pools.All() {
      NotFree(m, pools, AddressOf(KERNEL_FIRST, i), KERNEL_FIRST, i, Load(m, HIGH, i) / PG_SIZE);
    }
  }

  lemma {:induction false} NotFree(m: Mem, pools: Pools, a: nat, i: nat, k: nat, f: nat)
    requires Booted(m) && (i == 0 || i == KERNEL_FIRST) && k < 1024 && a == AddressOf(i, k)
    requires HasTable(m, if i == 0 then LOW else HIGH, k, f) && forall g <- pools.Free() :: Idle(m, Elements([DIR]), g)
    ensures f !in pools.Free()
  {
    AddressParts(i, k);
    BootMaps(m, a, f);
    assert DIR in Elements([DIR]);
  }

  /**
   The marks say that of the kernel heap only page 0xc0100000 is mapped: so it is exactly when memory was clear there.
   */
  lemma {:induction false} BootSpaces(m: Mem, marks: Marks, userBase: nat)
    requires Booted(m) && 0 < |marks.kernel| <= 0x8000 && |marks.kernel| % 8 == 0 && marks.user == []
    requires userBase <= 0xc0000 && forall k :: 0 <= k < |marks.kernel| ==> (marks.kernel[k] <==> k == 0)
    ensures Spaces(m, DIR, marks, userBase) <==> HeapClear(m, |marks.kernel|)
  {
    if HeapClear(m, |marks.kernel|) {
      forall a: nat | a < TWO32 && KERNEL_BASE <= Page(a) < KERNEL_BASE + |marks.kernel| && Walk(m, DIR, a).At?
        ensures marks.kernel[Page(a) - KERNEL_BASE]
      {
        HalfOf(a);
        BootMaps(m, a, Walk(m, DIR, a).frame);
      }
    }
    if Spaces(m, DIR, marks, userBase) {
      forall i | MEGABYTE < i < 1024 && i < MEGABYTE + |marks.kernel| ensures !Present(Load(m, HIGH, i)) {
        HeapPage(m, marks.kernel, i);
      }
    }
  }

  lemma {:induction false} HeapPage(m: Mem, pages: seq<bool>, i: nat)
    requires Booted(m) && Marked(m, DIR, pages, KERNEL_BASE) && MEGABYTE < i < 1024 && i < MEGABYTE + |pages|
    requires !pages[i - MEGABYTE]
    ensures !Present(Load(m, HIGH, i))
  {
    var a := AddressOf(KERNEL_FIRST, i);
    AddressParts(KERNEL_FIRST, i);
    BootMaps(m, a, Load(m, HIGH, i) / PG_SIZE);
    assert Page(a) == KERNEL_BASE + (i - MEGABYTE);
  }

  /**
   `set_page`, and the page that `mem_pool_init` maps to the directory; its assertion fails if there is an entry
   already.
   */
  method BootMemory(m: Mem) returns (ok: bool, m': Mem)
    ensures ok <==> !Present(Load(m, HIGH, MEGABYTE))
    ensures ok ==> Booted(m') && SameRest(m, m')
  {
    var loaded := SetPage(m);
    ok := Load(loaded, HIGH, MEGABYTE) % 2 == 0;
    m' := Store(loaded, HIGH, MEGABYTE, Entry(DIR));
    assert Load(loaded, HIGH, MEGABYTE) == Frame(loaded, HIGH)[MEGABYTE] == Frame(m, HIGH)[MEGABYTE];
    MappedDir(m, loaded);
  }

  /** The entries that nobody writes stay. */
  ghost predicate SameRest(m: Mem, m': Mem) {
    && (forall i :: MEGABYTE <= i < 1024 ==> Load(m', LOW, i) == Load(m, LOW, i))
    && (forall i :: MEGABYTE < i < 1024 ==> Load(m', HIGH, i) == Load(m, HIGH, i))
  }

  lemma {:induction false} MappedDir(m: Mem, m': Mem)
    requires Loaded(m, m')
    ensures var m'' := Store(m', HIGH, MEGABYTE, Entry(DIR)); Booted(m'') && SameRest(m, m'')
  {
    assert forall i :: 0 <= i < 1024 ==>
      Load(m', LOW, i) == Frame(m', LOW)[i] && Load(m', HIGH, i) == Frame(m', HIGH)[i];
    var m'' := Store(m', HIGH, MEGABYTE, Entry(DIR));
    assert forall i :: 0 <= i < 1024 ==> Load(m'', DIR, i) == Load(m', DIR, i) && Load(m'', LOW, i) == Load(m', LOW, i);
  }

  /** The loop of `mem_init` over the kernel half of the directory. */
  method ReadCache(m: Mem) returns (cache: seq<nat>)
    ensures Cached(m, cache)
  {
    cache := [];
    var i := 0;
    while i < 255
      invariant i == |cache| <= 255 && forall j :: 0 <= j < i ==> cache[j] == Load(m, DIR, KERNEL_FIRST + j)
    {
      cache := cache + [Load(m, DIR, KERNEL_FIRST + i)];
      i := i + 1;
    }
  }

  /** The marks of the kernel heap: the page of the directory alone. */
  method BootMarks(n: nat) returns (marks: Marks)
    requires 0 < n
    ensures |marks.kernel| == n && marks.user == [] && forall k :: 0 <= k < n ==> (marks.kernel[k] <==> k == 0)
  {
    marks := Marks(FreeBits(n)[0 := true], []);
  }

  /**
   From the loader to the end of `mem_init`, whatever memory held. The assertion on the directory's page holds exactly
   when its entry was clear. Then the page layer is in order, with every frame of the pools free, exactly when the
   entries that nobody writes led to no frame of the pools; and the marks are right exactly when none of those entries
   was present in the kernel heap.
   */
  method Boot(m: Mem, allMem: nat, userBase: nat) returns (r: Option<Layer>)
    requires allMem < TWO32 && |PoolInit(allMem).bits.kernel| > 0 && userBase <= 0xc0000
    ensures r.None? <==> Present(Load(m, HIGH, MEGABYTE))
    ensures r.Some? ==>
      fresh(r.value) && r.value.cr3 == DIR && r.value.dirs == [DIR] && r.value.pools == PoolInit(allMem)
    ensures r.Some? ==> r.value.homes == [KERNEL_PAGE_DIR] && r.value.pools.Free() == r.value.pools.All()
    ensures r.Some? ==> (r.value.Valid() <==> Clean(m, r.value.pools.All()))
    ensures r.Some? ==>
      (Spaces(r.value.mem, DIR, r.value.pages, userBase) <==> HeapClear(m, |PoolInit(allMem).bits.kernel|))
  {
    var ok, mem := BootMemory(m);
    if !ok {
      return None;
    }
    var pools := PoolInit(allMem);
    PoolSizes(allMem);
    PoolInitApart(allMem);
    var marks := BootMarks(|pools.bits.kernel|);
    var cache := ReadCache(mem);
    assert Clean(mem, pools.All()) == Clean(m, pools.All());
    if Clean(mem, pools.All()) { BootGood(mem, cache, pools); }
    if Good(mem, DIR, cache, [KERNEL_PAGE_DIR], [DIR], pools) { GoodClean(mem, cache, pools); }
    BootSpaces(mem, marks, userBase);
    var l := new Layer(mem, DIR, cache, [KERNEL_PAGE_DIR], [DIR], pools, marks, userBase);
    r := Some(l);
  }

  lemma {:induction false} PoolSizes(allMem: nat)
    requires allMem < TWO32
    ensures var n := |PoolInit(allMem).bits.kernel|; n <= 0x8000 && n % 8 == 0
  {
  }

  // ---------- frame 0 as a page table ----------

  /** After `page_table_add` for an address under directory entry 1, without a free frame: frame 0 is its page table. */
  function ZeroTable(m: Mem): Mem { Store(m, DIR, 1, Entry(0))[0 := Empty()] }

  /** A kernel pool of 8 frames, all taken, and a user pool of 8 frames, all free. */
  function Exhausted(): Pools {
    Pools(0x200, 0x208, Marks([true, true, true, true, true, true, true, true],
                              [false, false, false, false, false, false, false, false]))
  }

  /** A page layer in order in which the next user page goes wild. */
  lemma {:induction false} WildExample(m: Mem, cache: seq<nat>)
    requires Booted(m) && Cached(m, cache) && Clean(m, Exhausted().All())
    ensures Good(ZeroTable(m), DIR, cache, [KERNEL_PAGE_DIR], [DIR], Exhausted())
    ensures Walk(ZeroTable(m), DIR, 0x80_0000) == Fault
    ensures GoesWild(ZeroTable(m), DIR, Elements([DIR]), Exhausted(), User, 0x80_0000)
  {
    var m1, pools := Store(m, DIR, 1, Entry(0)), Exhausted();
    BootGood(m, cache, pools);
    EnteredOne(m, DIR, 1, Entry(0));
    ShareSets(Elements([DIR]), DIR, 1);
    forall i | 0 <= i < WINDOW ensures !HasTable(m, DIR, i, 0) { BootTables(m, i, 0); }
    TableEntered(m, m1, DIR, cache, [KERNEL_PAGE_DIR], [DIR], pools, 1, 0);
    assert HasTable(ZeroTable(m), DIR, 1, 0);
    assert Load(ZeroTable(m), DIR, 2) == Load(m, DIR, 2) == 0;
    assert !pools.Of(User)[0];
  }
}
