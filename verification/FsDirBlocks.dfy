/**
 The blocks of a directory on the volume: how `sync_dir_entry` takes them from the block bitmap and `delete_dir_entry`
 gives them back (code/fs/dir.c). What is in the blocks is the subject of `FsDirOps`.
 */
module FsDirBlocks {
  import opened Common
  import opened FsIndex
  import opened FsVolume
  import opened FsAlloc
  import opened BitSpec

  /** Blocks of a directory: 12 direct ones and those of one table. */
  const DIR_BLOCKS: nat := 1036

  /** Inode `i` with block `w` as its table. */
  function WithTable(t: Table, i: nat, w: nat): Table
    requires i in t
  {
    t[i := t[i][SINGLE := w]]
  }

  /** What lies under another entry of the inode does not see the table change. */
  lemma {:induction false} ElsewhereAt(s: Sectors, d: Disk, w: nat, q: Path)
    requires IsPath(q) && q[0] != SINGLE
    ensures At(s[SINGLE := w], d, q) == At(s, d, q)
    decreases |q|
  {
    if |q| > 1 {
      UpPath(q);
      ElsewhereAt(s, d, w, Up(q));
    }
  }

  lemma {:induction false} UnderSingle(s: Sectors, d: Disk, q: Path)
    requires IsPath(q) && q[0] == SINGLE
    ensures q == [SINGLE]
      || (|q| == 2 && q == [SINGLE, q[1]] && At(s, d, q) == if s[SINGLE] == 0 then 0
      else Word(Read(d, s[SINGLE]), q[1]))
  {
    if |q| == 2 { assert Up(q) == [SINGLE] && Last(q) == q[1]; } else { assert q == [SINGLE]; }
  }

  /** The slot of the table and that of its entry `k`. */
  function Entry(k: nat): Path { [SINGLE, k] }

  // ---------- a new block ----------

  /** The slots of a directory after its table has been replaced by `w`, a copy but for entry 0, which holds `b`. */
  ghost predicate Swapped(t: Table, d: Disk, t': Table, d': Disk, i: nat, w: nat, b: nat) {
    && t'.Keys == t.Keys && i in t
    && forall j, q :: j in t && IsPath(q) ==>
         Slot(t', d', j, q) == if i == j && q == [SINGLE] then w else if i == j && q == Entry(0) then b
           else Slot(t, d, j, q)
  }

  /** The entries of the old table, with `b` in entry 0. */
  function TableCopy(t: Table, d: Disk, i: nat, b: nat): Block
    requires i in t && b < TWO32
  {
    SetWord(if t[i][SINGLE] == 0 then Zero() else Read(d, t[i][SINGLE]), 0, b)
  }

  lemma {:induction false} SwapAt(t: Table, d: Disk, d': Disk, i: nat, w: nat, b: nat, j: nat, q: Path)
    requires i in t && 0 < w && b < TWO32 && Read(d', w) == TableCopy(t, d, i, b) && j in t && IsPath(q)
    requires forall j, q :: j in t && IsPath(q) ==> Slot(t, d', j, q) == Slot(t, d, j, q)
    ensures Slot(WithTable(t, i, w), d', j, q) == if i == j && q == [SINGLE] then w else if i == j && q == Entry(0)
      then b else Slot(t, d, j, q)
  {
    if i == j {
      if q[0] == SINGLE {
        UnderSingle(t[i], d, q);
        UnderSingle(t[i][SINGLE := w], d', q);
        if |q| == 2 {
          WordSet(if t[i][SINGLE] == 0 then Zero() else Read(d, t[i][SINGLE]), 0, b, q[1]);
          WordZero(q[1]);
        }
      } else {
        ElsewhereAt(t[i], d', w, q);
      }
    }
  }

  lemma {:induction false} Swap(t: Table, d: Disk, d': Disk, i: nat, w: nat, b: nat)
    requires i in t && 0 < w && b < TWO32 && Read(d', w) == TableCopy(t, d, i, b)
    requires forall j, q :: j in t && IsPath(q) ==> Slot(t, d', j, q) == Slot(t, d, j, q)
    ensures Swapped(t, d, WithTable(t, i, w), d', i, w, b)
  {
    forall j, q | j in t && IsPath(q)
      ensures Slot(WithTable(t, i, w), d', j, q) == if i == j && q == [SINGLE] then w else if i == j && q == Entry(0)
        then b else Slot(t, d, j, q)
    {
      SwapAt(t, d, d', i, w, b, j, q);
    }
  }

  /** The blocks held after the swap: both new ones, but not the old table. */
  lemma {:induction false} SwapHeld(t: Table, d: Disk, t': Table, d': Disk, i: nat, w: nat, b: nat, x: nat)
    requires Unshared(t, d) && Swapped(t, d, t', d', i, w, b) && Slot(t, d, i, Entry(0)) == 0 && x != 0
    ensures Held(t', d', x) <==> (Held(t, d, x) && x != Slot(t, d, i, [SINGLE])) || x == w || x == b
  {
    if Held(t', d', x) {
      var j, q :| j in t' && IsPath(q) && Slot(t', d', j, q) == x;
      assert x == w || x == b || Slot(t, d, j, q) == x;
    }
    if x == w { assert Slot(t', d', i, [SINGLE]) == x; }
    if x == b { assert Slot(t', d', i, Entry(0)) == x; }
    if Held(t, d, x) && x != Slot(t, d, i, [SINGLE]) {
      var j, q :| j in t && IsPath(q) && Slot(t, d, j, q) == x;
      assert Slot(t', d', j, q) == x;
    }
  }

  lemma {:induction false} SwapUnshared(t: Table, d: Disk, t': Table, d': Disk, i: nat, w: nat, b: nat)
    requires Unshared(t, d) && Swapped(t, d, t', d', i, w, b) && w != b && !Held(t, d, w) && !Held(t, d, b)
    ensures Unshared(t', d')
  {
    forall j, q, k, r | j in t' && k in t' && IsPath(q) && IsPath(r) && Slot(t', d', j, q) != 0 && Slot(t', d', j, q) ==
      Slot(t', d', k, r)
      ensures j == k && q == r
    {
      assert Slot(t, d, j, q) != w && Slot(t, d, j, q) != b && Slot(t, d, k, r) != w && Slot(t, d, k, r) != b;
    }
  }

  /** The bitmap after the swap: the old table, if there was one, is marked and nobody's. */
  lemma {:induction false} SwapConserved(t: Table, d: Disk, t': Table, d': Disk, bits: seq<bool>, a: Area, i: nat,
                                         w: nat, b: nat)
    requires Conserved(t, d, bits, a, {w, b}) && w != b && Swapped(t, d, t', d', i, w, b)
    requires Slot(t, d, i, Entry(0)) == 0
    ensures Conserved(t', d', bits, a, Lost(Slot(t, d, i, [SINGLE])))
  {
    assert w in {w, b} && b in {w, b};
    var was := Slot(t, d, i, [SINGLE]);
    SwapUnshared(t, d, t', d', i, w, b);
    forall x: nat | x != 0 ensures Held(t', d', x) <==> (Held(t, d, x) && x !in Lost(was)) || x in {w, b} {
      SwapHeld(t, d, t', d', i, w, b, x);
    }
    assert was != 0 ==> Held(t, d, was);
    Exchange(t, d, t', d', bits, a, {w, b}, {w, b}, Lost(was));
    assert {w, b} - {w, b} + Lost(was) == Lost(was);
  }

  // ---------- a table lost ----------

  /** Without its table, a directory holds neither the table nor the blocks in it; its other slots stay. */
  lemma {:induction false} LostAt(t: Table, d: Disk, i: nat, j: nat, q: Path)
    requires i in t && j in t && IsPath(q)
    ensures Slot(WithTable(t, i, 0), d, j, q) == if i == j && q[0] == SINGLE then 0 else Slot(t, d, j, q)
  {
    if i == j {
      if q[0] == SINGLE { UnderSingle(t[i][SINGLE := 0], d, q); } else { ElsewhereAt(t[i], d, 0, q); }
    }
  }

  /** So the block of the table is marked and nobody's. */
  lemma {:induction false} TableLost(t: Table, d: Disk, bits: seq<bool>, a: Area, i: nat)
    requires Conserved(t, d, bits, a, {}) && i in t && t[i][SINGLE] != 0
    ensures !Conserved(WithTable(t, i, 0), d, bits, a, {})
  {
    var was := t[i][SINGLE];
    assert Slot(t, d, i, [SINGLE]) == was;
    assert Held(t, d, was) && bits[was - a.start];
    forall j, q | j in t && IsPath(q) ensures Slot(WithTable(t, i, 0), d, j, q) != was {
      LostAt(t, d, i, j, q);
      assert Slot(t, d, j, q) == was ==> i == j && q == [SINGLE];
    }
    assert !Held(WithTable(t, i, 0), d, was);
  }

  /** So conservation survives exactly when there was no table. */
  lemma {:induction false} TableDropped(t: Table, d: Disk, bits: seq<bool>, a: Area, i: nat)
    requires Conserved(t, d, bits, a, {}) && i in t
    ensures Conserved(WithTable(t, i, 0), d, bits, a, {}) <==> t[i][SINGLE] == 0
  {
    if t[i][SINGLE] != 0 {
      TableLost(t, d, bits, a, i);
    } else {
      assert t[i][SINGLE := 0] == t[i] && WithTable(t, i, 0) == t;
    }
  }

  // ---------- sync_dir_entry ----------

  /** Where block `idx` of a directory is stored. */
  function DirPath(idx: nat): Path { if idx < DIRECT then [idx] else Entry(idx - DIRECT) }

  lemma {:induction false} DirPathData(idx: nat)
    requires idx < DIR_BLOCKS
    ensures IsData(DirPath(idx)) && DirPath(idx) == PathOf(idx) && (idx >= DIRECT ==> Up(DirPath(idx)) == [SINGLE])
  {
  }

  /** The contents of a block that a data slot holds, a new one. */
  lemma {:induction false} NewWritten(t0: Table, d0: Disk, t: Table, d: Disk, bits: seq<bool>, a: Area, extra: set<nat>,
                                      i: nat, p: Path, b: nat, c: Block)
    requires Conserved(t, d, bits, a, extra) && DataPut(t0, d0, t, d, i, p, b) && !Held(t0, d0, b) && b != 0
    ensures Conserved(t, d[b := c], bits, a, extra) && DataPut(t0, d0, t, d[b := c], i, p, b)
  {
    assert Slot(t, d, i, p) == b;
    assert !IsTable(t, d, b);
    SlotsKept(t, d, b, c);
    SameSlots(t, d, d[b := c], bits, a, extra);
    forall j, q | j in t0 && IsData(q) && Slot(t0, d0, j, q) != 0
      ensures Read(d[b := c], Slot(t0, d0, j, q)) == Read(d0, Slot(t0, d0, j, q))
    {
      assert Slot(t0, d0, j, q) != b;
    }
  }

  /** A new block in a slot whose table is there. */
  method AddInPlace(v: Volume, i: nat, idx: nat, c: Block) returns (b: nat)
    requires v.Valid({}) && i in v.table && idx < DIR_BLOCKS && idx != DIRECT
    requires Slot(v.table, v.disk, i, DirPath(idx)) == 0
    requires idx > DIRECT ==> v.table[i][SINGLE] != 0
    modifies v`bits, v`table, v`disk
    ensures v.Valid({}) && OnlyInode(old(v.table), v.table, i) && (b == 0 <==> Full(old(v.bits)))
    ensures b == 0 ==> v.disk == old(v.disk) && v.table == old(v.table) && v.bits == old(v.bits)
    ensures b != 0 ==> Read(v.disk, b) == c && DataPut(old(v.table), old(v.disk), v.table, v.disk, i, DirPath(idx), b)
    ensures v.table[i][SINGLE] == old(v.table)[i][SINGLE]
  {
    DirPathData(idx);
    ghost var t0, d0 := v.table, v.disk;
    b := Alloc(v, {});
    if b == 0 {
      return;
    }
    assert {} + {b} == {b};
    v.Finish(i, DirPath(idx), if idx < DIRECT then 0 else v.table[i][SINGLE], b, t0, d0);
    NewWritten(t0, d0, v.table, v.disk, v.bits, v.area, {}, i, DirPath(idx), b, c);
    v.disk := v.disk[b := c];
  }

  /** Bit `k` was clear and is set. */
  predicate Took(was: seq<bool>, now: seq<bool>, k: int) { 0 <= k < |was| && !was[k] && now == was[k := true] }

  /** `block_bitmap_alloc`; 0 when the volume is full. */
  method Alloc(v: Volume, ghost extra: set<nat>) returns (b: nat)
    requires v.Valid(extra)
    modifies v`bits
    ensures b == 0 <==> Full(old(v.bits))
    ensures b == 0 ==> v.bits == old(v.bits)
    ensures b != 0 ==> b !in extra && !Held(v.table, v.disk, b) && v.Valid(extra + {b})
    ensures b != 0 ==> Took(old(v.bits), v.bits, b - v.area.start)
  {
    var r := v.AllocBlock(extra);
    b := if r == -1 then 0 else r;
  }

  /** The table of the directory made anew, with a new block in its first entry: the case of block 12. */
  method AddTable(v: Volume, i: nat, c: Block) returns (b: nat)
    requires v.Valid({}) && i in v.table && Slot(v.table, v.disk, i, Entry(0)) == 0
    modifies v`bits, v`table, v`disk
    ensures OnlyInode(old(v.table), v.table, i) && (b == 0 <==> NearlyFull(old(v.bits)))
    ensures b == 0 ==>
      v.disk == old(v.disk) && v.bits == old(v.bits) && v.table == if Full(old(v.bits)) then old(v.table)
      else WithTable(old(v.table), i, 0)
    ensures b != 0 ==> v.Valid(Lost(old(v.table)[i][SINGLE])) && Read(v.disk, b) == c
    ensures b != 0 ==> DataPut(old(v.table), old(v.disk), v.table, v.disk, i, Entry(0), b) && v.table[i][SINGLE] != 0
  {
    ghost var t0, d0, bits0 := v.table, v.disk, v.bits;
    var copy := if v.table[i][SINGLE] == 0 then Zero() else Read(v.disk, v.table[i][SINGLE]);
    var w := Alloc(v, {});
    if w == 0 {
      return 0;
    }
    assert {} + {w} == {w};
    b := Alloc(v, {w});
    if b == 0 {
      v.bits := v.bits[w - v.area.start := false];
      v.table := WithTable(v.table, i, 0);
      OneFree(bits0, w - v.area.start);
      return;
    }
    TwoFree(bits0, w - v.area.start, b - v.area.start);
    assert {w} + {b} == {w, b};
    SwapTable(v, i, w, b, c, copy);
  }

  lemma {:induction false} OneFree(bits: seq<bool>, k: nat)
    requires k < |bits| && !bits[k] && Full(bits[k := true])
    ensures NearlyFull(bits) && !Full(bits) && bits[k := true][k := false] == bits
  {
    forall j | 0 <= j < |bits| && !bits[j] ensures j == k {
      assert bits[k := true][j];
    }
  }

  lemma {:induction false} TwoFree(bits: seq<bool>, k: nat, l: nat)
    requires k < |bits| && !bits[k] && l < |bits| && !bits[k := true][l]
    ensures !NearlyFull(bits)
  {
  }

  /** Both new blocks written, and the table entered in the inode. */
  method SwapTable(v: Volume, i: nat, w: nat, b: nat, c: Block, copy: Block)
    requires v.Valid({w, b}) && w != b && i in v.table && Slot(v.table, v.disk, i, Entry(0)) == 0
    requires copy == if v.table[i][SINGLE] == 0 then Zero() else Read(v.disk, v.table[i][SINGLE])
    modifies v`table, v`disk
    ensures i in v.table && v.table[i][SINGLE] == w
    ensures OnlyInode(old(v.table), v.table, i) && v.Valid(Lost(old(v.table)[i][SINGLE])) && Read(v.disk, b) == c
    ensures DataPut(old(v.table), old(v.disk), v.table, v.disk, i, Entry(0), b)
  {
    assert Conserved(v.table, v.disk, v.bits, v.area, {w, b}) && w in {w, b} && b in {w, b};
    ghost var t, d, d' := v.table, v.disk, v.disk[w := SetWord(copy, 0, b)][b := c];
    FreshWrite(t, d, v.bits, v.area, {w, b}, w, SetWord(copy, 0, b));
    FreshWrite(t, d[w := SetWord(copy, 0, b)], v.bits, v.area, {w, b}, b, c);
    Swap(t, d, d', i, w, b);
    SwapConserved(t, d, WithTable(t, i, w), d', v.bits, v.area, i, w, b);
    SwapData(t, d, i, w, b, c, SetWord(copy, 0, b));
    v.disk := v.disk[w := SetWord(copy, 0, b)];
    v.table := WithTable(v.table, i, w);
    v.disk := v.disk[b := c];
  }

  lemma {:induction false} SwapData(t: Table, d: Disk, i: nat, w: nat, b: nat, c: Block, copy: Block)
    requires i in t && !Held(t, d, w) && !Held(t, d, b)
    requires Swapped(t, d, WithTable(t, i, w), d[w := copy][b := c], i, w, b)
    ensures DataPut(t, d, WithTable(t, i, w), d[w := copy][b := c], i, Entry(0), b)
  {
    forall j, q | j in t && IsData(q) && Slot(t, d, j, q) != 0
      ensures Read(d[w := copy][b := c], Slot(t, d, j, q)) == Read(d, Slot(t, d, j, q))
    {
      assert Slot(t, d, j, q) != w && Slot(t, d, j, q) != b;
    }
  }

  /**
   The new block of `sync_dir_entry`: block `b`, with contents `c`, becomes block `idx` of directory `i`; no other data
   slot, of any inode, changes. Block conservation survives exactly when the call does not replace a table: block 12 of
   a directory that has a table already costs it the old table, or, with one free block, the table and all blocks in it.
   */
  method AddBlock(v: Volume, i: nat, idx: nat, c: Block) returns (b: nat)
    requires v.Valid({}) && i in v.table && idx < DIR_BLOCKS && Slot(v.table, v.disk, i, DirPath(idx)) == 0
    requires idx > DIRECT ==> v.table[i][SINGLE] != 0
    modifies v`bits, v`table, v`disk
    ensures v.Valid({}) <==> !(idx == DIRECT && old(v.table)[i][SINGLE] != 0 && !Full(old(v.bits)))
    ensures unchanged(v`sizes, v`stored)
    ensures OnlyInode(old(v.table), v.table, i)
    ensures b == 0 <==> if idx == DIRECT then NearlyFull(old(v.bits)) else Full(old(v.bits))
    ensures b != 0 ==> Read(v.disk, b) == c && DataPut(old(v.table), old(v.disk), v.table, v.disk, i, DirPath(idx), b)
    ensures b != 0 ==> v.Valid(if idx == DIRECT then Lost(old(v.table)[i][SINGLE]) else {})
    ensures b != 0 ==> (v.table[i][SINGLE] == 0 <==> idx < DIRECT && old(v.table)[i][SINGLE] == 0)
    ensures b == 0 ==> v.disk == old(v.disk) && v.bits == old(v.bits)
    ensures b == 0 ==>
      v.table == if idx == DIRECT && !Full(old(v.bits)) then WithTable(old(v.table), i, 0) else old(v.table)
  {
    if idx != DIRECT {
      b := AddInPlace(v, i, idx, c);
      return;
    }
    ghost var t0, d0, was := v.table, v.disk, v.table[i][SINGLE];
    b := AddTable(v, i, c);
    if b != 0 {
      if was != 0 { NotConserved(v.table, v.disk, v.bits, v.area, was); }
    } else {
      TableDropped(t0, d0, v.bits, v.area, i);
    }
  }

  // ---------- delete_dir_entry ----------

  /** The slots of `t', d'` are those of `t, d`, but that the slots of inode `i` in `gone` are empty. */
  ghost predicate Emptied(t: Table, d: Disk, t': Table, d': Disk, i: nat, gone: set<Path>) {
    && t'.Keys == t.Keys && i in t
    && forall j, q :: j in t && IsPath(q) ==> Slot(t', d', j, q) == if i == j && q in gone then 0 else Slot(t, d, j, q)
  }

  /** The blocks of some slots of inode `i`. */
  function BlocksOf(t: Table, d: Disk, i: nat, gone: set<Path>): set<nat>
    requires i in t && forall q <- gone :: IsPath(q)
  {
    set q | q in gone :: Slot(t, d, i, q)
  }

  /** Emptied slots leave their blocks in hand. */
  lemma {:induction false} EmptiedConserved(t: Table, d: Disk, t': Table, d': Disk, bits: seq<bool>, a: Area, i: nat,
                                            gone: set<Path>)
    requires Conserved(t, d, bits, a, {}) && Emptied(t, d, t', d', i, gone)
    requires forall q <- gone :: IsPath(q) && Slot(t, d, i, q) != 0
    ensures Conserved(t', d', bits, a, BlocksOf(t, d, i, gone))
  {
    var lost := BlocksOf(t, d, i, gone);
    forall x | x in lost ensures x != 0 && Held(t, d, x) {
      var q :| q in gone && Slot(t, d, i, q) == x;
    }
    forall x | x != 0 ensures Held(t', d', x) <==> (Held(t, d, x) && x !in lost) || x in {} {
      EmptiedHeld(t, d, t', d', i, gone, x);
    }
    Exchange(t, d, t', d', bits, a, {}, {}, lost);
    assert {} - {} + lost == lost;
  }

  lemma {:induction false} EmptiedHeld(t: Table, d: Disk, t': Table, d': Disk, i: nat, gone: set<Path>, x: nat)
    requires Unshared(t, d) && Emptied(t, d, t', d', i, gone)
    requires (forall q <- gone :: IsPath(q) && Slot(t, d, i, q) != 0) && x != 0
    ensures Held(t', d', x) <==> Held(t, d, x) && x !in BlocksOf(t, d, i, gone)
  {
    if Held(t', d', x) {
      var j, q :| j in t' && IsPath(q) && Slot(t', d', j, q) == x;
      assert Slot(t, d, j, q) == x;
    }
    if Held(t, d, x) && x !in BlocksOf(t, d, i, gone) {
      var j, q :| j in t && IsPath(q) && Slot(t, d, j, q) == x;
      assert Slot(t', d', j, q) == x;
    }
  }

  /** A direct slot emptied. */
  lemma {:induction false} DirectEmptied(t: Table, d: Disk, i: nat, k: nat)
    requires i in t && k < DIRECT
    ensures Emptied(t, d, t[i := t[i][k := 0]], d, i, {[k]})
  {
    var t' := t[i := t[i][k := 0]];
    forall j, q | j in t && IsPath(q) ensures Slot(t', d, j, q) == if i == j && q in {[k]} then 0 else Slot(t, d, j, q)
    {
      if i == j { DirectAt(t[i], d, k, q); }
    }
  }

  lemma {:induction false} DirectAt(s: Sectors, d: Disk, k: nat, q: Path)
    requires k < DIRECT && IsPath(q)
    ensures At(s[k := 0], d, q) == if q == [k] then 0 else At(s, d, q)
    decreases |q|
  {
    if |q| > 1 {
      UpPath(q);
      DirectAt(s, d, k, Up(q));
    } else {
      assert q == [q[0]];
    }
  }

  /** An entry of the table emptied. */
  lemma {:induction false} EntryAt(t: Table, d: Disk, i: nat, k: nat, u: nat, j: nat, q: Path)
    requires Unshared(t, d) && i in t && k < ENTRIES && u == t[i][SINGLE] != 0 && j in t && IsPath(q)
    ensures Slot(t, d[u := SetWord(Read(d, u), k, 0)], j, q) == if i == j && q == Entry(k) then 0 else Slot(t, d, j, q)
    decreases |q|
  {
    var d' := d[u := SetWord(Read(d, u), k, 0)];
    assert Slot(t, d, i, [SINGLE]) == u;
    if |q| > 1 {
      UpPath(q);
      EntryAt(t, d, i, k, u, j, Up(q));
      var r := Slot(t, d, j, Up(q));
      assert Up(q)[0] == q[0] && Up(q) != Entry(k);
      if r == u {
        assert i == j && Up(q) == [SINGLE] && q == [SINGLE] + [Last(q)];
        WordSet(Read(d, u), k, 0, Last(q));
      }
    }
  }

  lemma {:induction false} EntryEmptied(t: Table, d: Disk, i: nat, k: nat, u: nat)
    requires Unshared(t, d) && i in t && k < ENTRIES && u == t[i][SINGLE] != 0
    ensures Emptied(t, d, t, d[u := SetWord(Read(d, u), k, 0)], i, {Entry(k)})
  {
    var d' := d[u := SetWord(Read(d, u), k, 0)];
    forall j, q | j in t && IsPath(q)
      ensures Slot(t, d', j, q) == if i == j && q in {Entry(k)} then 0 else Slot(t, d, j, q)
    {
      EntryAt(t, d, i, k, u, j, q);
    }
  }

  /** No entry of the table but `k` is in use. */
  ghost predicate Single(b: Block, k: nat) { forall j :: 0 <= j < ENTRIES && j != k ==> Word(b, j) == 0 }

  /** The table emptied with its only entry. */
  lemma {:induction false} TableEmptied(t: Table, d: Disk, i: nat, k: nat)
    requires i in t && k < ENTRIES && t[i][SINGLE] != 0 && Single(Read(d, t[i][SINGLE]), k)
    ensures Emptied(t, d, WithTable(t, i, 0), d, i, {[SINGLE], Entry(k)})
  {
    var t' := WithTable(t, i, 0);
    forall j, q | j in t && IsPath(q)
      ensures Slot(t', d, j, q) == if i == j && q in {[SINGLE], Entry(k)} then 0 else Slot(t, d, j, q)
    {
      if i == j {
        if q[0] == SINGLE {
          UnderSingle(t[i], d, q);
          UnderSingle(t'[i], d, q);
        } else {
          ElsewhereAt(t[i], d, 0, q);
        }
      }
    }
  }

  /** The entries in use among the first `n`. */
  function InUse(b: Block, n: nat): nat
    requires n <= ENTRIES
  {
    if n == 0 then 0 else InUse(b, n - 1) + if Word(b, n - 1) != 0 then 1 else 0
  }

  /** The loop that counts the entries of the table. */
  method CountEntries(b: Block) returns (c: nat)
    ensures c == InUse(b, ENTRIES)
  {
    c := 0;
    var n := 0;
    while n < ENTRIES
      invariant n <= ENTRIES && c == InUse(b, n)
    {
      if Word(b, n) != 0 {
        c := c + 1;
      }
      n := n + 1;
    }
  }

  lemma {:induction false} NoneInUse(b: Block, n: nat)
    requires n <= ENTRIES
    ensures InUse(b, n) == 0 <==> forall j :: 0 <= j < n ==> Word(b, j) == 0
  {
    if n > 0 { NoneInUse(b, n - 1); }
  }

  lemma {:induction false} OneInUse(b: Block, n: nat, k: nat)
    requires k < n <= ENTRIES && Word(b, k) != 0
    ensures InUse(b, n) >= 1
    ensures InUse(b, n) == 1 <==> forall j :: 0 <= j < n && j != k ==> Word(b, j) == 0
  {
    if k == n - 1 {
      NoneInUse(b, n - 1);
    } else {
      OneInUse(b, n - 1, k);
    }
  }

  /** Clears the bits of one block or of a table and its only block. */
  method ClearBits(v: Volume, b: nat, u: nat, ghost lost: set<nat>)
    requires v.Valid(lost) && lost == if u == 0 then {b} else {b, u}
    modifies v`bits
    ensures v.Valid({})
  {
    v.ReleaseBlock(b, lost);
    if u != 0 && u != b {
      v.ReleaseBlock(u, lost - {b});
      assert lost - {b} - {u} == {};
    } else {
      assert lost - {b} == {};
    }
  }

  /** The block of an entry of the table in hand. */
  lemma {:induction false} EntryGone(t: Table, d: Disk, bits: seq<bool>, a: Area, i: nat, k: nat, u: nat)
    requires Conserved(t, d, bits, a, {}) && i in t && k < ENTRIES && u == t[i][SINGLE] != 0
    requires Slot(t, d, i, Entry(k)) != 0
    ensures var d' := d[u := SetWord(Read(d, u), k, 0)];
      Emptied(t, d, t, d', i, {Entry(k)}) && Conserved(t, d', bits, a, {Slot(t, d, i, Entry(k))})
  {
    EntryEmptied(t, d, i, k, u);
    EmptiedConserved(t, d, t, d[u := SetWord(Read(d, u), k, 0)], bits, a, i, {Entry(k)});
    assert BlocksOf(t, d, i, {Entry(k)}) == {Slot(t, d, i, Entry(k))};
  }

  /** The table and its only block in hand. */
  lemma {:induction false} TableGone(t: Table, d: Disk, bits: seq<bool>, a: Area, i: nat, k: nat)
    requires Conserved(t, d, bits, a, {}) && i in t && k < ENTRIES && t[i][SINGLE] != 0
    requires Single(Read(d, t[i][SINGLE]), k) && Slot(t, d, i, Entry(k)) != 0
    ensures Emptied(t, d, WithTable(t, i, 0), d, i, {[SINGLE], Entry(k)})
    ensures Conserved(WithTable(t, i, 0), d, bits, a, {Slot(t, d, i, Entry(k)), t[i][SINGLE]})
  {
    TableEmptied(t, d, i, k);
    assert Slot(t, d, i, [SINGLE]) == t[i][SINGLE];
    EmptiedConserved(t, d, WithTable(t, i, 0), d, bits, a, i, {[SINGLE], Entry(k)});
    assert BlocksOf(t, d, i, {[SINGLE], Entry(k)}) == {Slot(t, d, i, Entry(k)), t[i][SINGLE]};
  }

  /** Writing the table of a directory touches no data block. */
  lemma {:induction false} TableWritten(t: Table, d: Disk, i: nat, c: Block)
    requires Unshared(t, d) && i in t && t[i][SINGLE] != 0
    ensures SameReads(t, d, d[t[i][SINGLE] := c])
  {
    assert Slot(t, d, i, [SINGLE]) == t[i][SINGLE];
  }

  /** Slots that go with block `idx`: its own, or the table's too if the block is the only one there. */
  ghost predicate Leaving(t: Table, d: Disk, i: nat, idx: nat, gone: set<Path>)
    requires i in t
  {
    gone == if idx >= DIRECT && Single(Read(d, t[i][SINGLE]), idx - DIRECT) then {[SINGLE], DirPath(idx)}
      else {DirPath(idx)}
  }

  /** The slot of a direct block emptied. */
  method DetachDirect(v: Volume, i: nat, idx: nat) returns (b: nat)
    requires v.Valid({}) && i in v.table && idx < DIRECT && Slot(v.table, v.disk, i, DirPath(idx)) != 0
    modifies v`table
    ensures v.Valid({b}) && Emptied(old(v.table), v.disk, v.table, v.disk, i, {DirPath(idx)})
    ensures OnlyInode(old(v.table), v.table, i)
  {
    ghost var t, d := v.table, v.disk;
    b := v.table[i][idx];
    DirectEmptied(t, d, i, idx);
    v.table := v.table[i := v.table[i][idx := 0]];
    EmptiedConserved(t, d, v.table, d, v.bits, v.area, i, {DirPath(idx)});
    assert BlocksOf(t, d, i, {DirPath(idx)}) == {b};
  }

  /** The slot of a block in the table emptied; with the last one, that of the table `u`. */
  method DetachEntry(v: Volume, i: nat, idx: nat) returns (b: nat, u: nat, ghost gone: set<Path>)
    requires v.Valid({}) && i in v.table && DIRECT <= idx < DIR_BLOCKS && Slot(v.table, v.disk, i, DirPath(idx)) != 0
    modifies v`table, v`disk
    ensures v.Valid(if u == 0 then {b} else {b, u}) && Emptied(old(v.table), old(v.disk), v.table, v.disk, i, gone)
    ensures Leaving(old(v.table), old(v.disk), i, idx, gone) && SameReads(old(v.table), old(v.disk), v.disk)
    ensures OnlyInode(old(v.table), v.table, i)
  {
    ghost var t, d := v.table, v.disk;
    UnderSingle(t[i], d, DirPath(idx));
    var k, table := idx - DIRECT, v.table[i][SINGLE];
    b := Word(Read(v.disk, table), k);
    var c := CountEntries(Read(v.disk, table));
    OneInUse(Read(v.disk, table), ENTRIES, k);
    if c > 1 {
      u, gone := 0, {Entry(k)};
      EntryGone(t, d, v.bits, v.area, i, k, table);
      TableWritten(t, d, i, SetWord(Read(d, table), k, 0));
      v.disk := v.disk[table := SetWord(Read(v.disk, table), k, 0)];
    } else {
      u, gone := table, {[SINGLE], Entry(k)};
      TableGone(t, d, v.bits, v.area, i, k);
      v.table := WithTable(v.table, i, 0);
    }
  }

  /**
   The block that `delete_dir_entry` gives back: block `idx` of directory `i` goes, with the table if it was the only
   one in it; their bits are cleared, and no other slot, of any inode, changes.
   */
  method RemoveBlock(v: Volume, i: nat, idx: nat) returns (ghost gone: set<Path>)
    requires v.Valid({}) && i in v.table && idx < DIR_BLOCKS && Slot(v.table, v.disk, i, DirPath(idx)) != 0
    modifies v`bits, v`table, v`disk
    ensures v.Valid({}) && Emptied(old(v.table), old(v.disk), v.table, v.disk, i, gone) && unchanged(v`sizes, v`stored)
    ensures Leaving(old(v.table), old(v.disk), i, idx, gone) && SameReads(old(v.table), old(v.disk), v.disk)
    ensures OnlyInode(old(v.table), v.table, i)
  {
    var b, u;
    if idx < DIRECT {
      gone, u := {DirPath(idx)}, 0;
      b := DetachDirect(v, i, idx);
    } else {
      b, u, gone := DetachEntry(v, i, idx);
    }
    ClearBits(v, b, u, if u == 0 then {b} else {b, u});
  }
}
