/**
 Directories on the volume: `search_dir_entry`, `sync_dir_entry`, `delete_dir_entry` and `dir_read` (code/fs/dir.c) with
 their blocks, the block index, the block bitmap and the inode table.
 */
module FsDirDisk {
  import opened Common
  import opened FsIndex
  import opened FsVolume
  import opened FsAlloc
  import opened FsDirBlocks
  import opened FsFile
  import BitSpec
  import Dir = FsDir
  import Ops = FsDirOps
  import Codec = FsDirCodec

  // ---------- the directory that a volume holds ----------

  /** The slots of block number `b`; 0 is no block. */
  function BlkAt(d: Disk, b: nat): Dir.Blk { if b == 0 then [] else Codec.BlkOf(Read(d, b)) }

  /** Directory `i` as its inode, its table and its blocks have it. */
  function DirOf(t: Table, d: Disk, i: nat, size: nat): Dir.State
    requires i in t
  {
    Dir.State(seq(DIRECT, k requires 0 <= k < DIRECT => BlkAt(d, Slot(t, d, i, [k]))),
              if t[i][SINGLE] == 0 then None
              else Some(seq(ENTRIES, k requires 0 <= k < ENTRIES => BlkAt(d, Slot(t, d, i, Entry(k))))),
              size)
  }

  lemma {:induction false} DirShape(t: Table, d: Disk, i: nat, size: nat)
    requires i in t
    ensures Dir.Shaped(DirOf(t, d, i, size)) && |Dir.All(DirOf(t, d, i, size))| == DIR_BLOCKS
  {
  }

  lemma {:induction false} DirAt(t: Table, d: Disk, i: nat, size: nat, x: nat)
    requires i in t && x < DIR_BLOCKS
    ensures IsPath(DirPath(x)) && |Dir.All(DirOf(t, d, i, size))| == DIR_BLOCKS
    ensures Dir.All(DirOf(t, d, i, size))[x] == BlkAt(d, Slot(t, d, i, DirPath(x)))
  {
    DirPathData(x);
    if x >= DIRECT { UnderSingle(t[i], d, DirPath(x)); }
  }

  lemma {:induction false} DirAll(t: Table, d: Disk, i: nat, size: nat)
    requires i in t
    ensures Dir.Shaped(DirOf(t, d, i, size)) && |Dir.All(DirOf(t, d, i, size))| == DIR_BLOCKS
    ensures forall x :: 0 <= x < DIR_BLOCKS ==>
      IsPath(DirPath(x)) && Dir.All(DirOf(t, d, i, size))[x] == BlkAt(d, Slot(t, d, i, DirPath(x)))
  {
    DirShape(t, d, i, size);
    forall x | 0 <= x < DIR_BLOCKS
      ensures IsPath(DirPath(x)) && Dir.All(DirOf(t, d, i, size))[x] == BlkAt(d, Slot(t, d, i, DirPath(x)))
    {
      DirAt(t, d, i, size, x);
    }
  }

  /** The blocks of a directory differ in one place. */
  ghost predicate OneBlock(t: Table, d: Disk, t': Table, d': Disk, i: nat, idx: nat, blk: Dir.Blk)
    requires i in t && i in t'
  {
    forall x :: 0 <= x < DIR_BLOCKS ==>
      IsPath(DirPath(x))
      && BlkAt(d', Slot(t', d', i, DirPath(x))) == if x == idx then blk else BlkAt(d, Slot(t, d, i, DirPath(x)))
  }

  /** The contents of a block; 0 is no block. */
  function RawAt(d: Disk, b: nat): Option<Block> { if b == 0 then None else Some(Read(d, b)) }

  /** The blocks of a directory differ in one place, byte for byte. */
  ghost predicate OneRaw(t: Table, d: Disk, t': Table, d': Disk, i: nat, idx: nat, c: Option<Block>)
    requires i in t && i in t'
  {
    forall x :: 0 <= x < DIR_BLOCKS ==>
      IsPath(DirPath(x))
      && RawAt(d', Slot(t', d', i, DirPath(x))) == if x == idx then c else RawAt(d, Slot(t, d, i, DirPath(x)))
  }

  lemma {:induction false} RawBlock(t: Table, d: Disk, t': Table, d': Disk, i: nat, idx: nat, c: Option<Block>)
    requires i in t && i in t' && OneRaw(t, d, t', d', i, idx, c)
    ensures OneBlock(t, d, t', d', i, idx, if c.Some? then Codec.BlkOf(c.value) else [])
  {
    forall x | 0 <= x < DIR_BLOCKS
      ensures IsPath(DirPath(x))
      ensures BlkAt(d', Slot(t', d', i, DirPath(x))) ==
        if x == idx then (if c.Some? then Codec.BlkOf(c.value) else []) else BlkAt(d, Slot(t, d, i, DirPath(x)))
    {
      assert RawAt(d', Slot(t', d', i, DirPath(x))) == if x == idx then c else RawAt(d, Slot(t, d, i, DirPath(x)));
    }
  }

  /** The empty slots of all blocks are zero bytes. */
  ghost predicate Blanked(t: Table, d: Disk, i: nat)
    requires i in t
  {
    forall x :: 0 <= x < DIR_BLOCKS && RawAt(d, Slot(t, d, i, DirPath(x))).Some? ==>
      Codec.Zeroed(Read(d, Slot(t, d, i, DirPath(x))))
  }

  lemma {:induction false} RawBlanked(t: Table, d: Disk, t': Table, d': Disk, i: nat, idx: nat, c: Option<Block>)
    requires i in t && i in t' && OneRaw(t, d, t', d', i, idx, c) && Blanked(t, d, i)
    requires c.Some? ==> Codec.Zeroed(c.value)
    ensures Blanked(t', d', i)
  {
  }

  lemma {:induction false} DirPut(t: Table, d: Disk, t': Table, d': Disk, i: nat, size: nat, size': nat, idx: nat,
                                  blk: Dir.Blk)
    requires i in t && i in t' && idx < DIR_BLOCKS && OneBlock(t, d, t', d', i, idx, blk) && |blk| == Dir.PER_BLOCK
    requires t'[i][SINGLE] == 0 <==> idx < DIRECT && t[i][SINGLE] == 0
    ensures Dir.Shaped(DirOf(t, d, i, size))
    ensures DirOf(t', d', i, size') == Ops.Put(DirOf(t, d, i, size), idx, blk).(size := size')
  {
    var a, b := DirOf(t, d, i, size), DirOf(t', d', i, size');
    DirAll(t, d, i, size);
    DirAll(t', d', i, size');
    Ops.PutAll(a, idx, blk);
    var c := Ops.Put(a, idx, blk);
    assert Dir.All(b) == Dir.All(c);
    assert b.direct == Dir.All(b)[..DIRECT] && c.direct == Dir.All(c)[..DIRECT];
    assert b.table.Some? ==> b.table.value == Dir.All(b)[DIRECT..] && c.table.value == Dir.All(c)[DIRECT..];
  }

  /** No data of another inode has been touched. */
  ghost predicate OthersKept(t: Table, d: Disk, t': Table, d': Disk, i: nat) {
    && OnlyInode(t, t', i)
    && forall j, q :: j in t && j != i && IsData(q) ==>
         && Slot(t', d', j, q) == Slot(t, d, j, q)
         && (Slot(t, d, j, q) != 0 ==> Read(d', Slot(t, d, j, q)) == Read(d, Slot(t, d, j, q)))
  }

  /** So every other directory is as it was. */
  lemma {:induction false} OtherDirs(t: Table, d: Disk, t': Table, d': Disk, i: nat, j: nat, size: nat)
    requires OthersKept(t, d, t', d', i) && j in t && j != i
    ensures DirOf(t', d', j, size) == DirOf(t, d, j, size)
  {
    DirAll(t, d, j, size);
    DirAll(t', d', j, size);
    forall x | 0 <= x < DIR_BLOCKS ensures BlkAt(d', Slot(t', d', j, DirPath(x))) == BlkAt(d, Slot(t, d, j, DirPath(x)))
    {
      DirPathData(x);
    }
    var a, b := DirOf(t, d, j, size), DirOf(t', d', j, size);
    assert Dir.All(a) == Dir.All(b);
    assert a.direct == Dir.All(a)[..DIRECT] && b.direct == Dir.All(b)[..DIRECT];
    assert a.table.Some? ==> a.table.value == Dir.All(a)[DIRECT..] && b.table.value == Dir.All(b)[DIRECT..];
  }

  /** Block `idx` of a directory has number `b`, 0 when it is not allocated. */
  ghost predicate BlockIs(t: Table, d: Disk, i: nat, idx: nat, b: nat)
    requires i in t
  {
    idx < DIR_BLOCKS && forall p :: p == DirPath(idx) ==> IsPath(p) && Slot(t, d, i, p) == b
  }

  /** One number that `collect_dir_blocks` collects. */
  method BlockNumber(v: Volume, i: nat, idx: nat) returns (b: nat)
    requires i in v.table && idx < DIR_BLOCKS
    ensures BlockIs(v.table, v.disk, i, idx, b)
  {
    DirPathData(idx);
    b := v.GetDataBlock(i, idx);
  }

  // ---------- one block written ----------

  /** A block of a directory rewritten in place. */
  lemma {:induction false} Rewritten(t: Table, d: Disk, bits: seq<bool>, a: Area, i: nat, idx: nat, c: Block)
    requires Conserved(t, d, bits, a, {}) && i in t && idx < DIR_BLOCKS && IsPath(DirPath(idx))
    requires Slot(t, d, i, DirPath(idx)) != 0
    ensures var d' := d[Slot(t, d, i, DirPath(idx)) := c];
      && Conserved(t, d', bits, a, {}) && OneRaw(t, d, t, d', i, idx, Some(c)) && OthersKept(t, d, t, d', i)
      && (forall j, q :: j in t && IsPath(q) ==> Slot(t, d', j, q) == Slot(t, d, j, q))
  {
    var b := Slot(t, d, i, DirPath(idx));
    var d' := d[b := c];
    DirPathData(idx);
    assert !IsTable(t, d, b);
    SlotsKept(t, d, b, c);
    SameSlots(t, d, d', bits, a, {});
    forall x | 0 <= x < DIR_BLOCKS
      ensures IsPath(DirPath(x))
      ensures RawAt(d', Slot(t, d', i, DirPath(x))) == if x == idx then Some(c) else RawAt(d, Slot(t, d, i, DirPath(x)))
    {
      DirPathData(x);
      if x != idx { PathsDiffer(x, idx); }
    }
    forall j, q | j in t && j != i && IsData(q) && Slot(t, d, j, q) != 0
      ensures Read(d', Slot(t, d, j, q)) == Read(d, Slot(t, d, j, q))
    {
      assert Slot(t, d, j, q) != b;
    }
  }

  lemma {:induction false} PathsDiffer(x: nat, y: nat)
    requires x != y && x < DIR_BLOCKS && y < DIR_BLOCKS
    ensures DirPath(x) != DirPath(y)
  {
    if x < DIRECT && y < DIRECT { assert DirPath(x)[0] != DirPath(y)[0]; }
    if x >= DIRECT && y >= DIRECT { assert DirPath(x)[1] != DirPath(y)[1]; }
    assert x < DIRECT <==> |DirPath(x)| == 1;
    assert y < DIRECT <==> |DirPath(y)| == 1;
  }

  /** A new block in a slot that held none. */
  lemma {:induction false} Added(t: Table, d: Disk, t': Table, d': Disk, i: nat, idx: nat, b: nat, c: Block)
    requires i in t && i in t' && idx < DIR_BLOCKS && DataPut(t, d, t', d', i, DirPath(idx), b) && b != 0
    requires Read(d', b) == c && OnlyInode(t, t', i)
    ensures OneRaw(t, d, t', d', i, idx, Some(c)) && OthersKept(t, d, t', d', i)
  {
    forall x | 0 <= x < DIR_BLOCKS
      ensures IsPath(DirPath(x))
      ensures RawAt(d', Slot(t', d', i, DirPath(x))) == if x == idx then Some(c)
        else RawAt(d, Slot(t, d, i, DirPath(x)))
    {
      DirPathData(x);
      if x != idx { PathsDiffer(x, idx); }
    }
  }

  // ---------- sync_dir_entry ----------

  /** The block that `sync_dir_entry` writes for an entry in a new block. */
  function FreshBlock(e: Dir.Entry): Block
    requires Codec.ValidEntry(e)
  {
    Codec.PutSlot(Zero(), 0, Dir.Full(e))
  }

  lemma {:induction false} FreshBlk(e: Dir.Entry)
    requires Codec.ValidEntry(e)
    ensures Codec.BlkOf(FreshBlock(e)) == Ops.Fresh(Codec.Seen(e)) && Codec.Zeroed(FreshBlock(e))
  {
    Codec.ZeroBlk();
    Codec.PutZeroed(Zero(), 0, Dir.Full(e));
    Codec.PutBlk(Zero(), 0, Dir.Full(e));
  }

  /** The directory is in order. */
  ghost predicate InOrder(t: Table, d: Disk, i: nat, size: nat)
    requires i in t
  {
    forall s :: s == DirOf(t, d, i, size) ==> Dir.Ok(s)
  }

  /** The entries of the directory, in the order in which all operations go through them. */
  ghost function Entries(t: Table, d: Disk, i: nat, size: nat): seq<Dir.Entry>
    requires i in t
  {
    Dir.Live(Dir.All(DirOf(t, d, i, size)))
  }

  /** The directory, which was in order, has the entry more, and no other inode's data has changed. */
  ghost predicate Gained(t: Table, d: Disk, t': Table, d': Disk, i: nat, size: nat, e: Dir.Entry) {
    && i in t && OthersKept(t, d, t', d', i) && (Blanked(t, d, i) ==> Blanked(t', d', i))
    && forall a, b :: a == DirOf(t, d, i, size) && b == DirOf(t', d', i, size + Dir.ENTRY_SIZE) ==> MoreBy(a, b, e)
  }

  /** Directory `b` is in order and has the entry more than `a`. */
  ghost predicate MoreBy(a: Dir.State, b: Dir.State, e: Dir.Entry) {
    && Dir.Ok(b) && Dir.Inserted(Dir.Live(Dir.All(a)), Dir.Live(Dir.All(b)), e)
    && Ops.AtFirstRoom(Dir.All(a), Dir.All(b), e)
  }

  lemma {:induction false} SameMore(a: Dir.State, b: Dir.State, x: Dir.State, e: Dir.Entry)
    requires b == x && Dir.Ok(x) && Dir.Inserted(Dir.Live(Dir.All(a)), Dir.Live(Dir.All(x)), e)
    requires Ops.AtFirstRoom(Dir.All(a), Dir.All(x), e)
    ensures MoreBy(a, b, e)
  {
  }

  lemma {:induction false} AddedMore(a: Dir.State, b: Dir.State, idx: nat, e: Dir.Entry)
    requires Dir.Ok(a) && 0 < idx < DIR_BLOCKS && Dir.All(a)[idx] == [] && Ops.FirstRoom(Dir.All(a), idx, 0)
    requires b == Ops.Put(a, idx, Ops.Fresh(e)).(size := a.size + Dir.ENTRY_SIZE)
    ensures MoreBy(a, b, e)
  {
    Ops.BlockAdded(a, idx, e);
    Ops.PutAll(a, idx, Ops.Fresh(e));
    assert Dir.All(Ops.Put(a, idx, Ops.Fresh(e)).(size := a.size + Dir.ENTRY_SIZE)) == Dir.All(a)[idx := Ops.Fresh(e)];
    SameMore(a, b, Ops.Put(a, idx, Ops.Fresh(e)).(size := a.size + Dir.ENTRY_SIZE), e);
  }

  lemma {:induction false} FilledMore(a: Dir.State, b: Dir.State, idx: nat, k: nat, e: Dir.Entry)
    requires Dir.Ok(a) && idx < DIR_BLOCKS && k < |Dir.All(a)[idx]| && Dir.All(a)[idx][k] == Dir.Empty
    requires Ops.FirstRoom(Dir.All(a), idx, k)
    requires b == Ops.Put(a, idx, Dir.All(a)[idx][k := Dir.Full(e)]).(size := a.size + Dir.ENTRY_SIZE)
    ensures MoreBy(a, b, e)
  {
    var blk := Dir.All(a)[idx][k := Dir.Full(e)];
    Ops.SlotFilled(a, idx, k, e);
    Ops.PutAll(a, idx, blk);
    assert Dir.All(Ops.Put(a, idx, blk).(size := a.size + Dir.ENTRY_SIZE)) == Dir.All(a)[idx := blk];
    SameMore(a, b, Ops.Put(a, idx, Dir.All(a)[idx][k := Dir.Full(e)]).(size := a.size + Dir.ENTRY_SIZE), e);
  }

  /** The first slot with room in a directory on the volume. */
  ghost predicate First(t: Table, d: Disk, i: nat, idx: nat, k: nat)
    requires i in t
  {
    forall all :: all == Blocks(t, d, i) ==> Ops.FirstRoom(all, idx, k)
  }

  lemma {:induction false} FirstHere(t: Table, d: Disk, i: nat, size: nat, idx: nat, k: nat)
    requires i in t && First(t, d, i, idx, k)
    ensures Ops.FirstRoom(Dir.All(DirOf(t, d, i, size)), idx, k)
  {
    SameBlocks(t, d, i, size);
    assert Ops.FirstRoom(Blocks(t, d, i), idx, k);
  }

  /** The entry in a new block. */
  lemma {:induction false} NewGained(t: Table, d: Disk, t': Table, d': Disk, i: nat, size: nat, idx: nat, b: nat,
                                     e: Dir.Entry)
    requires i in t && i in t' && 0 < idx < DIR_BLOCKS && InOrder(t, d, i, size) && Codec.ValidEntry(e)
    requires IsPath(DirPath(idx)) && Slot(t, d, i, DirPath(idx)) == 0 && b != 0
    requires DataPut(t, d, t', d', i, DirPath(idx), b) && Read(d', b) == FreshBlock(e) && OnlyInode(t, t', i)
    requires t'[i][SINGLE] == 0 <==> idx < DIRECT && t[i][SINGLE] == 0
    requires First(t, d, i, idx, 0)
    ensures Gained(t, d, t', d', i, size, Codec.Seen(e))
  {
    FirstHere(t, d, i, size, idx, 0);
    FreshBlk(e);
    DirAll(t, d, i, size);
    assert Dir.Ok(DirOf(t, d, i, size));
    Added(t, d, t', d', i, idx, b, FreshBlock(e));
    RawBlock(t, d, t', d', i, idx, Some(FreshBlock(e)));
    if Blanked(t, d, i) { RawBlanked(t, d, t', d', i, idx, Some(FreshBlock(e))); }
    DirPut(t, d, t', d', i, size, size + Dir.ENTRY_SIZE, idx, Ops.Fresh(Codec.Seen(e)));
    AddedMore(DirOf(t, d, i, size), DirOf(t', d', i, size + Dir.ENTRY_SIZE), idx, Codec.Seen(e));
  }

  /** The directory with a block rewritten. */
  lemma {:induction false} ViewFilled(t: Table, d: Disk, d': Disk, i: nat, size: nat, idx: nat, k: nat, c: Block,
                                      e: Dir.Entry)
    requires i in t && idx < DIR_BLOCKS && InOrder(t, d, i, size) && First(t, d, i, idx, k) && IsPath(DirPath(idx))
    requires Slot(t, d, i, DirPath(idx)) != 0 && k < Dir.PER_BLOCK && OneRaw(t, d, t, d', i, idx, Some(c))
    requires var blk := Codec.BlkOf(Read(d, Slot(t, d, i, DirPath(idx))));
      blk[k] == Dir.Empty && Codec.BlkOf(c) == blk[k := Dir.Full(e)]
    ensures MoreBy(DirOf(t, d, i, size), DirOf(t, d', i, size + Dir.ENTRY_SIZE), e)
  {
    FirstHere(t, d, i, size, idx, k);
    DirAt(t, d, i, size, idx);
    assert Dir.Ok(DirOf(t, d, i, size));
    RawBlock(t, d, t, d', i, idx, Some(c));
    TableOf(t, d, i, idx);
    DirPut(t, d, t, d', i, size, size + Dir.ENTRY_SIZE, idx, Codec.BlkOf(c));
    FilledMore(DirOf(t, d, i, size), DirOf(t, d', i, size + Dir.ENTRY_SIZE), idx, k, e);
  }

  /** The entry in an empty slot of a block. */
  lemma {:induction false} SlotGained(t: Table, d: Disk, bits: seq<bool>, a: Area, i: nat, size: nat, idx: nat, k: nat,
                                      e: Dir.Entry)
    requires Conserved(t, d, bits, a, {}) && i in t && idx < DIR_BLOCKS && InOrder(t, d, i, size) && Codec.ValidEntry(e)
    requires IsPath(DirPath(idx)) && Slot(t, d, i, DirPath(idx)) != 0 && k < Dir.PER_BLOCK
    requires Codec.BlkOf(Read(d, Slot(t, d, i, DirPath(idx))))[k] == Dir.Empty && First(t, d, i, idx, k)
    ensures var b := Slot(t, d, i, DirPath(idx));
      var d' := d[b := Codec.PutSlot(Read(d, b), k, Dir.Full(e))];
      Conserved(t, d', bits, a, {}) && Gained(t, d, t, d', i, size, Codec.Seen(e))
  {
    var b := Slot(t, d, i, DirPath(idx));
    var c := Codec.PutSlot(Read(d, b), k, Dir.Full(e));
    Codec.PutBlk(Read(d, b), k, Dir.Full(e));
    Rewritten(t, d, bits, a, i, idx, c);
    if Blanked(t, d, i) { SlotBlanked(t, d, t, d[b := c], i, idx, k, Dir.Full(e)); }
    ViewFilled(t, d, d[b := c], i, size, idx, k, c, Codec.Seen(e));
  }

  /** A slot of a block rewritten. */
  lemma {:induction false} SlotBlanked(t: Table, d: Disk, t': Table, d': Disk, i: nat, idx: nat, k: nat, s: Dir.Slot)
    requires i in t && i in t' && idx < DIR_BLOCKS && k < Dir.PER_BLOCK && (s.Full? ==> Codec.ValidEntry(s.entry))
    requires Blanked(t, d, i) && IsPath(DirPath(idx)) && Slot(t, d, i, DirPath(idx)) != 0
    requires OneRaw(t, d, t', d', i, idx, Some(Codec.PutSlot(Read(d, Slot(t, d, i, DirPath(idx))), k, s)))
    ensures Blanked(t', d', i)
  {
    var c := Read(d, Slot(t, d, i, DirPath(idx)));
    assert RawAt(d, Slot(t, d, i, DirPath(idx))).Some?;
    Codec.PutZeroed(c, k, s);
    RawBlanked(t, d, t', d', i, idx, Some(Codec.PutSlot(c, k, s)));
  }

  /** The size of the directory changes. */
  method Resize(v: Volume, i: nat, size: nat)
    modifies v`sizes
    ensures v.sizes == old(v.sizes)[i := size] && unchanged(v`table, v`disk, v`bits, v`stored)
  {
    v.sizes := v.sizes[i := size];
  }

  /** A block of the directory is written, and its size changes. */
  method WriteBlock(v: Volume, b: nat, c: Block, i: nat, size: nat)
    modifies v`disk, v`sizes
    ensures v.disk == old(v.disk)[b := c] && v.sizes == old(v.sizes)[i := size] && unchanged(v`table, v`bits, v`stored)
  {
    v.disk := v.disk[b := c];
    v.sizes := v.sizes[i := size];
  }

  /** There are not the free blocks that a new block at `idx` needs: two at index 12, where a table is made. */
  predicate Short(bits: seq<bool>, idx: nat) { if idx == DIRECT then BitSpec.NearlyFull(bits) else BitSpec.Full(bits) }

  /** A new block of the directory with the entry in it. */
  method AddEntry(v: Volume, i: nat, idx: nat, e: Dir.Entry, ghost repl: bool, ghost size: nat) returns (ok: bool)
    requires v.Valid({}) && i in v.table && InOrder(v.table, v.disk, i, size)
    requires Codec.ValidEntry(e) && 0 < idx < DIR_BLOCKS && IsPath(DirPath(idx))
    requires Slot(v.table, v.disk, i, DirPath(idx)) == 0 && (idx > DIRECT ==> v.table[i][SINGLE] != 0)
    requires repl <==> idx == DIRECT && v.table[i][SINGLE] != 0
    requires First(v.table, v.disk, i, idx, 0)
    modifies v`bits, v`table, v`disk
    ensures ok <==> !Short(old(v.bits), idx)
    ensures repl && !BitSpec.Full(old(v.bits)) ==> !v.Valid({})
    ensures !repl || BitSpec.Full(old(v.bits)) ==> v.Valid({})
    ensures ok ==> Gained(old(v.table), old(v.disk), v.table, v.disk, i, size, Codec.Seen(e))
    ensures ok ==> v.Valid(if repl then Lost(old(v.table)[i][SINGLE]) else {})
    ensures !ok ==> v.disk == old(v.disk) && v.bits == old(v.bits)
    ensures !ok ==>
      v.table == if repl && !BitSpec.Full(old(v.bits)) then WithTable(old(v.table), i, 0) else old(v.table)
    ensures unchanged(v`sizes, v`stored)
  {
    ghost var t, d := v.table, v.disk;
    NothingLost(t, i);
    var b := AddBlock(v, i, idx, FreshBlock(e));
    ok := b != 0;
    if ok { NewGained(t, d, v.table, v.disk, i, size, idx, b, e); }
  }

  /** The entry in an empty slot of a block. */
  method FillSlot(v: Volume, i: nat, ghost idx: nat, k: nat, b: nat, e: Dir.Entry, ghost size: nat)
    requires v.Valid({}) && i in v.table && InOrder(v.table, v.disk, i, size)
    requires Codec.ValidEntry(e) && idx < DIR_BLOCKS && IsPath(DirPath(idx))
    requires b == Slot(v.table, v.disk, i, DirPath(idx)) != 0
    requires k < Dir.PER_BLOCK && Codec.BlkOf(Read(v.disk, b))[k] == Dir.Empty
    requires First(v.table, v.disk, i, idx, k)
    modifies v`disk
    ensures v.Valid({}) && Gained(old(v.table), old(v.disk), v.table, v.disk, i, size, Codec.Seen(e))
    ensures unchanged(v`table, v`bits, v`sizes, v`stored)
  {
    SlotGained(v.table, v.disk, v.bits, v.area, i, size, idx, k, e);
    v.disk := v.disk[b := Codec.PutSlot(Read(v.disk, b), k, Dir.Full(e))];
  }

  /** A block from 12 on is in a table. */
  lemma {:induction false} TableOf(t: Table, d: Disk, i: nat, idx: nat)
    requires i in t && idx < DIR_BLOCKS && IsPath(DirPath(idx)) && Slot(t, d, i, DirPath(idx)) != 0
    ensures idx >= DIRECT ==> t[i][SINGLE] != 0
  {
    if idx >= DIRECT { UnderSingle(t[i], d, DirPath(idx)); }
  }

  /** The entry at the room found. */
  method PutAt(v: Volume, i: nat, idx: nat, k: nat, b: nat, e: Dir.Entry, ghost repl: bool, ghost size: nat)
    returns (ok: bool)
    requires v.Valid({}) && i in v.table && InOrder(v.table, v.disk, i, size)
    requires Codec.ValidEntry(e) && idx <= DIR_BLOCKS && (repl <==> idx == DIRECT && b == 0 && v.table[i][SINGLE] != 0)
    requires idx < DIR_BLOCKS ==> IsPath(DirPath(idx)) && b == Slot(v.table, v.disk, i, DirPath(idx))
    requires idx < DIR_BLOCKS && b != 0 ==> k < Dir.PER_BLOCK && Codec.BlkOf(Read(v.disk, b))[k] == Dir.Empty
    requires idx < DIR_BLOCKS && b == 0 ==> idx > 0 && (idx > DIRECT ==> v.table[i][SINGLE] != 0)
    requires idx < DIR_BLOCKS ==> First(v.table, v.disk, i, idx, k) && (b == 0 ==> k == 0)
    modifies v`bits, v`table, v`disk
    ensures ok <==> idx < DIR_BLOCKS && (b == 0 ==> !Short(old(v.bits), idx))
    ensures repl && !BitSpec.Full(old(v.bits)) ==> !v.Valid({})
    ensures !repl || BitSpec.Full(old(v.bits)) ==> v.Valid({})
    ensures ok ==> Gained(old(v.table), old(v.disk), v.table, v.disk, i, size, Codec.Seen(e))
    ensures ok ==> v.Valid(if repl then Lost(old(v.table)[i][SINGLE]) else {})
    ensures !ok ==> v.disk == old(v.disk) && v.bits == old(v.bits)
    ensures !ok ==>
      v.table == if repl && !BitSpec.Full(old(v.bits)) then WithTable(old(v.table), i, 0) else old(v.table)
    ensures unchanged(v`sizes, v`stored)
  {
    if idx == DIR_BLOCKS {
      return false;
    }
    if b != 0 {
      FillSlot(v, i, idx, k, b, e, size);
      return true;
    }
    ok := AddEntry(v, i, idx, e, repl, size);
  }

  /** `sync_dir_entry` up to the size. */
  method PutEntry(v: Volume, i: nat, e: Dir.Entry, ghost size: nat) returns (ok: bool, ghost repl: bool)
    requires v.Valid({}) && i in v.table && InOrder(v.table, v.disk, i, size) && Codec.ValidEntry(e)
    modifies v`bits, v`table, v`disk
    ensures ok == HasRoom(old(v.table), old(v.disk), i, old(v.bits))
    ensures repl == Replaced(old(v.table), old(v.disk), i)
    ensures repl && !BitSpec.Full(old(v.bits)) ==> !v.Valid({})
    ensures !repl || BitSpec.Full(old(v.bits)) ==> v.Valid({})
    ensures ok ==> Gained(old(v.table), old(v.disk), v.table, v.disk, i, size, Codec.Seen(e))
    ensures ok ==> v.Valid(if repl then Lost(old(v.table)[i][SINGLE]) else {})
    ensures !ok ==> v.disk == old(v.disk) && v.bits == old(v.bits)
    ensures !ok ==>
      v.table == if repl && !BitSpec.Full(old(v.bits)) then WithTable(old(v.table), i, 0) else old(v.table)
    ensures unchanged(v`sizes, v`stored)
  {
    var idx, k, b;
    ghost var has;
    idx, k, b, repl, has := FindRoom(v, i, size);
    ok := PutAt(v, i, idx, k, b, e, repl, size);
  }

  /**
   `sync_dir_entry`: it succeeds exactly when the first block with room is allocated, or can be. Then the entry is in,
   at the first room there is, the size says so, and no other inode's data changes. Every block stays accounted for
   exactly when the call does not replace a table, or finds no free block. When it replaces one, the old table is lost;
   and if only one block is free, the call fails and the directory loses its table with all blocks in it. In all other
   cases a failing call changes nothing.
   */
  method SyncEntry(v: Volume, i: nat, e: Dir.Entry) returns (ok: bool, ghost repl: bool)
    requires v.Valid({}) && i in v.table && i in v.sizes && InOrder(v.table, v.disk, i, v.sizes[i])
    requires Codec.ValidEntry(e)
    modifies v`bits, v`table, v`disk, v`sizes
    ensures ok == HasRoom(old(v.table), old(v.disk), i, old(v.bits))
    ensures repl == Replaced(old(v.table), old(v.disk), i)
    ensures repl && !BitSpec.Full(old(v.bits)) ==> !v.Valid({})
    ensures !repl || BitSpec.Full(old(v.bits)) ==> v.Valid({})
    ensures ok ==> v.sizes == old(v.sizes)[i := old(v.sizes)[i] + Dir.ENTRY_SIZE]
    ensures ok ==> Gained(old(v.table), old(v.disk), v.table, v.disk, i, old(v.sizes)[i], Codec.Seen(e))
    ensures ok ==> v.Valid(if repl then Lost(old(v.table)[i][SINGLE]) else {})
    ensures !ok ==> v.disk == old(v.disk) && v.bits == old(v.bits) && v.sizes == old(v.sizes)
    ensures !ok ==>
      v.table == if repl && !BitSpec.Full(old(v.bits)) then WithTable(old(v.table), i, 0) else old(v.table)
    ensures unchanged(v`stored)
  {
    ok, repl := PutEntry(v, i, e, v.sizes[i]);
    if ok {
      Resize(v, i, v.sizes[i] + Dir.ENTRY_SIZE);
    }
  }

  /**
   The loop of `sync_dir_entry`: the first room is slot `k` of block `b`, or a new block at `idx`, or there is none.
   */
  method FindRoom(v: Volume, i: nat, ghost size: nat)
    returns (idx: nat, k: nat, b: nat, ghost repl: bool, ghost has: bool)
    requires i in v.table && InOrder(v.table, v.disk, i, size)
    ensures idx <= DIR_BLOCKS
    ensures idx < DIR_BLOCKS ==> IsPath(DirPath(idx)) && b == Slot(v.table, v.disk, i, DirPath(idx))
    ensures idx < DIR_BLOCKS && b != 0 ==> k < Dir.PER_BLOCK && Codec.BlkOf(Read(v.disk, b))[k] == Dir.Empty
    ensures idx < DIR_BLOCKS && b == 0 ==> idx > 0 && (idx > DIRECT ==> v.table[i][SINGLE] != 0)
    ensures repl == Replaced(v.table, v.disk, i) && (repl <==> idx == DIRECT && b == 0 && v.table[i][SINGLE] != 0)
    ensures idx < DIR_BLOCKS ==> First(v.table, v.disk, i, idx, k) && (b == 0 ==> k == 0)
    ensures has == HasRoom(v.table, v.disk, i, v.bits)
    ensures has <==> idx < DIR_BLOCKS && (b == 0 ==> !Short(v.bits, idx))
    ensures unchanged(v)
  {
    ghost var t, d := v.table, v.disk;
    repl, has := Replaced(t, d, i), HasRoom(t, d, i, v.bits);
    idx, k, b := 0, 0, 0;
    while idx < DIR_BLOCKS
      invariant idx <= DIR_BLOCKS && Packed(t, d, i, idx)
    {
      DirPathData(idx);
      b := v.GetDataBlock(i, idx);
      if b == 0 {
        RoomAt(t, d, i, size, idx);
        HasAt(t, d, i, idx, b, v.bits);
        RoomFirst(t, d, i, idx, 0);
        k := 0;
        return;
      }
      k := Ops.FirstEmpty(Codec.BlkOf(Read(v.disk, b)));
      if k < Dir.PER_BLOCK {
        SlotAt(t, d, i, idx, k);
        HasAt(t, d, i, idx, b, v.bits);
        RoomFirst(t, d, i, idx, k);
        return;
      }
      PackedMore(t, d, i, idx);
      idx := idx + 1;
    }
    NoRoom(t, d, i);
    HasAt(t, d, i, idx, b, v.bits);
  }

  /** The first block that is not full is block `idx`, of number `b`, which is 0 when it is not allocated. */
  ghost predicate FirstRoom(t: Table, d: Disk, i: nat, idx: nat, b: nat)
    requires i in t
  {
    forall x :: x == b ==> RoomIn(t, d, i, idx, x)
  }

  ghost predicate RoomIn(t: Table, d: Disk, i: nat, idx: nat, b: nat)
    requires i in t
  {
    && Packed(t, d, i, idx) && idx <= DIR_BLOCKS
    && (idx < DIR_BLOCKS ==> BlockIs(t, d, i, idx, b) && !Dir.Crowded(BlkAt(d, b)))
  }

  /** The first block that is not full is allocated, or there are free blocks for it. */
  ghost predicate HasRoom(t: Table, d: Disk, i: nat, bits: seq<bool>)
    requires i in t
  {
    exists idx: nat, b: nat :: idx < DIR_BLOCKS && FirstRoom(t, d, i, idx, b) && (b == 0 ==> !Short(bits, idx))
  }

  /** A block with room is not among those without. */
  lemma {:induction false} NotEarlier(t: Table, d: Disk, i: nat, idx: nat, b: nat, x: nat, y: nat)
    requires i in t && FirstRoom(t, d, i, idx, b) && x < DIR_BLOCKS && FirstRoom(t, d, i, x, y)
    ensures idx <= x
  {
    DirPathData(x);
    assert RoomIn(t, d, i, idx, b) && RoomIn(t, d, i, x, y);
    assert Slot(t, d, i, DirPath(x)) == y;
  }

  lemma {:induction false} OneNumber(t: Table, d: Disk, i: nat, idx: nat, b: nat, y: nat)
    requires i in t && idx < DIR_BLOCKS && FirstRoom(t, d, i, idx, b) && FirstRoom(t, d, i, idx, y)
    ensures b == y
  {
    DirPathData(idx);
    assert RoomIn(t, d, i, idx, b) && RoomIn(t, d, i, idx, y);
    assert Slot(t, d, i, DirPath(idx)) == b;
  }

  lemma {:induction false} RoomIs(t: Table, d: Disk, i: nat, idx: nat, b: nat, bits: seq<bool>)
    requires i in t && FirstRoom(t, d, i, idx, b)
    ensures HasRoom(t, d, i, bits) <==> idx < DIR_BLOCKS && (b == 0 ==> !Short(bits, idx))
  {
    if x: nat, y: nat :| x < DIR_BLOCKS && FirstRoom(t, d, i, x, y) && (y == 0 ==> !Short(bits, x)) {
      NotEarlier(t, d, i, idx, b, x, y);
      if idx < DIR_BLOCKS {
        NotEarlier(t, d, i, x, y, idx, b);
        OneNumber(t, d, i, idx, b, y);
      }
    }
  }

  /** The room that the loop ends at decides. */
  lemma {:induction false} HasAt(t: Table, d: Disk, i: nat, idx: nat, b: nat, bits: seq<bool>)
    requires i in t && Packed(t, d, i, idx) && idx <= DIR_BLOCKS
    requires idx < DIR_BLOCKS ==> IsPath(DirPath(idx)) && b == Slot(t, d, i, DirPath(idx)) && !Dir.Crowded(BlkAt(d, b))
    ensures HasRoom(t, d, i, bits) <==> idx < DIR_BLOCKS && (b == 0 ==> !Short(bits, idx))
  {
    assert idx < DIR_BLOCKS ==> BlockIs(t, d, i, idx, b);
    assert RoomIn(t, d, i, idx, b);
    RoomIs(t, d, i, idx, b, bits);
  }

  /** The next entry replaces the table of the directory. */
  ghost predicate Replaced(t: Table, d: Disk, i: nat)
    requires i in t
  {
    forall s :: s == DirOf(t, d, i, 0) ==> Dir.Replaces(s)
  }

  /** The blocks before `idx` have no room. */
  ghost predicate Packed(t: Table, d: Disk, i: nat, idx: nat)
    requires i in t
  {
    forall x :: 0 <= x < idx && x < DIR_BLOCKS ==>
      IsPath(DirPath(x)) && Dir.Crowded(BlkAt(d, Slot(t, d, i, DirPath(x))))
  }

  lemma {:induction false} PackedMore(t: Table, d: Disk, i: nat, idx: nat)
    requires i in t && idx < DIR_BLOCKS && Packed(t, d, i, idx) && IsPath(DirPath(idx))
    requires Slot(t, d, i, DirPath(idx)) != 0
    requires forall k :: 0 <= k < Dir.PER_BLOCK ==> Codec.BlkOf(Read(d, Slot(t, d, i, DirPath(idx))))[k].Full?
    ensures Packed(t, d, i, idx + 1)
  {
  }

  /** Behind blocks without room, the first slot of an unallocated block, or the first empty one. */
  lemma {:induction false} RoomFirst(t: Table, d: Disk, i: nat, idx: nat, k: nat)
    requires i in t && idx < DIR_BLOCKS && Packed(t, d, i, idx) && IsPath(DirPath(idx))
    requires var blk := BlkAt(d, Slot(t, d, i, DirPath(idx)));
      if blk == [] then k == 0 else k < |blk| && blk[k] == Dir.Empty && forall j :: 0 <= j < k ==> blk[j].Full?
    ensures First(t, d, i, idx, k)
  {
    DirAll(t, d, i, 0);
    forall all | all == Blocks(t, d, i) ensures Ops.FirstRoom(all, idx, k) {
    }
  }

  /** The first index without a block is never 0, and that of a table to be replaced exactly when there is one. */
  lemma {:induction false} RoomAt(t: Table, d: Disk, i: nat, size: nat, idx: nat)
    requires i in t && idx < DIR_BLOCKS && Packed(t, d, i, idx) && IsPath(DirPath(idx))
    requires Slot(t, d, i, DirPath(idx)) == 0
    requires InOrder(t, d, i, size)
    ensures idx > 0 && (idx > DIRECT ==> t[i][SINGLE] != 0)
    ensures Replaced(t, d, i) <==> idx == DIRECT && t[i][SINGLE] != 0
  {
    DirAll(t, d, i, 0);
    assert Dir.Ok(DirOf(t, d, i, size)) && DirOf(t, d, i, 0).direct == DirOf(t, d, i, size).direct;
    Ops.Room(DirOf(t, d, i, 0), idx);
    assert Replaced(t, d, i) == Dir.Replaces(DirOf(t, d, i, 0));
  }

  lemma {:induction false} SlotAt(t: Table, d: Disk, i: nat, idx: nat, k: nat)
    requires i in t && idx < DIR_BLOCKS && Packed(t, d, i, idx) && IsPath(DirPath(idx))
    requires Slot(t, d, i, DirPath(idx)) != 0
    requires k < Dir.PER_BLOCK && Codec.BlkOf(Read(d, Slot(t, d, i, DirPath(idx))))[k] == Dir.Empty
    ensures !Replaced(t, d, i)
  {
    DirAll(t, d, i, 0);
    Ops.NotCrowded(DirOf(t, d, i, 0), idx, k);
    assert Replaced(t, d, i) == Dir.Replaces(DirOf(t, d, i, 0));
  }

  lemma {:induction false} NoRoom(t: Table, d: Disk, i: nat)
    requires i in t && Packed(t, d, i, DIR_BLOCKS)
    ensures !Replaced(t, d, i)
  {
    DirAll(t, d, i, 0);
    Ops.AllCrowded(DirOf(t, d, i, 0));
    assert Replaced(t, d, i) == Dir.Replaces(DirOf(t, d, i, 0));
  }

  /** A directory without a table has none to lose. */
  lemma {:induction false} NothingLost(t: Table, i: nat)
    requires i in t
    ensures t[i][SINGLE] == 0 ==> WithTable(t, i, 0) == t
  {
    if t[i][SINGLE] == 0 { assert t[i][SINGLE := 0] == t[i]; }
  }

  // ---------- delete_dir_entry ----------

  /** Slot `k` of block `idx` holds the first entry of the inode; `dot` when an entry named "." was met in the block. */
  ghost predicate FoundIn(a: Dir.State, idx: nat, k: nat, ino: nat, dot: bool) {
    && Dir.Shaped(a) && idx < DIR_BLOCKS && k < |Dir.All(a)[idx]|
    && Dir.All(a)[idx][k].Full? && Dir.All(a)[idx][k].entry.ino == ino
    && !Ops.Has(Dir.Live(Dir.All(a)[..idx]), ino) && !Ops.Has(Dir.LiveIn(Dir.All(a)[idx][..k]), ino)
    && (dot <==> exists j :: 0 <= j <= k && Dir.All(a)[idx][j].Full? && Dir.All(a)[idx][j].entry.name == ".")
  }

  /**
   Directory `b` is `a` without the first entry of the inode; among different names it is in order unless that was "."
   or "..".
   */
  ghost predicate LessBy(a: Dir.State, b: Dir.State, ino: nat) {
    && Dir.Rooted(a) && Dir.Live(Dir.All(b)) == Ops.Without(Dir.Live(Dir.All(a)), ino)
    && (Ops.Unique(Dir.Live(Dir.All(a))) ==> (Dir.Ok(b) <==> !Ops.Dotted(a, ino)))
  }

  /** The entry cleared in a block that stays. */
  lemma {:induction false} ClearedLess(a: Dir.State, b: Dir.State, idx: nat, k: nat, ino: nat, dot: bool)
    requires Dir.Ok(a) && FoundIn(a, idx, k, ino, dot) && a.size >= Dir.ENTRY_SIZE
    requires b == Ops.Put(a, idx, Dir.All(a)[idx][k := Dir.Empty]).(size := a.size - Dir.ENTRY_SIZE)
    requires Dir.LiveIn(Dir.All(a)[idx][k := Dir.Empty]) != [] || dot
    ensures LessBy(a, b, ino)
  {
    Ops.DeleteAt(a, idx, k, ino);
    Ops.SlotCleared(a, idx, k);
    if idx == 0 && k >= 2 { Ops.StillTwo(a, k); }
  }

  /** The entry cleared, and its block gone. */
  lemma {:induction false} DroppedLess(a: Dir.State, b: Dir.State, idx: nat, k: nat, ino: nat, dot: bool)
    requires Dir.Ok(a) && FoundIn(a, idx, k, ino, dot) && a.size >= Dir.ENTRY_SIZE
    requires Dir.LiveIn(Dir.All(a)[idx][k := Dir.Empty]) == [] && !dot
    requires idx > 0 ==> (idx >= DIRECT ==> a.table.Some?) && b == Ops.Dropped(a, idx).(size := a.size - Dir.ENTRY_SIZE)
    ensures idx > 0 && LessBy(a, b, ino)
  {
    Ops.DeleteAt(a, idx, k, ino);
    Ops.BlockFreed(a, idx, k);
  }

  /** A directory in order has room in its size for the entry found. */
  lemma {:induction false} SizeFor(a: Dir.State, idx: nat, k: nat, ino: nat, dot: bool)
    requires Dir.Ok(a) && FoundIn(a, idx, k, ino, dot)
    ensures a.size >= Dir.ENTRY_SIZE && (idx == 0 ==> dot)
  {
    Ops.SlotCleared(a, idx, k);
    assert idx == 0 ==> Dir.All(a)[0] == a.direct[0];
  }

  /** The entry found on the volume. */
  ghost predicate Found(t: Table, d: Disk, i: nat, size: nat, idx: nat, k: nat, ino: nat, dot: bool)
    requires i in t
  {
    forall a :: a == DirOf(t, d, i, size) ==> FoundIn(a, idx, k, ino, dot)
  }

  /** The directory has lost the first entry of the inode, and no other inode's data has changed. */
  ghost predicate Shrunk(t: Table, d: Disk, t': Table, d': Disk, i: nat, size: nat, size': nat, ino: nat) {
    && i in t && OthersKept(t, d, t', d', i) && (Blanked(t, d, i) ==> Blanked(t', d', i))
    && forall a, b :: a == DirOf(t, d, i, size) && b == DirOf(t', d', i, size') ==> LessBy(a, b, ino)
  }

  /** The block with slot `k` cleared. */
  function ClearedBlock(c: Block, k: nat): Block
    requires k < Dir.PER_BLOCK
  {
    Codec.PutSlot(c, k, Dir.Empty)
  }

  /** The slot of the entry cleared on disk. */
  lemma {:induction false} SlotShrunk(t: Table, d: Disk, bits: seq<bool>, a: Area, i: nat, size: nat, idx: nat, k: nat,
                                      ino: nat, dot: bool)
    requires Conserved(t, d, bits, a, {}) && i in t && idx < DIR_BLOCKS && IsPath(DirPath(idx)) && k < Dir.PER_BLOCK
    requires InOrder(t, d, i, size) && Found(t, d, i, size, idx, k, ino, dot) && Slot(t, d, i, DirPath(idx)) != 0
    ensures var b := Slot(t, d, i, DirPath(idx));
      var d' := d[b := ClearedBlock(Read(d, b), k)];
      && Conserved(t, d', bits, a, {}) && size >= Dir.ENTRY_SIZE
      && OneRaw(t, d, t, d', i, idx, Some(ClearedBlock(Read(d, b), k))) && OthersKept(t, d, t, d', i)
      && (forall j, q :: j in t && IsPath(q) ==> Slot(t, d', j, q) == Slot(t, d, j, q))
      && (dot || Dir.LiveIn(Codec.BlkOf(ClearedBlock(Read(d, b), k))) != [] ==>
            Shrunk(t, d, t, d', i, size, size - Dir.ENTRY_SIZE, ino))
  {
    var b := Slot(t, d, i, DirPath(idx));
    var c := ClearedBlock(Read(d, b), k);
    var view := DirOf(t, d, i, size);
    DirAll(t, d, i, size);
    assert Dir.Ok(view) && FoundIn(view, idx, k, ino, dot);
    SizeFor(view, idx, k, ino, dot);
    Codec.PutBlk(Read(d, b), k, Dir.Empty);
    Rewritten(t, d, bits, a, i, idx, c);
    RawBlock(t, d, t, d[b := c], i, idx, Some(c));
    if Blanked(t, d, i) { SlotBlanked(t, d, t, d[b := c], i, idx, k, Dir.Empty); }
    TableOf(t, d, i, idx);
    DirPut(t, d, t, d[b := c], i, size, size - Dir.ENTRY_SIZE, idx, Codec.BlkOf(c));
    if dot || Dir.LiveIn(Codec.BlkOf(c)) != [] {
      ClearedLess(view, DirOf(t, d[b := c], i, size - Dir.ENTRY_SIZE), idx, k, ino, dot);
    }
  }

  /** The slots and blocks after the cleared block has been removed. */
  lemma {:induction false} BlockRemoved(t: Table, d: Disk, d1: Disk, t2: Table, d2: Disk, i: nat, idx: nat, c: Block,
                                        gone: set<Path>)
    requires i in t && idx < DIR_BLOCKS && OneRaw(t, d, t, d1, i, idx, Some(c)) && OthersKept(t, d, t, d1, i)
    requires forall j, q :: j in t && IsPath(q) ==> Slot(t, d1, j, q) == Slot(t, d, j, q)
    requires Emptied(t, d1, t2, d2, i, gone) && Leaving(t, d1, i, idx, gone) && SameReads(t, d1, d2)
    requires OnlyInode(t, t2, i)
    ensures OneRaw(t, d, t2, d2, i, idx, None) && OthersKept(t, d, t2, d2, i)
  {
    forall x | 0 <= x < DIR_BLOCKS
      ensures IsPath(DirPath(x))
      ensures RawAt(d2, Slot(t2, d2, i, DirPath(x))) == if x == idx then None else RawAt(d, Slot(t, d, i, DirPath(x)))
    {
      DirPathData(x);
      assert DirPath(x) != [SINGLE];
      if x != idx { PathsDiffer(x, idx); }
      assert RawAt(d1, Slot(t, d1, i, DirPath(x))) == if x == idx then Some(c) else RawAt(d, Slot(t, d, i, DirPath(x)));
    }
  }

  /** The table of a directory, if any, holds no block. */
  ghost predicate NoneInTable(t: Table, d: Disk, i: nat)
    requires i in t
  {
    forall x :: DIRECT <= x < DIR_BLOCKS ==> IsPath(DirPath(x)) && Slot(t, d, i, DirPath(x)) == 0
  }

  /** The table goes when the block was its only one. */
  lemma {:induction false} LastGoes(t: Table, d1: Disk, t2: Table, d2: Disk, i: nat, idx: nat)
    requires i in t && DIRECT <= idx < DIR_BLOCKS && t[i][SINGLE] != 0
    requires Emptied(t, d1, t2, d2, i, {[SINGLE], DirPath(idx)}) && Single(Read(d1, t[i][SINGLE]), idx - DIRECT)
    ensures t2[i][SINGLE] == 0 && NoneInTable(t2, d2, i)
  {
    assert Slot(t2, d2, i, [SINGLE]) == t2[i][SINGLE];
    forall x | DIRECT <= x < DIR_BLOCKS ensures IsPath(DirPath(x)) && Slot(t2, d2, i, DirPath(x)) == 0 {
      DirPathData(x);
      UnderSingle(t2[i], d2, DirPath(x));
    }
  }

  /** Otherwise another block is left in it. */
  lemma {:induction false} OtherStays(t: Table, d1: Disk, t2: Table, d2: Disk, i: nat, idx: nat)
    requires i in t && idx < DIR_BLOCKS && t[i][SINGLE] != 0 && Emptied(t, d1, t2, d2, i, {DirPath(idx)})
    ensures t2[i][SINGLE] != 0
    ensures idx >= DIRECT && !Single(Read(d1, t[i][SINGLE]), idx - DIRECT) ==> !NoneInTable(t2, d2, i)
  {
    DirPathData(idx);
    assert [SINGLE] != DirPath(idx);
    assert Slot(t2, d2, i, [SINGLE]) == t2[i][SINGLE] && Slot(t, d1, i, [SINGLE]) == t[i][SINGLE];
    if idx >= DIRECT && !Single(Read(d1, t[i][SINGLE]), idx - DIRECT) {
      var k :| 0 <= k < ENTRIES && k != idx - DIRECT && Word(Read(d1, t[i][SINGLE]), k) != 0;
      DirPathData(DIRECT + k);
      PathsDiffer(DIRECT + k, idx);
      UnderSingle(t[i], d1, DirPath(DIRECT + k));
      assert Slot(t2, d2, i, DirPath(DIRECT + k)) != 0;
    }
  }

  lemma {:induction false} TableGoes(t: Table, d1: Disk, t2: Table, d2: Disk, i: nat, idx: nat, gone: set<Path>)
    requires i in t && idx < DIR_BLOCKS && IsPath(DirPath(idx)) && Slot(t, d1, i, DirPath(idx)) != 0
    requires Emptied(t, d1, t2, d2, i, gone) && Leaving(t, d1, i, idx, gone)
    ensures t2[i][SINGLE] == 0 <==> t[i][SINGLE] == 0 || (idx >= DIRECT && NoneInTable(t2, d2, i))
  {
    TableOf(t, d1, i, idx);
    if t[i][SINGLE] != 0 {
      if idx >= DIRECT && Single(Read(d1, t[i][SINGLE]), idx - DIRECT) {
        LastGoes(t, d1, t2, d2, i, idx);
      } else {
        OtherStays(t, d1, t2, d2, i, idx);
      }
    } else {
      assert [SINGLE] != DirPath(idx);
      assert Slot(t2, d2, i, [SINGLE]) == t2[i][SINGLE] && Slot(t, d1, i, [SINGLE]) == 0;
    }
  }

  /** The directory with the block gone. */
  lemma {:induction false} ViewDropped(t: Table, d: Disk, t2: Table, d2: Disk, i: nat, size: nat, idx: nat)
    requires i in t && i in t2 && 0 < idx < DIR_BLOCKS && Dir.Ok(DirOf(t, d, i, size))
    requires OneBlock(t, d, t2, d2, i, idx, []) && IsPath(DirPath(idx)) && Slot(t, d, i, DirPath(idx)) != 0
    requires t2[i][SINGLE] == 0 <==> t[i][SINGLE] == 0 || (idx >= DIRECT && NoneInTable(t2, d2, i))
    ensures Dir.Shaped(DirOf(t, d, i, size)) && (idx >= DIRECT ==> DirOf(t, d, i, size).table.Some?)
    ensures DirOf(t2, d2, i, size) == Ops.Dropped(DirOf(t, d, i, size), idx)
  {
    DirAt(t, d, i, size, idx);
    DirShape(t, d, i, size);
    DirShape(t2, d2, i, size);
    ViewWithout(t, d, t2, d2, i, size, idx);
    TableBlocks(t2, d2, i, size);
    Ops.DroppedIs(DirOf(t, d, i, size), DirOf(t2, d2, i, size), idx);
  }

  lemma {:induction false} ViewWithout(t: Table, d: Disk, t2: Table, d2: Disk, i: nat, size: nat, idx: nat)
    requires i in t && i in t2 && idx < DIR_BLOCKS && OneBlock(t, d, t2, d2, i, idx, [])
    ensures |Dir.All(DirOf(t, d, i, size))| == DIR_BLOCKS
    ensures Dir.All(DirOf(t2, d2, i, size)) == Dir.All(DirOf(t, d, i, size))[idx := []]
  {
    DirAll(t, d, i, size);
    DirAll(t2, d2, i, size);
  }

  lemma {:induction false} TableBlocks(t: Table, d: Disk, i: nat, size: nat)
    requires i in t
    ensures |Dir.All(DirOf(t, d, i, size))| == DIR_BLOCKS
    ensures NoneInTable(t, d, i) <==> forall j :: DIRECT <= j < DIRECT + ENTRIES ==>
      Dir.All(DirOf(t, d, i, size))[j] == []
  {
    DirAll(t, d, i, size);
  }

  lemma {:induction false} BlockShrunk(t: Table, d: Disk, t2: Table, d2: Disk, i: nat, size: nat, idx: nat, k: nat,
                                       ino: nat)
    requires i in t && i in t2 && idx < DIR_BLOCKS && InOrder(t, d, i, size) && Found(t, d, i, size, idx, k, ino, false)
    requires OneRaw(t, d, t2, d2, i, idx, None) && OthersKept(t, d, t2, d2, i) && size >= Dir.ENTRY_SIZE
    requires t2[i][SINGLE] == 0 <==> t[i][SINGLE] == 0 || (idx >= DIRECT && NoneInTable(t2, d2, i))
    requires IsPath(DirPath(idx)) && Slot(t, d, i, DirPath(idx)) != 0 && k < Dir.PER_BLOCK
    requires Dir.LiveIn(Codec.BlkOf(Read(d, Slot(t, d, i, DirPath(idx))))[k := Dir.Empty]) == []
    ensures Shrunk(t, d, t2, d2, i, size, size - Dir.ENTRY_SIZE, ino)
  {
    var a, b := DirOf(t, d, i, size), DirOf(t2, d2, i, size - Dir.ENTRY_SIZE);
    DirAt(t, d, i, size, idx);
    assert Dir.Ok(a) && FoundIn(a, idx, k, ino, false);
    SizeFor(a, idx, k, ino, false);
    RawBlock(t, d, t2, d2, i, idx, None);
    if Blanked(t, d, i) { RawBlanked(t, d, t2, d2, i, idx, None); }
    ViewDropped(t, d, t2, d2, i, size, idx);
    assert b == DirOf(t2, d2, i, size).(size := size - Dir.ENTRY_SIZE);
    DroppedLess(a, b, idx, k, ino, false);
  }

  /** Slot `k` of block `idx` has been cleared on disk, and nothing else. */
  ghost predicate SlotClear(t: Table, d: Disk, d1: Disk, i: nat, idx: nat, k: nat) {
    && i in t && idx < DIR_BLOCKS && k < Dir.PER_BLOCK && IsPath(DirPath(idx)) && Slot(t, d, i, DirPath(idx)) != 0
    && OneRaw(t, d, t, d1, i, idx, Some(ClearedBlock(Read(d, Slot(t, d, i, DirPath(idx))), k)))
    && OthersKept(t, d, t, d1, i)
    && forall j, q :: j in t && IsPath(q) ==> Slot(t, d1, j, q) == Slot(t, d, j, q)
  }

  /** No entry is left in the block. */
  ghost predicate NoneLeft(t: Table, d: Disk, i: nat, idx: nat, k: nat)
    requires i in t && idx < DIR_BLOCKS && IsPath(DirPath(idx)) && k < Dir.PER_BLOCK
  {
    Dir.LiveIn(Codec.BlkOf(Read(d, Slot(t, d, i, DirPath(idx))))[k := Dir.Empty]) == []
  }

  /** The block of the entry emptied and given back. */
  method GiveBack(v: Volume, i: nat, idx: nat, ghost d: Disk, ghost size: nat, ghost k: nat, ghost ino: nat)
    requires v.Valid({}) && SlotClear(v.table, d, v.disk, i, idx, k) && NoneLeft(v.table, d, i, idx, k)
    requires InOrder(v.table, d, i, size) && Found(v.table, d, i, size, idx, k, ino, false) && size >= Dir.ENTRY_SIZE
    modifies v`bits, v`table, v`disk
    ensures v.Valid({}) && unchanged(v`sizes, v`stored)
    ensures Shrunk(old(v.table), d, v.table, v.disk, i, size, size - Dir.ENTRY_SIZE, ino)
  {
    ghost var t, d1 := v.table, v.disk;
    ghost var gone := RemoveBlock(v, i, idx);
    BlockRemoved(t, d, d1, v.table, v.disk, i, idx, ClearedBlock(Read(d, Slot(t, d, i, DirPath(idx))), k), gone);
    TableGoes(t, d1, v.table, v.disk, i, idx, gone);
    BlockShrunk(t, d, v.table, v.disk, i, size, idx, k, ino);
  }

  /** The slot of the entry is cleared, and the size says so; `left` entries stay in the block. */
  method ClearSlot(v: Volume, i: nat, idx: nat, k: nat, b: nat, ghost dot: bool, ghost ino: nat) returns (left: nat)
    requires v.Valid({}) && i in v.table && i in v.sizes
    requires InOrder(v.table, v.disk, i, v.sizes[i]) && Found(v.table, v.disk, i, v.sizes[i], idx, k, ino, dot)
    requires idx < DIR_BLOCKS && IsPath(DirPath(idx)) && b == Slot(v.table, v.disk, i, DirPath(idx)) != 0
    requires k < Dir.PER_BLOCK
    modifies v`disk, v`sizes
    ensures v.Valid({}) && old(v.sizes)[i] >= Dir.ENTRY_SIZE && unchanged(v`table, v`bits, v`stored)
    ensures v.sizes == old(v.sizes)[i := old(v.sizes)[i] - Dir.ENTRY_SIZE]
    ensures SlotClear(v.table, old(v.disk), v.disk, i, idx, k)
    ensures left == 0 ==> NoneLeft(v.table, old(v.disk), i, idx, k)
    ensures left != 0 || dot ==>
      Shrunk(v.table, old(v.disk), v.table, v.disk, i, old(v.sizes)[i], old(v.sizes)[i] - Dir.ENTRY_SIZE, ino)
  {
    SlotShrunk(v.table, v.disk, v.bits, v.area, i, v.sizes[i], idx, k, ino, dot);
    var c := ClearedBlock(Read(v.disk, b), k);
    Codec.PutBlk(Read(v.disk, b), k, Dir.Empty);
    left := Ops.CountLive(Codec.BlkOf(c));
    WriteBlock(v, b, c, i, v.sizes[i] - Dir.ENTRY_SIZE);
  }

  /** The entry found is cleared; its block goes with the last one. */
  method Clear(v: Volume, i: nat, idx: nat, k: nat, b: nat, dot: bool, ghost ino: nat)
    requires v.Valid({}) && i in v.table && i in v.sizes
    requires InOrder(v.table, v.disk, i, v.sizes[i]) && Found(v.table, v.disk, i, v.sizes[i], idx, k, ino, dot)
    requires idx < DIR_BLOCKS && IsPath(DirPath(idx)) && b == Slot(v.table, v.disk, i, DirPath(idx)) != 0
    requires k < Dir.PER_BLOCK
    modifies v`bits, v`table, v`disk, v`sizes
    ensures v.Valid({}) && old(v.sizes)[i] >= Dir.ENTRY_SIZE && unchanged(v`stored)
    ensures v.sizes == old(v.sizes)[i := old(v.sizes)[i] - Dir.ENTRY_SIZE]
    ensures Shrunk(old(v.table), old(v.disk), v.table, v.disk, i, old(v.sizes)[i], old(v.sizes)[i] - Dir.ENTRY_SIZE,
                   ino)
  {
    ghost var d, size := v.disk, v.sizes[i];
    var left := ClearSlot(v, i, idx, k, b, dot, ino);
    if left == 0 && !dot {
      GiveBack(v, i, idx, d, size, k, ino);
    }
  }

  /** The directory's inode is written back. */
  method SyncBack(v: Volume, i: nat, ghost t: Table, ghost sizes: map<nat, nat>)
    requires i in t && OnlyInode(t, v.table, i) && i in v.sizes && v.sizes == sizes[i := v.sizes[i]]
    requires |v.stored| == INODES
    modifies v`stored
    ensures i in v.table && v.stored == old(v.stored)[i % 256 := Inode(i, v.sizes[i], v.table[i])]
    ensures unchanged(v`table, v`disk, v`sizes, v`bits)
    ensures Kept(t, sizes, old(v.stored)) ==> Kept(v.table, v.sizes, v.stored)
  {
    ghost var stored := v.stored;
    InodeSync(v, i);
    if Kept(t, sizes, stored) { KeptAfter(t, sizes, stored, v.table, v.sizes, v.stored, i); }
  }

  /** The directory has an entry of the inode. */
  ghost predicate HasEntry(t: Table, d: Disk, i: nat, size: nat, ino: nat)
    requires i in t
  {
    forall s :: s == DirOf(t, d, i, size) ==> Ops.Has(Dir.Live(Dir.All(s)), ino)
  }

  /** The blocks before `idx` have none. */
  ghost predicate NotBefore(t: Table, d: Disk, i: nat, size: nat, idx: nat, ino: nat)
    requires i in t
  {
    forall s :: s == DirOf(t, d, i, size) && idx <= |Dir.All(s)| ==> !Ops.Has(Dir.Live(Dir.All(s)[..idx]), ino)
  }

  lemma {:induction false} NoneBefore(t: Table, d: Disk, i: nat, size: nat, ino: nat)
    requires i in t
    ensures NotBefore(t, d, i, size, 0, ino)
  {
    forall s | s == DirOf(t, d, i, size) ensures !Ops.Has(Dir.Live(Dir.All(s)[..0]), ino) {
      assert Dir.All(s)[..0] == [];
    }
  }

  lemma {:induction false} NotInNext(t: Table, d: Disk, i: nat, size: nat, idx: nat, ino: nat)
    requires i in t && idx < DIR_BLOCKS && NotBefore(t, d, i, size, idx, ino) && IsPath(DirPath(idx))
    requires !Ops.Has(Dir.LiveIn(BlkAt(d, Slot(t, d, i, DirPath(idx)))), ino)
    ensures NotBefore(t, d, i, size, idx + 1, ino)
  {
    var s := DirOf(t, d, i, size);
    DirAt(t, d, i, size, idx);
    assert !Ops.Has(Dir.Live(Dir.All(s)[..idx]), ino);
    Ops.NotInBlock(Dir.All(s), idx, ino);
  }

  lemma {:induction false} NotAnywhere(t: Table, d: Disk, i: nat, size: nat, ino: nat)
    requires i in t && NotBefore(t, d, i, size, DIR_BLOCKS, ino)
    ensures !HasEntry(t, d, i, size, ino)
  {
    var s := DirOf(t, d, i, size);
    DirShape(t, d, i, size);
    assert Dir.All(s)[..DIR_BLOCKS] == Dir.All(s);
    assert !Ops.Has(Dir.Live(Dir.All(s)[..DIR_BLOCKS]), ino);
    assert !Ops.Has(Dir.Live(Dir.All(s)), ino);
  }

  lemma {:induction false} FoundHere(t: Table, d: Disk, i: nat, size: nat, idx: nat, k: nat, ino: nat, dot: bool)
    requires i in t && idx < DIR_BLOCKS && NotBefore(t, d, i, size, idx, ino) && IsPath(DirPath(idx))
    requires InOrder(t, d, i, size) && Slot(t, d, i, DirPath(idx)) != 0 && k < Dir.PER_BLOCK
    requires var blk := Codec.BlkOf(Read(d, Slot(t, d, i, DirPath(idx))));
      && blk[k].Full? && blk[k].entry.ino == ino && !Ops.Has(Dir.LiveIn(blk[..k]), ino)
      && (dot <==> exists j :: 0 <= j <= k && blk[j].Full? && blk[j].entry.name == ".")
    ensures Found(t, d, i, size, idx, k, ino, dot) && HasEntry(t, d, i, size, ino)
  {
    var s := DirOf(t, d, i, size);
    DirAt(t, d, i, size, idx);
    DirShape(t, d, i, size);
    assert !Ops.Has(Dir.Live(Dir.All(s)[..idx]), ino);
    assert FoundIn(s, idx, k, ino, dot);
    assert Dir.Ok(s);
    Ops.DeleteAt(s, idx, k, ino);
  }

  /** The entry is in slot `k` of block `idx`, which has number `b`. */
  ghost predicate FoundAt(t: Table, d: Disk, i: nat, size: nat, idx: nat, k: nat, b: nat, ino: nat, dot: bool)
    requires i in t
  {
    && idx < DIR_BLOCKS && IsPath(DirPath(idx)) && b == Slot(t, d, i, DirPath(idx)) != 0
    && k < Dir.PER_BLOCK && Found(t, d, i, size, idx, k, ino, dot)
  }

  /** One turn of the outer loop. */
  method FindIn(v: Volume, i: nat, idx: nat, ino: nat) returns (k: nat, b: nat, dot: bool, found: bool)
    requires i in v.table && i in v.sizes && InOrder(v.table, v.disk, i, v.sizes[i])
    requires idx < DIR_BLOCKS && NotBefore(v.table, v.disk, i, v.sizes[i], idx, ino)
    ensures found ==>
      FoundAt(v.table, v.disk, i, v.sizes[i], idx, k, b, ino, dot) && HasEntry(v.table, v.disk, i, v.sizes[i], ino)
    ensures !found ==> NotBefore(v.table, v.disk, i, v.sizes[i], idx + 1, ino)
  {
    k, dot, found := 0, false, false;
    DirPathData(idx);
    b := v.GetDataBlock(i, idx);
    if b != 0 {
      k, dot := Ops.FindIno(Codec.BlkOf(Read(v.disk, b)), ino);
      if k < Dir.PER_BLOCK {
        FoundHere(v.table, v.disk, i, v.sizes[i], idx, k, ino, dot);
        found := true;
        return;
      }
    }
    NotInNext(v.table, v.disk, i, v.sizes[i], idx, ino);
  }

  /** The loops of `delete_dir_entry`: the first entry of the inode, in slot `k` of block `b`, or none. */
  method FindEntry(v: Volume, i: nat, ino: nat) returns (idx: nat, k: nat, b: nat, dot: bool)
    requires i in v.table && i in v.sizes && InOrder(v.table, v.disk, i, v.sizes[i])
    ensures idx <= DIR_BLOCKS && (idx < DIR_BLOCKS <==> HasEntry(v.table, v.disk, i, v.sizes[i], ino))
    ensures idx < DIR_BLOCKS ==> FoundAt(v.table, v.disk, i, v.sizes[i], idx, k, b, ino, dot)
  {
    idx, k, b, dot := 0, 0, 0, false;
    NoneBefore(v.table, v.disk, i, v.sizes[i], ino);
    while idx < DIR_BLOCKS
      invariant idx <= DIR_BLOCKS && NotBefore(v.table, v.disk, i, v.sizes[i], idx, ino)
    {
      var found;
      k, b, dot, found := FindIn(v, i, idx, ino);
      if found {
        return;
      }
      idx := idx + 1;
    }
    NotAnywhere(v.table, v.disk, i, v.sizes[i], ino);
  }

  /**
   `delete_dir_entry`: the first entry of the inode goes, with its block if it was the only one there, and with the
   table if that was its last block; every block stays accounted for, no other inode's data changes, and the inode is
   written back. Among entries with different names, the directory stays in order exactly when the inode is not that of
   the directory or its parent. Without such an entry nothing changes.
   */
  method DeleteEntry(v: Volume, i: nat, ino: nat) returns (ok: bool)
    requires v.Valid({}) && i in v.table && i in v.sizes && i < INODES == |v.stored|
    requires InOrder(v.table, v.disk, i, v.sizes[i])
    modifies v`bits, v`table, v`disk, v`sizes, v`stored
    ensures v.Valid({}) && i in v.table
    ensures ok == HasEntry(old(v.table), old(v.disk), i, old(v.sizes)[i], ino)
    ensures ok ==> old(v.sizes)[i] >= Dir.ENTRY_SIZE
    ensures ok ==> v.sizes == old(v.sizes)[i := old(v.sizes)[i] - Dir.ENTRY_SIZE]
    ensures ok ==>
      Shrunk(old(v.table), old(v.disk), v.table, v.disk, i, old(v.sizes)[i], old(v.sizes)[i] - Dir.ENTRY_SIZE, ino)
    ensures ok ==> v.stored == old(v.stored)[i % 256 := Inode(i, v.sizes[i], v.table[i])]
    ensures !ok ==> unchanged(v)
    ensures old(Kept(v.table, v.sizes, v.stored)) ==> Kept(v.table, v.sizes, v.stored)
  {
    ghost var t, sizes := v.table, v.sizes;
    var idx, k, b, dot := FindEntry(v, i, ino);
    if idx == DIR_BLOCKS {
      return false;
    }
    Clear(v, i, idx, k, b, dot, ino);
    SyncBack(v, i, t, sizes);
    ok := true;
  }

  // ---------- search_dir_entry ----------

  /** The blocks of a directory, without those that are not allocated. */
  ghost function Blocks(t: Table, d: Disk, i: nat): seq<Dir.Blk>
    requires i in t
  {
    Dir.All(DirOf(t, d, i, 0))
  }

  /** The blocks of directory `i` are `all`. */
  ghost predicate Listing(t: Table, d: Disk, i: nat, all: seq<Dir.Blk>)
    requires i in t
  {
    |all| == DIR_BLOCKS && forall x :: x == i ==> all == Blocks(t, d, x)
  }

  lemma {:induction false} List(t: Table, d: Disk, i: nat) returns (all: seq<Dir.Blk>)
    requires i in t
    ensures Listing(t, d, i, all)
  {
    DirShape(t, d, i, 0);
    all := Blocks(t, d, i);
  }

  /** What `search_dir_entry` finds: the first entry with the name; the empty name is found in the first empty slot. */
  ghost predicate Answers(all: seq<Dir.Blk>, name: Dir.Name, r: Option<Dir.Slot>) {
    && (name != "" ==> r == match Ops.ByName(Dir.Live(all), name) case Some(e) => Some(Dir.Full(e)) case None => None)
    && (name == "" && Ops.ByName(Dir.Live(all), "") == None ==>
          r == if Ops.Blanks(Ops.Flat(all)) then Some(Dir.Empty) else None)
  }

  lemma {:induction false} AnswersFirst(all: seq<Dir.Blk>, name: Dir.Name)
    ensures Answers(all, name, Ops.FirstNamed(Ops.Flat(all), name))
  {
    Ops.FlatLive(all);
    if name != "" {
      Ops.FirstLive(Ops.Flat(all), name);
    } else if Ops.ByName(Dir.Live(all), "") == None {
      Ops.FirstBlank(Ops.Flat(all));
    }
  }

  /** The first slot of a block with the name. */
  ghost predicate NamedIn(c: Block, name: Dir.Name, r: Option<Dir.Slot>) {
    forall b :: b == Codec.BlkOf(c) ==> r == Ops.FirstNamed(b, name)
  }

  /** The loop over the slots of a block, which compares bytes. */
  method FindName(c: Block, name: Dir.Name) returns (r: Option<Dir.Slot>)
    requires Codec.Zeroed(c)
    ensures NamedIn(c, name, r)
  {
    var k := 0;
    ghost var b := Codec.BlkOf(c);
    assert b[0..] == b;
    while k < Dir.PER_BLOCK
      invariant k <= Dir.PER_BLOCK == |b| && Ops.FirstNamed(b, name) == Ops.FirstNamed(b[k..], name)
    {
      Codec.NameHere(c, k);
      assert b[k..][1..] == b[k + 1..];
      if Codec.NameOf(Codec.RawSlot(c, k)) == name {
        return Some(Codec.SlotOf(Codec.RawSlot(c, k)));
      }
      k := k + 1;
    }
    r := None;
  }

  /** The name is in none of the blocks before `idx`. */
  ghost predicate Unfound(all: seq<Dir.Blk>, idx: nat, name: Dir.Name) {
    idx <= |all| && Ops.FirstNamed(Ops.Flat(all), name) == Ops.FirstNamed(Ops.Flat(all[idx..]), name)
  }

  lemma {:induction false} UnfoundNext(all: seq<Dir.Blk>, idx: nat, name: Dir.Name)
    requires Unfound(all, idx, name) && idx < |all|
    ensures var r := Ops.FirstNamed(all[idx], name);
      if r.Some? then Ops.FirstNamed(Ops.Flat(all), name) == r else Unfound(all, idx + 1, name)
  {
    assert all[idx..][1..] == all[idx + 1..];
    Ops.FirstSplit(all[idx], Ops.Flat(all[idx + 1..]), name);
  }

  lemma {:induction false} UnfoundEnds(all: seq<Dir.Blk>, name: Dir.Name)
    ensures Unfound(all, 0, name)
    ensures Unfound(all, |all|, name) ==> Answers(all, name, None)
  {
    assert all[0..] == all && all[|all|..] == [];
    AnswersFirst(all, name);
  }

  /** One block of the search. */
  lemma {:induction false} SearchNext(t: Table, d: Disk, i: nat, all: seq<Dir.Blk>, idx: nat, name: Dir.Name, b: nat,
                                      r: Option<Dir.Slot>)
    requires i in t && Listing(t, d, i, all) && Unfound(all, idx, name) && BlockIs(t, d, i, idx, b)
    requires if b == 0 then r == None else NamedIn(Read(d, b), name, r)
    ensures if r.Some? then Answers(all, name, r) else Unfound(all, idx + 1, name)
  {
    assert all == Blocks(t, d, i);
    DirAt(t, d, i, 0, idx);
    assert Slot(t, d, i, DirPath(idx)) == b;
    assert r == Ops.FirstNamed(BlkAt(d, b), name);
    UnfoundNext(all, idx, name);
    AnswersFirst(all, name);
  }

  lemma {:induction false} BlankedAt(t: Table, d: Disk, i: nat, idx: nat, b: nat)
    requires i in t && Blanked(t, d, i) && BlockIs(t, d, i, idx, b) && b != 0
    ensures Codec.Zeroed(Read(d, b))
  {
    DirPathData(idx);
    assert Slot(t, d, i, DirPath(idx)) == b && RawAt(d, Slot(t, d, i, DirPath(idx))).Some?;
  }

  /** One turn of the outer loop. */
  method SearchIn(v: Volume, i: nat, idx: nat, name: Dir.Name, ghost all: seq<Dir.Blk>) returns (r: Option<Dir.Slot>)
    requires i in v.table && Blanked(v.table, v.disk, i) && idx < DIR_BLOCKS
    requires Listing(v.table, v.disk, i, all) && Unfound(all, idx, name)
    ensures if r.Some? then Answers(all, name, r) else Unfound(all, idx + 1, name)
  {
    var b := BlockNumber(v, i, idx);
    r := None;
    if b != 0 {
      BlankedAt(v.table, v.disk, i, idx, b);
      r := FindName(Read(v.disk, b), name);
    }
    SearchNext(v.table, v.disk, i, all, idx, name, b, r);
  }

  /** `search_dir_entry`: the first entry with the name. The empty name is found in the first empty slot. */
  method Search(v: Volume, i: nat, name: Dir.Name) returns (r: Option<Dir.Slot>, ghost all: seq<Dir.Blk>)
    requires i in v.table && Blanked(v.table, v.disk, i)
    ensures Listing(v.table, v.disk, i, all) && Answers(all, name, r)
  {
    all := List(v.table, v.disk, i);
    UnfoundEnds(all, name);
    var idx := 0;
    while idx < DIR_BLOCKS
      invariant idx <= DIR_BLOCKS && Unfound(all, idx, name)
    {
      r := SearchIn(v, i, idx, name, all);
      if r.Some? {
        return;
      }
      idx := idx + 1;
    }
    r := None;
  }

  /** A name looked up after an entry has come in under another name or under that name. */
  lemma {:induction false} LookedUp(l: seq<Dir.Entry>, l': seq<Dir.Entry>, x: Dir.Entry, name: Dir.Name)
    requires Dir.Inserted(l, l', x) && Ops.ByName(l, name) == None
    ensures Ops.ByName(l', name) == if x.name == name then Some(x) else None
  {
    var i :| 0 <= i <= |l| && l' == l[..i] + [x] + l[i..];
    assert l == l[..i] + l[i..];
    Ops.ByNameSplit(l[..i], l[i..], name);
    Ops.ByNameSplit(l[..i] + [x], l[i..], name);
    Ops.ByNameSplit(l[..i], [x], name);
  }

  /** The entries do not depend on the size. */
  lemma {:induction false} SameBlocks(t: Table, d: Disk, i: nat, size: nat)
    requires i in t
    ensures Dir.All(DirOf(t, d, i, size)) == Blocks(t, d, i)
  {
  }

  /** What has come into the list of blocks. */
  lemma {:induction false} GainedLive(t: Table, d: Disk, t': Table, d': Disk, i: nat, size: nat, x: Dir.Entry,
                                      all: seq<Dir.Blk>, all': seq<Dir.Blk>)
    requires Gained(t, d, t', d', i, size, x) && Listing(t, d, i, all) && i in t' && Listing(t', d', i, all')
    ensures Dir.Inserted(Dir.Live(all), Dir.Live(all'), x)
  {
    SameBlocks(t, d, i, size);
    SameBlocks(t', d', i, size + Dir.ENTRY_SIZE);
    assert all == Blocks(t, d, i) && all' == Blocks(t', d', i);
    assert MoreBy(DirOf(t, d, i, size), DirOf(t', d', i, size + Dir.ENTRY_SIZE), x);
  }

  lemma {:induction false} GainedFound(t: Table, d: Disk, t': Table, d': Disk, i: nat, size: nat, e: Dir.Entry,
                                       all: seq<Dir.Blk>, all': seq<Dir.Blk>, r: Option<Dir.Slot>)
    requires Codec.ValidEntry(e) && e.name != "" && Gained(t, d, t', d', i, size, Codec.Seen(e))
    requires Listing(t, d, i, all) && Answers(all, e.name, None) && i in t' && Listing(t', d', i, all')
    requires Answers(all', e.name, r)
    ensures r == Some(Dir.Full(e)) <==> |e.name| < Codec.NAME_SIZE || e.ino % 256 == 0
  {
    GainedLive(t, d, t', d', i, size, Codec.Seen(e), all, all');
    FoundAgain(Dir.Live(all), Dir.Live(all'), all, all', e, r);
  }

  lemma {:induction false} FoundAgain(l: seq<Dir.Entry>, l': seq<Dir.Entry>, all: seq<Dir.Blk>, all': seq<Dir.Blk>,
                                      e: Dir.Entry, r: Option<Dir.Slot>)
    requires Codec.ValidEntry(e) && e.name != "" && l == Dir.Live(all) && l' == Dir.Live(all')
    requires Dir.Inserted(l, l', Codec.Seen(e)) && Answers(all, e.name, None) && Answers(all', e.name, r)
    ensures r == Some(Dir.Full(e)) <==> |e.name| < Codec.NAME_SIZE || e.ino % 256 == 0
  {
    Codec.SeenExact(e);
    LookedUp(l, l', Codec.Seen(e), e.name);
  }

  /**
   An entry is added when its name is not found, as creating a file does; it is then found under its name exactly when
   the name is shorter than its 16 bytes or the lowest byte of the inode number is zero.
   */
  method AddAndFind(v: Volume, i: nat, e: Dir.Entry) returns (ok: bool, r: Option<Dir.Slot>)
    requires v.Valid({}) && i in v.table && i in v.sizes && InOrder(v.table, v.disk, i, v.sizes[i])
    requires Blanked(v.table, v.disk, i) && Codec.ValidEntry(e) && e.name != ""
    modifies v`bits, v`table, v`disk, v`sizes
    ensures ok ==> (r == Some(Dir.Full(e)) <==> |e.name| < Codec.NAME_SIZE || e.ino % 256 == 0)
    ensures ok ==> Gained(old(v.table), old(v.disk), v.table, v.disk, i, old(v.sizes)[i], Codec.Seen(e))
  {
    ghost var t, d, size := v.table, v.disk, v.sizes[i];
    ok := false;
    ghost var all, all';
    r, all := Search(v, i, e.name);
    if r == None {
      ghost var repl;
      ok, repl := SyncEntry(v, i, e);
      if ok {
        r, all' := Search(v, i, e.name);
        GainedFound(t, d, v.table, v.disk, i, size, e, all, all', r);
      }
    }
  }

  // ---------- dir_read ----------

  /** An open directory: its inode, and how far it has been read. */
  class Handle {
    const v: Volume
    const inode: nat
    var pos: nat

    constructor (v: Volume, inode: nat)
      ensures this.v == v && this.inode == inode && pos == 0
    {
      this.v, this.inode, pos := v, inode, 0;
    }

    /** The entries, in the order in which all operations go through them. */
    ghost function Listed(): seq<Dir.Entry>
      requires inode in v.table
      reads v
    {
      Dir.Live(Blocks(v.table, v.disk, inode))
    }

    /** `dir_read`: the entry at the position, which moves on; none behind the last entry. */
    method Read() returns (r: Option<Dir.Entry>)
      requires inode in v.table && pos % Dir.ENTRY_SIZE == 0
      modifies this`pos
      ensures Next(Listed(), old(pos) / Dir.ENTRY_SIZE, r)
      ensures pos == old(pos) + if r.Some? then Dir.ENTRY_SIZE else 0
    {
      ghost var all;
      r, all := Nth(v, inode, pos / Dir.ENTRY_SIZE);
      assert all == Blocks(v.table, v.disk, inode);
      if r.Some? {
        pos := pos + Dir.ENTRY_SIZE;
      }
    }

    /** From the first position on, `dir_read` gives every entry once, in order, and then none. */
    method ReadAll() returns (l: seq<Dir.Entry>)
      requires inode in v.table && pos == 0
      modifies this`pos
      ensures l == Listed() && pos == Dir.ENTRY_SIZE * |l|
    {
      l := [];
      ghost var all := Listed();
      var r := Read();
      while r.Some?
        invariant Listed() == all && Reading(all, l, r, pos)
        decreases |all| - |l|
      {
        ListOn(all, l, r, pos);
        l := l + [r.value];
        r := Read();
      }
    }
  }

  /** Entry number `k`, or none. */
  ghost predicate Next(all: seq<Dir.Entry>, k: nat, r: Option<Dir.Entry>) {
    r == if k < |all| then Some(all[k]) else None
  }

  /** The entries of `l` have been read, and `r` after them. */
  ghost predicate Reading(all: seq<Dir.Entry>, l: seq<Dir.Entry>, r: Option<Dir.Entry>, pos: nat) {
    && l <= all && Next(all, |l|, r) && pos == Dir.ENTRY_SIZE * (|l| + if r.Some? then 1 else 0)
  }

  lemma {:induction false} ListOn(all: seq<Dir.Entry>, l: seq<Dir.Entry>, r: Option<Dir.Entry>, pos: nat)
    requires Reading(all, l, r, pos) && r.Some?
    ensures l + [r.value] <= all && pos % Dir.ENTRY_SIZE == 0 && pos / Dir.ENTRY_SIZE == |l| + 1
  {
    Ops.Position(|l| + 1);
  }

  /** The blocks before `idx` hold `cur` entries, of `k` to be passed. */
  ghost predicate Passed(all: seq<Dir.Blk>, idx: nat, cur: nat, k: nat) {
    idx <= |all| && cur == |Dir.Live(all[..idx])| <= k
  }

  lemma {:induction false} PassedEnds(all: seq<Dir.Blk>, cur: nat, k: nat)
    ensures Passed(all, 0, 0, k)
    ensures Passed(all, |all|, cur, k) ==> Next(Dir.Live(all), k, None)
  {
    assert all[..0] == [] && all[..|all|] == all;
  }

  /** The entry number `n` of a block, or the number `c` of its entries. */
  ghost predicate Skipped(b: Dir.Blk, n: nat, c: nat, r: Option<Dir.Entry>) {
    if n < |Dir.LiveIn(b)| then r == Some(Dir.LiveIn(b)[n]) else r == None && c == |Dir.LiveIn(b)|
  }

  ghost predicate SkippedIn(x: Block, n: nat, c: nat, r: Option<Dir.Entry>) {
    forall b :: b == Codec.BlkOf(x) ==> Skipped(b, n, c, r)
  }

  /** The loop over one block. */
  method SkipIn(x: Block, n: nat) returns (c: nat, r: Option<Dir.Entry>)
    ensures SkippedIn(x, n, c, r)
  {
    c, r := Ops.SkipTo(Codec.BlkOf(x), n);
    assert Skipped(Codec.BlkOf(x), n, c, r);
  }

  lemma {:induction false} PassedBy(all: seq<Dir.Blk>, idx: nat, cur: nat, k: nat, b: Dir.Blk, c: nat,
                                    r: Option<Dir.Entry>)
    requires Passed(all, idx, cur, k) && idx < |all| && all[idx] == b
    requires if b == [] then r == None && c == 0 else Skipped(b, k - cur, c, r)
    ensures if r.Some? then Next(Dir.Live(all), k, r) else Passed(all, idx + 1, cur + c, k)
  {
    Ops.LiveNth(all, idx, k - cur);
  }

  /** One block of the count. */
  lemma {:induction false} CountNext(t: Table, d: Disk, i: nat, all: seq<Dir.Blk>, idx: nat, cur: nat, k: nat, b: nat,
                                     c: nat, r: Option<Dir.Entry>)
    requires i in t && Listing(t, d, i, all) && Passed(all, idx, cur, k) && BlockIs(t, d, i, idx, b)
    requires if b == 0 then r == None && c == 0 else SkippedIn(Read(d, b), k - cur, c, r)
    ensures if r.Some? then Next(Dir.Live(all), k, r) else Passed(all, idx + 1, cur + c, k)
  {
    assert all == Blocks(t, d, i);
    DirAt(t, d, i, 0, idx);
    assert Slot(t, d, i, DirPath(idx)) == b;
    assert b != 0 ==> Skipped(Codec.BlkOf(Read(d, b)), k - cur, c, r);
    PassedBy(all, idx, cur, k, BlkAt(d, b), c, r);
  }

  /** One turn of the outer loop. */
  method NthIn(v: Volume, i: nat, idx: nat, cur: nat, k: nat, ghost all: seq<Dir.Blk>)
    returns (c: nat, r: Option<Dir.Entry>)
    requires i in v.table && idx < DIR_BLOCKS && Listing(v.table, v.disk, i, all) && Passed(all, idx, cur, k)
    ensures if r.Some? then Next(Dir.Live(all), k, r) else Passed(all, idx + 1, cur + c, k)
  {
    var b := BlockNumber(v, i, idx);
    c, r := 0, None;
    if b != 0 {
      c, r := SkipIn(Read(v.disk, b), k - cur);
    }
    CountNext(v.table, v.disk, i, all, idx, cur, k, b, c, r);
  }

  /** The loops of `dir_read`: the entry that `k` entries come before. */
  method Nth(v: Volume, i: nat, k: nat) returns (r: Option<Dir.Entry>, ghost all: seq<Dir.Blk>)
    requires i in v.table
    ensures Listing(v.table, v.disk, i, all) && Next(Dir.Live(all), k, r)
  {
    all := List(v.table, v.disk, i);
    PassedEnds(all, 0, k);
    var cur, idx := 0, 0;
    while idx < DIR_BLOCKS
      invariant idx <= DIR_BLOCKS && Passed(all, idx, cur, k)
    {
      var c;
      c, r := NthIn(v, i, idx, cur, k, all);
      if r.Some? {
        return;
      }
      idx, cur := idx + 1, cur + c;
    }
    PassedEnds(all, cur, k);
    r := None;
  }
}
