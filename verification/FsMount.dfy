/** A freshly formatted volume, mounted (code/fs/fs.c: `partition_format`, `mount_partition`). */
module FsMount {
  import opened Common
  import opened BitmapScan
  import opened FsIndex
  import opened FsVolume
  import opened FsAlloc
  import opened FsFormat
  import opened FsDirBlocks
  import opened FsDirDisk
  import Dir = FsDir
  import Ops = FsDirOps
  import Codec = FsDirCodec

  /** The root directory's inode: one block, the first of the data region. */
  function Root(b: nat): Sectors { [b, 0, 0, 0, 0, 0, 0, 0, 0, 0, 0, 0, 0, 0, 0] }

  /** Two directory entries. */
  const ROOT_SIZE: nat := 48

  lemma {:induction false} RootSlot(b: nat, d: Disk, p: Path)
    requires IsPath(p)
    ensures At(Root(b), d, p) == if p == [0] then b else 0
    decreases |p|
  {
    if |p| > 1 {
      UpPath(p);
      RootSlot(b, d, Up(p));
    } else {
      assert p == [p[0]];
    }
  }

  /**
   The bitmap of a fresh volume accounts for exactly the root directory's block, and the inode table for its inode.
   */
  lemma {:induction false} FreshOk(sectors: nat, d: Disk, bits: seq<bool>, stored: seq<Inode>)
    requires sectors < TWO32 && sectors / SECTORS_PER_BLOCK > 1 + INODE_BITMAP + INODE_TABLE && Plan(sectors).bitLen > 0
    requires |bits| == Plan(sectors).bitmapBlocks * BITS_PER_BLOCK
    requires forall k :: 0 <= k < |bits| ==> (bits[k] <==> k == 0 || k >= Plan(sectors).bitLen)
    requires stored == FreshInodes(Plan(sectors).dataStart, INODES)
    ensures var p := Plan(sectors);
      && Conserved(map[0 := Root(p.dataStart)], d, bits, Area(p.dataStart, p.bitLen), {})
      && Synced(map[0 := Root(p.dataStart)], map[0 := ROOT_SIZE], stored)
  {
    PlanOrdered(sectors);
    RootConserved(Area(Plan(sectors).dataStart, Plan(sectors).bitLen), d, bits);
  }

  /** A volume with the root directory's block alone. */
  lemma {:induction false} RootConserved(a: Area, d: Disk, bits: seq<bool>)
    requires 0 < a.start && a.start + |bits| < 0x8000_0000 && 0 < a.len <= |bits|
    requires forall k :: 0 <= k < |bits| ==> (bits[k] <==> k == 0 || k >= a.len)
    ensures Conserved(map[0 := Root(a.start)], d, bits, a, {})
  {
    var t: Table := map[0 := Root(a.start)];
    forall i, q | i in t && IsPath(q) ensures Slot(t, d, i, q) == if q == [0] then a.start else 0 {
      RootSlot(a.start, d, q);
    }
    assert Slot(t, d, 0, [0]) == a.start;
    assert Held(t, d, a.start);
  }

  /** The first two entries of every directory. */
  function Dots(i: nat, parent: nat): seq<Dir.Entry> { [Dir.Entry(".", i, true), Dir.Entry("..", parent, true)] }

  /** The first block of a new directory, as `partition_format` and `sys_mkdir` write it. */
  function DotBlock(i: nat, parent: nat): Block
    requires i < TWO32 && parent < TWO32
  {
    Codec.PutSlot(Codec.PutSlot(Zero(), 0, Dir.Full(Dots(i, parent)[0])), 1, Dir.Full(Dots(i, parent)[1]))
  }

  lemma {:induction false} DotSlots(i: nat, parent: nat)
    requires i < TWO32 && parent < TWO32
    ensures Codec.Zeroed(DotBlock(i, parent))
    ensures Codec.BlkOf(DotBlock(i, parent)) ==
      Dir.Blank(Dir.PER_BLOCK)[0 := Dir.Full(Dots(i, parent)[0])][1 := Dir.Full(Dots(i, parent)[1])]
  {
    var x, y := Dots(i, parent)[0], Dots(i, parent)[1];
    Codec.SeenExact(x);
    Codec.SeenExact(y);
    Codec.ZeroBlk();
    Codec.PutBlk(Zero(), 0, Dir.Full(x));
    Codec.PutZeroed(Zero(), 0, Dir.Full(x));
    Codec.PutBlk(Codec.PutSlot(Zero(), 0, Dir.Full(x)), 1, Dir.Full(y));
    Codec.PutZeroed(Codec.PutSlot(Zero(), 0, Dir.Full(x)), 1, Dir.Full(y));
  }

  lemma {:induction false} DotsLive(x: Dir.Entry, y: Dir.Entry)
    ensures Dir.LiveIn(Dir.Blank(Dir.PER_BLOCK)[0 := Dir.Full(x)][1 := Dir.Full(y)]) == [x, y]
  {
    var b := Dir.Blank(Dir.PER_BLOCK)[0 := Dir.Full(x)][1 := Dir.Full(y)];
    Dir.LiveInAround(b, 1);
    Dir.LiveInAround(b[..1], 0);
    Dir.BlankLive(b[2..]);
    assert b[..1][..0] == [] && b[..1][1..] == [];
  }

  /** A directory whose only block holds its first two entries is in order. */
  lemma {:induction false} OneBlockOk(s: Dir.State, i: nat, parent: nat)
    requires Dir.Shaped(s) && s.table == None && s.size == ROOT_SIZE
    requires forall x :: 1 <= x < DIRECT ==> s.direct[x] == []
    requires s.direct[0] ==
      Dir.Blank(Dir.PER_BLOCK)[0 := Dir.Full(Dots(i, parent)[0])][1 := Dir.Full(Dots(i, parent)[1])]
    ensures Dir.Ok(s) && Dir.Live(Dir.All(s)) == Dots(i, parent)
  {
    DotsLive(Dots(i, parent)[0], Dots(i, parent)[1]);
    Dir.LiveAround(Dir.All(s), 0);
    Ops.NoneLive(Dir.All(s)[1..]);
    assert Dir.All(s)[..0] == [];
  }

  lemma {:induction false} RootSlots(t: Table, d: Disk, i: nat, b: nat)
    requires i in t && t[i] == Root(b)
    ensures forall x :: 0 <= x < DIR_BLOCKS ==>
      IsPath(DirPath(x)) && Slot(t, d, i, DirPath(x)) == if x == 0 then b else 0
  {
    forall x | 0 <= x < DIR_BLOCKS ensures IsPath(DirPath(x)) && Slot(t, d, i, DirPath(x)) == if x == 0 then b else 0 {
      DirPathData(x);
      RootSlot(b, d, DirPath(x));
    }
  }

  lemma {:induction false} RootView(t: Table, d: Disk, i: nat, b: nat)
    requires i in t && b != 0 && t[i] == Root(b)
    ensures var s := DirOf(t, d, i, ROOT_SIZE);
      && Dir.Shaped(s) && s.table == None
      && forall x :: 0 <= x < DIRECT ==> s.direct[x] == if x == 0 then Codec.BlkOf(Read(d, b)) else []
  {
    RootSlots(t, d, i, b);
    DirShape(t, d, i, ROOT_SIZE);
    forall x | 0 <= x < DIRECT ensures Slot(t, d, i, [x]) == if x == 0 then b else 0 {
      assert DirPath(x) == [x];
    }
  }

  /**
   The directory that formatting a volume or making a directory leaves is in order and lists its first two entries.
   */
  lemma {:induction false} FreshDir(t: Table, d: Disk, i: nat, parent: nat, b: nat)
    requires i in t && i < TWO32 && parent < TWO32 && b != 0 && t[i] == Root(b) && Read(d, b) == DotBlock(i, parent)
    ensures InOrder(t, d, i, ROOT_SIZE) && Blanked(t, d, i)
    ensures Entries(t, d, i, ROOT_SIZE) == Dots(i, parent)
  {
    DotSlots(i, parent);
    RootSlots(t, d, i, b);
    RootView(t, d, i, b);
    OneBlockOk(DirOf(t, d, i, ROOT_SIZE), i, parent);
  }

  /** The inode table `partition_format` writes. */
  function FreshInodes(b: nat, n: nat): (s: seq<Inode>)
    requires n > 0
    ensures |s| == n && s[0] == Inode(0, ROOT_SIZE, Root(b)) && forall j :: 1 <= j < n ==> s[j] == NoInode()
  {
    if n == 1 then [Inode(0, ROOT_SIZE, Root(b))] else FreshInodes(b, n - 1) + [NoInode()]
  }

  /** Formats a partition and mounts it: what is in memory then satisfies all that the file layer relies on. */
  method Mount(sectors: nat, disk: Disk) returns (v: Volume)
    requires sectors < TWO32 && sectors / SECTORS_PER_BLOCK > 1 + INODE_BITMAP + INODE_TABLE && Plan(sectors).bitLen > 0
    ensures v.Valid({}) && Synced(v.table, v.sizes, v.stored) && v.table.Keys == {0}
    ensures v.area == Area(Plan(sectors).dataStart, Plan(sectors).bitLen)
    ensures |v.inodeBits| == BITS_PER_BLOCK && forall i :: 0 <= i < |v.inodeBits| ==> (v.inodeBits[i] <==> i in v.table)
    ensures v.sizes == map[0 := ROOT_SIZE] && Kept(v.table, v.sizes, v.stored) && v.open == {0}
    ensures InOrder(v.table, v.disk, 0, ROOT_SIZE) && Blanked(v.table, v.disk, 0)
    ensures Entries(v.table, v.disk, 0, ROOT_SIZE) == Dots(0, 0)
  {
    var p := Plan(sectors);
    PlanOrdered(sectors);
    BufferExact(p);
    var size := BufferSize(p);
    var mem := new bv8[size + BLOCK_SIZE](_ => 0);
    BlockBitmap(mem, p);
    var len := p.bitmapBlocks * BITS_PER_BLOCK;
    var bits := Bits(mem[..])[..len];
    var inodes := FreshInodes(p.dataStart, INODES);
    var written := disk[p.dataStart := DotBlock(0, 0)];
    FreshOk(sectors, written, bits, inodes);
    v := new Volume(Area(p.dataStart, p.bitLen), written, bits, Root(p.dataStart), ROOT_SIZE, inodes,
                    FirstBit(BITS_PER_BLOCK));
    FreshDir(v.table, v.disk, 0, 0, p.dataStart);
  }

  /** The inode bitmap of a fresh volume. */
  function FirstBit(n: nat): (bits: seq<bool>)
    ensures |bits| == n && forall i :: 0 <= i < n ==> (bits[i] <==> i == 0)
  {
    seq(n, i => i == 0)
  }
}
