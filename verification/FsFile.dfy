/** Files as byte sequences (code/fs/file.c: `file_write`, `file_read`). */
module FsFile {
  import opened Common
  import opened FsIndex
  import opened FsVolume
  import opened FsAlloc
  import opened FsNeed
  import opened FsRelease
  import opened BitSpec

  const FILE_MAX_SIZE: nat := 0xFFFF_FFFF

  /** The block that holds byte `k` of inode `i`. */
  function BlockFor(t: Table, d: Disk, i: nat, k: nat): nat
    requires i in t && k < TWO32
  {
    PathIndex(k / BLOCK_SIZE);
    Slot(t, d, i, PathOf(k / BLOCK_SIZE))
  }

  function ByteAt(t: Table, d: Disk, i: nat, k: nat): Byte
    requires i in t && k < TWO32
  {
    Read(d, BlockFor(t, d, i, k))[k % BLOCK_SIZE]
  }

  /** The first `n` bytes of a file. */
  function Content(t: Table, d: Disk, i: nat, n: nat): (c: seq<Byte>)
    requires i in t && n <= TWO32
    ensures |c| == n
  {
    seq(n, k requires 0 <= k < n => ByteAt(t, d, i, k))
  }

  lemma {:induction false} ContentAt(t: Table, d: Disk, i: nat, n: nat)
    requires i in t && n <= TWO32
    ensures forall k :: 0 <= k < n ==> Content(t, d, i, n)[k] == ByteAt(t, d, i, k)
  {
  }

  /** Files with the same bytes have the same content. */
  lemma {:induction false} SameContent(t: Table, d: Disk, t': Table, d': Disk, i: nat, n: nat)
    requires i in t && i in t' && n <= TWO32
    requires forall k :: 0 <= k < n ==> ByteAt(t', d', i, k) == ByteAt(t, d, i, k)
    ensures Content(t', d', i, n) == Content(t, d, i, n)
  {
    ContentAt(t, d, i, n);
    ContentAt(t', d', i, n);
  }

  /** The first `n` bytes of inode `i` all lie in allocated blocks. */
  ghost predicate Backed(t: Table, d: Disk, i: nat, n: nat)
    requires i in t && n <= TWO32
  {
    forall k :: 0 <= k < n ==> BlockFor(t, d, i, k) != 0
  }

  /** Inode `i` is a file: it has a size, and blocks for all its bytes. (A directory can have a hole.) */
  ghost predicate FileOk(t: Table, d: Disk, sizes: map<nat, nat>, i: nat) {
    i in t && i in sizes && sizes[i] < TWO32 && Backed(t, d, i, sizes[i])
  }

  /** Two volumes have the same inodes, with the same blocks and the same bytes in them, but perhaps for inode `i`. */
  ghost predicate SameFiles(t: Table, d: Disk, t': Table, d': Disk, i: nat) {
    && OnlyInode(t, t', i)
    && forall j, k: nat :: j in t && j != i && k < TWO32 ==>
         && BlockFor(t', d', j, k) == BlockFor(t, d, j, k)
         && (BlockFor(t, d, j, k) != 0 ==> ByteAt(t', d', j, k) == ByteAt(t, d, j, k))
  }

  /** Every other file is a file still, with the same content. */
  lemma {:induction false} FileKept(t: Table, d: Disk, t': Table, d': Disk, i: nat, sizes: map<nat, nat>, j: nat)
    requires SameFiles(t, d, t', d', i) && j != i && FileOk(t, d, sizes, j)
    ensures FileOk(t', d', sizes, j) && Content(t', d', j, sizes[j]) == Content(t, d, j, sizes[j])
  {
    SameContent(t, d, t', d', j, sizes[j]);
  }

  /** The same bytes of a backed file after an allocation. */
  lemma {:induction false} AllocBytes(t: Table, d: Disk, t': Table, d': Disk, i: nat, p: Path, b: nat, j: nat, n: nat)
    requires DataPut(t, d, t', d', i, p, b) || SameData(t, d, t', d')
    requires i in t && IsPath(p) && Slot(t, d, i, p) == 0 && j in t && n <= TWO32 && Backed(t, d, j, n)
    ensures j in t' && Backed(t', d', j, n) && Content(t', d', j, n) == Content(t, d, j, n)
  {
    forall k | 0 <= k < n
      ensures BlockFor(t', d', j, k) == BlockFor(t, d, j, k) != 0 && ByteAt(t', d', j, k) == ByteAt(t, d, j, k)
    {
      PathIndex(k / BLOCK_SIZE);
      assert BlockFor(t, d, j, k) != 0;
    }
    SameContent(t, d, t', d', j, n);
  }

  /** Two logical blocks are stored in two slots. */
  lemma {:induction false} PathInjective(a: nat, b: nat)
    requires a < INDEX_END && b < INDEX_END && a != b
    ensures PathOf(a) != PathOf(b)
  {
    PathIndex(a);
    PathIndex(b);
  }

  /** Writing the block of logical number `idx` of inode `i` changes the bytes of that logical block and no others. */
  lemma {:induction false} WriteByte(t: Table, d: Disk, i: nat, idx: nat, c: Block, j: nat, k: nat)
    requires Unshared(t, d) && i in t && idx < INDEX_END && j in t && k < TWO32 && BlockFor(t, d, j, k) != 0
    requires IsPath(PathOf(idx)) && Slot(t, d, i, PathOf(idx)) != 0
    ensures var d' := d[Slot(t, d, i, PathOf(idx)) := c];
      && BlockFor(t, d', j, k) == BlockFor(t, d, j, k)
      && ByteAt(t, d', j, k) == if j == i && k / BLOCK_SIZE == idx then c[k % BLOCK_SIZE] else ByteAt(t, d, j, k)
  {
    PathIndex(idx);
    PathIndex(k / BLOCK_SIZE);
    var b := Slot(t, d, i, PathOf(idx));
    DataNotTable(t, d, i, PathOf(idx));
    WriteAt(t, d, b, c, j, PathOf(k / BLOCK_SIZE));
    if k / BLOCK_SIZE != idx { PathInjective(k / BLOCK_SIZE, idx); }
  }

  lemma {:induction false} DataNotTable(t: Table, d: Disk, i: nat, p: Path)
    requires Unshared(t, d) && i in t && IsData(p) && Slot(t, d, i, p) != 0
    ensures !IsTable(t, d, Slot(t, d, i, p))
  {
  }

  /** The block buffer that `file_write` writes back: zeros or the old block, with the new bytes from `off` on. */
  function Patched(was: Block, off: nat, chunk: seq<Byte>): (c: Block)
    requires off + |chunk| <= BLOCK_SIZE
  {
    var base: Block := if off != 0 then was else Zero();
    base[..off] + chunk + base[off + |chunk|..]
  }

  lemma {:induction false} PatchedAt(was: Block, off: nat, chunk: seq<Byte>, k: nat)
    requires off + |chunk| <= BLOCK_SIZE && k < BLOCK_SIZE
    ensures off <= k < off + |chunk| ==> Patched(was, off, chunk)[k] == chunk[k - off]
    ensures k < off ==> Patched(was, off, chunk)[k] == was[k]
  {
  }

  /** Byte `k` after a patched block has been written. */
  lemma {:induction false} ChunkByte(t: Table, d: Disk, i: nat, pos: nat, chunk: seq<Byte>, k: nat)
    requires Unshared(t, d) && i in t && pos + |chunk| < TWO32 && Backed(t, d, i, pos) && k < pos + |chunk|
    requires pos % BLOCK_SIZE + |chunk| <= BLOCK_SIZE && BlockFor(t, d, i, pos) != 0
    ensures var b := BlockFor(t, d, i, pos);
      var d' := d[b := Patched(Read(d, b), pos % BLOCK_SIZE, chunk)];
      BlockFor(t, d', i, k) != 0 && ByteAt(t, d', i, k) == if k < pos then ByteAt(t, d, i, k) else chunk[k - pos]
  {
    var idx, off, b := pos / BLOCK_SIZE, pos % BLOCK_SIZE, BlockFor(t, d, i, pos);
    PathIndex(idx);
    var c := Patched(Read(d, b), off, chunk);
    SameBlock(pos, k, |chunk|);
    PatchedAt(Read(d, b), off, chunk, k % BLOCK_SIZE);
    assert k >= pos ==> BlockFor(t, d, i, k) == b;
    WriteByte(t, d, i, idx, c, i, k);
  }

  /** Writing a patched block appends the chunk to the file. */
  lemma {:induction false} ChunkWritten(t: Table, d: Disk, i: nat, pos: nat, chunk: seq<Byte>)
    requires Unshared(t, d) && i in t && pos + |chunk| < TWO32 && Backed(t, d, i, pos)
    requires pos % BLOCK_SIZE + |chunk| <= BLOCK_SIZE && BlockFor(t, d, i, pos) != 0
    ensures var b := BlockFor(t, d, i, pos);
      var d' := d[b := Patched(Read(d, b), pos % BLOCK_SIZE, chunk)];
      Backed(t, d', i, pos + |chunk|) && Content(t, d', i, pos + |chunk|) == Content(t, d, i, pos) + chunk
  {
    var b := BlockFor(t, d, i, pos);
    var d' := d[b := Patched(Read(d, b), pos % BLOCK_SIZE, chunk)];
    forall k | 0 <= k < pos + |chunk|
      ensures BlockFor(t, d', i, k) != 0
      ensures ByteAt(t, d', i, k) == if k < pos then ByteAt(t, d, i, k) else chunk[k - pos]
    {
      ChunkByte(t, d, i, pos, chunk, k);
    }
    ContentAt(t, d, i, pos);
    ContentAt(t, d', i, pos + |chunk|);
  }

  lemma {:induction false} SameBlock(pos: nat, k: nat, n: nat)
    requires pos % BLOCK_SIZE + n <= BLOCK_SIZE && k < pos + n
    ensures k >= pos ==> k / BLOCK_SIZE == pos / BLOCK_SIZE && k % BLOCK_SIZE == pos % BLOCK_SIZE + (k - pos)
    ensures k < pos && k / BLOCK_SIZE == pos / BLOCK_SIZE ==> k % BLOCK_SIZE < pos % BLOCK_SIZE
  {
  }

  /** Other files do not see the write. */
  lemma {:induction false} OthersKept(t: Table, d: Disk, i: nat, pos: nat, c: Block)
    requires Unshared(t, d) && i in t && pos < TWO32 && BlockFor(t, d, i, pos) != 0
    ensures SameFiles(t, d, t, d[BlockFor(t, d, i, pos) := c], i)
  {
    var b := BlockFor(t, d, i, pos);
    var d' := d[b := c];
    PathIndex(pos / BLOCK_SIZE);
    DataNotTable(t, d, i, PathOf(pos / BLOCK_SIZE));
    forall j, k: nat | j in t && j != i && k < TWO32
      ensures BlockFor(t, d', j, k) == BlockFor(t, d, j, k)
      ensures BlockFor(t, d, j, k) != 0 ==> ByteAt(t, d', j, k) == ByteAt(t, d, j, k)
    {
      PathIndex(k / BLOCK_SIZE);
      WriteAt(t, d, b, c, j, PathOf(k / BLOCK_SIZE));
    }
  }

  lemma {:induction false} SameFilesTrans(t: Table, d: Disk, t1: Table, d1: Disk, t2: Table, d2: Disk, i: nat)
    requires SameFiles(t, d, t1, d1, i) && SameFiles(t1, d1, t2, d2, i)
    ensures SameFiles(t, d, t2, d2, i)
  {
  }

  /** An allocation changes no other file. */
  lemma {:induction false} AllocKept(t: Table, d: Disk, t': Table, d': Disk, i: nat, p: Path, b: nat)
    requires DataPut(t, d, t', d', i, p, b) || SameData(t, d, t', d')
    requires i in t && IsPath(p) && OnlyInode(t, t', i)
    ensures SameFiles(t, d, t', d', i)
  {
    forall j, k: nat | j in t && j != i && k < TWO32
      ensures BlockFor(t', d', j, k) == BlockFor(t, d, j, k)
      ensures BlockFor(t, d, j, k) != 0 ==> ByteAt(t', d', j, k) == ByteAt(t, d, j, k)
    {
      PathIndex(k / BLOCK_SIZE);
    }
  }

  // ---------- file_write ----------

  /** What a turn of the write loop may rely on: the file is backed up to `pos`. */
  ghost predicate Writing(v: Volume, i: nat, pos: nat)
    reads v
  {
    v.Valid({}) && i in v.table && pos < TWO32 && Backed(v.table, v.disk, i, pos)
  }

  /** The block of position `pos` is missing, and there are too few free blocks for it and the tables above it. */
  ghost predicate Stuck(t: Table, d: Disk, bits: seq<bool>, i: nat, pos: nat)
    requires i in t && pos < TWO32
  {
    forall idx :: idx == pos / BLOCK_SIZE ==> StuckAt(t, d, bits, i, PathOf(idx))
  }

  ghost predicate StuckAt(t: Table, d: Disk, bits: seq<bool>, i: nat, p: Path)
    requires i in t
  {
    IsPath(p) && Slot(t, d, i, p) == 0 && Spare(bits) < Needs(t, d, i, p)
  }

  /** The blocks taken are those for position `pos` and the tables above it. */
  ghost predicate Charged(t: Table, d: Disk, bits: seq<bool>, t': Table, d': Disk, bits': seq<bool>, i: nat, pos: nat)
    requires pos < TWO32
  {
    forall idx :: idx == pos / BLOCK_SIZE ==> Advanced(t, d, t', d', i, PathOf(idx), Spare(bits), Spare(bits'))
  }

  lemma {:induction false} NotCharged(t: Table, d: Disk, bits: seq<bool>, i: nat, pos: nat)
    requires i in t && pos < TWO32
    ensures Charged(t, d, bits, t, d, bits, i, pos)
  {
    PathIndex(pos / BLOCK_SIZE);
    AdvancedNone(t, d, i, PathOf(pos / BLOCK_SIZE), Spare(bits));
  }

  /** Writing data changes no slot. */
  lemma {:induction false} ChargedWrite(t: Table, d: Disk, bits: seq<bool>, t': Table, d1: Disk, d2: Disk,
                                        bits': seq<bool>, i: nat, pos: nat)
    requires pos < TWO32 && i in t' && Charged(t, d, bits, t', d1, bits', i, pos)
    requires forall j, p :: j in t' && IsPath(p) ==> Slot(t', d2, j, p) == Slot(t', d1, j, p)
    ensures Charged(t, d, bits, t', d2, bits', i, pos)
  {
    var p := PathOf(pos / BLOCK_SIZE);
    assert Advanced(t, d, t', d1, i, p, Spare(bits), Spare(bits'));
    MissingSame(t', d1, t', d2, i, p, |p|);
  }

  /** The block for position `pos`, allocated if need be; 0 exactly when it cannot be had. No file changes. */
  method BlockToWrite(v: Volume, i: nat, pos: nat) returns (b: nat)
    requires Writing(v, i, pos)
    modifies v`bits, v`table, v`disk
    ensures Writing(v, i, pos) && Content(v.table, v.disk, i, pos) == old(Content(v.table, v.disk, i, pos))
    ensures SameFiles(old(v.table), old(v.disk), v.table, v.disk, i)
    ensures b == 0 <==> Stuck(old(v.table), old(v.disk), old(v.bits), i, pos)
    ensures b == BlockFor(v.table, v.disk, i, pos)
    ensures b == 0 ==> Stuck(v.table, v.disk, v.bits, i, pos) && Spare(v.bits) <= 1
    ensures Charged(old(v.table), old(v.disk), old(v.bits), v.table, v.disk, v.bits, i, pos)
  {
    var idx := pos / BLOCK_SIZE;
    PathIndex(idx);
    NotCharged(v.table, v.disk, v.bits, i, pos);
    b := v.GetDataBlock(i, idx);
    if b == 0 {
      ghost var t, d := v.table, v.disk;
      b := v.AllocDataBlock(i, idx);
      AllocKept(t, d, v.table, v.disk, i, PathOf(idx), b);
      AllocBytes(t, d, v.table, v.disk, i, PathOf(idx), b, i, pos);
    }
  }

  /** One turn of the write loop. */
  method WriteChunk(v: Volume, i: nat, pos: nat, chunk: seq<Byte>) returns (ok: bool)
    requires Writing(v, i, pos) && pos % BLOCK_SIZE + |chunk| <= BLOCK_SIZE && pos + |chunk| < TWO32
    modifies v`bits, v`table, v`disk
    ensures SameFiles(old(v.table), old(v.disk), v.table, v.disk, i)
    ensures ok ==>
      Writing(v, i, pos + |chunk|) && Content(v.table, v.disk, i, pos + |chunk|) ==
      old(Content(v.table, v.disk, i, pos)) + chunk
    ensures !ok ==>
      Writing(v, i, pos) && Content(v.table, v.disk, i, pos) == old(Content(v.table, v.disk, i, pos))
      && Stuck(v.table, v.disk, v.bits, i, pos) && Spare(v.bits) <= 1
    ensures ok <==> !Stuck(old(v.table), old(v.disk), old(v.bits), i, pos)
    ensures Charged(old(v.table), old(v.disk), old(v.bits), v.table, v.disk, v.bits, i, pos)
  {
    var b := BlockToWrite(v, i, pos);
    if b == 0 {
      return false;
    }
    ghost var t1, d1 := v.table, v.disk;
    var c := Patched(Read(v.disk, b), pos % BLOCK_SIZE, chunk);
    assert Conserved(v.table, v.disk, v.bits, v.area, {});
    ChunkWritten(v.table, v.disk, i, pos, chunk);
    OthersKept(v.table, v.disk, i, pos, c);
    PathIndex(pos / BLOCK_SIZE);
    DataNotTable(v.table, v.disk, i, PathOf(pos / BLOCK_SIZE));
    SlotsKept(v.table, v.disk, b, c);
    SameSlots(v.table, v.disk, v.disk[b := c], v.bits, v.area, {});
    v.disk := v.disk[b := c];
    SameFilesTrans(old(v.table), old(v.disk), t1, d1, v.table, v.disk, i);
    ChargedWrite(old(v.table), old(v.disk), old(v.bits), v.table, d1, v.disk, v.bits, i, pos);
    ok := true;
  }

  /** The bytes one turn of the loops of `file_write` and `file_read` moves: up to the end of the block. */
  function ChunkSize(pos: nat, left: nat): (size: nat)
    ensures size <= left && (left > 0 ==> size > 0)
  {
    var room := BLOCK_SIZE - pos % BLOCK_SIZE;
    if left < room then left else room
  }

  lemma {:induction false} ChunkFits(pos: nat, left: nat)
    ensures pos % BLOCK_SIZE + ChunkSize(pos, left) <= BLOCK_SIZE
  {
  }

  /** The write loop has stored the first `n` bytes of `buf` behind the `pos` bytes of a file that held `was`. */
  ghost predicate Stored(v: Volume, i: nat, pos: nat, buf: seq<Byte>, n: nat, t: Table, d: Disk)
    requires n <= |buf|
    reads v
  {
    && Writing(v, i, pos + n) && SameFiles(t, d, v.table, v.disk, i)
    && i in t && pos + n < TWO32 && Content(v.table, v.disk, i, pos + n) == Content(t, d, i, pos) + buf[..n]
  }

  lemma {:induction false} Extend(c: seq<Byte>, was: seq<Byte>, buf: seq<Byte>, n: nat, size: nat, chunk: seq<Byte>)
    requires n + size <= |buf| && was == c + buf[..n] && chunk == buf[n..n + size]
    ensures |chunk| == size && was + chunk == c + buf[..n + size]
  {
  }

  /** The number behind that of the last block with positions below `end`. */
  function EndBlock(end: nat): nat { (end + BLOCK_SIZE - 1) / BLOCK_SIZE }

  /**
   There are as many free blocks as blocks of the positions from `pos` up to `end`, and tables above them, are missing.
   */
  ghost predicate Affordable(t: Table, d: Disk, bits: seq<bool>, i: nat, pos: nat, end: nat)
    requires i in t && end < TWO32
  {
    forall a, b :: a == pos / BLOCK_SIZE && b == EndBlock(end) ==> |Lacking(t, d, i, a, b)| <= Spare(bits)
  }

  /** What has been taken from the free blocks is what is no longer missing in the range. */
  ghost predicate Paying(t: Table, d: Disk, bits: seq<bool>, t': Table, d': Disk, bits': seq<bool>, i: nat, pos: nat,
                         end: nat)
    requires i in t && i in t' && end < TWO32
  {
    forall a, b :: a == pos / BLOCK_SIZE && b == EndBlock(end) ==>
      Spare(bits) - |Lacking(t, d, i, a, b)| == Spare(bits') - |Lacking(t', d', i, a, b)|
  }

  lemma {:induction false} PayingOn(t: Table, d: Disk, bits: seq<bool>, t1: Table, d1: Disk, bits1: seq<bool>,
                                    t2: Table, d2: Disk, bits2: seq<bool>, i: nat, pos: nat, end: nat)
    requires i in t && i in t1 && i in t2 && end < TWO32
    requires Paying(t, d, bits, t1, d1, bits1, i, pos, end) && Paying(t1, d1, bits1, t2, d2, bits2, i, pos, end)
    ensures Paying(t, d, bits, t2, d2, bits2, i, pos, end)
  {
    assert |Lacking(t1, d1, i, pos / BLOCK_SIZE, EndBlock(end))| >= 0;
  }

  lemma {:induction false} InRange(pos: nat, at: nat, end: nat)
    requires pos <= at < end < TWO32
    ensures pos / BLOCK_SIZE <= at / BLOCK_SIZE < EndBlock(end) <= INDEX_END
  {
  }

  lemma {:induction false} ChargedPays(t: Table, d: Disk, bits: seq<bool>, t': Table, d': Disk, bits': seq<bool>,
                                       i: nat, pos: nat, at: nat, end: nat)
    requires i in t && i in t' && pos <= at < end < TWO32 && Charged(t, d, bits, t', d', bits', i, at)
    ensures Paying(t, d, bits, t', d', bits', i, pos, end)
  {
    InRange(pos, at, end);
    var idx := at / BLOCK_SIZE;
    assert Advanced(t, d, t', d', i, PathOf(idx), Spare(bits), Spare(bits'));
    LackingKept(t, d, t', d', i, pos / BLOCK_SIZE, EndBlock(end), idx, Spare(bits), Spare(bits'));
  }

  /** A write that is stuck could not be afforded. */
  lemma {:induction false} StuckOwes(t: Table, d: Disk, bits: seq<bool>, t': Table, d': Disk, bits': seq<bool>, i: nat,
                                     pos: nat, at: nat, end: nat)
    requires i in t && i in t' && pos <= at < end < TWO32 && Paying(t, d, bits, t', d', bits', i, pos, end)
    requires Stuck(t', d', bits', i, at)
    ensures !Affordable(t, d, bits, i, pos, end)
  {
    InRange(pos, at, end);
    PathIndex(at / BLOCK_SIZE);
    assert StuckAt(t', d', bits', i, PathOf(at / BLOCK_SIZE));
    LackingSome(t', d', i, pos / BLOCK_SIZE, EndBlock(end), at / BLOCK_SIZE);
    assert |Lacking(t, d, i, pos / BLOCK_SIZE, EndBlock(end))| > Spare(bits);
  }

  /** One that is done could. */
  lemma {:induction false} DoneOwes(t: Table, d: Disk, bits: seq<bool>, t': Table, d': Disk, bits': seq<bool>, i: nat,
                                    pos: nat, end: nat)
    requires i in t && i in t' && pos <= end < TWO32 && Paying(t, d, bits, t', d', bits', i, pos, end)
    requires Backed(t', d', i, end)
    ensures Affordable(t, d, bits, i, pos, end)
  {
    var a, b := pos / BLOCK_SIZE, EndBlock(end);
    forall idx | a <= idx < b ensures IsPath(PathOf(idx)) && Slot(t', d', i, PathOf(idx)) != 0 {
      PathIndex(idx);
      assert BLOCK_SIZE * idx < end && BLOCK_SIZE * idx / BLOCK_SIZE == idx;
      assert BlockFor(t', d', i, BLOCK_SIZE * idx) != 0;
    }
    LackingNone(t', d', i, a, b);
    assert |Lacking(t, d, i, a, b)| <= Spare(bits);
  }

  /** One chunk of a write to the positions from `pos` up to `end`. */
  method WriteNext(v: Volume, i: nat, at: nat, chunk: seq<Byte>, ghost pos: nat, ghost end: nat) returns (ok: bool)
    requires Writing(v, i, at) && at % BLOCK_SIZE + |chunk| <= BLOCK_SIZE && at + |chunk| < TWO32
    requires pos <= at < end < TWO32
    modifies v`bits, v`table, v`disk
    ensures SameFiles(old(v.table), old(v.disk), v.table, v.disk, i)
    ensures ok ==>
      Writing(v, i, at + |chunk|) && Content(v.table, v.disk, i, at + |chunk|) ==
      old(Content(v.table, v.disk, i, at)) + chunk
    ensures !ok ==>
      Writing(v, i, at) && Content(v.table, v.disk, i, at) == old(Content(v.table, v.disk, i, at))
      && Stuck(v.table, v.disk, v.bits, i, at) && Spare(v.bits) <= 1
    ensures Paying(old(v.table), old(v.disk), old(v.bits), v.table, v.disk, v.bits, i, pos, end)
  {
    ok := WriteChunk(v, i, at, chunk);
    ChargedPays(old(v.table), old(v.disk), old(v.bits), v.table, v.disk, v.bits, i, pos, at, end);
  }

  method WriteTurn(v: Volume, i: nat, pos: nat, buf: seq<Byte>, n: nat, ghost t: Table, ghost d: Disk, ghost end: nat)
    returns (n': nat, ok: bool)
    requires n < |buf| && Stored(v, i, pos, buf, n, t, d) && end == pos + |buf| < TWO32
    modifies v`bits, v`table, v`disk
    ensures n' <= |buf| && Stored(v, i, pos, buf, n', t, d)
    ensures if ok then n < n' else n' == n && Stuck(v.table, v.disk, v.bits, i, pos + n) && Spare(v.bits) <= 1
    ensures Paying(old(v.table), old(v.disk), old(v.bits), v.table, v.disk, v.bits, i, pos, end)
  {
    var at := pos + n;
    var size := ChunkSize(at, |buf| - n);
    var chunk := buf[n..n + size];
    ghost var t1, d1 := v.table, v.disk;
    Extend(Content(t, d, i, pos), Content(t1, d1, i, at), buf, n, size, chunk);
    ChunkFits(at, |buf| - n);
    ok := WriteNext(v, i, at, chunk, pos, end);
    SameFilesTrans(t, d, t1, d1, v.table, v.disk, i);
    n' := n;
    if ok {
      n' := n + size;
      assert pos + n' == at + |chunk|;
    }
  }

  /**
   The loop of `file_write`: writes `buf` from position `pos` on, and stops where the next block cannot be had. It comes
   to the end exactly when there are as many free blocks as blocks and tables are missing.
   */
  method WriteLoop(v: Volume, i: nat, pos: nat, buf: seq<Byte>) returns (n: nat)
    requires pos + |buf| < TWO32 && Stored(v, i, pos, buf, 0, v.table, v.disk)
    modifies v`bits, v`table, v`disk
    ensures n <= |buf| && Stored(v, i, pos, buf, n, old(v.table), old(v.disk))
    ensures n < |buf| ==> Stuck(v.table, v.disk, v.bits, i, pos + n) && Spare(v.bits) <= 1
    ensures (n == |buf|) == Affordable(old(v.table), old(v.disk), old(v.bits), i, pos, pos + |buf|)
  {
    ghost var t, d, bits, end := v.table, v.disk, v.bits, pos + |buf|;
    n := 0;
    while n < |buf|
      invariant n <= |buf| && Stored(v, i, pos, buf, n, t, d)
      invariant Paying(t, d, bits, v.table, v.disk, v.bits, i, pos, end)
    {
      ghost var t1, d1, bits1 := v.table, v.disk, v.bits;
      var ok;
      n, ok := WriteTurn(v, i, pos, buf, n, t, d, end);
      PayingOn(t, d, bits, t1, d1, bits1, v.table, v.disk, v.bits, i, pos, end);
      if !ok {
        StuckOwes(t, d, bits, v.table, v.disk, v.bits, i, pos, pos + n, end);
        return;
      }
    }
    DoneOwes(t, d, bits, v.table, v.disk, v.bits, i, pos, end);
  }

  lemma {:induction false} Unresized(v: Volume, i: nat, buf: seq<Byte>)
    requires v.Valid({}) && FileOk(v.table, v.disk, v.sizes, i)
    ensures Stored(v, i, v.sizes[i], buf, 0, v.table, v.disk)
  {
    ghost var c := Content(v.table, v.disk, i, v.sizes[i]);
    assert c + buf[..0] == c;
  }

  /** An open file: its inode and its position. */
  class File {
    const inode: nat
    var pos: nat

    constructor (inode: nat)
      ensures this.inode == inode && pos == 0
    {
      this.inode, pos := inode, 0;
    }
  }

  /** `inode_sync`: the inode goes to the place in the table on disk that the low 8 bits of its number name. */
  method InodeSync(v: Volume, i: nat)
    requires i in v.table && i in v.sizes && |v.stored| == INODES
    modifies v`stored
    ensures v.stored == old(v.stored)[i % 256 := Inode(i, v.sizes[i], v.table[i])]
  {
    v.stored := v.stored[i % 256 := Inode(i, v.sizes[i], v.table[i])];
  }

  /**
   What `inode_sync` does to a table with every inode in its place: the right thing exactly below 256; else it puts the
   inode where another belongs.
   */
  lemma {:induction false} SyncExact(stored: seq<Inode>, i: nat, x: Inode)
    requires |stored| == INODES && i < INODES && x.no == i
    requires forall j :: 0 <= j < INODES ==> stored[j].no == 0 || stored[j].no == j
    ensures stored[i % 256 := x] == stored[i := x] <==> i < 256
    ensures i >= 256 ==> stored[i % 256 := x][i] == stored[i] && stored[i % 256 := x][i % 256] != stored[i % 256]
  {
    if i >= 256 {
      assert stored[i % 256 := x][i % 256] == x && stored[i := x][i % 256] == stored[i % 256];
    }
  }

  /**
   The table on disk after a write to file `i`. If all inodes were in their places, then they still are, with this one
   brought up to date, exactly when its number is below 256; else another inode is overwritten and this one is not.
   */
  ghost predicate OnDisk(t: Table, sizes: map<nat, nat>, stored: seq<Inode>, t': Table, sizes': map<nat, nat>,
                         stored': seq<Inode>, i: nat)
    requires i in t' && i in sizes' && i < INODES == |stored| == |stored'|
  {
    Synced(t, sizes, stored) ==>
      && (stored' == stored[i := Inode(i, sizes'[i], t'[i])] <==> i < 256)
      && (i < 256 ==> Synced(t', sizes', stored'))
      && (i >= 256 ==> stored'[i] == stored[i] && stored'[i % 256] != stored[i % 256])
  }

  /** One inode of the table on disk brought up to date. */
  lemma {:induction false} SyncedAfter(t: Table, t': Table, sizes: map<nat, nat>, sizes': map<nat, nat>,
                                       stored: seq<Inode>, stored': seq<Inode>, i: nat)
    requires Synced(t, sizes, stored) && i in t && OnlyInode(t, t', i) && sizes'.Keys == sizes.Keys
    requires forall j <- sizes :: j != i ==> sizes'[j] == sizes[j]
    requires stored' == stored[i := Inode(i, sizes'[i], t'[i])]
    ensures Synced(t', sizes', stored')
  {
  }

  /**
   `file_write`: appends the first `n` bytes of `buf`; -1 when the file would grow too large. It appends all of them
   exactly when there are as many free blocks as the blocks and tables that are missing, and otherwise stops at a block
   that cannot be had. In memory no other file changes. On disk, if all inodes were in their places, they are afterwards
   exactly when the number of this one is below 256: otherwise another inode has been overwritten, and this one is out
   of date.
   */
  method FileWrite(v: Volume, f: File, buf: seq<Byte>) returns (n: int)
    requires v.Valid({}) && FileOk(v.table, v.disk, v.sizes, f.inode) && f.inode < INODES == |v.stored|
    modifies v`bits, v`table, v`disk, v`sizes, v`stored, f
    ensures v.Valid({}) && FileOk(v.table, v.disk, v.sizes, f.inode)
    ensures n == -1 <==> |buf| > FILE_MAX_SIZE - old(v.sizes)[f.inode]
    ensures n == -1 ==>
      v.table == old(v.table) && v.disk == old(v.disk) && v.sizes == old(v.sizes) && v.stored == old(v.stored)
      && f.pos == old(f.pos)
    ensures n != -1 ==>
      && 0 <= n <= |buf|
      && v.sizes == old(v.sizes)[f.inode := f.pos] && f.pos == old(v.sizes)[f.inode] + n
      && Content(v.table, v.disk, f.inode, f.pos) == old(Content(v.table, v.disk, f.inode, v.sizes[f.inode])) + buf[..n]
    ensures n != -1 ==>
      (n == |buf|) ==
      Affordable(old(v.table), old(v.disk), old(v.bits), f.inode, old(v.sizes)[f.inode], old(v.sizes)[f.inode] + |buf|)
    ensures n != -1 && n < |buf| ==> Stuck(v.table, v.disk, v.bits, f.inode, f.pos) && Spare(v.bits) <= 1
    ensures SameFiles(old(v.table), old(v.disk), v.table, v.disk, f.inode)
    ensures |v.stored| == INODES
    ensures n != -1 ==> v.stored == old(v.stored)[f.inode % 256 := Inode(f.inode, v.sizes[f.inode], v.table[f.inode])]
    ensures n != -1 ==> OnDisk(old(v.table), old(v.sizes), old(v.stored), v.table, v.sizes, v.stored, f.inode)
    ensures old(Kept(v.table, v.sizes, v.stored)) ==> Kept(v.table, v.sizes, v.stored)
  {
    var i := f.inode;
    if |buf| > FILE_MAX_SIZE - v.sizes[i] {
      Unresized(v, i, buf);
      return -1;
    }
    ghost var t, sizes, stored := v.table, v.sizes, v.stored;
    n := Append(v, f, buf);
    InodeSync(v, i);
    SyncedExactly(t, sizes, stored, v.table, v.sizes, v.stored, i);
    if Kept(t, sizes, stored) { KeptAfter(t, sizes, stored, v.table, v.sizes, v.stored, i); }
  }

  lemma {:induction false} KeptAfter(t: Table, sizes: map<nat, nat>, stored: seq<Inode>, t': Table,
                                     sizes': map<nat, nat>, stored': seq<Inode>, i: nat)
    requires Kept(t, sizes, stored) && i in t && OnlyInode(t, t', i) && i in sizes' && sizes' == sizes[i := sizes'[i]]
    requires stored' == stored[i % 256 := Inode(i, sizes'[i], t'[i])]
    ensures Kept(t', sizes', stored')
  {
    assert i >= 256 ==> stored[i] == NoInode();
  }

  lemma {:induction false} SyncedExactly(t: Table, sizes: map<nat, nat>, stored: seq<Inode>, t': Table,
                                         sizes': map<nat, nat>, stored': seq<Inode>, i: nat)
    requires i in t && OnlyInode(t, t', i) && i in sizes' && sizes' == sizes[i := sizes'[i]] && i < INODES == |stored|
    requires stored' == stored[i % 256 := Inode(i, sizes'[i], t'[i])]
    ensures OnDisk(t, sizes, stored, t', sizes', stored', i)
  {
    if Synced(t, sizes, stored) {
      SyncExact(stored, i, Inode(i, sizes'[i], t'[i]));
      if i < 256 { SyncedAfter(t, t', sizes, sizes', stored, stored', i); }
    }
  }

  /** `file_write` up to the inode. */
  method Append(v: Volume, f: File, buf: seq<Byte>) returns (n: nat)
    requires v.Valid({}) && FileOk(v.table, v.disk, v.sizes, f.inode) && |buf| <= FILE_MAX_SIZE - v.sizes[f.inode]
    modifies v`bits, v`table, v`disk, v`sizes, f
    ensures v.Valid({}) && FileOk(v.table, v.disk, v.sizes, f.inode)
    ensures v.sizes == old(v.sizes)[f.inode := f.pos] && f.pos == old(v.sizes)[f.inode] + n && n <= |buf|
    ensures n < |buf| ==> Stuck(v.table, v.disk, v.bits, f.inode, f.pos) && Spare(v.bits) <= 1
    ensures (n == |buf|) ==
      Affordable(old(v.table), old(v.disk), old(v.bits), f.inode, old(v.sizes)[f.inode], old(v.sizes)[f.inode] + |buf|)
    ensures Content(v.table, v.disk, f.inode, f.pos) ==
      old(Content(v.table, v.disk, f.inode, v.sizes[f.inode])) + buf[..n]
    ensures SameFiles(old(v.table), old(v.disk), v.table, v.disk, f.inode)
  {
    var i := f.inode;
    Unresized(v, i, buf);
    var start := v.sizes[i];
    n := WriteLoop(v, i, start, buf);
    f.pos := start + n;
    v.sizes := v.sizes[i := f.pos];
  }

  // ---------- file_read ----------

  /** The number of bytes `file_read` sets out to read; the sum and the difference are 32-bit ones. */
  function Want(pos: nat, count: nat, size: nat): (n: nat)
    requires pos < TWO32 && count < TWO32 && size < TWO32
    ensures n < TWO32
  {
    if (pos + count) % TWO32 <= size then count else if pos <= size then size - pos else size + TWO32 - pos
  }

  /** The clipping at the end of the file is right exactly when the sum does not wrap. */
  lemma {:induction false} WantExact(pos: nat, count: nat, size: nat)
    requires pos <= size < TWO32 && count < TWO32
    ensures Want(pos, count, size) == (if count < size - pos then count else size - pos) <==> pos + count < TWO32
    ensures pos + count >= TWO32 ==> Want(pos, count, size) == count > size - pos
  {
  }

  /** Positions are 32 bits wide. */
  function Wrap(pos: nat): nat
    requires pos < 2 * TWO32
  {
    if pos < TWO32 then pos else pos - TWO32
  }

  /** The block of every position of a file, 0 where none is allocated; the positions of a block share it. */
  type Places = nat -> nat

  function PlacesOf(t: Table, d: Disk, i: nat): Places
    requires i in t
  {
    (k: nat) => if k < TWO32 then BlockFor(t, d, i, k) else 0
  }

  ghost predicate Blockwise(w: Places) { forall j: nat, k: nat :: j / BLOCK_SIZE == k / BLOCK_SIZE ==> w(j) == w(k) }

  /** The bytes `c` are those at the places `w`, all of them allocated. */
  ghost predicate Lies(w: Places, d: Disk, c: seq<Byte>) {
    forall k: nat :: k < |c| ==> w(k) != 0 && c[k] == ByteOf(w, d, k)
  }

  lemma {:induction false} PlacesBlockwise(t: Table, d: Disk, i: nat)
    requires i in t
    ensures Blockwise(PlacesOf(t, d, i))
  {
    var w := PlacesOf(t, d, i);
    forall j: nat, k: nat | j / BLOCK_SIZE == k / BLOCK_SIZE ensures w(j) == w(k) {
      assert j < TWO32 <==> k < TWO32;
    }
  }

  lemma {:induction false} ContentLies(t: Table, d: Disk, i: nat, size: nat)
    requires i in t && size < TWO32 && Backed(t, d, i, size)
    ensures Lies(PlacesOf(t, d, i), d, Content(t, d, i, size))
  {
    ContentAt(t, d, i, size);
  }

  function ByteOf(w: Places, d: Disk, pos: nat): Byte { Read(d, w(pos))[pos % BLOCK_SIZE] }

  /**
   What the loop of `file_read` collects: up to `n` bytes from `pos` on, up to a byte that no block is allocated for.
   */
  function ReadOn(w: Places, d: Disk, pos: nat, n: nat): (r: seq<Byte>)
    requires pos < TWO32 && n < TWO32
    ensures |r| <= n
    decreases n
  {
    if n == 0 || w(pos) == 0 then [] else [ByteOf(w, d, pos)] + ReadOn(w, d, Wrap(pos + 1), n - 1)
  }

  /** Inside the file, up to byte `e`, the loop collects a slice. */
  lemma {:induction false} ReadOnSlice(w: Places, d: Disk, c: seq<Byte>, pos: nat, n: nat, e: nat)
    requires Lies(w, d, c) && pos <= e <= |c| < TWO32 && n == e - pos
    ensures ReadOn(w, d, pos, n) == c[pos..e]
    decreases n
  {
    if n > 0 {
      ReadOnSlice(w, d, c, pos + 1, n - 1, e);
    }
  }

  /**
   Beyond its end it collects the rest of the file, and then more exactly when the block behind the last byte is
   allocated.
   */
  lemma {:induction false} ReadOnBeyond(w: Places, d: Disk, c: seq<Byte>, pos: nat, n: nat)
    requires Lies(w, d, c) && pos <= |c| < TWO32 && |c| - pos < n < TWO32
    ensures var r := ReadOn(w, d, pos, n);
      |r| >= |c| - pos && r[..|c| - pos] == c[pos..|c|] && (|r| == |c| - pos <==> w(|c|) == 0)
    decreases n
  {
    if pos < |c| {
      ReadOnBeyond(w, d, c, pos + 1, n - 1);
      var rest := ReadOn(w, d, pos + 1, n - 1);
      assert ReadOn(w, d, pos, n)[..|c| - pos] == [c[pos]] + rest[..|c| - (pos + 1)];
    }
  }

  /** The bytes `got`, and the rest, are what the loop collects from `pos` on. */
  ghost predicate Turn(w: Places, d: Disk, pos: nat, n: nat, got: seq<Byte>) {
    && pos < TWO32 && |got| <= n < TWO32
    && ReadOn(w, d, pos, n) == got + ReadOn(w, d, Wrap(pos + |got|), n - |got|)
  }

  /** One byte in front of a turn. */
  lemma {:induction false} TurnMore(w: Places, d: Disk, pos: nat, n: nat, rest: seq<Byte>)
    requires pos + 1 < TWO32 && 0 < n < TWO32 && w(pos) != 0 && Turn(w, d, pos + 1, n - 1, rest)
    ensures Turn(w, d, pos, n, [ByteOf(w, d, pos)] + rest)
  {
    var x, last := ByteOf(w, d, pos), ReadOn(w, d, Wrap(pos + 1 + |rest|), n - 1 - |rest|);
    assert ReadOn(w, d, pos, n) == [x] + (rest + last);
    assert |[x] + rest| == 1 + |rest|;
    assert [x] + (rest + last) == [x] + rest + last;
  }

  lemma {:induction false} TurnOne(w: Places, d: Disk, pos: nat, n: nat)
    requires pos < TWO32 && 0 < n < TWO32 && w(pos) != 0
    ensures Turn(w, d, pos, n, [ByteOf(w, d, pos)])
  {
  }

  /** A run of allocated bytes is a turn. */
  lemma {:induction false} RunTurn(w: Places, d: Disk, pos: nat, n: nat, got: seq<Byte>)
    requires pos < TWO32 && 0 < |got| <= n < TWO32 && pos + |got| <= TWO32
    requires forall q: nat :: pos <= q < pos + |got| ==> w(q) != 0 && got[q - pos] == ByteOf(w, d, q)
    ensures Turn(w, d, pos, n, got)
    decreases |got|
  {
    var rest := got[1..];
    assert w(pos) != 0 && got[0] == ByteOf(w, d, pos);
    if rest == [] {
      TurnOne(w, d, pos, n);
      assert got == [got[0]];
    } else {
      RunTurn(w, d, pos + 1, n - 1, rest);
      TurnMore(w, d, pos, n, rest);
      assert got == [got[0]] + rest;
    }
  }

  /** The bytes of a block from a position on. */
  lemma {:induction false} BlockTurn(w: Places, d: Disk, pos: nat, n: nat, off: nat, k: nat)
    requires Blockwise(w) && pos < TWO32 && 0 < k <= n < TWO32 && off == pos % BLOCK_SIZE && off + k <= BLOCK_SIZE
    requires w(pos) != 0
    ensures Turn(w, d, pos, n, Read(d, w(pos))[off..off + k])
  {
    var got := Read(d, w(pos))[off..off + k];
    forall q: nat | pos <= q < pos + k ensures w(q) != 0 && got[q - pos] == ByteOf(w, d, q) {
      SameBlock(pos, q, k);
    }
    BlockEnd(pos, k);
    RunTurn(w, d, pos, n, got);
  }

  lemma {:induction false} BlockEnd(pos: nat, k: nat)
    requires pos < TWO32 && pos % BLOCK_SIZE + k <= BLOCK_SIZE
    ensures pos + k <= TWO32
  {
    assert pos / BLOCK_SIZE < TWO32 / BLOCK_SIZE;
  }

  /** One turn of the read loop. */
  method ReadChunk(v: Volume, i: nat, pos: nat, n: nat, ghost w: Places) returns (got: seq<Byte>)
    requires i in v.table && pos < TWO32 && 0 < n < TWO32 && w == PlacesOf(v.table, v.disk, i) && Blockwise(w)
    ensures if got == [] then w(pos) == 0 else Turn(w, v.disk, pos, n, got)
  {
    PathIndex(pos / BLOCK_SIZE);
    var b := v.GetDataBlock(i, pos / BLOCK_SIZE);
    if b == 0 {
      return [];
    }
    var off, k := pos % BLOCK_SIZE, ChunkSize(pos, n);
    ChunkFits(pos, n);
    BlockTurn(w, v.disk, pos, n, off, k);
    got := Read(v.disk, b)[off..off + k];
  }

  /** The bytes `buf` have been collected and `left` are still to come, from `pos` on. */
  ghost predicate Collected(w: Places, d: Disk, start: nat, n: nat, buf: seq<Byte>, pos: nat, left: int) {
    && start < TWO32 && n < TWO32 && pos < TWO32 && 0 <= left && left + |buf| == n && pos == Wrap(start + |buf|)
    && ReadOn(w, d, start, n) == buf + ReadOn(w, d, pos, left)
  }

  lemma {:induction false} NoneCollected(w: Places, d: Disk, start: nat, n: nat)
    requires start < TWO32 && n < TWO32
    ensures Collected(w, d, start, n, [], start, n)
  {
    assert [] + ReadOn(w, d, start, n) == ReadOn(w, d, start, n);
  }

  lemma {:induction false} CollectedMore(w: Places, d: Disk, start: nat, n: nat, buf: seq<Byte>, pos: nat, left: nat,
                                         got: seq<Byte>, buf': seq<Byte>, pos': nat, left': int)
    requires Collected(w, d, start, n, buf, pos, left) && Turn(w, d, pos, left, got)
    requires buf' == buf + got && pos' == Wrap(pos + |got|) && left' == left - |got|
    ensures Collected(w, d, start, n, buf', pos', left')
  {
    var rest := ReadOn(w, d, pos', left');
    assert buf + (got + rest) == buf + got + rest;
  }

  lemma {:induction false} CollectedAll(w: Places, d: Disk, start: nat, n: nat, buf: seq<Byte>, pos: nat, left: nat)
    requires Collected(w, d, start, n, buf, pos, left) && (left == 0 || w(pos) == 0)
    ensures ReadOn(w, d, start, n) == buf
  {
    assert buf + [] == buf;
  }

  /** One turn, and the position moves on; no `more` when the block is not allocated. */
  method ReadTurn(v: Volume, f: File, buf: seq<Byte>, left: nat, ghost w: Places, ghost start: nat, ghost n: nat)
    returns (buf': seq<Byte>, left': nat, more: bool)
    requires f.inode in v.table && left > 0 && w == PlacesOf(v.table, v.disk, f.inode) && Blockwise(w)
    requires Collected(w, v.disk, start, n, buf, f.pos, left)
    modifies f`pos
    ensures Collected(w, v.disk, start, n, buf', f.pos, left')
    ensures if more then left' < left else w(f.pos) == 0
  {
    var got := ReadChunk(v, f.inode, f.pos, left, w);
    if got == [] {
      return buf, left, false;
    }
    var pos := Wrap(f.pos + |got|);
    buf', left', more := buf + got, left - |got|, true;
    CollectedMore(w, v.disk, start, n, buf, f.pos, left, got, buf', pos, left');
    f.pos := pos;
  }

  /** The loop of `file_read`. */
  method ReadLoop(v: Volume, f: File, n: nat, ghost w: Places) returns (buf: seq<Byte>)
    requires f.inode in v.table && f.pos < TWO32 && n < TWO32 && w == PlacesOf(v.table, v.disk, f.inode) && Blockwise(w)
    modifies f`pos
    ensures buf == ReadOn(w, v.disk, old(f.pos), n) && f.pos == Wrap(old(f.pos) + |buf|)
  {
    buf := [];
    var left: nat, more := n, true;
    ghost var start := f.pos;
    NoneCollected(w, v.disk, start, n);
    while left > 0 && more
      invariant Collected(w, v.disk, start, n, buf, f.pos, left) && (more || w(f.pos) == 0)
      decreases left, more
    {
      buf, left, more := ReadTurn(v, f, buf, left, w, start, n);
    }
    CollectedAll(w, v.disk, start, n, buf, f.pos, left);
  }

  /** The answer of `file_read` is what the allocated blocks hold from the position on. */
  ghost predicate Fetches(w: Places, d: Disk, size: nat, pos: nat, count: nat, buf: seq<Byte>)
    requires pos < TWO32 && count < TWO32 && size < TWO32
  {
    forall n :: n == Want(pos, count, size) ==> buf == ReadOn(w, d, pos, n)
  }

  /** What `file_read` returns of a file with content `c`; `behind` is the block behind its last byte. */
  ghost predicate Answer(c: seq<Byte>, behind: nat, pos: nat, count: nat, buf: seq<Byte>)
    requires pos <= |c|
  {
    if pos + count < TWO32 then buf == c[pos..if pos + count <= |c| then pos + count else |c|]
    else |buf| >= |c| - pos && buf[..|c| - pos] == c[pos..|c|] && (|buf| == |c| - pos <==> behind == 0)
  }

  /**
   `file_read`: the bytes from the position on, as many as asked for or as there are, and the position moves past them.
   When position and count add up to 2^32 or more, the clipping fails: the answer starts with the rest of the file, and
   goes on behind it exactly when the block there is allocated. From any position, also behind the end, the answer is
   what the allocated blocks hold.
   */
  method FileRead(v: Volume, f: File, count: nat) returns (buf: seq<Byte>)
    requires FileOk(v.table, v.disk, v.sizes, f.inode) && f.pos < TWO32 && count < TWO32
    modifies f`pos
    ensures |buf| < TWO32 && f.pos == Wrap(old(f.pos) + |buf|)
    ensures Fetches(PlacesOf(v.table, v.disk, f.inode), v.disk, v.sizes[f.inode], old(f.pos), count, buf)
    ensures var size := v.sizes[f.inode];
      old(f.pos) <= size ==>
      Answer(Content(v.table, v.disk, f.inode, size), BlockFor(v.table, v.disk, f.inode, size), old(f.pos), count, buf)
  {
    ghost var w, c := PlacesOf(v.table, v.disk, f.inode), Content(v.table, v.disk, f.inode, v.sizes[f.inode]);
    PlacesBlockwise(v.table, v.disk, f.inode);
    ContentLies(v.table, v.disk, f.inode, v.sizes[f.inode]);
    if f.pos <= |c| { AnswerIs(w, v.disk, c, f.pos, count); }
    buf := ReadLoop(v, f, Want(f.pos, count, v.sizes[f.inode]), w);
  }

  lemma {:induction false} AnswerIs(w: Places, d: Disk, c: seq<Byte>, pos: nat, count: nat)
    requires Lies(w, d, c) && pos <= |c| < TWO32 && count < TWO32
    ensures var want := Want(pos, count, |c|);
      Answer(c, w(|c|), pos, count, ReadOn(w, d, pos, want))
  {
    WantExact(pos, count, |c|);
    var want := Want(pos, count, |c|);
    if pos + count < TWO32 {
      ReadOnSlice(w, d, c, pos, want, pos + want);
    } else {
      ReadOnBeyond(w, d, c, pos, count);
    }
  }

  // ---------- runs of writes and reads ----------

  /** What a series of writes leaves: write `k` stored the first `ns[k]` bytes of `bufs[k]`. */
  function Written(bytes: seq<Byte>, bufs: seq<seq<Byte>>, ns: seq<nat>): seq<Byte>
    requires |bufs| == |ns| && forall k :: 0 <= k < |ns| ==> ns[k] <= |bufs[k]|
    decreases |bufs|
  {
    if bufs == [] then bytes else Written(bytes + bufs[0][..ns[0]], bufs[1..], ns[1..])
  }

  /** What a series of reads from position `pos` returns, one after the other. */
  function Reads(bytes: seq<Byte>, pos: nat, counts: seq<nat>): seq<seq<Byte>>
    requires pos <= |bytes|
    decreases |counts|
  {
    if counts == [] then []
    else
      var end := if pos + counts[0] <= |bytes| then pos + counts[0] else |bytes|;
      [bytes[pos..end]] + Reads(bytes, end, counts[1..])
  }

  function Concat(ss: seq<seq<Byte>>): seq<Byte> {
    if ss == [] then [] else ss[0] + Concat(ss[1..])
  }

  function Total(ns: seq<nat>): nat {
    if ns == [] then 0 else ns[0] + Total(ns[1..])
  }

  /** The first `ns[k]` bytes of every buffer. */
  function Prefixes(bufs: seq<seq<Byte>>, ns: seq<nat>): seq<seq<Byte>>
    requires |bufs| == |ns| && forall k :: 0 <= k < |ns| ==> ns[k] <= |bufs[k]|
  {
    if bufs == [] then [] else [bufs[0][..ns[0]]] + Prefixes(bufs[1..], ns[1..])
  }

  lemma {:induction false} WritesConcat(bytes: seq<Byte>, bufs: seq<seq<Byte>>, ns: seq<nat>)
    requires |bufs| == |ns| && forall k :: 0 <= k < |ns| ==> ns[k] <= |bufs[k]|
    ensures Written(bytes, bufs, ns) == bytes + Concat(Prefixes(bufs, ns))
    decreases |bufs|
  {
    if bufs != [] {
      WritesConcat(bytes + bufs[0][..ns[0]], bufs[1..], ns[1..]);
    }
  }

  lemma {:induction false} ReadsConcat(bytes: seq<Byte>, pos: nat, counts: seq<nat>)
    requires pos <= |bytes|
    ensures var end := if pos + Total(counts) <= |bytes| then pos + Total(counts) else |bytes|;
      Concat(Reads(bytes, pos, counts)) == bytes[pos..end]
    decreases |counts|
  {
    if counts != [] {
      var end := if pos + counts[0] <= |bytes| then pos + counts[0] else |bytes|;
      ReadsConcat(bytes, end, counts[1..]);
    }
  }

  /**
   Any series of writes to an empty file, then any series of reads that asks for enough, gives back the concatenation.
   */
  lemma {:induction false} WritesThenReads(bufs: seq<seq<Byte>>, ns: seq<nat>, counts: seq<nat>)
    requires |bufs| == |ns| && forall k :: 0 <= k < |ns| ==> ns[k] <= |bufs[k]|
    ensures var bytes := Written([], bufs, ns);
      Total(counts) >= |bytes| ==> Concat(Reads(bytes, 0, counts)) == Concat(Prefixes(bufs, ns))
  {
    WritesConcat([], bufs, ns);
    ReadsConcat(Written([], bufs, ns), 0, counts);
  }

  // ---------- programs that write and read ----------

  /** A write that fails stores nothing. */
  function Stores(n: int): nat { if n < 0 then 0 else n }

  /** Writes the buffers one after the other; `ns` says how much of each was stored. */
  method WriteAll(v: Volume, f: File, bufs: seq<seq<Byte>>) returns (ns: seq<nat>)
    requires v.Valid({}) && FileOk(v.table, v.disk, v.sizes, f.inode) && f.inode < INODES == |v.stored|
    modifies v`bits, v`table, v`disk, v`sizes, v`stored, f
    ensures v.Valid({}) && FileOk(v.table, v.disk, v.sizes, f.inode)
    ensures |ns| == |bufs| && forall k :: 0 <= k < |ns| ==> ns[k] <= |bufs[k]|
    ensures Content(v.table, v.disk, f.inode, v.sizes[f.inode]) ==
      Written(old(Content(v.table, v.disk, f.inode, v.sizes[f.inode])), bufs, ns)
    ensures SameFiles(old(v.table), old(v.disk), v.table, v.disk, f.inode)
    decreases |bufs|
  {
    if bufs == [] {
      Unresized(v, f.inode, []);
      return [];
    }
    ghost var t, d, sizes := v.table, v.disk, v.sizes;
    var n := FileWrite(v, f, bufs[0]);
    ghost var t1, d1 := v.table, v.disk;
    var rest := WriteAll(v, f, bufs[1..]);
    SameFilesTrans(t, d, t1, d1, v.table, v.disk, f.inode);
    ns := [Stores(n)] + rest;
    assert ns[1..] == rest;
    ghost var c := Content(t, d, f.inode, sizes[f.inode]);
    assert n == -1 ==> c + bufs[0][..0] == c;
  }

  /** The number of bytes asked for is 32 bits wide. */
  type Count = n: nat | n < TWO32

  /** The answers of a series of calls of `file_read`, whatever the sums of position and count. */
  ghost predicate Fetched(w: Places, d: Disk, size: nat, pos: nat, counts: seq<Count>, out: seq<seq<Byte>>)
    requires size < TWO32 && pos < TWO32
    decreases |counts|
  {
    && |out| == |counts|
    && (counts != [] ==>
         && |out[0]| < TWO32 && Fetches(w, d, size, pos, counts[0], out[0])
         && Fetched(w, d, size, Wrap(pos + |out[0]|), counts[1..], out[1..]))
  }

  /** No sum of a position in a file of that size and one of the counts wraps. */
  predicate Small(size: nat, counts: seq<nat>) { forall k :: 0 <= k < |counts| ==> size + counts[k] < TWO32 }

  /** Without a wrap, the answers are the slices of the file one after the other. */
  lemma {:induction false} FetchedReads(w: Places, d: Disk, c: seq<Byte>, pos: nat, counts: seq<Count>,
                                        out: seq<seq<Byte>>)
    requires Lies(w, d, c) && pos <= |c| < TWO32 && Small(|c|, counts) && Fetched(w, d, |c|, pos, counts, out)
    ensures out == Reads(c, pos, counts)
    decreases |counts|
  {
    if counts != [] {
      assert |c| + counts[0] < TWO32;
      var end := if pos + counts[0] <= |c| then pos + counts[0] else |c|;
      FetchesSlice(w, d, c, pos, counts[0], out[0]);
      FetchedReads(w, d, c, end, counts[1..], out[1..]);
    }
  }

  lemma {:induction false} FetchesSlice(w: Places, d: Disk, c: seq<Byte>, pos: nat, count: nat, buf: seq<Byte>)
    requires Lies(w, d, c) && pos <= |c| < TWO32 && |c| + count < TWO32 && Fetches(w, d, |c|, pos, count, buf)
    ensures buf == c[pos..if pos + count <= |c| then pos + count else |c|]
  {
    AnswerIs(w, d, c, pos, count);
    assert buf == ReadOn(w, d, pos, Want(pos, count, |c|));
  }

  lemma {:induction false} SmallFetched(t: Table, d: Disk, i: nat, size: nat, pos: nat, counts: seq<Count>,
                                        out: seq<seq<Byte>>)
    requires i in t && pos <= size < TWO32 && Backed(t, d, i, size) && Small(size, counts)
    requires Fetched(PlacesOf(t, d, i), d, size, pos, counts, out)
    ensures out == Reads(Content(t, d, i, size), pos, counts)
  {
    ContentLies(t, d, i, size);
    FetchedReads(PlacesOf(t, d, i), d, Content(t, d, i, size), pos, counts, out);
  }

  /** Calls `file_read` for every count in turn. */
  method ReadEach(v: Volume, f: File, counts: seq<Count>) returns (out: seq<seq<Byte>>)
    requires FileOk(v.table, v.disk, v.sizes, f.inode) && f.pos < TWO32
    modifies f`pos
    ensures Fetched(PlacesOf(v.table, v.disk, f.inode), v.disk, v.sizes[f.inode], old(f.pos), counts, out)
    decreases |counts|
  {
    out := [];
    if counts != [] {
      var buf := FileRead(v, f, counts[0]);
      var rest := ReadEach(v, f, counts[1..]);
      out := [buf] + rest;
      assert out[1..] == rest;
    }
  }

  /**
   Reads as many bytes as asked for, again and again. The answers are those of `Fetched`; from a position inside the
   file and without a wrap, the slices of the file one after the other.
   */
  method ReadAll(v: Volume, f: File, counts: seq<Count>) returns (out: seq<seq<Byte>>)
    requires FileOk(v.table, v.disk, v.sizes, f.inode) && f.pos < TWO32
    modifies f`pos
    ensures Fetched(PlacesOf(v.table, v.disk, f.inode), v.disk, v.sizes[f.inode], old(f.pos), counts, out)
    ensures old(f.pos) <= v.sizes[f.inode] && Small(v.sizes[f.inode], counts) ==>
      out == Reads(Content(v.table, v.disk, f.inode, v.sizes[f.inode]), old(f.pos), counts)
  {
    ghost var size, pos := v.sizes[f.inode], f.pos;
    out := ReadEach(v, f, counts);
    if pos <= size && Small(size, counts) { SmallFetched(v.table, v.disk, f.inode, size, pos, counts, out); }
  }

  /** Whatever a program writes to an empty file, it reads back from its beginning, in pieces of any sizes. */
  method WriteThenRead(v: Volume, f: File, bufs: seq<seq<Byte>>, counts: seq<Count>)
    returns (ns: seq<nat>, out: seq<seq<Byte>>)
    requires v.Valid({}) && FileOk(v.table, v.disk, v.sizes, f.inode) && f.inode < INODES == |v.stored|
    requires v.sizes[f.inode] == 0
    modifies v`bits, v`table, v`disk, v`sizes, v`stored, f
    ensures |ns| == |bufs| && (forall k :: 0 <= k < |ns| ==> ns[k] <= |bufs[k]|)
    ensures Small(Length(bufs), counts) && Total(counts) >= Length(bufs) ==> Concat(out) == Concat(Prefixes(bufs, ns))
  {
    ghost var was := Content(v.table, v.disk, f.inode, 0);
    ns := WriteAll(v, f, bufs);
    assert was == [];
    WritesConcat([], bufs, ns);
    Shorter(bufs, ns);
    f.pos := 0;
    out := ReadAll(v, f, counts);
    WritesThenReads(bufs, ns, counts);
  }

  function Length(bufs: seq<seq<Byte>>): nat { if bufs == [] then 0 else |bufs[0]| + Length(bufs[1..]) }

  lemma {:induction false} Shorter(bufs: seq<seq<Byte>>, ns: seq<nat>)
    requires |bufs| == |ns| && forall k :: 0 <= k < |ns| ==> ns[k] <= |bufs[k]|
    ensures |Concat(Prefixes(bufs, ns))| <= Length(bufs)
    decreases |bufs|
  {
    if bufs != [] { Shorter(bufs[1..], ns[1..]); }
  }

  // ---------- a file deleted ----------

  /** Only the root directory owns the first data block. */
  lemma {:induction false} NotRoots(v: Volume, i: nat)
    requires v.Valid({}) && 0 in v.table && v.table[0][0] == v.area.start && i in v.table && i != 0
    ensures !Owns(v.table, v.disk, i, v.area.start)
  {
    assert Conserved(v.table, v.disk, v.bits, v.area, {});
    assert Slot(v.table, v.disk, 0, [0]) == v.area.start;
  }

  /**
   A file that is written, closed and deleted: the assertion in `inode_release` holds exactly when its inode is one of
   the first 256.
   */
  method WriteAndDelete(v: Volume, f: File, buf: seq<Byte>) returns (n: int, ok: bool)
    requires v.Valid({}) && FileOk(v.table, v.disk, v.sizes, f.inode) && Kept(v.table, v.sizes, v.stored)
    requires 0 < f.inode < |v.inodeBits| && 0 in v.table && v.table[0][0] == v.area.start
    modifies v`bits, v`table, v`disk, v`sizes, v`stored, v`inodeBits, v`open, f
    ensures v.Valid({}) && Kept(v.table, v.sizes, v.stored)
    ensures n != -1 ==> (ok <==> f.inode < 256) && (ok <==> f.inode !in v.table)
  {
    n := FileWrite(v, f, buf);
    v.open := v.open - {f.inode};
    NotRoots(v, f.inode);
    ok := Release(v, f.inode);
  }
}
