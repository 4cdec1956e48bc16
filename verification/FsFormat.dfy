/** The layout of a fresh volume (code/fs/fs.c: `partition_format`; code/fs/fs.h). */
module FsFormat {
  import opened Common
  import opened BitmapScan
  import opened BitSpec

  const SECTORS_PER_BLOCK: nat := 8
  const BITS_PER_BLOCK: nat := 32768
  const INODE_BITMAP: nat := 1
  const INODE_TABLE: nat := 84

  function RoundUp(x: nat, y: nat): nat
    requires y > 0
  {
    (x + y - 1) / y
  }

  /** Where the regions of a volume start, in blocks, and how many bits of the block bitmap stand for blocks. */
  datatype Layout = Layout(total: nat, bitmapStart: nat, bitmapBlocks: nat, inodeBitmapStart: nat, inodeTableStart: nat,
                           dataStart: nat, bitLen: nat)

  /** The layout for a partition of `sectors` sectors; the subtractions are 32-bit ones. */
  function Plan(sectors: nat): Layout {
    var total := sectors / SECTORS_PER_BLOCK;
    var free := (total - (1 + INODE_BITMAP + INODE_TABLE)) % TWO32;
    var bitLen := (free - RoundUp(free, BITS_PER_BLOCK)) % TWO32;
    var blocks := RoundUp(bitLen, BITS_PER_BLOCK);
    Layout(total, 1, blocks, 1 + blocks, 1 + blocks + INODE_BITMAP, 1 + blocks + INODE_BITMAP + INODE_TABLE, bitLen)
  }

  /** Regions follow one another, and the data region with all its bits ends with the partition, or one block before. */
  lemma {:induction false} PlanOrdered(sectors: nat)
    requires sectors < TWO32 && sectors / SECTORS_PER_BLOCK > 1 + INODE_BITMAP + INODE_TABLE
    ensures var p := Plan(sectors);
      && 0 < p.bitmapStart && p.bitmapStart + p.bitmapBlocks == p.inodeBitmapStart
      && p.inodeBitmapStart + INODE_BITMAP == p.inodeTableStart
      && p.inodeTableStart + INODE_TABLE == p.dataStart
      && p.dataStart + p.bitLen <= p.total <= p.dataStart + p.bitLen + 1
      && p.bitLen <= p.bitmapBlocks * BITS_PER_BLOCK < p.bitLen + BITS_PER_BLOCK
  {
    var total := sectors / SECTORS_PER_BLOCK;
    var free := total - 86;
    assert free % TWO32 == free;
    var first := RoundUp(free, BITS_PER_BLOCK);
    RoundUpBounds(free);
    assert first <= free;
    RoundUpBounds(free - first);
    assert (free - first) % TWO32 == free - first;
  }

  lemma {:induction false} RoundUpBounds(x: nat)
    ensures x <= RoundUp(x, BITS_PER_BLOCK) * BITS_PER_BLOCK < x + BITS_PER_BLOCK
    ensures RoundUp(x, BITS_PER_BLOCK) <= x
  {
  }

  /** The size of the buffer: the larger of the two bitmaps, in bytes. */
  function BufferSize(p: Layout): nat {
    (if p.bitmapBlocks >= INODE_BITMAP then p.bitmapBlocks else INODE_BITMAP) * BLOCK_SIZE
  }

  /** Where the last `memset` of the bitmap ends. */
  function FillEnd(p: Layout): nat { p.bitLen / 8 + 1 + (BLOCK_SIZE - p.bitLen / 8 % BLOCK_SIZE - 1) }

  /** The bits fill the last block of the bitmap: the case in which `partition_format` writes past its buffer. */
  predicate Overflows(p: Layout) { p.bitLen > 0 && p.bitLen % BITS_PER_BLOCK == 0 }

  /** What `partition_format` writes ends with its buffer, or else one block behind it. */
  lemma {:induction false} BufferExact(p: Layout)
    requires p.bitmapBlocks == RoundUp(p.bitLen, BITS_PER_BLOCK)
    ensures if Overflows(p) then p.bitLen / 8 == BufferSize(p) && FillEnd(p) == BufferSize(p) + BLOCK_SIZE
            else p.bitLen / 8 < BufferSize(p) == FillEnd(p)
    ensures FillEnd(p) <= BufferSize(p) <==> !Overflows(p)
    ensures p.bitLen <= 8 * BufferSize(p)
  {
    var q, r := p.bitLen / BITS_PER_BLOCK, p.bitLen % BITS_PER_BLOCK;
    BlockParts(p.bitLen, q, r);
  }

  /** A number of bits in whole blocks and rest. */
  lemma {:induction false} BlockParts(x: nat, q: nat, r: nat)
    requires x == q * BITS_PER_BLOCK + r && r < BITS_PER_BLOCK
    ensures x / 8 == q * BLOCK_SIZE + r / 8 && x / 8 % BLOCK_SIZE == r / 8 < BLOCK_SIZE
    ensures RoundUp(x, BITS_PER_BLOCK) == if r == 0 then q else q + 1
  {
    InBlock(q, r / 8);
  }

  lemma {:induction false} InBlock(q: nat, o: nat)
    requires o < BLOCK_SIZE
    ensures (q * BLOCK_SIZE + o) % BLOCK_SIZE == o
  {
  }

  /** A partition that is formatted past the buffer: 262848 sectors. */
  lemma {:induction false} OverflowExample()
    ensures Overflows(Plan(262848)) && Plan(262848).bitLen == 32768
  {
  }

  /**
   The block bitmap in the first bytes of a piece of memory: bit 0 for the root directory, and all bits past the last
   block. What lies behind the buffer stays, unless the bits fill the last block: then a whole block behind it is set.
   */
  method BlockBitmap(mem: array<bv8>, p: Layout)
    requires p.bitmapBlocks == RoundUp(p.bitLen, BITS_PER_BLOCK) && mem.Length >= BufferSize(p) + BLOCK_SIZE
    modifies mem
    ensures forall k :: 0 <= k < 8 * BufferSize(p) ==> (Bits(mem[..])[k] <==> k == 0 || k >= p.bitLen)
    ensures forall k :: BufferSize(p) <= k < mem.Length && (!Overflows(p) || k >= BufferSize(p) + BLOCK_SIZE) ==>
      mem[k] == old(mem[k])
    ensures Overflows(p) ==> forall k :: BufferSize(p) <= k < BufferSize(p) + BLOCK_SIZE ==> mem[k] == 0xff
  {
    BufferExact(p);
    var size, last, bit := BufferSize(p), p.bitLen / 8, p.bitLen % 8;
    Fill(mem, 0, size, 0);
    ghost var m0 := mem[..];
    var b := new Bitmap(mem);
    b.Set(0, true);
    ghost var m1 := mem[..];
    OneBit(m0, m1, 0, true);
    Fill(mem, last + 1, FillEnd(p), 0xff);
    ghost var m2 := mem[..];
    SetHigh(b, last, bit);
    Inside(m2, mem[..], p, last, bit, size);
    if Overflows(p) {
      AllSet(mem[last]);
    }
  }

  /** The loop that sets the bits of a byte from `bit` on. */
  method SetHigh(b: Bitmap, last: nat, bit: nat)
    requires last < b.bytes.Length && bit < 8
    modifies b.bytes
    ensures forall k :: 0 <= k < b.bytes.Length && k != last ==> b.bytes[k] == old(b.bytes[k])
    ensures forall k: nat :: k < 8 ==> (Bit(b.bytes[last], k) <==> old(Bit(b.bytes[last], k)) || bit <= k)
  {
    var i := bit;
    ghost var m0 := b.bytes[..];
    while i < 8
      invariant bit <= i <= 8
      invariant forall k :: 0 <= k < b.bytes.Length && k != last ==> b.bytes[k] == m0[k]
      invariant forall k: nat :: k < 8 ==> (Bit(b.bytes[last], k) <==> Bit(m0[last], k) || bit <= k < i)
    {
      ghost var m := b.bytes[..];
      b.Set(8 * last + i, true);
      OneBit(m, b.bytes[..], 8 * last + i, true);
      i := i + 1;
    }
  }

  /** `memset` */
  method Fill(mem: array<bv8>, from: nat, to: nat, x: bv8)
    requires from <= to <= mem.Length
    modifies mem
    ensures forall k :: 0 <= k < mem.Length ==> mem[k] == if from <= k < to then x else old(mem[k])
  {
    var j := from;
    while j < to
      invariant from <= j <= to
      invariant forall k :: 0 <= k < mem.Length ==> mem[k] == if from <= k < j then x else old(mem[k])
    {
      mem[j] := x;
      j := j + 1;
    }
  }

  /** What setting a bit does to the bytes. */
  lemma {:induction false} OneBit(a: seq<bv8>, b: seq<bv8>, k: nat, value: bool)
    requires |a| == |b| && k < 8 * |a| && Bits(b) == Bits(a)[k := value]
    ensures forall j :: 0 <= j < |a| && j != k / 8 ==> b[j] == a[j]
    ensures forall i: nat :: i < 8 ==> Bit(b[k / 8], i) == if i == k % 8 then value else Bit(a[k / 8], i)
  {
    forall j | 0 <= j < |a| && j != k / 8 ensures b[j] == a[j] {
      forall i: nat | i < 8 ensures Bit(b[j], i) == Bit(a[j], i) {
        BitsAt(a, j, i);
        BitsAt(b, j, i);
      }
      SameBits(a[j], b[j]);
    }
    forall i: nat | i < 8 ensures Bit(b[k / 8], i) == if i == k % 8 then value else Bit(a[k / 8], i) {
      BitsAt(a, k / 8, i);
      BitsAt(b, k / 8, i);
    }
  }

  lemma {:induction false} AllSet(x: bv8)
    requires forall i: nat :: i < 8 ==> Bit(x, i)
    ensures x == 0xff
  {
    forall i: nat | i < 8 ensures Bit(x, i) == Bit(0xff, i) {
      FullByte(i);
    }
    SameBits(x, 0xff);
  }

  /** A byte is determined by its bits. */
  lemma {:induction false} SameBits(x: bv8, y: bv8)
    requires forall i: nat :: i < 8 ==> Bit(x, i) == Bit(y, i)
    ensures x == y
  {
    assert Bit(x, 0) == Bit(y, 0) && Bit(x, 1) == Bit(y, 1) && Bit(x, 2) == Bit(y, 2) && Bit(x, 3) == Bit(y, 3);
    assert Bit(x, 4) == Bit(y, 4) && Bit(x, 5) == Bit(y, 5) && Bit(x, 6) == Bit(y, 6) && Bit(x, 7) == Bit(y, 7);
  }

  /** The bits of the buffer when all is done. */
  lemma {:induction false} Inside(m2: seq<bv8>, m: seq<bv8>, p: Layout, last: nat, bit: nat, size: nat)
    requires |m| == |m2| >= size + BLOCK_SIZE && last == p.bitLen / 8 <= size && size > 0 && bit == p.bitLen % 8
    requires forall k :: 0 <= k < |m| && k != last ==> m[k] == m2[k]
    requires forall k: nat :: k < 8 ==> (Bit(m[last], k) <==> Bit(m2[last], k) || bit <= k)
    requires forall k :: 0 < k <= last && k < size ==> m2[k] == 0
    requires forall k :: last < k < size ==> m2[k] == 0xff
    requires forall i: nat :: i < 8 ==> (Bit(m2[0], i) <==> i == 0)
    ensures forall k :: 0 <= k < 8 * size ==> (Bits(m)[k] <==> k == 0 || k >= p.bitLen)
  {
    forall k | 0 <= k < 8 * size ensures Bits(m)[k] <==> k == 0 || k >= p.bitLen {
      BitsAt(m, k / 8, k % 8);
      FullByte(k % 8);
      ZeroByte(0);
    }
  }

  /** Every block the fresh bitmap has to give lies in the data region, inside the partition, and is not block 0. */
  lemma {:induction false} FreshBlocks(sectors: nat, bits: seq<bool>, n: nat)
    requires sectors < TWO32 && sectors / SECTORS_PER_BLOCK > 1 + INODE_BITMAP + INODE_TABLE && n > 0
    requires forall i :: 0 <= i < |bits| ==> (bits[i] <==> i == 0 || i >= Plan(sectors).bitLen)
    ensures var p, k := Plan(sectors), LowestRun(bits, n);
      k != -1 ==> p.dataStart < p.dataStart + k && p.dataStart + k + n <= p.total
  {
    PlanOrdered(sectors);
    var k := LowestRun(bits, n);
    if k != -1 {
      assert ClearRun(bits, k, n) && !bits[k] && !bits[k + n - 1];
    }
  }

  // ---------- the inode table ----------

  const INODE_SIZE: nat := 84

  /** `inode_locate`: the block of the table, the offset in it, and whether the inode runs on into the next block. */
  function Locate(no: nat): (nat, nat, bool) {
    var off := no * INODE_SIZE;
    (off / BLOCK_SIZE, off % BLOCK_SIZE, BLOCK_SIZE - off % BLOCK_SIZE < INODE_SIZE)
  }

  /** Inodes lie inside the table, do not overlap, and are read in two blocks exactly when they lie in two. */
  lemma {:induction false} LocateApart(a: nat, b: nat)
    requires a < b < INODES
    ensures var (blk, off, two) := Locate(a);
      && blk * BLOCK_SIZE + off == a * INODE_SIZE && off < BLOCK_SIZE
      && a * INODE_SIZE + INODE_SIZE <= b * INODE_SIZE
      && b * INODE_SIZE + INODE_SIZE <= INODE_TABLE * BLOCK_SIZE
      && (two <==> (a * INODE_SIZE + INODE_SIZE - 1) / BLOCK_SIZE != blk)
  {
    var off := a * INODE_SIZE;
    assert off == off / BLOCK_SIZE * BLOCK_SIZE + off % BLOCK_SIZE;
  }
}
