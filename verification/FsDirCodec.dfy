/** Directory entries as bytes: 16 for the name, 4 for the inode number and 4 for the file type (code/fs/dir.h). */
module FsDirCodec {
  import opened Common
  import opened FsIndex
  import opened FsDir

  const NAME_SIZE: nat := 16

  /** What `create_dir_entry` asserts of a name: the byte that ends it need not fit. */
  predicate ValidName(name: Name) { |name| <= NAME_SIZE && forall k :: 0 <= k < |name| ==> 0 < name[k] as int < 256 }

  predicate ValidEntry(e: FsDir.Entry) { ValidName(e.name) && e.ino < TWO32 }

  /** A 32-bit number, lowest byte first. */
  function Bytes4(w: nat): (b: seq<Byte>)
    requires w < TWO32
    ensures |b| == 4
  {
    Digits(w);
    [w % 0x100, w / 0x100 % 0x100, w / 0x1_0000 % 0x100, w / 0x100_0000]
  }

  function Number4(b: seq<Byte>): nat
    requires |b| == 4
  {
    (b[0] as nat) + 0x100 * (b[1] as nat) + 0x1_0000 * (b[2] as nat) + 0x100_0000 * (b[3] as nat)
  }

  lemma {:induction false} NumberBytes(w: nat)
    requires w < TWO32
    ensures Number4(Bytes4(w)) == w
  {
    Digits(w);
  }

  /** The bytes of a name, filled up with zeros. */
  function NameBytes(name: Name): (b: seq<Byte>)
    requires ValidName(name)
    ensures |b| == NAME_SIZE
  {
    seq(NAME_SIZE, k requires 0 <= k < NAME_SIZE => if k < |name| then name[k] as int else 0)
  }

  /** The characters up to the first zero byte. */
  function NameOf(b: seq<Byte>): Name
    decreases |b|
  {
    if b == [] || b[0] == 0 then "" else [b[0] as char] + NameOf(b[1..])
  }

  lemma {:induction false} NameOfPadded(name: Name, b: seq<Byte>)
    requires |name| < |b| && (forall k :: 0 <= k < |name| ==> 0 < name[k] as int < 256 && b[k] == name[k] as int)
    requires b[|name|] == 0
    ensures NameOf(b) == name
    decreases |name|
  {
    if name != "" {
      NameOfPadded(name[1..], b[1..]);
      assert name == [name[0]] + name[1..];
    }
  }

  /** Without a zero byte, more characters are read. */
  lemma {:induction false} NameOfLonger(b: seq<Byte>, n: nat)
    requires n < |b| && forall k :: 0 <= k <= n ==> b[k] != 0
    ensures |NameOf(b)| > n
    decreases n
  {
    if n > 0 { NameOfLonger(b[1..], n - 1); }
  }

  /** The file types of the source: 1 for a file, 2 for a directory. */
  function TypeOf(e: FsDir.Entry): nat { if e.isDir then 2 else 1 }

  function SlotBytes(s: Slot): (b: seq<Byte>)
    requires s.Full? ==> ValidEntry(s.entry)
    ensures |b| == ENTRY_SIZE
  {
    if s.Empty? then Zeros(ENTRY_SIZE) else NameBytes(s.entry.name) + Bytes4(s.entry.ino) + Bytes4(TypeOf(s.entry))
  }

  /** A slot whose file type is zero is empty; a name is read up to the first zero byte. */
  function SlotOf(b: seq<Byte>): Slot
    requires |b| == ENTRY_SIZE
  {
    var kind := Number4(b[20..]);
    if kind == 0 then Empty else Full(FsDir.Entry(NameOf(b), Number4(b[16..20]), kind == 2))
  }

  /** An entry as it is found on disk. */
  function Seen(e: FsDir.Entry): FsDir.Entry
    requires ValidEntry(e)
  {
    FsDir.Entry(NameOf(SlotBytes(Full(e))), e.ino, e.isDir)
  }

  function AsRead(s: Slot): Slot
    requires s.Full? ==> ValidEntry(s.entry)
  {
    if s.Empty? then Empty else Full(Seen(s.entry))
  }

  lemma {:induction false} SlotRoundTrip(s: Slot)
    requires s.Full? ==> ValidEntry(s.entry)
    ensures SlotOf(SlotBytes(s)) == AsRead(s)
  {
    if s.Full? {
      var e, b := s.entry, SlotBytes(s);
      assert b[16..20] == Bytes4(e.ino) && b[20..] == Bytes4(TypeOf(e));
      NumberBytes(e.ino);
      NumberBytes(TypeOf(e));
    }
  }

  /**
   What is written is read back exactly when the name is shorter than its 16 bytes or the lowest byte of the inode
   number, which follows it, is zero.
   */
  lemma {:induction false} SeenExact(e: FsDir.Entry)
    requires ValidEntry(e)
    ensures Seen(e) == e <==> |e.name| < NAME_SIZE || e.ino % 256 == 0
  {
    var b := SlotBytes(Full(e));
    assert forall k :: 0 <= k < |e.name| ==> b[k] == e.name[k] as int;
    if |e.name| < NAME_SIZE {
      assert b[|e.name|] == 0;
    } else {
      assert b[NAME_SIZE] == Bytes4(e.ino)[0] == e.ino % 256;
    }
    if b[|e.name|] == 0 {
      NameOfPadded(e.name, b);
    } else {
      NameOfLonger(b, NAME_SIZE);
    }
  }

  /** The bytes of slot `k` of a block. */
  function RawSlot(c: Block, k: nat): (b: seq<Byte>)
    requires k < PER_BLOCK
    ensures |b| == ENTRY_SIZE
  {
    c[ENTRY_SIZE * k..ENTRY_SIZE * k + ENTRY_SIZE]
  }

  /** The slots of a block of a directory. */
  function BlkOf(c: Block): (b: Blk)
    ensures |b| == PER_BLOCK && forall k :: 0 <= k < PER_BLOCK ==> b[k] == SlotOf(RawSlot(c, k))
  {
    seq(PER_BLOCK, k requires 0 <= k < PER_BLOCK => SlotOf(RawSlot(c, k)))
  }

  /** Slot `k` of a block written. */
  function PutSlot(c: Block, k: nat, s: Slot): Block
    requires k < PER_BLOCK && (s.Full? ==> ValidEntry(s.entry))
  {
    c[..ENTRY_SIZE * k] + SlotBytes(s) + c[ENTRY_SIZE * k + ENTRY_SIZE..]
  }

  lemma {:induction false} PutRaw(c: Block, k: nat, s: Slot, j: nat)
    requires k < PER_BLOCK && j < PER_BLOCK && (s.Full? ==> ValidEntry(s.entry))
    ensures RawSlot(PutSlot(c, k, s), j) == if j == k then SlotBytes(s) else RawSlot(c, j)
  {
    Spliced(c, ENTRY_SIZE * k, SlotBytes(s), ENTRY_SIZE * j, ENTRY_SIZE);
  }

  /** A piece of a sequence after another piece has been replaced. */
  lemma {:induction false} Spliced<T>(c: seq<T>, a: nat, mid: seq<T>, p: nat, n: nat)
    requires a + |mid| <= |c| && p + n <= |c| && n == |mid| && (p == a || p + n <= a || a + n <= p)
    ensures (c[..a] + mid + c[a + |mid|..])[p..p + n] == if p == a then mid else c[p..p + n]
  {
  }

  /** Writing a slot changes that slot and no other. */
  lemma {:induction false} PutBlk(c: Block, k: nat, s: Slot)
    requires k < PER_BLOCK && (s.Full? ==> ValidEntry(s.entry))
    ensures BlkOf(PutSlot(c, k, s)) == BlkOf(c)[k := AsRead(s)]
  {
    forall j | 0 <= j < PER_BLOCK ensures BlkOf(PutSlot(c, k, s))[j] == BlkOf(c)[k := AsRead(s)][j] {
      PutRaw(c, k, s, j);
      if j == k { SlotRoundTrip(s); }
    }
  }

  /** The empty slots of a block are zero bytes. */
  predicate Zeroed(c: Block) {
    forall k :: 0 <= k < PER_BLOCK && SlotOf(RawSlot(c, k)) == Empty ==> RawSlot(c, k) == Zeros(ENTRY_SIZE)
  }

  lemma {:induction false} PutZeroed(c: Block, k: nat, s: Slot)
    requires Zeroed(c) && k < PER_BLOCK && (s.Full? ==> ValidEntry(s.entry))
    ensures Zeroed(PutSlot(c, k, s))
  {
    forall j | 0 <= j < PER_BLOCK && SlotOf(RawSlot(PutSlot(c, k, s), j)) == Empty
      ensures RawSlot(PutSlot(c, k, s), j) == Zeros(ENTRY_SIZE)
    {
      PutRaw(c, k, s, j);
      if j == k { SlotRoundTrip(s); }
    }
  }

  /** In a zeroed block, the name of every slot is what its bytes say. */
  lemma {:induction false} NameHere(c: Block, k: nat)
    requires Zeroed(c) && k < PER_BLOCK
    ensures NameOf(RawSlot(c, k)) == if BlkOf(c)[k].Full? then BlkOf(c)[k].entry.name else ""
  {
  }

  /** A block of zeros holds no entry. */
  lemma {:induction false} ZeroBlk()
    ensures BlkOf(Zero()) == Blank(PER_BLOCK) && Zeroed(Zero())
  {
    forall k | 0 <= k < PER_BLOCK ensures RawSlot(Zero(), k) == Zeros(ENTRY_SIZE) && BlkOf(Zero())[k] == Empty {
      assert RawSlot(Zero(), k) == Zeros(ENTRY_SIZE);
    }
  }
}
