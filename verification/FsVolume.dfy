/** All live inodes of a partition together: who owns which block. */
module FsVolume {
  import opened Common
  import opened FsIndex

  /** The block numbers of every live inode. */
  type Table = map<nat, Sectors>

  /** The block stored in slot `p` of inode `i`. */
  function Slot(t: Table, d: Disk, i: nat, p: Path): nat
    requires i in t && IsPath(p)
  {
    At(t[i], d, p)
  }

  /** No block is stored in two slots. */
  ghost predicate Unshared(t: Table, d: Disk) {
    forall i, p, j, q ::
      i in t && j in t && IsPath(p) && IsPath(q) && Slot(t, d, i, p) != 0 && Slot(t, d, i, p) == Slot(t, d, j, q)
      ==> i == j && p == q
  }

  /** Some slot holds block `b`. */
  ghost predicate Held(t: Table, d: Disk, b: nat) {
    exists i, p :: i in t && IsPath(p) && Slot(t, d, i, p) == b
  }

  /** The state after block `b` has been stored in slot `p` of inode `i`. */
  function InstallTable(t: Table, d: Disk, i: nat, p: Path, b: nat): Table
    requires i in t && IsPath(p)
  {
    if |p| == 1 then t[i := t[i][p[0] := b]] else t
  }

  function InstallDisk(t: Table, d: Disk, i: nat, p: Path, b: nat): Disk
    requires i in t && IsPath(p) && b < TWO32
  {
    if |p| == 1 then d
    else
      var u := Slot(t, d, i, Up(p));
      d[u := SetWord(Read(d, u), Last(p), b)]
  }

  /**
   A slot can be filled: its table exists, and the block is nobody's; a slot for a table is empty, and so is the table.
   */
  ghost predicate Installable(t: Table, d: Disk, i: nat, p: Path, b: nat) {
    && i in t && IsPath(p)
    && (|p| > 1 ==> Slot(t, d, i, Up(p)) != 0)
    && 0 < b < TWO32 && !Held(t, d, b)
    && (!IsData(p) ==> Slot(t, d, i, p) == 0 && Read(d, b) == Zero())
  }

  lemma {:induction false} UpPath(p: Path)
    requires IsPath(p) && |p| > 1
    ensures IsPath(Up(p)) && !IsData(Up(p)) && |Up(p)| == |p| - 1 && p == Up(p) + [Last(p)]
  {
  }

  /** Filling a slot changes that slot and no other, of any inode. */
  lemma {:induction false} InstallAt(t: Table, d: Disk, i: nat, p: Path, b: nat, j: nat, q: Path)
    requires Unshared(t, d) && Installable(t, d, i, p, b) && j in t && IsPath(q)
    ensures Slot(InstallTable(t, d, i, p, b), InstallDisk(t, d, i, p, b), j, q) == if i == j && p == q then b
      else Slot(t, d, j, q)
    decreases |q|
  {
    var t', d' := InstallTable(t, d, i, p, b), InstallDisk(t, d, i, p, b);
    if |q| > 1 {
      UpPath(q);
      var r := Up(q);
      InstallAt(t, d, i, p, b, j, r);
      if |p| > 1 { UpPath(p); }
      if i == j && p == r {
        ChildOfNew(t, d, i, p, b, q);
      } else {
        var u := Slot(t, d, j, r);
        if |p| > 1 && u != 0 {
          var w := Slot(t, d, i, Up(p));
          if u == w {
            assert i == j && r == Up(p);
            WordSet(Read(d, w), Last(p), b, Last(q));
          }
        }
      }
    }
  }

  /** A fresh table has no entries. */
  lemma {:induction false} ChildOfNew(t: Table, d: Disk, i: nat, p: Path, b: nat, q: Path)
    requires Installable(t, d, i, p, b) && IsPath(q) && |q| > 1 && Up(q) == p && !IsData(p)
    requires Slot(InstallTable(t, d, i, p, b), InstallDisk(t, d, i, p, b), i, p) == b
    ensures Slot(t, d, i, q) == 0 && Slot(InstallTable(t, d, i, p, b), InstallDisk(t, d, i, p, b), i, q) == 0
  {
    UpPath(q);
    WordZero(Last(q));
    if |p| > 1 {
      UpPath(p);
      assert Slot(t, d, i, Up(p)) != b;
    }
  }

  /** Filling a slot keeps blocks unshared; the new block joins those held, and the block that was there leaves them. */
  lemma {:induction false} Install(t: Table, d: Disk, i: nat, p: Path, b: nat)
    requires Unshared(t, d) && Installable(t, d, i, p, b)
    ensures var t', d' := InstallTable(t, d, i, p, b), InstallDisk(t, d, i, p, b);
      && t'.Keys == t.Keys && Unshared(t', d')
      && (forall x :: x != 0 ==> (Held(t', d', x) <==> (Held(t, d, x) && x != Slot(t, d, i, p)) || x == b))
      && (forall j, q :: j in t && IsPath(q) ==> Slot(t', d', j, q) == if i == j && p == q then b else Slot(t, d, j, q))
  {
    var t', d' := InstallTable(t, d, i, p, b), InstallDisk(t, d, i, p, b);
    forall j, q | j in t && IsPath(q) ensures Slot(t', d', j, q) == if i == j && p == q then b else Slot(t, d, j, q) {
      InstallAt(t, d, i, p, b, j, q);
    }
    forall x | x != 0 && Held(t', d', x) ensures (Held(t, d, x) && x != Slot(t, d, i, p)) || x == b {
      var j, q :| j in t' && IsPath(q) && Slot(t', d', j, q) == x;
      assert x == b || Slot(t, d, j, q) == x;
    }
    forall x | x != 0 && ((Held(t, d, x) && x != Slot(t, d, i, p)) || x == b) ensures Held(t', d', x) {
      if x == b {
        assert Slot(t', d', i, p) == b;
      } else {
        var j, q :| j in t && IsPath(q) && Slot(t, d, j, q) == x;
        assert Slot(t', d', j, q) == x;
      }
    }
  }

  /** Block `b` is held by a table slot. */
  ghost predicate IsTable(t: Table, d: Disk, b: nat) {
    exists i, p :: i in t && IsPath(p) && !IsData(p) && Slot(t, d, i, p) == b
  }

  /** Writing a block that is no table leaves every slot as it is. */
  lemma {:induction false} WriteAt(t: Table, d: Disk, b: nat, c: Block, i: nat, p: Path)
    requires i in t && IsPath(p) && !IsTable(t, d, b)
    ensures Slot(t, d[b := c], i, p) == Slot(t, d, i, p)
    decreases |p|
  {
    if |p| > 1 {
      UpPath(p);
      WriteAt(t, d, b, c, i, Up(p));
      assert Slot(t, d, i, Up(p)) != b || b == 0;
    }
  }

  /** No inode but perhaps `i` has changed. */
  ghost predicate OnlyInode(t: Table, t': Table, i: nat) {
    t'.Keys == t.Keys && forall j <- t :: j != i ==> t'[j] == t[j]
  }

  /** No data block has been touched. */
  ghost predicate SameReads(t: Table, d: Disk, d': Disk) {
    forall j, q :: j in t && IsData(q) && Slot(t, d, j, q) != 0 ==>
      Read(d', Slot(t, d, j, q)) == Read(d, Slot(t, d, j, q))
  }

  /** The data slots of `t', d'` are those of `t, d`, and no data block has been touched. */
  ghost predicate SameData(t: Table, d: Disk, t': Table, d': Disk) {
    && t'.Keys == t.Keys
    && (forall j, q :: j in t && IsData(q) ==> Slot(t', d', j, q) == Slot(t, d, j, q))
    && (forall j, q :: j in t && IsData(q) && Slot(t, d, j, q) != 0 ==>
         Read(d', Slot(t, d, j, q)) == Read(d, Slot(t, d, j, q)))
  }

  /**
   The data slots of `t', d'` are those of `t, d` but for slot `p` of inode `i`, which holds `b`; no data block has been
   touched.
   */
  ghost predicate DataPut(t: Table, d: Disk, t': Table, d': Disk, i: nat, p: Path, b: nat) {
    && t'.Keys == t.Keys && i in t && IsData(p)
    && (forall j, q :: j in t && IsData(q) ==> Slot(t', d', j, q) == if i == j && p == q then b else Slot(t, d, j, q))
    && (forall j, q :: j in t && IsData(q) && Slot(t, d, j, q) != 0 ==>
         Read(d', Slot(t, d, j, q)) == Read(d, Slot(t, d, j, q)))
  }

  lemma {:induction false} SameDataTrans(t: Table, d: Disk, t1: Table, d1: Disk, t2: Table, d2: Disk)
    requires SameData(t, d, t1, d1) && SameData(t1, d1, t2, d2)
    ensures SameData(t, d, t2, d2)
  {
    forall j, q | j in t && IsData(q) && Slot(t, d, j, q) != 0
      ensures Read(d2, Slot(t, d, j, q)) == Read(d, Slot(t, d, j, q))
    {
      assert Slot(t1, d1, j, q) == Slot(t, d, j, q);
    }
  }

  lemma {:induction false} DataPutTrans(t: Table, d: Disk, t1: Table, d1: Disk, t2: Table, d2: Disk, i: nat, p: Path,
                                        b: nat)
    requires SameData(t, d, t1, d1) && DataPut(t1, d1, t2, d2, i, p, b)
    ensures DataPut(t, d, t2, d2, i, p, b)
  {
    forall j, q | j in t && IsData(q) && Slot(t, d, j, q) != 0
      ensures Read(d2, Slot(t, d, j, q)) == Read(d, Slot(t, d, j, q))
    {
      assert Slot(t1, d1, j, q) == Slot(t, d, j, q);
    }
  }

  /** Filling a slot touches no data block. */
  lemma {:induction false} InstallReads(t: Table, d: Disk, i: nat, p: Path, b: nat, j: nat, q: Path)
    requires Unshared(t, d) && Installable(t, d, i, p, b) && j in t && IsData(q) && Slot(t, d, j, q) != 0
    ensures Read(InstallDisk(t, d, i, p, b), Slot(t, d, j, q)) == Read(d, Slot(t, d, j, q))
  {
    if |p| > 1 {
      UpPath(p);
      assert Slot(t, d, i, Up(p)) != Slot(t, d, j, q);
    }
  }

  lemma {:induction false} InstallData(t: Table, d: Disk, i: nat, p: Path, b: nat)
    requires Unshared(t, d) && Installable(t, d, i, p, b)
    ensures var t', d' := InstallTable(t, d, i, p, b), InstallDisk(t, d, i, p, b);
      if IsData(p) then DataPut(t, d, t', d', i, p, b) else SameData(t, d, t', d')
  {
    Install(t, d, i, p, b);
    forall j, q | j in t && IsData(q) && Slot(t, d, j, q) != 0
      ensures Read(InstallDisk(t, d, i, p, b), Slot(t, d, j, q)) == Read(d, Slot(t, d, j, q))
    {
      InstallReads(t, d, i, p, b, j, q);
    }
  }

  // ---------- the inode table on disk ----------

  /** An inode as it lies in the table on disk; one that is not in use is all zero. */
  datatype Inode = Inode(no: nat, size: nat, sectors: Sectors)

  function NoInode(): Inode { Inode(0, 0, [0, 0, 0, 0, 0, 0, 0, 0, 0, 0, 0, 0, 0, 0, 0]) }

  /** The table on disk holds every live inode as it is in memory, each in its own place. */
  ghost predicate Synced(t: Table, sizes: map<nat, nat>, stored: seq<Inode>) {
    && |stored| == INODES && sizes.Keys == t.Keys
    && (forall i <- t :: i < INODES && stored[i] == Inode(i, sizes[i], t[i]))
    && (forall j :: 0 <= j < INODES ==> stored[j].no == 0 || stored[j].no == j)
  }

  /** An inode in its place on disk is up to date; another inode may lie in the place. */
  ghost predicate Current(t: Table, sizes: map<nat, nat>, stored: seq<Inode>) {
    && |stored| == INODES && sizes.Keys == t.Keys
    && forall i <- t :: i < INODES && (stored[i].no == i ==> stored[i] == Inode(i, sizes[i], t[i]))
  }

  /** No inode lies in a place from 256 on: `inode_sync` does not write there. */
  ghost predicate HighClear(stored: seq<Inode>) { forall j :: 256 <= j < |stored| ==> stored[j] == NoInode() }

  /** What every operation keeps of the table on disk: no inode in its place is out of date, and none lies above 255. */
  ghost predicate Kept(t: Table, sizes: map<nat, nat>, stored: seq<Inode>) {
    Current(t, sizes, stored) && HighClear(stored)
  }

  // ---------- the block bitmap ----------

  /** The layout of the block bitmap: bit `k` stands for block `start + k`; bits from `len` on are padding. */
  datatype Area = Area(start: nat, len: nat)

  ghost predicate InArea(a: Area, b: nat) { a.start <= b < a.start + a.len }

  /** Block conservation: a bit is set exactly for padding, for the blocks in hand (`extra`) and for the blocks held. */
  ghost predicate Conserved(t: Table, d: Disk, bits: seq<bool>, a: Area, extra: set<nat>) {
    && Unshared(t, d) && 0 < a.start && a.start + |bits| < 0x8000_0000 && a.len <= |bits|
    && (forall b <- extra :: InArea(a, b) && !Held(t, d, b))
    && (forall b :: b != 0 && Held(t, d, b) ==> InArea(a, b))
    && (forall k :: 0 <= k < |bits| ==> (bits[k] <==> k >= a.len || a.start + k in extra || Held(t, d, a.start + k)))
  }

  lemma {:induction false} TakeBit(t: Table, d: Disk, bits: seq<bool>, a: Area, extra: set<nat>, k: nat)
    requires Conserved(t, d, bits, a, extra) && k < |bits| && !bits[k]
    ensures InArea(a, a.start + k) && a.start + k !in extra && !Held(t, d, a.start + k)
    ensures Conserved(t, d, bits[k := true], a, extra + {a.start + k})
  {
  }

  lemma {:induction false} DropBit(t: Table, d: Disk, bits: seq<bool>, a: Area, extra: set<nat>, b: nat)
    requires Conserved(t, d, bits, a, extra) && b in extra
    ensures InArea(a, b) && Conserved(t, d, bits[b - a.start := false], a, extra - {b})
  {
  }

  /** The block that leaves a slot, if there is one. */
  function Lost(b: nat): set<nat> { if b == 0 then {} else {b} }

  /** The blocks in `placed` are held now, and those in `lost`, held before, are not. */
  ghost predicate Exchanged(t: Table, d: Disk, t': Table, d': Disk, placed: set<nat>, lost: set<nat>) {
    && (forall x <- lost :: x != 0 && Held(t, d, x))
    && forall x :: x != 0 ==> (Held(t', d', x) <==> (Held(t, d, x) && x !in lost) || x in placed)
  }

  lemma {:induction false} Exchange(t: Table, d: Disk, t': Table, d': Disk, bits: seq<bool>, a: Area, extra: set<nat>,
                                    placed: set<nat>, lost: set<nat>)
    requires Conserved(t, d, bits, a, extra) && placed <= extra && Unshared(t', d')
    requires Exchanged(t, d, t', d', placed, lost)
    ensures Conserved(t', d', bits, a, extra - placed + lost)
  {
    var now := extra - placed + lost;
    forall x | x in now ensures InArea(a, x) && !Held(t', d', x) {
      assert x in lost ==> Held(t, d, x);
    }
    forall x | x != 0 && Held(t', d', x) ensures InArea(a, x) {
      assert Held(t, d, x) || x in placed;
    }
    forall k | 0 <= k < |bits| ensures bits[k] <==> k >= a.len || a.start + k in now || Held(t', d', a.start + k) {
      var x := a.start + k;
      assert Held(t', d', x) <==> (Held(t, d, x) && x !in lost) || x in placed;
    }
  }

  /** Putting a block in hand into a slot; the block that was there is in hand then. */
  lemma {:induction false} PlaceBit(t: Table, d: Disk, bits: seq<bool>, a: Area, extra: set<nat>, i: nat, p: Path,
                                    b: nat)
    requires Conserved(t, d, bits, a, extra) && b in extra && Installable(t, d, i, p, b)
    ensures Conserved(InstallTable(t, d, i, p, b), InstallDisk(t, d, i, p, b), bits, a,
                      extra - {b} + Lost(Slot(t, d, i, p)))
  {
    Install(t, d, i, p, b);
    var was := Slot(t, d, i, p);
    assert was != 0 ==> Held(t, d, was);
    Exchange(t, d, InstallTable(t, d, i, p, b), InstallDisk(t, d, i, p, b), bits, a, extra, {b}, Lost(was));
  }
}
