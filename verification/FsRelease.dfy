/** Giving all blocks of an inode back (code/fs/inode.c, `inode_release`). */
module FsRelease {
  import opened Common
  import opened FsIndex
  import opened FsVolume
  import opened FsAlloc

  /** Slot `q` lies at or below slot `p`. */
  predicate Below(q: Path, p: Path) { IsPath(q) && |p| <= |q| && q[..|p|] == p }

  /** Block `b` is stored at or below slot `p`. */
  ghost predicate Under(s: Sectors, d: Disk, p: Path, b: nat) {
    b != 0 && exists q :: Below(q, p) && At(s, d, q) == b
  }

  /** Block `b` is stored at or below one of the first `n` entries of the table in slot `p`. */
  ghost predicate UnderEntries(s: Sectors, d: Disk, p: Path, n: nat, b: nat) {
    exists k :: 0 <= k < n && Under(s, d, p + [k], b)
  }

  /** Exactly the bits of the blocks at or below slot `p` have been cleared. */
  ghost predicate ClearedUnder(bits: seq<bool>, bits': seq<bool>, a: Area, s: Sectors, d: Disk, p: Path) {
    |bits'| == |bits| && forall k :: 0 <= k < |bits| ==> (bits'[k] <==> bits[k] && !Under(s, d, p, a.start + k))
  }

  ghost predicate ClearedEntries(bits: seq<bool>, bits': seq<bool>, a: Area, s: Sectors, d: Disk, p: Path, n: nat) {
    && |bits'| == |bits|
    && forall k :: 0 <= k < |bits| ==> (bits'[k] <==> bits[k] && !UnderEntries(s, d, p, n, a.start + k))
  }

  /** Below an empty slot there is nothing. */
  lemma {:induction false} EmptyBelow(s: Sectors, d: Disk, p: Path, q: Path)
    requires IsPath(p) && At(s, d, p) == 0 && Below(q, p)
    ensures At(s, d, q) == 0
    decreases |q|
  {
    if |q| > |p| {
      UpPath(q);
      EmptyBelow(s, d, p, Up(q));
    } else {
      assert q == p;
    }
  }

  lemma {:induction false} UnderSplits(s: Sectors, d: Disk, p: Path, b: nat)
    requires IsPath(p) && Under(s, d, p, b)
    ensures At(s, d, p) == b || UnderEntries(s, d, p, ENTRIES, b)
  {
    var q :| Below(q, p) && At(s, d, q) == b;
    if q != p {
      var k := q[|p|];
      assert q[..|p| + 1] == p + [k];
      assert Below(q, p + [k]);
      assert Under(s, d, p + [k], b);
    }
  }

  lemma {:induction false} EntriesUnder(s: Sectors, d: Disk, p: Path, b: nat)
    requires UnderEntries(s, d, p, ENTRIES, b)
    ensures Under(s, d, p, b)
  {
    var k :| 0 <= k < ENTRIES && Under(s, d, p + [k], b);
    var q :| Below(q, p + [k]) && At(s, d, q) == b;
    BelowEntry(q, p, k);
  }

  lemma {:induction false} BelowEntry(q: Path, p: Path, k: nat)
    requires Below(q, p + [k])
    ensures Below(q, p)
  {
    var r := p + [k];
    assert |r| == |p| + 1 && r[..|p|] == p;
    assert q[..|p|] == q[..|r|][..|p|];
  }

  /** What lies at or below a table: its own block and what lies below its entries. */
  lemma {:induction false} UnderTable(s: Sectors, d: Disk, p: Path, b: nat)
    requires IsPath(p)
    ensures Under(s, d, p, b) <==> b != 0 && (At(s, d, p) == b || UnderEntries(s, d, p, ENTRIES, b))
  {
    if Under(s, d, p, b) { UnderSplits(s, d, p, b); }
    if b != 0 && At(s, d, p) == b { assert Below(p, p); }
    if UnderEntries(s, d, p, ENTRIES, b) { EntriesUnder(s, d, p, b); }
  }

  lemma {:induction false} UnderData(s: Sectors, d: Disk, p: Path, b: nat)
    requires IsData(p)
    ensures Under(s, d, p, b) <==> b != 0 && At(s, d, p) == b
  {
    if Under(s, d, p, b) {
      var q :| Below(q, p) && At(s, d, q) == b;
      assert q == p;
    }
    if b != 0 && At(s, d, p) == b {
      assert Below(p, p);
    }
  }

  lemma {:induction false} MoreEntries(s: Sectors, d: Disk, p: Path, n: nat, b: nat)
    ensures UnderEntries(s, d, p, n + 1, b) <==> UnderEntries(s, d, p, n, b) || Under(s, d, p + [n], b)
  {
    if UnderEntries(s, d, p, n + 1, b) {
      var k :| 0 <= k < n + 1 && Under(s, d, p + [k], b);
      assert k == n || UnderEntries(s, d, p, n, b);
    }
  }

  // ---------- the loops ----------

  /** Every block of the inode lies in the data area, behind the root directory's block. */
  ghost predicate Releasable(v: Volume, s: Sectors)
    reads v
  {
    forall q :: IsPath(q) && At(s, v.disk, q) != 0 ==> v.area.start < At(s, v.disk, q) < v.area.start + |v.bits|
  }

  /** `free_block` */
  method FreeBlock(v: Volume, b: nat)
    requires v.area.start < b < v.area.start + |v.bits|
    modifies v`bits
    ensures v.bits == old(v.bits)[b - v.area.start := false]
  {
    v.bits := v.bits[b - v.area.start := false];
  }

  /** One pass of the loops: frees block `u` in slot `p` and, if it is a table, everything below it first. */
  method FreeSlot(v: Volume, s: Sectors, p: Path, u: nat)
    requires IsPath(p) && u == At(s, v.disk, p) && Releasable(v, s)
    modifies v`bits
    ensures ClearedUnder(old(v.bits), v.bits, v.area, s, v.disk, p)
    decreases 4 - |p|
  {
    if u == 0 {
      NothingUnder(s, v.disk, p);
      return;
    }
    ghost var bits0 := v.bits;
    if IsData(p) {
      FreeBlock(v, u);
      DataCleared(bits0, v.bits, v.area, s, v.disk, p);
    } else {
      NoEntries(s, v.disk, p);
      for k := 0 to ENTRIES
        invariant ClearedEntries(bits0, v.bits, v.area, s, v.disk, p, k) && Releasable(v, s)
      {
        ghost var bits1 := v.bits;
        EntryPath(s, v.disk, p, k);
        FreeSlot(v, s, p + [k], Word(Read(v.disk, u), k));
        EntriesCleared(bits0, bits1, v.bits, v.area, s, v.disk, p, k);
      }
      ghost var bits2 := v.bits;
      FreeBlock(v, u);
      TableCleared(bits0, bits2, v.bits, v.area, s, v.disk, p);
    }
  }

  lemma {:induction false} NothingUnder(s: Sectors, d: Disk, p: Path)
    requires IsPath(p) && At(s, d, p) == 0
    ensures forall b :: !Under(s, d, p, b)
  {
    forall q | Below(q, p) ensures At(s, d, q) == 0 { EmptyBelow(s, d, p, q); }
  }

  lemma {:induction false} NoEntries(s: Sectors, d: Disk, p: Path)
    ensures forall b :: !UnderEntries(s, d, p, 0, b)
  {
  }

  lemma {:induction false} EntryPath(s: Sectors, d: Disk, p: Path, k: nat)
    requires IsPath(p) && !IsData(p) && k < ENTRIES && At(s, d, p) != 0
    ensures IsPath(p + [k]) && |p| < 4 && At(s, d, p + [k]) == Word(Read(d, At(s, d, p)), k)
  {
    assert Up(p + [k]) == p && Last(p + [k]) == k;
  }

  lemma {:induction false} DataCleared(bits: seq<bool>, bits': seq<bool>, a: Area, s: Sectors, d: Disk, p: Path)
    requires IsData(p) && a.start < At(s, d, p) < a.start + |bits| && bits' == bits[At(s, d, p) - a.start := false]
    ensures ClearedUnder(bits, bits', a, s, d, p)
  {
    forall k | 0 <= k < |bits| ensures bits'[k] <==> bits[k] && !Under(s, d, p, a.start + k) {
      UnderData(s, d, p, a.start + k);
    }
  }

  lemma {:induction false} EntriesCleared(bits: seq<bool>, bits1: seq<bool>, bits2: seq<bool>, a: Area, s: Sectors,
                                          d: Disk, p: Path, n: nat)
    requires ClearedEntries(bits, bits1, a, s, d, p, n) && ClearedUnder(bits1, bits2, a, s, d, p + [n])
    ensures ClearedEntries(bits, bits2, a, s, d, p, n + 1)
  {
    forall k | 0 <= k < |bits| ensures bits2[k] <==> bits[k] && !UnderEntries(s, d, p, n + 1, a.start + k) {
      MoreEntries(s, d, p, n, a.start + k);
    }
  }

  lemma {:induction false} TableCleared(bits: seq<bool>, bits1: seq<bool>, bits2: seq<bool>, a: Area, s: Sectors,
                                        d: Disk, p: Path)
    requires IsPath(p) && ClearedEntries(bits, bits1, a, s, d, p, ENTRIES)
    requires a.start < At(s, d, p) < a.start + |bits| && bits2 == bits1[At(s, d, p) - a.start := false]
    ensures ClearedUnder(bits, bits2, a, s, d, p)
  {
    forall k | 0 <= k < |bits| ensures bits2[k] <==> bits[k] && !Under(s, d, p, a.start + k) {
      UnderTable(s, d, p, a.start + k);
    }
  }

  /** Block `b` belongs to inode `i`, as data or as a table. */
  ghost predicate Owns(t: Table, d: Disk, i: nat, b: nat) {
    i in t && b != 0 && exists p :: IsPath(p) && Slot(t, d, i, p) == b
  }

  lemma {:induction false} OwnsUnder(t: Table, d: Disk, i: nat, b: nat)
    requires i in t
    ensures Owns(t, d, i, b) <==> UnderEntries(t[i], d, [], SECTORS, b)
  {
    if Owns(t, d, i, b) {
      var p :| IsPath(p) && Slot(t, d, i, p) == b;
      var k := p[0];
      assert p[..1] == [] + [k];
      assert Below(p, [] + [k]);
      assert Under(t[i], d, [] + [k], b);
    }
    if UnderEntries(t[i], d, [], SECTORS, b) {
      var k :| 0 <= k < SECTORS && Under(t[i], d, [] + [k], b);
      var q :| Below(q, [] + [k]) && At(t[i], d, q) == b;
      assert IsPath(q) && Slot(t, d, i, q) == b;
    }
  }

  /** Taking an inode and exactly its blocks away keeps block conservation. */
  lemma {:induction false} ConservedWithout(t: Table, d: Disk, bits: seq<bool>, bits': seq<bool>, a: Area, i: nat)
    requires Conserved(t, d, bits, a, {}) && i in t && ClearedEntries(bits, bits', a, t[i], d, [], SECTORS)
    ensures Conserved(t - {i}, d, bits', a, {})
    ensures forall k :: 0 <= k < |bits| ==> (bits'[k] <==> bits[k] && !Owns(t, d, i, a.start + k))
  {
    var t' := t - {i};
    forall b | b != 0 ensures Held(t', d, b) <==> Held(t, d, b) && !Owns(t, d, i, b) {
      if Held(t', d, b) {
        var j, q :| j in t' && IsPath(q) && Slot(t', d, j, q) == b;
        assert Slot(t, d, j, q) == b;
        assert Held(t, d, b);
      }
      if Held(t, d, b) && !Owns(t, d, i, b) {
        var j, q :| j in t && IsPath(q) && Slot(t, d, j, q) == b;
        assert j != i;
        assert Slot(t', d, j, q) == b;
      }
    }
    forall j, p, k, q | j in t' && k in t' && IsPath(p) && IsPath(q) && Slot(t', d, j, p) != 0 && Slot(t', d, j, p) ==
      Slot(t', d, k, q)
      ensures j == k && p == q
    {
      assert Slot(t, d, j, p) == Slot(t, d, k, q);
    }
    forall k | 0 <= k < |bits|
      ensures (bits'[k] <==> bits[k] && !Owns(t, d, i, a.start + k)) && (k >= a.len ==> bits'[k])
    {
      OwnsUnder(t, d, i, a.start + k);
      assert Owns(t, d, i, a.start + k) ==> Held(t, d, a.start + k);
    }
  }

  /** `inode_open` for a live inode: the one in memory if it is open, else what lies in its place on disk. */
  method InodeOpen(v: Volume, i: nat) returns (x: Inode)
    requires i in v.table && i in v.sizes && i < |v.stored|
    ensures x == if i in v.open then Inode(i, v.sizes[i], v.table[i]) else v.stored[i]
  {
    x := if i in v.open then Inode(i, v.sizes[i], v.table[i]) else v.stored[i];
  }

  /**
   `inode_release` of an inode other than the root's. Its assertion holds exactly when the inode is open or in its place
   on disk; then exactly its blocks are freed, its bit in the inode bitmap is cleared and its place on disk is zeroed.
   It always fails for a closed inode from 256 on, as such an inode is never in its place.
   */
  method Release(v: Volume, i: nat) returns (ok: bool)
    requires v.Valid({}) && Current(v.table, v.sizes, v.stored) && i in v.table && i < |v.inodeBits|
    requires !Owns(v.table, v.disk, i, v.area.start)
    modifies v`bits, v`table, v`sizes, v`inodeBits, v`stored
    ensures ok <==> i in v.open || old(v.stored)[i].no == i
    ensures old(Kept(v.table, v.sizes, v.stored)) ==>
      Kept(v.table, v.sizes, v.stored) && (i >= 256 && i !in v.open ==> !ok)
    ensures v.Valid({}) && Current(v.table, v.sizes, v.stored) && |v.bits| == |old(v.bits)|
    ensures !ok ==>
      v.bits == old(v.bits) && v.table == old(v.table) && v.sizes == old(v.sizes) && v.stored == old(v.stored)
      && v.inodeBits == old(v.inodeBits)
    ensures ok ==> v.inodeBits == old(v.inodeBits)[i := false] && v.stored == old(v.stored)[i := NoInode()]
    ensures ok ==> v.table == old(v.table) - {i} && v.sizes == old(v.sizes) - {i}
    ensures ok && old(Synced(v.table, v.sizes, v.stored)) ==> Synced(v.table, v.sizes, v.stored)
    ensures ok ==> forall k :: 0 <= k < |v.bits| ==>
      (v.bits[k] <==> old(v.bits)[k] && !Owns(old(v.table), v.disk, i, v.area.start + k))
  {
    var x := InodeOpen(v, i);
    ok := x.no == i;
    if ok {
      ReleaseOpen(v, i, x.sectors);
    }
  }

  /** `inode_release` after its assertion. */
  method ReleaseOpen(v: Volume, i: nat, s: Sectors)
    requires v.Valid({}) && Current(v.table, v.sizes, v.stored) && i in v.table && i < |v.inodeBits| && s == v.table[i]
    requires !Owns(v.table, v.disk, i, v.area.start)
    modifies v`bits, v`table, v`sizes, v`inodeBits, v`stored
    ensures v.Valid({}) && Current(v.table, v.sizes, v.stored) && |v.bits| == |old(v.bits)|
    ensures v.inodeBits == old(v.inodeBits)[i := false] && v.stored == old(v.stored)[i := NoInode()]
    ensures v.table == old(v.table) - {i} && v.sizes == old(v.sizes) - {i}
    ensures old(Synced(v.table, v.sizes, v.stored)) ==> Synced(v.table, v.sizes, v.stored)
    ensures forall k :: 0 <= k < |v.bits| ==>
      (v.bits[k] <==> old(v.bits)[k] && !Owns(old(v.table), v.disk, i, v.area.start + k))
  {
    ghost var bits0 := v.bits;
    InArea0(v, i);
    FreeAll(v, s);
    ConservedWithout(v.table, v.disk, bits0, v.bits, v.area, i);
    DropInode(v, i);
  }

  /** The inode leaves memory, the inode bitmap and the table on disk. */
  method DropInode(v: Volume, i: nat)
    requires Current(v.table, v.sizes, v.stored) && i in v.table && i < |v.inodeBits|
    modifies v`table, v`sizes, v`inodeBits, v`stored
    ensures v.inodeBits == old(v.inodeBits)[i := false] && v.stored == old(v.stored)[i := NoInode()]
    ensures v.table == old(v.table) - {i} && v.sizes == old(v.sizes) - {i} && Current(v.table, v.sizes, v.stored)
    ensures old(Synced(v.table, v.sizes, v.stored)) ==> Synced(v.table, v.sizes, v.stored)
  {
    v.table := v.table - {i};
    v.sizes := v.sizes - {i};
    v.inodeBits := v.inodeBits[i := false];
    v.stored := v.stored[i := NoInode()];
  }

  /** The four parts of the loop nest: direct blocks, then the three kinds of indirect blocks. */
  method FreeAll(v: Volume, s: Sectors)
    requires Releasable(v, s)
    modifies v`bits
    ensures ClearedEntries(old(v.bits), v.bits, v.area, s, v.disk, [], SECTORS)
  {
    ghost var bits0 := v.bits;
    NoEntries(s, v.disk, []);
    for k := 0 to SECTORS
      invariant ClearedEntries(bits0, v.bits, v.area, s, v.disk, [], k) && Releasable(v, s)
    {
      ghost var bits1 := v.bits;
      assert [k] == [] + [k];
      FreeSlot(v, s, [k], s[k]);
      EntriesCleared(bits0, bits1, v.bits, v.area, s, v.disk, [], k);
    }
  }

  /** The assertion in `free_block` holds for every block of an inode that does not own the first data block. */
  lemma {:induction false} InArea0(v: Volume, i: nat)
    requires v.Valid({}) && i in v.table && !Owns(v.table, v.disk, i, v.area.start)
    ensures Releasable(v, v.table[i])
  {
    assert Conserved(v.table, v.disk, v.bits, v.area, {});
    forall q | IsPath(q) && At(v.table[i], v.disk, q) != 0
      ensures v.area.start < At(v.table[i], v.disk, q) < v.area.start + |v.bits|
    {
      var b := At(v.table[i], v.disk, q);
      assert Slot(v.table, v.disk, i, q) == b;
      assert Held(v.table, v.disk, b) && Owns(v.table, v.disk, i, b);
    }
  }
}
