/** Block allocation and the multi-level block index (code/fs/inode.c, code/fs/file.c). */
module FsAlloc {
  import opened Common
  import opened FsIndex
  import opened FsVolume
  import opened BitSpec

  /**
   A mounted partition with its live inodes, as the last operation on them left them, and the table of inodes on disk.
   The inodes in `open` are in memory; the others can only be read from their places on disk.
   */
  class Volume {
    const area: Area
    var disk: Disk
    var bits: seq<bool>
    var table: Table
    var sizes: map<nat, nat>
    var stored: seq<Inode>
    var inodeBits: seq<bool>
    var open: set<nat>

    /** A volume with the root directory's inode and its block, which are all that a fresh volume has. */
    constructor (area: Area, disk: Disk, bits: seq<bool>, root: Sectors, size: nat, stored: seq<Inode>,
                 inodeBits: seq<bool>)
      requires Conserved(map[0 := root], disk, bits, area, {}) && Synced(map[0 := root], map[0 := size], stored)
      ensures Valid({}) && Synced(table, sizes, this.stored) && table == map[0 := root] && sizes == map[0 := size]
      ensures this.area == area && this.disk == disk && this.bits == bits && this.stored == stored
      ensures this.inodeBits == inodeBits && open == {0}
    {
      this.area, this.disk, this.bits, table, sizes := area, disk, bits, map[0 := root], map[0 := size];
      this.stored, this.inodeBits, open := stored, inodeBits, {0};
    }

    ghost predicate Valid(extra: set<nat>)
      reads this`table, this`disk, this`bits
    {
      // The quantifier keeps the solver from unfolding what is only passed on.
      forall b :: b == bits ==> Conserved(table, disk, b, area, extra)
    }

    /** `block_bitmap_alloc`: the lowest free block, or -1. */
    method AllocBlock(ghost extra: set<nat>) returns (b: int)
      requires Valid(extra)
      modifies this`bits
      ensures b == -1 <==> Spare(old(bits)) == 0
      ensures Spare(bits) == Spare(old(bits)) - if b == -1 then 0 else 1
      ensures b == -1 ==> bits == old(bits) && Full(bits)
      ensures b != -1 ==>
        && b > 0 && InArea(area, b) && b !in extra && !Held(table, disk, b) && Valid(extra + {b})
        && b == area.start + LowestRun(old(bits), 1) && 0 <= b - area.start < |old(bits)|
        && !old(bits)[b - area.start] && bits == old(bits)[b - area.start := true]
    {
      var k := LowestRun(bits, 1);
      if k == -1 {
        assert forall j :: 0 <= j < |bits| && !bits[j] ==> ClearRun(bits, j, 1);
        SpareNone(bits);
        return -1;
      }
      assert !bits[k];
      SpareSet(bits, k, true);
      TakeBit(table, disk, bits, area, extra, k);
      bits := bits[k := true];
      b := area.start + k;
    }

    /** Clears the bit of a block in hand. */
    method ReleaseBlock(b: nat, ghost extra: set<nat>)
      requires Valid(extra) && b in extra
      modifies this`bits
      ensures Valid(extra - {b}) && InArea(area, b) && b - area.start < |old(bits)|
      ensures bits == old(bits)[b - area.start := false] && Spare(bits) == Spare(old(bits)) + 1
    {
      DropBit(table, disk, bits, area, extra, b);
      SpareSet(bits, b - area.start, false);
      bits := bits[b - area.start := false];
    }

    /** `alloc_indirect_table`: a zeroed block, or 0. */
    method AllocTable(ghost extra: set<nat>) returns (b: nat)
      requires Valid(extra)
      modifies this`bits, this`disk
      ensures b == 0 <==> Spare(old(bits)) == 0
      ensures Spare(bits) == Spare(old(bits)) - if b == 0 then 0 else 1
      ensures b == 0 ==> bits == old(bits) && disk == old(disk) && Full(bits)
      ensures b != 0 ==>
        && InArea(area, b) && b !in extra && Valid(extra + {b}) && !Held(old(table), old(disk), b)
        && disk == old(disk)[b := Zero()]
        && (forall i, p :: i in table && IsPath(p) ==> Slot(table, disk, i, p) == Slot(table, old(disk), i, p))
        && SameData(table, old(disk), table, disk)
    {
      var r := AllocBlock(extra);
      if r == -1 {
        return 0;
      }
      b := r;
      FreshWrite(table, disk, bits, area, extra + {b}, b, Zero());
      disk := disk[b := Zero()];
    }

    /** Stores a block in hand in slot `p` of inode `i`; the block that was there is in hand then. */
    method Store(i: nat, p: Path, u: nat, b: nat, ghost extra: set<nat>)
      requires Valid(extra) && b in extra && Installable(table, disk, i, p, b)
      requires |p| > 1 ==> u == Slot(table, disk, i, Up(p))
      modifies this`table, this`disk
      ensures Valid(extra - {b} + Lost(old(Slot(table, disk, i, p)))) && i in table && Slot(table, disk, i, p) == b
      ensures OnlyInode(old(table), table, i)
      ensures table == if |p| == 1 then old(table)[i := old(table)[i][p[0] := b]] else old(table)
      ensures if IsData(p) then DataPut(old(table), old(disk), table, disk, i, p, b)
        else SameData(old(table), old(disk), table, disk)
      ensures forall q :: IsPath(q) ==> Slot(table, disk, i, q) == if q == p then b else old(Slot(table, disk, i, q))
    {
      assert Conserved(table, disk, bits, area, extra);
      Install(table, disk, i, p, b);
      PlaceBit(table, disk, bits, area, extra, i, p, b);
      InstallData(table, disk, i, p, b);
      InstallAt(table, disk, i, p, b, i, p);
      if |p| == 1 {
        table := table[i := table[i][p[0] := b]];
      } else {
        disk := disk[u := SetWord(Read(disk, u), Last(p), b)];
      }
    }

    /** The table in slot `p`, made if it is not there yet; 0 when the disk is full. `u` is the table above it. */
    method EnsureTable(i: nat, p: Path, u: nat, ghost extra: set<nat>) returns (b: nat)
      requires Valid(extra) && i in table && IsPath(p) && !IsData(p)
      requires |p| > 1 ==> u != 0 && u == Slot(table, disk, i, Up(p))
      modifies this`bits, this`table, this`disk
      ensures Valid(extra) && SameData(old(table), old(disk), table, disk) && OnlyInode(old(table), table, i)
      ensures i in table && Slot(table, disk, i, p) == b
      ensures b == 0 <==> old(Slot(table, disk, i, p)) == 0 && Spare(old(bits)) == 0
      ensures old(Slot(table, disk, i, p)) != 0 ==> b == old(Slot(table, disk, i, p))
      ensures Spare(bits) == Spare(old(bits)) - if b == old(Slot(table, disk, i, p)) then 0 else 1
      ensures forall q :: IsPath(q) && q != p ==> Slot(table, disk, i, q) == old(Slot(table, disk, i, q))
      ensures b == 0 ==> unchanged(this)
    {
      b := if |p| == 1 then table[i][p[0]] else Word(Read(disk, u), Last(p));
      assert b == Slot(table, disk, i, p);
      if b == 0 {
        b := MakeTable(i, p, u, extra);
      }
    }

    /** A new table for a slot that holds none. */
    method MakeTable(i: nat, p: Path, u: nat, ghost extra: set<nat>) returns (b: nat)
      requires Valid(extra) && i in table && IsPath(p) && !IsData(p) && Slot(table, disk, i, p) == 0
      requires |p| > 1 ==> u != 0 && u == Slot(table, disk, i, Up(p))
      modifies this`bits, this`table, this`disk
      ensures Valid(extra) && SameData(old(table), old(disk), table, disk) && OnlyInode(old(table), table, i)
      ensures i in table && Slot(table, disk, i, p) == b
      ensures b == 0 <==> Spare(old(bits)) == 0
      ensures Spare(bits) == Spare(old(bits)) - if b == 0 then 0 else 1
      ensures forall q :: IsPath(q) && q != p ==> Slot(table, disk, i, q) == old(Slot(table, disk, i, q))
      ensures b == 0 ==> unchanged(this)
    {
      b := AllocTable(extra);
      if b == 0 {
        return;
      }
      ghost var t1, d1 := table, disk;
      assert (extra + {b}) - {b} + Lost(0) == extra;
      assert Conserved(table, disk, bits, area, extra + {b});
      Store(i, p, u, b, extra + {b});
      SameDataTrans(old(table), old(disk), t1, d1, table, disk);
    }

    /** `get_data_block` */
    method GetDataBlock(i: nat, idx: nat) returns (b: nat)
      requires i in table && idx < INDEX_END
      ensures b == Slot(table, disk, i, PathOf(idx))
    {
      PathSlots(table[i], disk, idx);
      var s := table[i];
      if idx < SINGLE_START {
        return s[idx];
      }
      if idx < DOUBLE_START {
        if s[SINGLE] == 0 { return 0; }
        return Word(Read(disk, s[SINGLE]), idx - SINGLE_START);
      }
      if idx < TRIPLE_START {
        if s[DOUBLE] == 0 { return 0; }
        var off := idx - DOUBLE_START;
        var l2 := Word(Read(disk, s[DOUBLE]), off / ENTRIES);
        if l2 == 0 { return 0; }
        return Word(Read(disk, l2), off % ENTRIES);
      }
      if s[TRIPLE] == 0 { return 0; }
      var off := idx - TRIPLE_START;
      var rem := off % (ENTRIES * ENTRIES);
      var t2 := Word(Read(disk, s[TRIPLE]), off / (ENTRIES * ENTRIES));
      if t2 == 0 { return 0; }
      var t3 := Word(Read(disk, t2), rem / ENTRIES);
      if t3 == 0 { return 0; }
      return Word(Read(disk, t3), rem % ENTRIES);
    }

    /** The last step of `alloc_data_block`: the new block goes into its slot, below the table `u`. */
    method Finish(i: nat, p: Path, u: nat, b: nat, ghost t0: Table, ghost d0: Disk)
      requires Valid({b}) && i in table && IsData(p) && SameData(t0, d0, table, disk)
      requires |p| > 1 ==> u != 0 && u == Slot(table, disk, i, Up(p))
      modifies this`table, this`disk
      ensures Valid(Lost(old(Slot(table, disk, i, p)))) && DataPut(t0, d0, table, disk, i, p, b)
      ensures OnlyInode(old(table), table, i)
      ensures table == if |p| == 1 then old(table)[i := old(table)[i][p[0] := b]] else old(table)
      ensures forall q :: IsPath(q) && q != p ==> Slot(table, disk, i, q) == old(Slot(table, disk, i, q))
    {
      ghost var t1, d1 := table, disk;
      assert {b} - {b} + Lost(Slot(table, disk, i, p)) == Lost(Slot(table, disk, i, p));
      assert b in {b} && Conserved(table, disk, bits, area, {b});
      Store(i, p, u, b, {b});
      DataPutTrans(t0, d0, t1, d1, table, disk, i, p, b);
    }

    /**
     `alloc_data_block`: a new block for a logical number, exactly when there are free blocks for it and for the tables
     missing on the way to it. A block that is there already is lost: its bit stays set and nobody owns it.
     */
    method AllocDataBlock(i: nat, idx: nat) returns (b: nat)
      requires Valid({}) && i in table && idx < INDEX_END
      modifies this`bits, this`table, this`disk
      ensures Valid(if b == 0 then {} else Lost(old(Slot(table, disk, i, PathOf(idx)))))
      ensures OnlyInode(old(table), table, i) && i in table
      ensures b == 0 <==> Spare(old(bits)) < Needs(old(table), old(disk), i, PathOf(idx))
      ensures b != 0 ==> Spare(bits) == Spare(old(bits)) - Needs(old(table), old(disk), i, PathOf(idx))
      ensures b != 0 ==> (Valid({}) <==> old(Slot(table, disk, i, PathOf(idx))) == 0)
      ensures old(Slot(table, disk, i, PathOf(idx))) == 0 ==>
        Advanced(old(table), old(disk), table, disk, i, PathOf(idx), Spare(old(bits)), Spare(bits))
      ensures b != 0 ==>
        InArea(area, b) && !Held(old(table), old(disk), b)
        && DataPut(old(table), old(disk), table, disk, i, PathOf(idx), b)
      ensures b == 0 ==> SameData(old(table), old(disk), table, disk)
      ensures b == 0 ==> Spare(bits) <= 1 && Spare(bits) < Needs(table, disk, i, PathOf(idx))
    {
      PathIndex(idx);
      var r := AllocBlock({});
      if r == -1 {
        return 0;
      }
      assert {} + {r} == {r};
      b := Attach(i, PathOf(idx), r);
    }

    /** `alloc_data_block` with the block `r` in hand: it goes into its slot, or back. */
    method Attach(i: nat, p: Path, r: nat) returns (b: nat)
      requires Valid({r}) && i in table && IsData(p) && r != 0
      modifies this`bits, this`table, this`disk
      ensures b == 0 || b == r
      ensures Valid(if b == 0 then {} else Lost(old(Slot(table, disk, i, p))))
      ensures OnlyInode(old(table), table, i) && i in table
      ensures b == 0 <==> Spare(old(bits)) < Missing(old(table), old(disk), i, p, |p| - 1)
      ensures b != 0 ==> Spare(bits) == Spare(old(bits)) - Missing(old(table), old(disk), i, p, |p| - 1)
      ensures b != 0 ==> (Valid({}) <==> old(Slot(table, disk, i, p)) == 0)
      ensures old(Slot(table, disk, i, p)) == 0 ==>
        Advanced(old(table), old(disk), table, disk, i, p, Spare(old(bits)) + 1, Spare(bits))
      ensures b != 0 ==> DataPut(old(table), old(disk), table, disk, i, p, b)
      ensures b == 0 ==> SameData(old(table), old(disk), table, disk)
      ensures b == 0 ==> Spare(bits) == 1 && Missing(table, disk, i, p, |p| - 1) > 0
    {
      ghost var t, d, spare := table, disk, Spare(bits);
      var u := 0;
      AdvancedNone(t, d, i, p, spare);
      if |p| > 1 {
        u := EnsurePath(i, p, r);
        if u == 0 {
          assert {r} - {r} == {};
          ReleaseBlock(r, {r});
          OneBack(t, d, table, disk, i, p, spare);
          return 0;
        }
      }
      b := r;
      ghost var t1, d1, was := table, disk, Slot(table, disk, i, p);
      Finish(i, p, u, b, t, d);
      if was != 0 {
        NotConserved(table, disk, bits, area, was);
      } else {
        BlockIn(t, d, t1, d1, table, disk, i, p, spare, Spare(bits));
      }
    }

    /**
     The tables on the way to data slot `p`, from the root down; 0 when the disk is full. `b` is in hand meanwhile.
     */
    method EnsurePath(i: nat, p: Path, ghost b: nat) returns (u: nat)
      requires Valid({b}) && i in table && IsData(p) && |p| > 1
      modifies this`bits, this`table, this`disk
      ensures Valid({b}) && SameData(old(table), old(disk), table, disk) && OnlyInode(old(table), table, i)
      ensures i in table && (u == 0 <==> Spare(old(bits)) < Missing(old(table), old(disk), i, p, |p| - 1))
      ensures u != 0 ==> u == Slot(table, disk, i, Up(p))
      ensures u != 0 ==> Spare(bits) == Spare(old(bits)) - Missing(old(table), old(disk), i, p, |p| - 1)
      ensures u == 0 ==> Spare(bits) == 0 && Missing(table, disk, i, p, |p| - 1) > 0
      ensures Slot(table, disk, i, p) == old(Slot(table, disk, i, p))
      ensures Advanced(old(table), old(disk), table, disk, i, p, Spare(old(bits)), Spare(bits))
    {
      Prefixes(p);
      ghost var t, d, spare := table, disk, Spare(bits);
      var k := 1;
      u := 0;
      while k < |p|
        invariant 1 <= k <= |p| && Valid({b}) && SameData(t, d, table, disk) && OnlyInode(t, table, i) && i in table
        invariant if k == 1 then u == 0 else u != 0 && u == Slot(table, disk, i, p[..k - 1])
        invariant TablesTo(t, d, table, disk, i, p, k, spare, Spare(bits))
      {
        ghost var t1, d1, spare1 := table, disk, Spare(bits);
        u := EnsureTable(i, p[..k], u, {b});
        SameDataTrans(t, d, t1, d1, table, disk);
        if u == 0 {
          TablesAll(t, d, t1, d1, i, p, k, spare, spare1);
          TablesStop(t, d, t1, d1, i, p, k, spare);
          return;
        }
        TablesNext(t, d, t1, d1, table, disk, i, p, k, spare, spare1, Spare(bits), u);
        k := k + 1;
      }
      TablesAll(t, d, table, disk, i, p, |p|, spare, Spare(bits));
    }
  }

  /** The tables before slot `k` have been made from the free blocks, and all other slots are as they were. */
  ghost predicate TablesTo(t: Table, d: Disk, t': Table, d': Disk, i: nat, p: Path, k: nat, spare: nat, spare': nat) {
    && i in t && i in t' && IsPath(p) && 1 <= k <= |p| && spare' + Missing(t, d, i, p, k - 1) == spare
    && (forall j :: 1 <= j < k ==> Slot(t', d', i, p[..j]) != 0)
    && (forall q :: IsPath(q) && (q <= p ==> |q| >= k) ==> Slot(t', d', i, q) == Slot(t, d, i, q))
  }

  /** What `EnsureTable` has done for slot `k` on the way to `p`. */
  ghost predicate TableAt(t: Table, d: Disk, t': Table, d': Disk, i: nat, p: Path, k: nat, spare: nat, spare': nat,
                          u: nat)
  {
    && i in t && i in t' && IsPath(p) && 1 <= k < |p| && Slot(t', d', i, p[..k]) == u
    && (u == 0 <==> Slot(t, d, i, p[..k]) == 0 && spare == 0)
    && (Slot(t, d, i, p[..k]) != 0 ==> u == Slot(t, d, i, p[..k]))
    && spare' == spare - (if u == Slot(t, d, i, p[..k]) then 0 else 1)
    && forall q :: IsPath(q) && q != p[..k] ==> Slot(t', d', i, q) == Slot(t, d, i, q)
  }

  lemma {:induction false} TablesNext(t: Table, d: Disk, t1: Table, d1: Disk, t2: Table, d2: Disk, i: nat, p: Path,
                                      k: nat, spare: nat, spare1: nat, spare2: nat, u: nat)
    requires TablesTo(t, d, t1, d1, i, p, k, spare, spare1) && TableAt(t1, d1, t2, d2, i, p, k, spare1, spare2, u)
    requires u != 0
    ensures TablesTo(t, d, t2, d2, i, p, k + 1, spare, spare2)
  {
    assert Slot(t1, d1, i, p[..k]) == Slot(t, d, i, p[..k]);
    forall q | IsPath(q) && (q <= p ==> |q| > k) ensures Slot(t2, d2, i, q) == Slot(t, d, i, q) {
      assert q != p[..k];
    }
    forall j | 1 <= j < k + 1 ensures Slot(t2, d2, i, p[..j]) != 0 {
      assert j < k ==> p[..j] != p[..k];
    }
  }

  /** When a table cannot be made, more is missing than there were free blocks. */
  lemma {:induction false} TablesStop(t: Table, d: Disk, t1: Table, d1: Disk, i: nat, p: Path, k: nat, spare: nat)
    requires i in t && i in t1 && IsPath(p) && 1 <= k < |p| && spare == Missing(t, d, i, p, k - 1)
    requires Slot(t1, d1, i, p[..k]) == Slot(t, d, i, p[..k]) == 0
    ensures spare < Missing(t, d, i, p, |p| - 1) && Missing(t1, d1, i, p, |p| - 1) > 0
  {
    MissingMore(t, d, i, p, k, |p| - 1);
    MissingMore(t1, d1, i, p, k, |p| - 1);
  }

  /** No slot has changed but on the way to `p`. */
  ghost predicate OnlyBelow(t: Table, d: Disk, t': Table, d': Disk, i: nat, p: Path)
    requires i in t && i in t'
  {
    forall q :: IsPath(q) && !(q <= p) ==> Slot(t', d', i, q) == Slot(t, d, i, q)
  }

  /** What has been taken from the free blocks is what is no longer missing on the way to `p`; no other slot changes. */
  ghost predicate Advanced(t: Table, d: Disk, t': Table, d': Disk, i: nat, p: Path, spare: nat, spare': nat) {
    && i in t && i in t' && IsPath(p) && OnlyBelow(t, d, t', d', i, p)
    && spare - Missing(t, d, i, p, |p|) == spare' - Missing(t', d', i, p, |p|)
  }

  lemma {:induction false} AdvancedNone(t: Table, d: Disk, i: nat, p: Path, spare: nat)
    requires i in t && IsPath(p)
    ensures Advanced(t, d, t, d, i, p, spare, spare)
  {
  }

  lemma {:induction false} OneBack(t: Table, d: Disk, t': Table, d': Disk, i: nat, p: Path, spare: nat)
    requires Advanced(t, d, t', d', i, p, spare, 0)
    ensures Advanced(t, d, t', d', i, p, spare + 1, 1)
  {
  }

  /** The block itself comes in, which had been taken first. */
  lemma {:induction false} BlockIn(t: Table, d: Disk, t1: Table, d1: Disk, t2: Table, d2: Disk, i: nat, p: Path,
                                   spare: nat, spare1: nat)
    requires Advanced(t, d, t1, d1, i, p, spare, spare1) && i in t2
    requires Slot(t1, d1, i, p) == 0 != Slot(t2, d2, i, p)
    requires forall q :: IsPath(q) && q != p ==> Slot(t2, d2, i, q) == Slot(t1, d1, i, q)
    ensures Advanced(t, d, t2, d2, i, p, spare + 1, spare1)
  {
    MissingSame(t1, d1, t2, d2, i, p, |p| - 1);
    assert p[..|p|] == p;
  }

  lemma {:induction false} MissingSame(t: Table, d: Disk, t': Table, d': Disk, i: nat, p: Path, n: nat)
    requires i in t && i in t' && IsPath(p) && n <= |p|
    requires forall k :: 1 <= k <= n ==> Slot(t', d', i, p[..k]) == Slot(t, d, i, p[..k])
    ensures Missing(t', d', i, p, n) == Missing(t, d, i, p, n)
  {
    if n > 0 { MissingSame(t, d, t', d', i, p, n - 1); }
  }

  lemma {:induction false} TablesAll(t: Table, d: Disk, t': Table, d': Disk, i: nat, p: Path, k: nat, spare: nat,
                                     spare': nat)
    requires TablesTo(t, d, t', d', i, p, k, spare, spare')
    ensures Advanced(t, d, t', d', i, p, spare, spare') && Slot(t', d', i, p) == Slot(t, d, i, p)
  {
    MissingNone(t', d', i, p, k - 1);
    MissingRest(t, d, t', d', i, p, k - 1, |p|);
  }

  lemma {:induction false} MissingNone(t: Table, d: Disk, i: nat, p: Path, n: nat)
    requires i in t && IsPath(p) && n <= |p| && forall j :: 1 <= j <= n ==> Slot(t, d, i, p[..j]) != 0
    ensures Missing(t, d, i, p, n) == 0
  {
    if n > 0 { MissingNone(t, d, i, p, n - 1); }
  }

  lemma {:induction false} MissingRest(t: Table, d: Disk, t': Table, d': Disk, i: nat, p: Path, k: nat, n: nat)
    requires i in t && i in t' && IsPath(p) && k <= n <= |p|
    requires forall q :: IsPath(q) && (q <= p ==> |q| > k) ==> Slot(t', d', i, q) == Slot(t, d, i, q)
    ensures Missing(t', d', i, p, n) - Missing(t', d', i, p, k) == Missing(t, d, i, p, n) - Missing(t, d, i, p, k)
    decreases n - k
  {
    if k < n {
      assert |p[..n]| == n && p[..n] <= p;
      MissingRest(t, d, t', d', i, p, k, n - 1);
    }
  }

  /** The tables that are missing among the first `n` slots on the way to `p`. */
  function Missing(t: Table, d: Disk, i: nat, p: Path, n: nat): nat
    requires i in t && IsPath(p) && n <= |p|
  {
    if n == 0 then 0 else Missing(t, d, i, p, n - 1) + if Slot(t, d, i, p[..n]) == 0 then 1 else 0
  }

  lemma {:induction false} MissingMore(t: Table, d: Disk, i: nat, p: Path, k: nat, n: nat)
    requires i in t && IsPath(p) && 0 < k <= n <= |p|
    ensures Missing(t, d, i, p, k) <= Missing(t, d, i, p, n)
    ensures Missing(t, d, i, p, k) == Missing(t, d, i, p, k - 1) + if Slot(t, d, i, p[..k]) == 0 then 1 else 0
    decreases n - k
  {
    if k < n { MissingMore(t, d, i, p, k + 1, n); }
  }

  /** The free blocks that a new data block in slot `p` takes: itself, and the tables that are missing. */
  function Needs(t: Table, d: Disk, i: nat, p: Path): nat
    requires i in t && IsPath(p)
  {
    1 + Missing(t, d, i, p, |p| - 1)
  }

  /** A block in hand is not accounted for by what is held. */
  lemma {:induction false} NotConserved(t: Table, d: Disk, bits: seq<bool>, a: Area, b: nat)
    requires Conserved(t, d, bits, a, {b})
    ensures !Conserved(t, d, bits, a, {})
  {
    assert b in {b};
    assert bits[b - a.start];
  }

  /** Writing a block in hand changes nothing that is held. */
  lemma {:induction false} FreshWrite(t: Table, d: Disk, bits: seq<bool>, a: Area, extra: set<nat>, b: nat, c: Block)
    requires Conserved(t, d, bits, a, extra) && b in extra
    ensures Conserved(t, d[b := c], bits, a, extra)
    ensures forall i, p :: i in t && IsPath(p) ==> Slot(t, d[b := c], i, p) == Slot(t, d, i, p)
  {
    assert !IsTable(t, d, b);
    SlotsKept(t, d, b, c);
    SameSlots(t, d, d[b := c], bits, a, extra);
  }

  lemma {:induction false} SlotsKept(t: Table, d: Disk, b: nat, c: Block)
    requires !IsTable(t, d, b)
    ensures forall i, p :: i in t && IsPath(p) ==> Slot(t, d[b := c], i, p) == Slot(t, d, i, p)
  {
    forall i, p | i in t && IsPath(p) ensures Slot(t, d[b := c], i, p) == Slot(t, d, i, p) {
      WriteAt(t, d, b, c, i, p);
    }
  }

  /** Conservation depends on the slots alone. */
  lemma {:induction false} SameSlots(t: Table, d: Disk, d': Disk, bits: seq<bool>, a: Area, extra: set<nat>)
    requires Conserved(t, d, bits, a, extra)
    requires forall i, p :: i in t && IsPath(p) ==> Slot(t, d', i, p) == Slot(t, d, i, p)
    ensures Conserved(t, d', bits, a, extra)
  {
    forall b ensures Held(t, d', b) <==> Held(t, d, b) {
      if Held(t, d', b) {
        var i, p :| i in t && IsPath(p) && Slot(t, d', i, p) == b;
        assert Slot(t, d, i, p) == b;
      }
      if Held(t, d, b) {
        var i, p :| i in t && IsPath(p) && Slot(t, d, i, p) == b;
        assert Slot(t, d', i, p) == b;
      }
    }
  }

  lemma {:induction false} Prefixes(p: Path)
    requires IsData(p) && |p| > 1
    ensures |p| <= 4
    ensures forall k :: 1 <= k < |p| ==> IsPath(p[..k]) && !IsData(p[..k]) && (k > 1 ==> Up(p[..k]) == p[..k - 1])
    ensures Up(p) == p[..|p| - 1]
  {
  }

  /** The slots of a logical block number, written out. */
  lemma {:induction false} PathSlots(s: Sectors, d: Disk, idx: nat)
    requires idx < INDEX_END
    ensures IsPath(PathOf(idx))
    ensures var p := PathOf(idx);
      && (|p| == 1 ==> At(s, d, p) == s[p[0]])
      && (|p| >= 2 ==> At(s, d, p[..2]) == if s[p[0]] == 0 then 0 else Word(Read(d, s[p[0]]), p[1]))
      && (|p| >= 3 ==> At(s, d, p[..3]) == if At(s, d, p[..2]) == 0 then 0 else Word(Read(d, At(s, d, p[..2])), p[2]))
      && (|p| >= 4 ==> At(s, d, p[..4]) == if At(s, d, p[..3]) == 0 then 0 else Word(Read(d, At(s, d, p[..3])), p[3]))
      && p[..|p|] == p
  {
    PathIndex(idx);
    var p := PathOf(idx);
    assert |p| >= 2 ==> Up(p[..2]) == p[..1] && Last(p[..2]) == p[1];
    assert |p| >= 3 ==> Up(p[..3]) == p[..2] && Last(p[..3]) == p[2];
    assert |p| >= 4 ==> Up(p[..4]) == p[..3] && Last(p[..4]) == p[3];
  }
}
