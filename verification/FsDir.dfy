/**
 Directories (code/fs/dir.c): up to 1036 blocks of 170 entries, 12 of them named in the inode and 1024 in a table.

 A block that is not allocated is the empty sequence.
 */
module FsDir {
  import opened Common

  const ENTRY_SIZE: nat := 24
  const PER_BLOCK: nat := 170

  type Name = string

  datatype Entry = Entry(name: Name, ino: nat, isDir: bool)

  /** A slot whose file type is unknown is empty; its bytes are zero. */
  datatype Slot = Empty | Full(entry: Entry)

  type Blk = seq<Slot>

  // ---------- the entries of a directory ----------

  function LiveIn(b: Blk): seq<Entry> {
    if b == [] then [] else (if b[0].Full? then [b[0].entry] else []) + LiveIn(b[1..])
  }

  /** The live entries, block by block and slot by slot. */
  function Live(all: seq<Blk>): seq<Entry> {
    if all == [] then [] else LiveIn(all[0]) + Live(all[1..])
  }

  lemma {:induction false} LiveInSplit(a: Blk, b: Blk)
    ensures LiveIn(a + b) == LiveIn(a) + LiveIn(b)
  {
    if a == [] {
      assert a + b == b;
    } else {
      assert (a + b)[1..] == a[1..] + b && (a + b)[0] == a[0];
      LiveInSplit(a[1..], b);
      Join(if a[0].Full? then [a[0].entry] else [], LiveIn(a[1..]), LiveIn(b));
    }
  }

  lemma {:induction false} LiveSplit(a: seq<Blk>, b: seq<Blk>)
    ensures Live(a + b) == Live(a) + Live(b)
  {
    if a == [] {
      assert a + b == b;
    } else {
      assert (a + b)[1..] == a[1..] + b && (a + b)[0] == a[0];
      LiveSplit(a[1..], b);
      Join(LiveIn(a[0]), Live(a[1..]), Live(b));
    }
  }

  /** The entries around slot `k` of block `i`. */
  lemma {:induction false} LiveAround(all: seq<Blk>, i: nat)
    requires i < |all|
    ensures Live(all) == Live(all[..i]) + LiveIn(all[i]) + Live(all[i + 1..])
  {
    assert all == all[..i] + all[i..];
    LiveSplit(all[..i], all[i..]);
    assert all[i..][1..] == all[i + 1..];
  }

  lemma {:induction false} LiveInAround(b: Blk, k: nat)
    requires k < |b|
    ensures LiveIn(b) == LiveIn(b[..k]) + (if b[k].Full? then [b[k].entry] else []) + LiveIn(b[k + 1..])
  {
    assert b == b[..k] + b[k..];
    LiveInSplit(b[..k], b[k..]);
    assert b[k..][1..] == b[k + 1..];
  }

  /** What comes before and after slot `k` of block `i`. */
  function BeforeSlot(all: seq<Blk>, i: nat, k: nat): seq<Entry>
    requires i < |all| && k <= |all[i]|
  {
    Live(all[..i]) + LiveIn(all[i][..k])
  }

  function AfterSlot(all: seq<Blk>, i: nat, k: nat): seq<Entry>
    requires i < |all| && k < |all[i]|
  {
    LiveIn(all[i][k + 1..]) + Live(all[i + 1..])
  }

  lemma {:induction false} LiveReplaced(all: seq<Blk>, i: nat, b: Blk)
    requires i < |all|
    ensures Live(all[i := b]) == Live(all[..i]) + LiveIn(b) + Live(all[i + 1..])
  {
    LiveAround(all[i := b], i);
    assert all[i := b][..i] == all[..i] && all[i := b][i + 1..] == all[i + 1..];
  }

  /** Writing a slot of a block. */
  lemma {:induction false} LiveInWrite(b: Blk, k: nat, s: Slot)
    requires k < |b|
    ensures LiveIn(b[k := s]) == LiveIn(b[..k]) + (if s.Full? then [s.entry] else []) + LiveIn(b[k + 1..])
  {
    LiveInAround(b[k := s], k);
    assert b[k := s][..k] == b[..k] && b[k := s][k + 1..] == b[k + 1..];
  }

  lemma {:induction false} Regroup<T>(a: seq<T>, x: seq<T>, m: seq<T>, y: seq<T>, c: seq<T>)
    ensures a + (x + m + y) + c == (a + x) + m + (y + c)
  {
  }

  /** Writing a slot changes the entry there and nothing else. */
  lemma {:induction false} LiveWrite(all: seq<Blk>, i: nat, k: nat, s: Slot)
    requires i < |all| && k < |all[i]|
    ensures Live(all[i := all[i][k := s]]) ==
      BeforeSlot(all, i, k) + (if s.Full? then [s.entry] else []) + AfterSlot(all, i, k)
  {
    var mid := if s.Full? then [s.entry] else [];
    LiveReplaced(all, i, all[i][k := s]);
    LiveInWrite(all[i], k, s);
    Regroup(Live(all[..i]), LiveIn(all[i][..k]), mid, LiveIn(all[i][k + 1..]), Live(all[i + 1..]));
  }

  lemma {:induction false} LiveAt(all: seq<Blk>, i: nat, k: nat)
    requires i < |all| && k < |all[i]|
    ensures Live(all) ==
      BeforeSlot(all, i, k) + (if all[i][k].Full? then [all[i][k].entry] else []) + AfterSlot(all, i, k)
  {
    LiveWrite(all, i, k, all[i][k]);
    assert all[i][k := all[i][k]] == all[i] && all[i := all[i]] == all;
  }

  function Blank(n: nat): (b: Blk)
    ensures |b| == n && forall k :: 0 <= k < n ==> b[k] == Empty
  {
    seq(n, _ => Empty)
  }

  /** Empty slots hold no entry. */
  lemma {:induction false} BlankLive(b: Blk)
    requires forall k :: 0 <= k < |b| ==> b[k] == Empty
    ensures LiveIn(b) == []
  {
    if b != [] { BlankLive(b[1..]); }
  }

  /** A directory with one entry more, in front of some and behind the others. */
  ghost predicate Inserted(l: seq<Entry>, l': seq<Entry>, e: Entry) {
    exists i :: 0 <= i <= |l| && l' == l[..i] + [e] + l[i..]
  }

  ghost predicate Removed(l: seq<Entry>, l': seq<Entry>, i: nat) { i < |l| && l' == l[..i] + l[i + 1..] }

  // ---------- blocks ----------

  function NoBlocks(n: nat): (all: seq<Blk>)
    ensures |all| == n && forall i :: 0 <= i < n ==> all[i] == []
  {
    seq(n, _ => [])
  }

  /** The number of allocated blocks. */
  function Allocated(all: seq<Blk>): nat {
    if all == [] then 0 else (if all[0] != [] then 1 else 0) + Allocated(all[1..])
  }

  lemma {:induction false} AllocatedSplit(a: seq<Blk>, b: seq<Blk>)
    ensures Allocated(a + b) == Allocated(a) + Allocated(b)
  {
    if a == [] {
      assert a + b == b;
    } else {
      assert (a + b)[1..] == a[1..] + b;
      AllocatedSplit(a[1..], b);
    }
  }

  lemma {:induction false} AllocatedWrite(all: seq<Blk>, i: nat, b: Blk)
    requires i < |all|
    ensures Allocated(all[i := b]) == Allocated(all) - (if all[i] != [] then 1 else 0) + (if b != [] then 1 else 0)
  {
    assert all == all[..i] + [all[i]] + all[i + 1..] && all[i := b] == all[..i] + [b] + all[i + 1..];
    AllocatedSplit(all[..i] + [all[i]], all[i + 1..]);
    AllocatedSplit(all[..i], [all[i]]);
    AllocatedSplit(all[..i] + [b], all[i + 1..]);
    AllocatedSplit(all[..i], [b]);
  }

  lemma {:induction false} AllocatedSome(all: seq<Blk>)
    ensures Allocated(all) == 0 <==> forall i :: 0 <= i < |all| ==> all[i] == []
  {
    if all != [] { AllocatedSome(all[1..]); }
  }

  /** A directory as its inode and table name it, and its size. */
  datatype State = State(direct: seq<Blk>, table: Option<seq<Blk>>, size: nat)

  /** `collect_dir_blocks` */
  function All(d: State): seq<Blk> { d.direct + if d.table.Some? then d.table.value else NoBlocks(ENTRIES) }

  predicate Sized(all: seq<Blk>) { forall i :: 0 <= i < |all| ==> |all[i]| == 0 || |all[i]| == PER_BLOCK }

  predicate Shaped(d: State) {
    |d.direct| == DIRECT && Sized(d.direct) && (d.table.Some? ==> |d.table.value| == ENTRIES && Sized(d.table.value))
  }

  /** Block 0 starts with the directory itself and its parent. */
  predicate Rooted(d: State) {
    && |d.direct| > 0 && |d.direct[0]| > 1
    && d.direct[0][0].Full? && d.direct[0][0].entry.name == "." && d.direct[0][1].Full?
    && d.direct[0][1].entry.name == ".."
  }

  /** No block is allocated without an entry in it. */
  predicate InUse(all: seq<Blk>) { forall i :: 0 <= i < |all| && all[i] != [] ==> LiveIn(all[i]) != [] }

  predicate Tight(d: State) {
    InUse(d.direct) && (d.table.Some? ==> InUse(d.table.value) && Allocated(d.table.value) > 0)
  }

  predicate Ok(d: State) { Shaped(d) && Rooted(d) && Tight(d) && d.size == ENTRY_SIZE * |Live(All(d))| }

  predicate Crowded(b: Blk) { b != [] && forall k :: 0 <= k < |b| ==> b[k].Full? }

  /**
   The case in which `sync_dir_entry` replaces the table: there is one, its first entry is zero, and the direct blocks
   are full.
   */
  predicate Replaces(d: State) {
    && d.table.Some? && |d.table.value| > 0 && d.table.value[0] == []
    && forall i :: 0 <= i < |d.direct| ==> Crowded(d.direct[i])
  }

  /** Both entries of block 0 that are always there. */
  lemma {:induction false} TwoLive(d: State)
    requires Shaped(d) && Rooted(d)
    ensures |LiveIn(d.direct[0])| >= 2
  {
    var b := d.direct[0];
    LiveInAround(b, 0);
    LiveInAround(b[1..], 0);
    assert b[1..][0] == b[1];
  }

  /** Two blocks share the live entries. */
  lemma {:induction false} LiveTwo(all: seq<Blk>, i: nat)
    requires 0 < i < |all|
    ensures |Live(all)| >= |LiveIn(all[0])| + |LiveIn(all[i])|
  {
    LiveAround(all, i);
    LiveAround(all[..i], 0);
  }

  /** An empty directory owns block 0 and nothing else, so the assertion of `dir_remove` holds. */
  lemma {:induction false} EmptyOwnsOne(d: State)
    requires Ok(d) && d.size == 2 * ENTRY_SIZE
    ensures d.table == None && forall i :: 1 <= i < DIRECT ==> d.direct[i] == []
  {
    var all := All(d);
    TwoLive(d);
    forall i | 1 <= i < DIRECT + ENTRIES ensures LiveIn(all[i]) == [] {
      LiveTwo(all, i);
    }
    forall i | 1 <= i < DIRECT ensures d.direct[i] == [] {
      assert all[i] == d.direct[i];
    }
    if d.table.Some? {
      AllocatedSome(d.table.value);
      forall i | 0 <= i < ENTRIES ensures d.table.value[i] == [] {
        assert all[DIRECT + i] == d.table.value[i];
      }
    }
  }
}
