/**
 The block index of an inode (code/fs/inode.h, code/fs/inode.c): 12 direct blocks and single, double and triple
 indirect tables of 1024 entries.

 A path names a slot: the first number is an index into `i_sectors`, each further one an entry of the table the
 path has reached so far. `At` is the block number stored in a slot, 0 when the slot or a table above it is unset.
 */
module FsIndex {
  import opened Common

  const SINGLE: nat := 12
  const DOUBLE: nat := 13
  const TRIPLE: nat := 14
  const SECTORS: nat := 15

  const SINGLE_START: nat := 12
  const DOUBLE_START: nat := 1036
  const TRIPLE_START: nat := 1049612
  const INDEX_END: nat := 1049612 + 1024 * 1024 * 1024

  function Zeros(n: nat): (z: seq<Byte>)
    ensures |z| == n && forall i :: 0 <= i < n ==> z[i] == 0
  {
    seq(n, _ => 0)
  }

  type Block = b: seq<Byte> | |b| == 4096 witness Zeros(4096)

  function Zero(): Block { Zeros(4096) }

  type Disk = map<nat, Block>

  function Read(d: Disk, b: nat): Block { if b in d then d[b] else Zero() }

  // ---------- tables of little-endian words ----------

  function Word(b: Block, i: nat): (w: nat)
    requires i < ENTRIES
    ensures w < TWO32
  {
    (b[4 * i] as nat) + 0x100 * (b[4 * i + 1] as nat) + 0x1_0000 * (b[4 * i + 2] as nat) +
      0x100_0000 * (b[4 * i + 3] as nat)
  }

  function SetWord(b: Block, i: nat, w: nat): Block
    requires i < ENTRIES && w < TWO32
  {
    b[4 * i := w % 0x100][4 * i + 1 := w / 0x100 % 0x100]
     [4 * i + 2 := w / 0x1_0000 % 0x100][4 * i + 3 := w / 0x100_0000]
  }

  lemma {:induction false} Digits(w: nat)
    requires w < TWO32
    ensures w / 0x100_0000 < 0x100
    ensures w % 0x100 + 0x100 * (w / 0x100 % 0x100) + 0x1_0000 * (w / 0x1_0000 % 0x100) +
      0x100_0000 * (w / 0x100_0000) == w
  {
    var a := w / 0x100;
    var b := a / 0x100;
    assert w / 0x1_0000 == b;
    assert w / 0x100_0000 == b / 0x100;
    assert w == 0x100 * a + w % 0x100 && a == 0x100 * b + a % 0x100 && b == 0x100 * (b / 0x100) + b % 0x100;
  }

  /** Writing an entry of a table changes that entry and no other. */
  lemma {:induction false} WordSet(b: Block, i: nat, w: nat, j: nat)
    requires i < ENTRIES && j < ENTRIES && w < TWO32
    ensures Word(SetWord(b, i, w), j) == if j == i then w else Word(b, j)
  {
    Digits(w);
  }

  lemma {:induction false} WordZero(i: nat)
    requires i < ENTRIES
    ensures Word(Zero(), i) == 0
  {
  }

  // ---------- slots ----------

  type Path = seq<nat>

  function Level(s: nat): nat { if s < SINGLE then 0 else if s == SINGLE then 1 else if s == DOUBLE then 2 else 3 }

  predicate IsPath(p: Path) {
    |p| >= 1 && p[0] < SECTORS && |p| <= 1 + Level(p[0]) && forall k :: 1 <= k < |p| ==> p[k] < ENTRIES
  }

  /** The slot holds a data block, not a table. */
  predicate IsData(p: Path) { IsPath(p) && |p| == 1 + Level(p[0]) }

  function Up(p: Path): Path
    requires |p| >= 1
  {
    p[..|p| - 1]
  }

  function Last(p: Path): nat
    requires |p| >= 1
  {
    p[|p| - 1]
  }

  type Sectors = s: seq<nat> | |s| == 15 witness [0, 0, 0, 0, 0, 0, 0, 0, 0, 0, 0, 0, 0, 0, 0]

  function At(s: Sectors, d: Disk, p: Path): nat
    requires IsPath(p)
    decreases |p|
  {
    if |p| == 1 then s[p[0]]
    else
      var t := At(s, d, Up(p));
      if t == 0 then 0 else Word(Read(d, t), Last(p))
  }

  // ---------- logical block numbers ----------

  /** Where the block of logical number `i` is stored, as `get_data_block` computes it. */
  function PathOf(i: nat): (p: Path)
    requires i < INDEX_END
  {
    if i < SINGLE_START then [i]
    else if i < DOUBLE_START then [SINGLE, i - SINGLE_START]
    else if i < TRIPLE_START then
      var off := i - DOUBLE_START;
      [DOUBLE, off / ENTRIES, off % ENTRIES]
    else
      var off := i - TRIPLE_START;
      var rem := off % (ENTRIES * ENTRIES);
      [TRIPLE, off / (ENTRIES * ENTRIES), rem / ENTRIES, rem % ENTRIES]
  }

  /** The logical number of a data slot. */
  function IndexOf(p: Path): nat
    requires IsData(p)
  {
    if p[0] < SINGLE then p[0]
    else if p[0] == SINGLE then SINGLE_START + p[1]
    else if p[0] == DOUBLE then DOUBLE_START + p[1] * ENTRIES + p[2]
    else TRIPLE_START + p[1] * ENTRIES * ENTRIES + p[2] * ENTRIES + p[3]
  }

  /** Logical numbers and data slots correspond one to one. */
  lemma {:induction false} PathIndex(i: nat)
    requires i < INDEX_END
    ensures IsData(PathOf(i)) && IndexOf(PathOf(i)) == i
  {
    if i >= TRIPLE_START {
      var off := i - TRIPLE_START;
      assert off < ENTRIES * ENTRIES * ENTRIES;
      assert off / (ENTRIES * ENTRIES) < ENTRIES;
      var rem := off % (ENTRIES * ENTRIES);
      assert off == off / (ENTRIES * ENTRIES) * (ENTRIES * ENTRIES) + rem;
      assert rem / ENTRIES < ENTRIES && rem == rem / ENTRIES * ENTRIES + rem % ENTRIES;
    }
  }

  lemma {:induction false} IndexPath(p: Path)
    requires IsData(p)
    ensures IndexOf(p) < INDEX_END && PathOf(IndexOf(p)) == p
  {
    if p[0] == TRIPLE {
      var rem := p[2] * ENTRIES + p[3];
      assert rem < ENTRIES * ENTRIES;
      var off := p[1] * (ENTRIES * ENTRIES) + rem;
      assert off / (ENTRIES * ENTRIES) == p[1] && off % (ENTRIES * ENTRIES) == rem;
      assert rem / ENTRIES == p[2] && rem % ENTRIES == p[3];
    }
  }

  /** Path `p` comes before `q`: at the first place where they differ. */
  predicate Earlier(p: Path, q: Path) { exists k :: 0 <= k < |p| && k < |q| && p[..k] == q[..k] && p[k] < q[k] }

  /** Higher block numbers have later slots, through all levels. */
  lemma {:induction false} PathsInOrder(i: nat, j: nat)
    requires i < j < INDEX_END
    ensures Earlier(PathOf(i), PathOf(j))
  {
    var p, q := PathOf(i), PathOf(j);
    if p[0] != q[0] {
      assert p[..0] == q[..0];
    } else if i < DOUBLE_START {
      assert p[..1] == q[..1] && p[1] < q[1];
    } else if i < TRIPLE_START {
      TwoDigits(p, q, 1, i - DOUBLE_START, j - DOUBLE_START);
    } else {
      var m, n := i - TRIPLE_START, j - TRIPLE_START;
      var e := ENTRIES * ENTRIES;
      Quotients(m, n, e);
      if m / e < n / e {
        assert p[..1] == q[..1];
      } else {
        TwoDigits(p, q, 2, m % e, n % e);
      }
    }
  }

  lemma {:induction false} Quotients(m: nat, n: nat, e: nat)
    requires m < n && e > 0
    ensures m / e < n / e || (m / e == n / e && m % e < n % e)
  {
    var a, b := m / e, n / e;
    assert m == e * a + m % e && n == e * b + n % e;
    if a > b { Steps(e, b, a); }
  }

  lemma {:induction false} Steps(e: nat, b: nat, a: nat)
    requires b < a
    ensures e * b + e <= e * a
  {
    var rest := e * (a - b - 1);
    assert e * a == e * b + e + rest;
  }

  lemma {:induction false} TwoDigits(p: Path, q: Path, k: nat, m: nat, n: nat)
    requires m < n && |p| == |q| == k + 2 && p[..k] == q[..k]
    requires p[k] == m / ENTRIES && p[k + 1] == m % ENTRIES && q[k] == n / ENTRIES && q[k + 1] == n % ENTRIES
    ensures Earlier(p, q)
  {
    Quotients(m, n, ENTRIES);
    if p[k] == q[k] { assert p[..k + 1] == p[..k] + [p[k]] && q[..k + 1] == q[..k] + [q[k]]; }
  }
}
