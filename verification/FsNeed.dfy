/**
 How many free blocks it takes to give a range of an inode's block numbers their blocks, and the tables above them.
 */
module FsNeed {
  import opened Common
  import opened FsIndex
  import opened FsVolume
  import opened FsAlloc

  /** The slots among the first `n` on the way to `p` that hold nothing. */
  ghost function Gaps(t: Table, d: Disk, i: nat, p: Path, n: nat): set<Path>
    requires i in t && IsPath(p) && n <= |p|
  {
    set k | 1 <= k <= n && Slot(t, d, i, p[..k]) == 0 :: p[..k]
  }

  lemma {:induction false} GapsMore(t: Table, d: Disk, i: nat, p: Path, n: nat)
    requires i in t && IsPath(p) && 0 < n <= |p|
    ensures p[..n] !in Gaps(t, d, i, p, n - 1)
    ensures Gaps(t, d, i, p, n) == Gaps(t, d, i, p, n - 1) + if Slot(t, d, i, p[..n]) == 0 then {p[..n]} else {}
  {
    forall q ensures q in Gaps(t, d, i, p, n) <==>
      q in Gaps(t, d, i, p, n - 1) || (q == p[..n] && Slot(t, d, i, p[..n]) == 0)
    {
    }
    assert forall q <- Gaps(t, d, i, p, n - 1) :: |q| < n;
  }

  lemma {:induction false} GapsCount(t: Table, d: Disk, i: nat, p: Path, n: nat)
    requires i in t && IsPath(p) && n <= |p|
    ensures |Gaps(t, d, i, p, n)| == Missing(t, d, i, p, n)
  {
    if n > 0 {
      GapsCount(t, d, i, p, n - 1);
      GapsMore(t, d, i, p, n);
    } else {
      assert Gaps(t, d, i, p, n) == {};
    }
  }

  /** The slots on the way to the data blocks from number `a` up to `b`, and these themselves. */
  ghost function Ways(a: nat, b: nat): set<Path>
    requires b <= INDEX_END
  {
    set idx, k | a <= idx < b && 1 <= k <= |PathOf(idx)| :: PathOf(idx)[..k]
  }

  /** Those that hold nothing. */
  ghost function Lacking(t: Table, d: Disk, i: nat, a: nat, b: nat): set<Path>
    requires i in t && b <= INDEX_END
  {
    set q | q in Ways(a, b) && IsPath(q) && Slot(t, d, i, q) == 0
  }

  lemma {:induction false} GapsLacking(t: Table, d: Disk, i: nat, a: nat, b: nat, idx: nat)
    requires i in t && a <= idx < b <= INDEX_END && IsPath(PathOf(idx))
    ensures Gaps(t, d, i, PathOf(idx), |PathOf(idx)|) <= Lacking(t, d, i, a, b)
  {
  }

  /** A block that is missing lacks no more than the range it is in. */
  lemma {:induction false} LackingSome(t: Table, d: Disk, i: nat, a: nat, b: nat, idx: nat)
    requires i in t && a <= idx < b <= INDEX_END && IsPath(PathOf(idx)) && Slot(t, d, i, PathOf(idx)) == 0
    ensures Needs(t, d, i, PathOf(idx)) <= |Lacking(t, d, i, a, b)|
  {
    var p := PathOf(idx);
    GapsLacking(t, d, i, a, b, idx);
    GapsCount(t, d, i, p, |p|);
    assert p[..|p|] == p;
    Fewer(Gaps(t, d, i, p, |p|), Lacking(t, d, i, a, b));
  }

  lemma {:induction false} Fewer<T>(x: set<T>, y: set<T>)
    requires x <= y
    ensures |x| <= |y| && |y - x| == |y| - |x|
  {
    assert y == x + (y - x);
  }

  /** What is taken from the free blocks is what is no longer lacking. */
  lemma {:induction false} LackingKept(t: Table, d: Disk, t': Table, d': Disk, i: nat, a: nat, b: nat, idx: nat,
                                       spare: nat, spare': nat)
    requires i in t && i in t' && a <= idx < b <= INDEX_END && Advanced(t, d, t', d', i, PathOf(idx), spare, spare')
    ensures spare - |Lacking(t, d, i, a, b)| == spare' - |Lacking(t', d', i, a, b)|
  {
    var p := PathOf(idx);
    var x, x' := Lacking(t, d, i, a, b), Lacking(t', d', i, a, b);
    var g, g' := Gaps(t, d, i, p, |p|), Gaps(t', d', i, p, |p|);
    GapsLacking(t, d, i, a, b, idx);
    GapsLacking(t', d', i, a, b, idx);
    GapsCount(t, d, i, p, |p|);
    GapsCount(t', d', i, p, |p|);
    Fewer(g, x);
    Fewer(g', x');
    forall q ensures q in x - g <==> q in x' - g' {
      Elsewhere(t, d, t', d', i, a, b, idx, q);
    }
    assert x - g == x' - g';
  }

  lemma {:induction false} Elsewhere(t: Table, d: Disk, t': Table, d': Disk, i: nat, a: nat, b: nat, idx: nat, q: Path)
    requires i in t && i in t' && a <= idx < b <= INDEX_END && IsPath(PathOf(idx))
    requires OnlyBelow(t, d, t', d', i, PathOf(idx))
    ensures var p := PathOf(idx);
      q in Lacking(t, d, i, a, b) - Gaps(t, d, i, p, |p|) <==> q in Lacking(t', d', i, a, b) - Gaps(t', d', i, p, |p|)
  {
    var p := PathOf(idx);
    if IsPath(q) && q <= p {
      assert q == p[..|q|];
    }
  }

  /** Above a block that is there, nothing is lacking. */
  lemma {:induction false} SlotAbove(t: Table, d: Disk, i: nat, p: Path, k: nat)
    requires i in t && IsPath(p) && Slot(t, d, i, p) != 0 && 1 <= k <= |p|
    ensures IsPath(p[..k]) && Slot(t, d, i, p[..k]) != 0
    decreases |p|
  {
    if k == |p| {
      assert p[..k] == p;
    } else {
      UpPath(p);
      SlotAbove(t, d, i, Up(p), k);
      assert Up(p)[..k] == p[..k];
    }
  }

  lemma {:induction false} LackingNone(t: Table, d: Disk, i: nat, a: nat, b: nat)
    requires i in t && b <= INDEX_END
    requires forall idx :: a <= idx < b ==> IsPath(PathOf(idx)) && Slot(t, d, i, PathOf(idx)) != 0
    ensures Lacking(t, d, i, a, b) == {}
  {
    forall q | q in Ways(a, b) && IsPath(q) ensures Slot(t, d, i, q) != 0 {
      var idx, k :| a <= idx < b && 1 <= k <= |PathOf(idx)| && q == PathOf(idx)[..k];
      SlotAbove(t, d, i, PathOf(idx), k);
    }
  }
}
