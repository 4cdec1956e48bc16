/** Bitmaps (code/lib/kernel/bitmap.c). */
module BitmapScan {
  import opened BitSpec

  // ---------- bits of a byte ----------

  predicate Bit(b: bv8, i: nat)
    requires i < 8
  {
    b & ((1 as bv8) << i) != 0
  }

  /** `(1 << n) - 1`, computed in 32 bits and cut to 8. */
  function LowMask(n: nat): bv8
    requires n < 16
  {
    ((((1 as bv32) << n) - 1) & 0xff) as bv8
  }

  /** `((1 << n) - 1) << (8 - n)`, cut to 8 bits. */
  function HighMask(n: nat): bv8
    requires n < 8
  {
    (((((1 as bv32) << n) - 1) << (8 - n)) & 0xff) as bv8
  }

  lemma {:induction false} ZeroByte(b: bv8)
    ensures b == 0 <==> forall i: nat :: i < 8 ==> !Bit(b, i)
  {
    assert Bit(b, 0) || Bit(b, 1) || Bit(b, 2) || Bit(b, 3) || Bit(b, 4) || Bit(b, 5) || Bit(b, 6) || Bit(b, 7)
      || b == 0;
  }

  lemma {:induction false} FullByte(i: nat)
    requires i < 8
    ensures Bit(0xff, i)
  {
  }

  lemma {:induction false} LowMaskStep(b: bv8, n: nat)
    requires 1 <= n < 16
    ensures n <= 8 ==> (b & LowMask(n) == 0 <==> b & LowMask(n - 1) == 0 && !Bit(b, n - 1))
    ensures n > 8 ==> LowMask(n) == 0xff
  {
    if n == 1 || n == 2 || n == 3 || n == 4 || n == 5 || n == 6 || n == 7 || n == 8 {
    }
  }

  lemma {:induction false} LowMasked(b: bv8, n: nat)
    requires n < 16
    ensures b & LowMask(n) == 0 <==> forall i: nat :: i < 8 && i < n ==> !Bit(b, i)
  {
    if n > 8 {
      LowMaskStep(b, n);
      ZeroByte(b);
    } else if n > 0 {
      LowMaskStep(b, n);
      LowMasked(b, n - 1);
    }
  }

  lemma {:induction false} HighMasked(b: bv8, n: nat)
    requires n < 8
    ensures b & HighMask(n) == 0 <==> forall i: nat :: 8 - n <= i < 8 ==> !Bit(b, i)
  {
    HighMaskIs(n);
    if n > 0 {
      HighMaskStep(b, n);
      HighMaskIs(n - 1);
      HighMasked(b, n - 1);
    }
  }

  lemma {:induction false} HighMaskIs(n: nat)
    requires n < 8
    ensures HighMask(n) == !LowMask(8 - n)
  {
    if n == 0 || n == 1 || n == 2 || n == 3 || n == 4 || n == 5 || n == 6 || n == 7 {
    }
  }

  lemma {:induction false} HighMaskStep(b: bv8, n: nat)
    requires 1 <= n < 8
    ensures b & !LowMask(8 - n) == 0 <==> b & !LowMask(9 - n) == 0 && !Bit(b, 8 - n)
  {
    if n == 1 || n == 2 || n == 3 || n == 4 || n == 5 || n == 6 || n == 7 {
    }
  }

  /** The new byte in `bitmap_set`. */
  function WithBit(b: bv8, k: nat, value: bool): bv8
    requires k < 8
  {
    if value then b | ((1 as bv8) << k) else b & !((1 as bv8) << k)
  }

  lemma {:induction false} BitSet(b: bv8, k: nat, value: bool, i: nat)
    requires k < 8 && i < 8
    ensures Bit(WithBit(b, k, value), i) == if i == k then value else Bit(b, i)
  {
    if value {
      BitOr(b, k, i);
    } else {
      BitAndNot(b, k, i);
    }
  }

  lemma {:induction false} BitOr(b: bv8, k: nat, i: nat)
    requires k < 8 && i < 8
    ensures Bit(b | ((1 as bv8) << k), i) == (i == k || Bit(b, i))
  {
    if k == 0 || k == 1 || k == 2 || k == 3 || k == 4 || k == 5 || k == 6 || k == 7 {
    }
  }

  lemma {:induction false} BitAndNot(b: bv8, k: nat, i: nat)
    requires k < 8 && i < 8
    ensures Bit(b & !((1 as bv8) << k), i) == (i != k && Bit(b, i))
  {
    if k == 0 || k == 1 || k == 2 || k == 3 || k == 4 || k == 5 || k == 6 || k == 7 {
    }
  }

  // ---------- the bits of a bitmap ----------

  /** The bits of a byte array, lowest bit of the first byte first. */
  function Bits(a: seq<bv8>): (bits: seq<bool>)
    ensures |bits| == 8 * |a|
  {
    seq(8 * |a|, i requires 0 <= i < 8 * |a| => Bit(a[i / 8], i % 8))
  }

  lemma {:induction false} BitsAt(a: seq<bv8>, j: nat, i: nat)
    requires j < |a| && i < 8
    ensures Bits(a)[8 * j + i] == Bit(a[j], i)
  {
  }

  /** Byte `j` has a set bit, or lies past the end. */
  ghost predicate Blocked(bits: seq<bool>, j: nat) {
    8 * j >= |bits| || exists i :: 8 * j <= i < 8 * j + 8 && i < |bits| && bits[i]
  }

  ghost predicate ClearByte(bits: seq<bool>, j: nat) {
    8 * j + 8 <= |bits| && forall i :: 8 * j <= i < 8 * j + 8 ==> !bits[i]
  }

  lemma {:induction false} ByteTest(a: seq<bv8>, j: nat)
    requires j < |a|
    ensures a[j] == 0 <==> ClearByte(Bits(a), j)
    ensures a[j] != 0 <==> Blocked(Bits(a), j)
  {
    ZeroByte(a[j]);
    if a[j] != 0 {
      var i: nat :| i < 8 && Bit(a[j], i);
      BitsAt(a, j, i);
    }
  }

  /** The test of the low `n` bits of byte `j`; from 8 on the mask is all ones. */
  lemma {:induction false} LowTest(a: seq<bv8>, j: nat, n: nat)
    requires j < |a| && n < 16
    ensures a[j] & LowMask(n) == 0 <==> ClearRun(Bits(a), 8 * j, if n < 8 then n else 8)
  {
    LowMasked(a[j], n);
    if a[j] & LowMask(n) != 0 {
      var i: nat :| i < 8 && i < n && Bit(a[j], i);
      BitsAt(a, j, i);
    }
  }

  lemma {:induction false} HighTest(a: seq<bv8>, j: nat, n: nat)
    requires j < |a| && n < 8
    ensures a[j] & HighMask(n) == 0 <==> ClearRun(Bits(a), 8 * j + 8 - n, n)
  {
    HighMasked(a[j], n);
    if a[j] & HighMask(n) != 0 {
      var i: nat :| 8 - n <= i < 8 && Bit(a[j], i);
      BitsAt(a, j, i);
    }
  }

  // ---------- runs the search can see ----------

  /** The first byte that a run from bit `k` on covers from its start. */
  function FirstByte(k: nat): nat { (k + 7) / 8 }

  /**
   The run of `cnt` bits at `k` starts or ends on a byte boundary, or covers one byte less than its length allows, but
   one at least.
   */
  predicate Visible(k: nat, cnt: nat) {
    k % 8 == 0 || (k + cnt) % 8 == 0 || ((k + cnt) / 8 - FirstByte(k) == cnt / 8 - 1 && cnt / 8 >= 2)
  }

  /** A clear run of `cnt` bits that the search can see. */
  ghost predicate Seen(bits: seq<bool>, k: nat, cnt: nat) { ClearRun(bits, k, cnt) && Visible(k, cnt) }

  /** Part of a clear run is clear. */
  lemma {:induction false} Within(bits: seq<bool>, k: nat, n: nat, k': nat, n': nat)
    requires ClearRun(bits, k, n) && k <= k' && k' + n' <= k + n
    ensures ClearRun(bits, k', n')
  {
  }

  /** Two clear runs that meet make one. */
  lemma {:induction false} Joined(bits: seq<bool>, k: nat, m: nat, n: nat)
    requires ClearRun(bits, k, m) && ClearRun(bits, k + m, n)
    ensures ClearRun(bits, k, m + n)
  {
  }

  /** A visible run either fills `cnt / 8` bytes, or one less with bits on both sides. */
  lemma {:induction false} Shape(k: nat, cnt: nat)
    requires cnt >= 8 && Visible(k, cnt)
    ensures var f := FirstByte(k);
      && 8 * f - 8 < k <= 8 * f
      && 8 * f + 8 * (cnt / 8) - 8 <= k + cnt
      && (8 * f + 8 * (cnt / 8) <= k + cnt || (cnt / 8 >= 2 && k < 8 * f && 8 * f + 8 * (cnt / 8) - 8 < k + cnt))
  {
  }

  /**
   A full run of `cnt / 8` clear bytes from `idx` on, with room neither behind nor before it, hides no visible run.
   */
  lemma {:induction false} NoneAtFull(bits: seq<bool>, idx: nat, cnt: nat, k: nat)
    requires cnt >= 8 && cnt % 8 != 0 && Seen(bits, k, cnt) && idx <= FirstByte(k) <= idx + cnt / 8
    requires Blocked(bits, idx + cnt / 8)
    ensures ClearRun(bits, 8 * (idx + cnt / 8), cnt % 8) || (idx > 0 && ClearRun(bits, 8 * idx - cnt % 8, cnt % 8))
  {
    Shape(k, cnt);
    var f, bl, bt := FirstByte(k), cnt / 8, cnt % 8;
    assert cnt == 8 * bl + bt;
    if 8 * f + 8 * bl <= k + cnt {
      if f != idx {
        assert false;
      } else if k == 8 * idx {
        Within(bits, k, cnt, 8 * (idx + bl), bt);
      } else {
        assert (k + cnt) % 8 == 0 ==> k == 8 * idx - bt;
        Within(bits, k, cnt, 8 * idx - bt, bt);
      }
    } else if f == idx {
      Within(bits, k, cnt, 8 * idx - bt, bt);
    } else if f == idx + 1 {
      Within(bits, k, cnt, 8 * (idx + bl), bt);
    } else {
      assert false;
    }
  }

  /**
   A run of `j` clear bytes that a blocked byte cuts short hides no visible run, but perhaps one with bits on both
   sides.
   */
  lemma {:induction false} NoneAtShort(bits: seq<bool>, idx: nat, j: nat, cnt: nat, k: nat)
    requires cnt >= 8 && Seen(bits, k, cnt) && idx <= FirstByte(k) <= idx + j && j < cnt / 8
    requires Blocked(bits, idx + j)
    ensures j == cnt / 8 - 1 && FirstByte(k) == idx > 0
    ensures 0 < 8 * idx - k < 8 && ClearRun(bits, k, 8 * idx - k)
    ensures 0 < k + cnt - 8 * (idx + j) < 8 && ClearRun(bits, 8 * (idx + j), k + cnt - 8 * (idx + j))
  {
    Shape(k, cnt);
    var f, bl := FirstByte(k), cnt / 8;
    if 8 * f + 8 * bl <= k + cnt || f > idx || j < bl - 1 {
      assert false;
    }
    assert !(8 * (idx + j) + 8 <= k + cnt);
    Within(bits, k, cnt, k, 8 * idx - k);
    Within(bits, k, cnt, 8 * (idx + j), k + cnt - 8 * (idx + j));
  }

  /** What makes an index the lowest run. */
  lemma {:induction false} IsLowest(bits: seq<bool>, n: nat, r: nat)
    requires ClearRun(bits, r, n) && forall k: nat :: k < r ==> !ClearRun(bits, k, n)
    ensures LowestRun(bits, n) == r
  {
  }

  lemma {:induction false} SkipFullRun(bits: seq<bool>, idx: nat, cnt: nat)
    requires cnt >= 8 && cnt % 8 != 0 && Blocked(bits, idx + cnt / 8)
    requires !ClearRun(bits, 8 * (idx + cnt / 8), cnt % 8) && (idx > 0 ==> !ClearRun(bits, 8 * idx - cnt % 8, cnt % 8))
    ensures forall k: nat :: Seen(bits, k, cnt) ==> !(idx <= FirstByte(k) <= idx + cnt / 8)
  {
    forall k: nat | Seen(bits, k, cnt) ensures !(idx <= FirstByte(k) <= idx + cnt / 8) {
      if idx <= FirstByte(k) <= idx + cnt / 8 { NoneAtFull(bits, idx, cnt, k); }
    }
  }

  /** Room behind `cnt / 8` clear bytes. */
  lemma {:induction false} RoomBehind(bits: seq<bool>, idx: nat, cnt: nat)
    requires ClearRun(bits, 8 * idx, 8 * (cnt / 8)) && ClearRun(bits, 8 * (idx + cnt / 8), cnt % 8)
    ensures Seen(bits, idx * 8, cnt)
  {
  }

  /** Room before them. */
  lemma {:induction false} RoomBefore(bits: seq<bool>, idx: nat, cnt: nat)
    requires idx > 0 && ClearRun(bits, 8 * idx, 8 * (cnt / 8)) && ClearRun(bits, 8 * (idx - 1) + 8 - cnt % 8, cnt % 8)
    ensures Seen(bits, (idx - 1) * 8 + (8 - cnt % 8), cnt)
  {
  }

  /**
   No visible run starts with byte `idx` or one of the `j` bytes behind it when they are cut short by two bytes or more.
   */
  lemma {:induction false} SkipShort(bits: seq<bool>, idx: nat, j: nat, cnt: nat)
    requires cnt >= 8 && Blocked(bits, idx + j) && j < cnt / 8 - 1
    ensures forall k: nat :: Seen(bits, k, cnt) ==> !(idx <= FirstByte(k) <= idx + j)
  {
    forall k: nat | Seen(bits, k, cnt) ensures !(idx <= FirstByte(k) <= idx + j) {
      if idx <= FirstByte(k) <= idx + j { NoneAtShort(bits, idx, j, cnt, k); }
    }
  }

  lemma {:induction false} SkipBlocked(bits: seq<bool>, idx: nat, cnt: nat)
    requires cnt >= 8 && Blocked(bits, idx)
    ensures forall k: nat :: Seen(bits, k, cnt) ==> FirstByte(k) != idx
  {
    forall k: nat | Seen(bits, k, cnt) ensures FirstByte(k) != idx {
      if FirstByte(k) == idx { NoneAtShort(bits, idx, 0, cnt, k); }
    }
  }

  lemma {:induction false} PastEnd(bits: seq<bool>, idx: nat, cnt: nat)
    requires cnt >= 8 && 8 * idx >= |bits| && forall k: nat :: Seen(bits, k, cnt) ==> FirstByte(k) >= idx
    ensures forall k: nat :: !Seen(bits, k, cnt)
  {
    forall k: nat ensures !Seen(bits, k, cnt) {
      if Seen(bits, k, cnt) { Shape(k, cnt); }
    }
  }

  /** A run with `before` bits in front of `j` bytes covers just those bytes. */
  lemma {:induction false} Straddles(idx: nat, j: nat, cnt: nat, before: nat)
    requires cnt >= 8 && 0 < j == cnt / 8 - 1 && 0 < idx && before < 8 && 0 < 8 + cnt % 8 - before < 8
    ensures 8 * idx >= before && Visible(8 * idx - before, cnt)
  {
  }

  /** Nothing comes before the first byte. */
  lemma {:induction false} NoneAtStart(bits: seq<bool>, j: nat, cnt: nat)
    requires cnt >= 8 && 0 < j == cnt / 8 - 1 && Blocked(bits, j)
    ensures forall k: nat :: Seen(bits, k, cnt) ==> !(0 <= FirstByte(k) <= j)
  {
    forall k: nat | Seen(bits, k, cnt) ensures !(0 <= FirstByte(k) <= j) {
      if FirstByte(k) <= j { NoneAtShort(bits, 0, j, cnt, k); }
    }
  }

  /** Neither side has the bits. */
  lemma {:induction false} NoneAround(bits: seq<bool>, idx: nat, j: nat, cnt: nat, before: nat)
    requires cnt >= 8 && 0 < j == cnt / 8 - 1 && 0 < idx && before < 8 && Blocked(bits, idx + j)
    requires 8 * idx <= |bits| && bits[8 * idx - before - 1]
    requires before < 8 + cnt % 8
    requires var remain := 8 + cnt % 8 - before; !ClearRun(bits, 8 * (idx + j), if remain < 8 then remain else 8)
    ensures forall k: nat :: Seen(bits, k, cnt) ==> !(idx <= FirstByte(k) <= idx + j)
  {
    forall k: nat | Seen(bits, k, cnt) ensures !(idx <= FirstByte(k) <= idx + j) {
      if idx <= FirstByte(k) <= idx + j { ClearAround(bits, idx, j, cnt, before, k); }
    }
  }

  /** A visible run around `j` bytes, with at most `before` bits before them, has the rest behind them. */
  lemma {:induction false} ClearAround(bits: seq<bool>, idx: nat, j: nat, cnt: nat, before: nat, k: nat)
    requires cnt >= 8 && 0 < j == cnt / 8 - 1 && 0 < idx && before < 8 && Blocked(bits, idx + j)
    requires 8 * idx <= |bits| && bits[8 * idx - before - 1]
    requires Seen(bits, k, cnt) && idx <= FirstByte(k) <= idx + j
    ensures 0 < 8 + cnt % 8 - before < 8 && ClearRun(bits, 8 * (idx + j), 8 + cnt % 8 - before)
  {
    NoneAtShort(bits, idx, j, cnt, k);
    assert k > 8 * idx - before - 1;
    Within(bits, 8 * (idx + j), k + cnt - 8 * (idx + j), 8 * (idx + j), 8 + cnt % 8 - before);
  }

  /** The last `now` bits before `p` are clear and no earlier, and no run of `cnt` bits ends at `p` or before. */
  ghost predicate Trailing(bits: seq<bool>, p: nat, now: nat, cnt: nat) {
    && now < cnt && now <= p <= |bits| && ClearRun(bits, p - now, now) && (p - now > 0 ==> bits[p - now - 1])
    && forall k: nat :: k + cnt <= p ==> !ClearRun(bits, k, cnt)
  }

  /** One bit more. */
  lemma {:induction false} TrailingStep(bits: seq<bool>, p: nat, now: nat, cnt: nat)
    requires Trailing(bits, p, now, cnt) && p < |bits|
    ensures bits[p] ==> Trailing(bits, p + 1, 0, cnt)
    ensures !bits[p] && now + 1 < cnt ==> Trailing(bits, p + 1, now + 1, cnt)
    ensures !bits[p] && now + 1 == cnt ==> LowestRun(bits, cnt) == p + 1 - cnt
  {
    if bits[p] {
      assert forall k: nat :: k + cnt == p + 1 ==> !ClearRun(bits, k, cnt);
    } else if now + 1 == cnt {
      IsLowest(bits, cnt, p + 1 - cnt);
    } else {
      forall k: nat | k + cnt == p + 1 ensures !ClearRun(bits, k, cnt) {
        assert bits[p - now - 1];
      }
    }
  }

  lemma {:induction false} SkipFull(a: seq<bv8>, idx: nat, now: nat, cnt: nat)
    requires idx < |a| && a[idx] == 0xff && Trailing(Bits(a), 8 * idx, now, cnt)
    ensures Trailing(Bits(a), 8 * idx + 8, 0, cnt)
  {
    var bits := Bits(a);
    forall i: nat | 8 * idx <= i < 8 * idx + 8 ensures bits[i] {
      FullByte(i - 8 * idx);
      BitsAt(a, idx, i - 8 * idx);
    }
    forall k: nat | 8 * idx < k + cnt <= 8 * idx + 8 ensures !ClearRun(bits, k, cnt) {
      assert bits[k + cnt - 1];
    }
  }

  lemma {:induction false} SetBitAt(a: seq<bv8>, b: seq<bv8>, k: nat, value: bool, i: nat)
    requires |a| == |b| && k < 8 * |a| && i < 8 * |a|
    requires forall j :: 0 <= j < |a| && j != k / 8 ==> b[j] == a[j]
    requires b[k / 8] == WithBit(a[k / 8], k % 8, value)
    ensures Bit(b[i / 8], i % 8) == if i == k then value else Bit(a[i / 8], i % 8)
  {
    BitSet(a[k / 8], k % 8, value, i % 8);
  }

  /** One bit written. */
  lemma {:induction false} SetBits(a: seq<bv8>, b: seq<bv8>, k: nat, value: bool)
    requires |a| == |b| && k < 8 * |a|
    requires forall j :: 0 <= j < |a| && j != k / 8 ==> b[j] == a[j]
    requires b[k / 8] == WithBit(a[k / 8], k % 8, value)
    ensures Bits(b) == Bits(a)[k := value]
  {
    forall i | 0 <= i < 8 * |a| ensures Bits(b)[i] == Bits(a)[k := value][i] {
      SetBitAt(a, b, k, value, i);
    }
  }

  // ---------- when the search misses a run ----------

  /** The search for `cnt` bits fails only where there is no run at all. */
  ghost predicate Complete(cnt: nat) {
    forall a: seq<bv8>, k: nat :: ClearRun(Bits(a), k, cnt) ==> exists k': nat :: Seen(Bits(a), k', cnt)
  }

  /**
   From 8 bits on, the search is complete exactly for counts of 16 or more that fill whole bytes, or all but one bit
   over.
   */
  lemma {:induction false} CompleteExactly(cnt: nat)
    requires cnt >= 8
    ensures Complete(cnt) <==> cnt >= 16 && cnt % 8 <= 1
  {
    if cnt >= 16 && cnt % 8 <= 1 {
      forall a: seq<bv8>, k: nat | ClearRun(Bits(a), k, cnt) ensures exists k': nat :: Seen(Bits(a), k', cnt) {
        AllVisible(k, cnt);
        assert Seen(Bits(a), k, cnt);
      }
    } else {
      var a := MissesGap(cnt);
    }
  }

  /** A bitmap with one run, which the search does not see. */
  lemma {:induction false} MissesGap(cnt: nat) returns (a: seq<bv8>)
    requires cnt >= 8 && !(cnt >= 16 && cnt % 8 <= 1)
    ensures ClearRun(Bits(a), if cnt % 8 == 1 then 6 else 7, cnt) && forall k: nat :: !Seen(Bits(a), k, cnt)
  {
    var k := if cnt % 8 == 1 then 6 else 7;
    var bits := Gap(cnt / 8 + 3, k, cnt);
    a := Pack(bits);
    PackBits(bits);
    forall k': nat ensures !Seen(bits, k', cnt) {
      OnlyGap(cnt / 8 + 3, k, cnt, k');
    }
  }

  lemma {:induction false} AllVisible(k: nat, cnt: nat)
    requires cnt >= 16 && cnt % 8 <= 1
    ensures Visible(k, cnt)
  {
  }

  /** `n` bytes whose clear bits are the `cnt` bits from `k` on. */
  function Gap(n: nat, k: nat, cnt: nat): (bits: seq<bool>)
    ensures |bits| == 8 * n && forall i :: 0 <= i < 8 * n ==> bits[i] == !(k <= i < k + cnt)
  {
    seq(8 * n, i => !(k <= i < k + cnt))
  }

  lemma {:induction false} OnlyGap(n: nat, k: nat, cnt: nat, k': nat)
    requires cnt >= 8 && !(cnt >= 16 && cnt % 8 <= 1) && k == if cnt % 8 == 1 then 6 else 7
    ensures !Seen(Gap(n, k, cnt), k', cnt)
  {
    var bits := Gap(n, k, cnt);
    if ClearRun(bits, k', cnt) {
      assert !bits[k'] && !bits[k' + cnt - 1];
      assert k' == k;
    }
  }

  /** The byte with the given bits. */
  function PackByte(b: seq<bool>): bv8
    requires |b| == 8
  {
    (if b[0] then 0x01 else 0) | (if b[1] then 0x02 else 0) | (if b[2] then 0x04 else 0) | (if b[3] then 0x08 else 0) |
    (if b[4] then 0x10 else 0) | (if b[5] then 0x20 else 0) | (if b[6] then 0x40 else 0) | (if b[7] then 0x80 else 0)
  }

  function Pack(bits: seq<bool>): (a: seq<bv8>)
    requires |bits| % 8 == 0
    ensures |a| == |bits| / 8
  {
    seq(|bits| / 8, j requires 0 <= j < |bits| / 8 => PackByte(bits[8 * j..8 * j + 8]))
  }

  lemma {:induction false} PackBit(b: seq<bool>, i: nat)
    requires |b| == 8 && i < 8
    ensures Bit(PackByte(b), i) == b[i]
  {
    if i == 0 || i == 1 || i == 2 || i == 3 || i == 4 || i == 5 || i == 6 || i == 7 {
    }
  }

  lemma {:induction false} PackBits(bits: seq<bool>)
    requires |bits| % 8 == 0
    ensures Bits(Pack(bits)) == bits
  {
    forall i | 0 <= i < |bits| ensures Bits(Pack(bits))[i] == bits[i] {
      PackBit(bits[8 * (i / 8)..8 * (i / 8) + 8], i % 8);
    }
  }

  // ---------- the bitmap ----------

  class Bitmap {
    const bytes: array<bv8>

    constructor (bytes: array<bv8>)
      ensures this.bytes == bytes
    {
      this.bytes := bytes;
    }

    /** `bitmap_scan_test` */
    method Test(k: nat) returns (b: bool)
      requires k < 8 * bytes.Length
      ensures b == Bits(bytes[..])[k]
    {
      b := bytes[k / 8] & ((1 as bv8) << (k % 8)) != 0;
    }

    /** `bitmap_set` */
    method Set(k: nat, value: bool)
      requires k < 8 * bytes.Length
      modifies bytes
      ensures Bits(bytes[..]) == old(Bits(bytes[..]))[k := value]
    {
      ghost var before := bytes[..];
      bytes[k / 8] := WithBit(bytes[k / 8], k % 8, value);
      SetBits(before, bytes[..], k, value);
    }

    method TestIn(j: nat, i: nat) returns (b: bool)
      requires j < bytes.Length && i < 8
      ensures b == Bits(bytes[..])[8 * j + i]
    {
      BitsAt(bytes[..], j, i);
      b := bytes[j] & ((1 as bv8) << i) != 0;
    }

    method IsFull(j: nat, ghost now: nat, ghost cnt: nat) returns (b: bool)
      requires j < bytes.Length && Trailing(Bits(bytes[..]), 8 * j, now, cnt)
      ensures b ==> Trailing(Bits(bytes[..]), 8 * j + 8, 0, cnt)
    {
      b := bytes[j] == 0xff;
      if b { SkipFull(bytes[..], j, now, cnt); }
    }

    method IsZero(j: nat) returns (b: bool)
      requires j < bytes.Length
      ensures b <==> ClearByte(Bits(bytes[..]), j)
      ensures !b <==> Blocked(Bits(bytes[..]), j)
    {
      ByteTest(bytes[..], j);
      b := bytes[j] == 0;
    }

    /** Are the low `n` bits of byte `j` clear? From 8 on, the mask asks for the whole byte. */
    method LowClear(j: nat, n: nat) returns (b: bool)
      requires j < bytes.Length && n < 16
      ensures b <==> ClearRun(Bits(bytes[..]), 8 * j, if n < 8 then n else 8)
    {
      LowTest(bytes[..], j, n);
      b := bytes[j] & LowMask(n) == 0;
    }

    method HighClear(j: nat, n: nat) returns (b: bool)
      requires j < bytes.Length && n < 8
      ensures b <==> ClearRun(Bits(bytes[..]), 8 * j + 8 - n, n)
    {
      HighTest(bytes[..], j, n);
      b := bytes[j] & HighMask(n) == 0;
    }

    /** Bit `i` of byte `idx`. */
    method ScanBit(idx: nat, i: nat, before: nat, cnt: nat) returns (r: int, now: nat)
      requires idx < bytes.Length && i < 8 && Trailing(Bits(bytes[..]), 8 * idx + i, before, cnt)
      ensures if r == -1 then Trailing(Bits(bytes[..]), 8 * idx + i + 1, now, cnt)
        else r == LowestRun(Bits(bytes[..]), cnt)
    {
      var used := TestIn(idx, i);
      TrailingStep(Bits(bytes[..]), 8 * idx + i, before, cnt);
      if used {
        return -1, 0;
      }
      now := before + 1;
      r := if now == cnt then idx * 8 + i - cnt + 1 else -1;
    }

    /** The bits of byte `idx` one by one. */
    method ScanByte(idx: nat, before: nat, cnt: nat) returns (r: int, now: nat)
      requires idx < bytes.Length && Trailing(Bits(bytes[..]), 8 * idx, before, cnt)
      ensures if r == -1 then Trailing(Bits(bytes[..]), 8 * idx + 8, now, cnt) else r == LowestRun(Bits(bytes[..]), cnt)
    {
      now := before;
      var i := 0;
      while i < 8
        invariant i <= 8 && Trailing(Bits(bytes[..]), 8 * idx + i, now, cnt)
      {
        r, now := ScanBit(idx, i, now, cnt);
        if r != -1 {
          return;
        }
        i := i + 1;
      }
      r := -1;
    }

    /** `bitmap_scan` for fewer than 8 bits: the lowest run. */
    method ScanBits(cnt: nat) returns (r: int)
      requires 0 < cnt < 8
      ensures r == LowestRun(Bits(bytes[..]), cnt)
    {
      ghost var bits := Bits(bytes[..]);
      var idx, now := 0, 0;
      while idx < bytes.Length
        invariant idx <= bytes.Length && Trailing(bits, 8 * idx, now, cnt)
      {
        var full := IsFull(idx, now, cnt);
        if full {
          idx, now := idx + 1, 0;
          continue;
        }
        r, now := ScanByte(idx, now, cnt);
        if r != -1 {
          return;
        }
        idx := idx + 1;
      }
      r := -1;
    }

    /**
     `bitmap_scan`: the answer is a clear run inside the bitmap. Below 8 bits it is the lowest; from 8 on there is an
     answer exactly when there is a visible run.
     */
    method Scan(cnt: nat) returns (r: int)
      requires cnt > 0
      ensures r == -1 || (r >= 0 && ClearRun(Bits(bytes[..]), r, cnt))
      ensures cnt < 8 ==> r == LowestRun(Bits(bytes[..]), cnt)
      ensures cnt >= 8 ==> (r == -1 <==> forall k: nat :: !Seen(Bits(bytes[..]), k, cnt))
    {
      if cnt < 8 {
        r := ScanBits(cnt);
      } else {
        r := ScanBytes(cnt);
      }
    }

    /** The clear bytes from `idx` on, `most` at most. */
    method CountClear(idx: nat, most: nat) returns (j: nat)
      requires idx < bytes.Length && 0 < most && ClearByte(Bits(bytes[..]), idx)
      ensures 0 < j <= most && ClearRun(Bits(bytes[..]), 8 * idx, 8 * j)
      ensures j < most ==> Blocked(Bits(bytes[..]), idx + j)
    {
      j := 0;
      while j < most && idx + j < bytes.Length
        invariant j <= most && idx + j <= bytes.Length && ClearByte(Bits(bytes[..]), idx)
        invariant ClearRun(Bits(bytes[..]), 8 * idx, 8 * j)
      {
        var zero := IsZero(idx + j);
        if !zero {
          break;
        }
        Joined(Bits(bytes[..]), 8 * idx, 8 * j, 8);
        j := j + 1;
      }
    }

    /** The clear high bits of byte `j`. */
    method CountHigh(j: nat) returns (n: nat)
      requires j < bytes.Length
      ensures n <= 8 && ClearRun(Bits(bytes[..]), 8 * j + 8 - n, n)
      ensures n < 8 ==> Bits(bytes[..])[8 * j + 7 - n]
    {
      n := 0;
      while n < 8
        invariant n <= 8 && ClearRun(Bits(bytes[..]), 8 * j + 8 - n, n)
      {
        var used := TestIn(j, 7 - n);
        if used {
          break;
        }
        n := n + 1;
      }
    }

    /** `cnt / 8` clear bytes from `idx` on: room for the rest behind them, or before them? */
    method AtFull(idx: nat, cnt: nat) returns (r: int)
      requires cnt >= 8 && idx < bytes.Length && ClearRun(Bits(bytes[..]), 8 * idx, 8 * (cnt / 8))
      ensures r == -1 || (r >= 0 && Seen(Bits(bytes[..]), r, cnt))
      ensures r == -1 ==> Blocked(Bits(bytes[..]), idx + cnt / 8)
      ensures r == -1 ==> forall k: nat :: Seen(Bits(bytes[..]), k, cnt) ==> !(idx <= FirstByte(k) <= idx + cnt / 8)
    {
      ghost var bits := Bits(bytes[..]);
      var whole, rest := cnt / 8, cnt % 8;
      if rest == 0 {
        RoomBehind(bits, idx, cnt);
        return idx * 8;
      }
      var next := idx + whole;
      if next < bytes.Length {
        var room := LowClear(next, rest);
        if room {
          RoomBehind(bits, idx, cnt);
          return idx * 8;
        }
      }
      if idx > 0 {
        var room := HighClear(idx - 1, rest);
        if room {
          RoomBefore(bits, idx, cnt);
          return (idx - 1) * 8 + (8 - rest);
        }
      }
      SkipFullRun(bits, idx, cnt);
      r := -1;
    }

    /** One clear byte too few from `idx` on: do the bits on both sides together make up for it? */
    method AtShort(idx: nat, j: nat, cnt: nat) returns (r: int)
      requires cnt >= 8 && 0 < j == cnt / 8 - 1 && idx < bytes.Length && ClearRun(Bits(bytes[..]), 8 * idx, 8 * j)
      requires Blocked(Bits(bytes[..]), idx + j) && (idx > 0 ==> Blocked(Bits(bytes[..]), idx - 1))
      ensures r == -1 || (r >= 0 && Seen(Bits(bytes[..]), r, cnt))
      ensures r == -1 ==> forall k: nat :: Seen(Bits(bytes[..]), k, cnt) ==> !(idx <= FirstByte(k) <= idx + j)
    {
      ghost var bits := Bits(bytes[..]);
      var need, next := cnt - j * 8, idx + j;
      assert need == 8 + cnt % 8;
      if idx > 0 {
        var before := CountHigh(idx - 1);
        assert before < 8;
        if before >= need {
          return (idx - 1) * 8 + (8 - need);
        }
        if next < bytes.Length {
          var remain := need - before;
          var room := LowClear(next, remain);
          if room {
            assert remain < 8;
            Joined(bits, 8 * idx - before, before, 8 * j);
            Joined(bits, 8 * idx - before, before + 8 * j, remain);
            Straddles(idx, j, cnt, before);
            return (idx - 1) * 8 + (8 - before);
          }
        }
        NoneAround(bits, idx, j, cnt, before);
      }
      if idx == 0 {
        if next < bytes.Length {
          var room := LowClear(next, need);
          if room {
            assert false;
            return idx * 8;
          }
        }
        NoneAtStart(bits, j, cnt);
      }
      r := -1;
    }

    /** `bitmap_scan` from 8 bits on. */
    method ScanBytes(cnt: nat) returns (r: int)
      requires cnt >= 8
      ensures r == -1 || (r >= 0 && Seen(Bits(bytes[..]), r, cnt))
      ensures r == -1 ==> forall k: nat :: !Seen(Bits(bytes[..]), k, cnt)
    {
      ghost var bits := Bits(bytes[..]);
      var idx := 0;
      while idx < bytes.Length
        invariant idx > 0 ==> Blocked(bits, idx - 1)
        invariant forall k: nat :: Seen(bits, k, cnt) ==> FirstByte(k) >= idx
      {
        var zero := IsZero(idx);
        if !zero {
          SkipBlocked(bits, idx, cnt);
          idx := idx + 1;
          continue;
        }
        var j := CountClear(idx, cnt / 8);
        if j == cnt / 8 {
          r := AtFull(idx, cnt);
          if r != -1 {
            return;
          }
          idx := idx + cnt / 8 + 1;
          continue;
        }
        if j == cnt / 8 - 1 {
          r := AtShort(idx, j, cnt);
          if r != -1 {
            return;
          }
        } else {
          SkipShort(bits, idx, j, cnt);
        }
        idx := idx + j + 1;
      }
      r := -1;
      PastEnd(bits, idx, cnt);
    }
  }

  /** There is no run that the search finds: none at all below 8 bits, no visible one from 8 on. */
  ghost predicate NoneFound(bits: seq<bool>, cnt: nat) {
    if cnt < 8 then forall k: nat :: !ClearRun(bits, k, cnt) else forall k: nat :: !Seen(bits, k, cnt)
  }

  /** `bitmap_scan` on a bitmap given by its bits. */
  method Search(bits: seq<bool>, cnt: nat) returns (r: int)
    requires |bits| % 8 == 0 && cnt > 0
    ensures r == -1 || (r >= 0 && ClearRun(bits, r, cnt))
    ensures cnt < 8 ==> r == LowestRun(bits, cnt)
    ensures r == -1 <==> NoneFound(bits, cnt)
  {
    var a := Pack(bits);
    PackBits(bits);
    var bytes := new bv8[|a|](i requires 0 <= i < |a| => a[i]);
    assert bytes[..] == a;
    var b := new Bitmap(bytes);
    assert Bits(b.bytes[..]) == bits;
    r := b.Scan(cnt);
    assert Bits(b.bytes[..]) == bits;
  }
}
