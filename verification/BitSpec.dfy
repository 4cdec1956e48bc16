/** What a search in a bitmap looks for. */
module BitSpec {

  /** Every bit is set: nothing is free. */
  predicate Full(bits: seq<bool>) { forall k :: 0 <= k < |bits| ==> bits[k] }

  /** At most one bit is clear. */
  predicate NearlyFull(bits: seq<bool>) {
    forall k, l :: 0 <= k < |bits| && 0 <= l < |bits| && !bits[k] && !bits[l] ==> k == l
  }

  /** The number of clear bits. */
  function Spare(bits: seq<bool>): nat {
    if bits == [] then 0 else (if bits[0] then 0 else 1) + Spare(bits[1..])
  }

  lemma {:induction false} SpareSplit(a: seq<bool>, b: seq<bool>)
    ensures Spare(a + b) == Spare(a) + Spare(b)
  {
    if a == [] {
      assert a + b == b;
    } else {
      assert (a + b)[1..] == a[1..] + b;
      SpareSplit(a[1..], b);
    }
  }

  lemma {:induction false} SpareSet(bits: seq<bool>, k: nat, b: bool)
    requires k < |bits|
    ensures Spare(bits[k := b]) == Spare(bits) + (if bits[k] then 1 else 0) - (if b then 1 else 0)
  {
    var x, y := bits[..k], bits[k + 1..];
    assert bits == x + ([bits[k]] + y) && bits[k := b] == x + ([b] + y);
    SpareSplit(x, [bits[k]] + y);
    SpareSplit(x, [b] + y);
    SpareSplit([bits[k]], y);
    SpareSplit([b], y);
  }

  lemma {:induction false} SpareNone(bits: seq<bool>)
    ensures Spare(bits) == 0 <==> Full(bits)
  {
    if bits != [] {
      SpareNone(bits[1..]);
      assert Full(bits) <==> bits[0] && Full(bits[1..]);
    }
  }

  /** The `n` bits from `k` on are all clear. */
  predicate ClearRun(bits: seq<bool>, k: nat, n: nat) {
    k + n <= |bits| && forall i :: k <= i < k + n ==> !bits[i]
  }

  /** The lowest start of a run of `n` clear bits, or -1. */
  function LowestRun(bits: seq<bool>, n: nat): (r: int)
    ensures r == -1 || (0 <= r && ClearRun(bits, r, n))
    ensures forall k: nat :: ClearRun(bits, k, n) ==> 0 <= r <= k
  {
    LowestRunFrom(bits, n, 0)
  }

  function LowestRunFrom(bits: seq<bool>, n: nat, from: nat): (r: int)
    ensures r == -1 || (from <= r && ClearRun(bits, r, n))
    ensures forall k: nat :: from <= k && ClearRun(bits, k, n) ==> from <= r <= k
    decreases |bits| - from
  {
    if from + n > |bits| then -1
    else if ClearRun(bits, from, n) then from
    else if from == |bits| then -1
    else LowestRunFrom(bits, n, from + 1)
  }

  // ---------- runs of bits ----------

  /** The `n` bits from `k` on set to `b`. */
  function WithRun(bits: seq<bool>, k: nat, n: nat, b: bool): (r: seq<bool>)
    requires k + n <= |bits|
    ensures |r| == |bits| && forall i :: 0 <= i < |bits| ==> r[i] == if k <= i < k + n then b else bits[i]
  {
    seq(|bits|, i requires 0 <= i < |bits| => if k <= i < k + n then b else bits[i])
  }

  lemma {:induction false} WithRunBack(bits: seq<bool>, k: nat, n: nat)
    requires ClearRun(bits, k, n)
    ensures WithRun(WithRun(bits, k, n, true), k, n, false) == bits
  {
  }

  method SetRun(bits: seq<bool>, k: nat, n: nat, b: bool) returns (r: seq<bool>)
    requires k + n <= |bits|
    ensures r == WithRun(bits, k, n, b)
  {
    r := bits;
    var c := 0;
    while c < n
      invariant c <= n && r == WithRun(bits, k, c, b)
    {
      r := r[k + c := b];
      c := c + 1;
    }
  }
}
