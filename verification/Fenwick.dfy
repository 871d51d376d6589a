/**
 Binary indexed (Fenwick) trees: the bit walks of `fenwick_window` and why they
 sum prefixes. Cell i (1-based) holds the sum of the LowBit(i) bins ending at i.
 */
module Fenwick {
  import opened Bits

  /** `n & -n`: the rightmost 1-bit. */
  function LowBit(n: nat): (b: nat)
    requires 0 < n
    ensures 1 <= b <= n
  {
    if n % 2 == 1 then 1 else 2 * LowBit(n / 2)
  }

  function RangeSum(a: seq<int>, lo: nat, hi: nat): int
    requires lo <= hi <= |a|
  {
    if lo == hi then 0 else RangeSum(a, lo, hi - 1) + a[hi - 1]
  }

  /** `tree` is the Fenwick tree of the bins `raw`. */
  ghost predicate IsTree(tree: seq<int>, raw: seq<int>) {
    && |tree| == |raw|
    && forall i {:trigger tree[i - 1]} | 1 <= i <= |raw| :: tree[i - 1] == RangeSum(raw, i - LowBit(i), i)
  }

  lemma {:induction false} RangeSumSplit(a: seq<int>, lo: nat, mid: nat, hi: nat)
    requires lo <= mid <= hi <= |a|
    ensures RangeSum(a, lo, hi) == RangeSum(a, lo, mid) + RangeSum(a, mid, hi)
  {
    if mid < hi {
      RangeSumSplit(a, lo, mid, hi - 1);
    }
  }

  lemma {:induction false} RangeSumUpdate(a: seq<int>, p: nat, x: int, lo: nat, hi: nat)
    requires lo <= hi <= |a| && p < |a|
    ensures RangeSum(a[p := x], lo, hi) == RangeSum(a, lo, hi) + if lo <= p < hi then x - a[p] else 0
  {
    if lo < hi {
      RangeSumUpdate(a, p, x, lo, hi - 1);
    }
  }

  lemma {:induction false} RangeSumZero(a: seq<int>, lo: nat, hi: nat)
    requires lo <= hi <= |a| && forall k | 0 <= k < |a| :: a[k] == 0
    ensures RangeSum(a, lo, hi) == 0
  {
    if lo < hi {
      RangeSumZero(a, lo, hi - 1);
    }
  }

  /** The next cell of an update walk covers at least twice as many bins. */
  lemma {:induction false} NextCovers(u: nat)
    requires 0 < u
    ensures LowBit(u + LowBit(u)) >= 2 * LowBit(u)
  {
    if u % 2 == 0 {
      NextCovers(u / 2);
      assert u + LowBit(u) == 2 * (u / 2 + LowBit(u / 2));
    }
  }

  /** No cell strictly between two cells of an update walk covers bin `u`. */
  lemma {:induction false} BetweenMisses(u: nat, i: nat)
    requires 0 < u < i < u + LowBit(u)
    ensures i - LowBit(i) >= u
  {
    if i % 2 == 0 {
      assert u % 2 == 0;
      BetweenMisses(u / 2, i / 2);
    }
  }

  lemma {:induction false} LowBitOfPow2(n: nat)
    ensures LowBit(Pow2(n)) == Pow2(n)
  {
    if n > 0 {
      LowBitOfPow2(n - 1);
    }
  }

  /** With a power-of-2 number of bins the last cell holds the total. */
  lemma LastCellIsTotal(tree: seq<int>, raw: seq<int>)
    requires IsTree(tree, raw) && IsPow2(|raw|)
    ensures |raw| > 0 && tree[|raw| - 1] == RangeSum(raw, 0, |raw|)
  {
    var n: nat :| |raw| == Pow2(n);
    LowBitOfPow2(n);
  }

  lemma ClearedIsTree(tree: seq<int>)
    requires forall k | 0 <= k < |tree| :: tree[k] == 0
    ensures IsTree(tree, tree)
  {
    forall i | 1 <= i <= |tree| ensures tree[i - 1] == RangeSum(tree, i - LowBit(i), i) {
      RangeSumZero(tree, i - LowBit(i), i);
    }
  }

  /** Midway through an update of bin r - 1: the cells before `u` are those of the new bins. */
  ghost predicate Updating(tree: seq<int>, raw: seq<int>, raw': seq<int>, u: nat) {
    && |tree| == |raw| == |raw'|
    && forall i {:trigger tree[i - 1]} | 1 <= i <= |raw| ::
         tree[i - 1] == if i < u then RangeSum(raw', i - LowBit(i), i) else RangeSum(raw, i - LowBit(i), i)
  }

  lemma UpdateStart(tree: seq<int>, raw: seq<int>, r: nat, x: int)
    requires IsTree(tree, raw) && 1 <= r <= |raw|
    ensures Updating(tree, raw, raw[r - 1 := x], r)
  {
    forall i | 1 <= i < r ensures RangeSum(raw[r - 1 := x], i - LowBit(i), i) == RangeSum(raw, i - LowBit(i), i) {
      RangeSumUpdate(raw, r - 1, x, i - LowBit(i), i);
    }
  }

  lemma UpdateStep(tree: seq<int>, raw: seq<int>, r: nat, increment: int, u: nat)
    requires 1 <= r <= u <= |raw| && u - LowBit(u) < r
    requires Updating(tree, raw, raw[r - 1 := raw[r - 1] + increment], u)
    ensures var raw' := raw[r - 1 := raw[r - 1] + increment];
      Updating(tree[u - 1 := tree[u - 1] + increment], raw, raw', u + LowBit(u))
    ensures u + LowBit(u) - LowBit(u + LowBit(u)) < r
  {
    var raw' := raw[r - 1 := raw[r - 1] + increment];
    var tree' := tree[u - 1 := tree[u - 1] + increment];
    NextCovers(u);
    forall i | 1 <= i <= |raw|
      ensures tree'[i - 1]
           == if i < u + LowBit(u) then RangeSum(raw', i - LowBit(i), i) else RangeSum(raw, i - LowBit(i), i)
    {
      RangeSumUpdate(raw, r - 1, raw[r - 1] + increment, i - LowBit(i), i);
      if u < i < u + LowBit(u) {
        BetweenMisses(u, i);
      }
    }
  }

  lemma UpdateEnd(tree: seq<int>, raw: seq<int>, raw': seq<int>, u: nat)
    requires Updating(tree, raw, raw', u) && u > |raw|
    ensures IsTree(tree, raw')
  {
  }
}
