/**
 One block of a dataframe's columns: a bitmap with a 1 for every 8-byte column,
 and the branchless lookup of a column's place. The 8-byte columns of a block come
 first, in index order, then the 4-byte ones.
 */
module ColumnBits {
  import Arith
  import opened Bits

  /** The bitmap as a number: bit i is set when column i of the block is 8 bytes wide. */
  function Mask(bits: seq<bool>): nat {
    if bits == [] then 0 else (if bits[0] then 1 else 0) + 2 * Mask(bits[1..])
  }

  function Popcount(n: nat): (p: nat)
    ensures p <= n
  {
    if n == 0 then 0 else n % 2 + Popcount(n / 2)
  }

  function Count(bits: seq<bool>): (n: nat)
    ensures n <= |bits|
  {
    if bits == [] then 0 else Count(bits[..|bits| - 1]) + if bits[|bits| - 1] then 1 else 0
  }

  /** `bitmap & (bit - 1)` for `bit == 1 << index`. */
  function BelowBit(bitmap: nat, index: nat): nat {
    bitmap % Pow2(index)
  }

  /** `bitmap & bit` is not zero. */
  function HasBit(bitmap: nat, index: nat): bool {
    bitmap / Pow2(index) % 2 == 1
  }

  /** `(mask & a) | (~mask & b)` for a mask of all ones (-1) or all zeros. */
  function Select(mask: int, a: int, b: int): int {
    if mask == -1 then a else b
  }

  /** `attr_offset::evaluate` for one bitmap: where a column starts, in 4-byte columns. */
  function Evaluate(bitmap: nat, index: nat): int {
    var below := Popcount(BelowBit(bitmap, index));
    var all := Popcount(bitmap);
    var isZeroMask := if HasBit(bitmap, index) then 0 else -1;
    Select(isZeroMask, 2 * all + index - below, 2 * below)
  }

  lemma {:induction false} CountFront(bits: seq<bool>)
    requires bits != []
    ensures Count(bits) == (if bits[0] then 1 else 0) + Count(bits[1..])
  {
    if |bits| > 1 {
      var n := |bits| - 1;
      CountFront(bits[..n]);
      assert bits[..n][1..] == bits[1..][..n - 1];
    } else {
      assert bits[..0] == [] && bits[1..] == [];
    }
  }

  lemma {:induction false} PopcountOfMask(bits: seq<bool>)
    ensures Popcount(Mask(bits)) == Count(bits)
  {
    if bits != [] {
      CountFront(bits);
      PopcountOfMask(bits[1..]);
      assert Mask(bits) / 2 == Mask(bits[1..]);
    }
  }

  /** Bit tests and low masks of the number are those of the bit list. */
  lemma {:induction false} MaskBits(bits: seq<bool>, i: nat)
    requires i < |bits|
    ensures BelowBit(Mask(bits), i) == Mask(bits[..i])
    ensures HasBit(Mask(bits), i) == bits[i]
  {
    hide BelowBit, HasBit;
    if i > 0 {
      MaskBits(bits[1..], i - 1);
      assert bits[..i][1..] == bits[1..][..i - 1];
      HalfBits(Mask(bits), i);
      assert Mask(bits) / 2 == Mask(bits[1..]) && Mask(bits) % 2 == if bits[0] then 1 else 0;
    } else {
      LowestBit(Mask(bits));
      assert bits[..0] == [];
    }
  }

  lemma LowestBit(m: nat)
    ensures BelowBit(m, 0) == 0 && HasBit(m, 0) == (m % 2 == 1)
  {
  }

  /** Bit `i` of a number is bit `i - 1` of its half. */
  lemma HalfBits(m: nat, i: nat)
    requires i > 0
    ensures BelowBit(m, i) == m % 2 + 2 * BelowBit(m / 2, i - 1)
    ensures HasBit(m, i) == HasBit(m / 2, i - 1)
  {
    HalfMod(m, Pow2(i - 1));
  }

  /** Dividing by 2p is halving, then dividing by p. */
  lemma HalfMod(m: nat, p: nat)
    requires 0 < p
    ensures m % (2 * p) == m % 2 + 2 * (m / 2 % p)
    ensures m / (2 * p) == m / 2 / p
  {
    var h := m / 2;
    assert m == 2 * h + m % 2;
    assert h == h / p * p + h % p;
    assert m == h / p * (2 * p) + (m % 2 + 2 * (h % p));
    Arith.DivModIs(m, h / p, m % 2 + 2 * (h % p), 2 * p);
  }

  /** Setting the next bit: `bm |= 1 << i`. */
  lemma {:induction false} MaskPush(bits: seq<bool>, b: bool)
    ensures Mask(bits + [b]) == Mask(bits) + if b then Pow2(|bits|) else 0
  {
    if bits == [] {
      assert (bits + [b])[1..] == [];
    } else {
      assert (bits + [b])[1..] == bits[1..] + [b];
      MaskPush(bits[1..], b);
    }
  }

  /** What the branchless form computes: 8-byte columns two apiece, then the 4-byte ones. */
  lemma EvaluateIs(bits: seq<bool>, i: nat)
    requires i < |bits|
    ensures Evaluate(Mask(bits), i) == Place(bits, i)
  {
    MaskBits(bits, i);
    PopcountOfMask(bits);
    PopcountOfMask(bits[..i]);
  }

  /** The width of column i, in 4-byte columns. */
  function Units(bits: seq<bool>, i: nat): nat
    requires i < |bits|
  {
    if bits[i] then 2 else 1
  }

  lemma {:induction false} CountMonotone(bits: seq<bool>, i: nat, j: nat)
    requires i <= j <= |bits|
    ensures Count(bits[..i]) <= Count(bits[..j]) <= Count(bits[..i]) + (j - i)
  {
    if i < j {
      CountMonotone(bits, i, j - 1);
      CountStep(bits, j - 1);
    }
  }

  lemma CountStep(bits: seq<bool>, i: nat)
    requires i < |bits|
    ensures Count(bits[..i + 1]) == Count(bits[..i]) + if bits[i] then 1 else 0
  {
    assert bits[..i + 1][..i] == bits[..i];
  }

  lemma SetBitCounts(bits: seq<bool>, i: nat)
    requires i < |bits| && bits[i]
    ensures 0 < Count(bits)
  {
    CountStep(bits, i);
    CountMonotone(bits, i + 1, |bits|);
    assert bits[..|bits|] == bits;
  }

  /** Where a column of the block is, in 4-byte columns: 8-byte columns come first. */
  function Place(bits: seq<bool>, i: nat): int
    requires i < |bits|
  {
    if bits[i] then 2 * Count(bits[..i]) else 2 * Count(bits) + (i - Count(bits[..i]))
  }

  lemma PlaceInside(bits: seq<bool>, i: nat)
    requires i < |bits|
    ensures 0 <= Place(bits, i) <= |bits| + Count(bits) - Units(bits, i)
    ensures bits[i] ==> Place(bits, i) % 2 == 0
  {
    CountStep(bits, i);
    CountMonotone(bits, i + 1, |bits|);
    CountMonotone(bits, 0, i);
    assert bits[..|bits|] == bits;
  }

  lemma PlacesDisjoint(bits: seq<bool>, i: nat, j: nat)
    requires i < j < |bits|
    ensures Place(bits, i) + Units(bits, i) <= Place(bits, j) || Place(bits, j) + Units(bits, j) <= Place(bits, i)
  {
    CountStep(bits, i);
    CountStep(bits, j);
    CountMonotone(bits, i + 1, j);
    CountMonotone(bits, j + 1, |bits|);
    assert bits[..|bits|] == bits;
  }

  /** Within the block: columns lie inside it, and wide ones start even. */
  lemma BlockPlaces(bits: seq<bool>, i: nat)
    requires i < |bits|
    ensures 0 <= Evaluate(Mask(bits), i) <= |bits| + Count(bits) - Units(bits, i)
    ensures bits[i] ==> Evaluate(Mask(bits), i) % 2 == 0
  {
    EvaluateIs(bits, i);
    PlaceInside(bits, i);
  }

  lemma BlockDisjoint(bits: seq<bool>, i: nat, j: nat)
    requires i < j < |bits|
    ensures var a, b := Evaluate(Mask(bits), i), Evaluate(Mask(bits), j);
      a + Units(bits, i) <= b || b + Units(bits, j) <= a
  {
    EvaluateIs(bits, i);
    EvaluateIs(bits, j);
    PlacesDisjoint(bits, i, j);
  }

  lemma PlacesOrdered(bits: seq<bool>, i: nat, j: nat)
    requires i < |bits| && j < |bits|
    ensures bits[i] && !bits[j] ==> Place(bits, i) < Place(bits, j)
    ensures i < j && bits[i] == bits[j] ==> Place(bits, i) < Place(bits, j)
  {
    PlaceInside(bits, i);
    CountStep(bits, i);
    CountMonotone(bits, i + 1, |bits|);
    CountMonotone(bits, 0, j);
    assert bits[..|bits|] == bits;
    if i < j {
      CountMonotone(bits, i + 1, j);
    }
  }

  /** The order of the columns of a block: 8-byte ones before 4-byte ones, and each kind by index. */
  lemma BlockOrdered(bits: seq<bool>, i: nat, j: nat)
    requires i < |bits| && j < |bits| && i != j
    ensures Evaluate(Mask(bits), i) < Evaluate(Mask(bits), j) <==>
      if bits[i] == bits[j] then i < j else bits[i]
  {
    EvaluateIs(bits, i);
    EvaluateIs(bits, j);
    PlacesOrdered(bits, i, j);
    PlacesOrdered(bits, j, i);
  }

  /** The inverse of the lookup: which column a unit of the block belongs to. */
  function ColumnAt(bits: seq<bool>, u: nat): nat {
    if u < 2 * Count(bits) then NthSet(bits, true, u / 2) else NthSet(bits, false, u - 2 * Count(bits))
  }

  /** The position of the k-th bit equal to `b`, or the length if there are not that many. */
  function NthSet(bits: seq<bool>, b: bool, k: nat): (i: nat)
    ensures i <= |bits|
  {
    if bits == [] then 0
    else if bits[0] == b then (if k == 0 then 0 else 1 + NthSet(bits[1..], b, k - 1))
    else 1 + NthSet(bits[1..], b, k)
  }

  lemma {:induction false} NthSetIs(bits: seq<bool>, b: bool, k: nat)
    requires k < if b then Count(bits) else |bits| - Count(bits)
    ensures var i := NthSet(bits, b, k);
      i < |bits| && bits[i] == b && k == if b then Count(bits[..i]) else i - Count(bits[..i])
  {
    CountFront(bits);
    if bits[0] == b && k == 0 {
      assert bits[..0] == [];
    } else {
      NthSetIs(bits[1..], b, if bits[0] == b then k - 1 else k);
      var i := NthSet(bits, b, k);
      CountFront(bits[..i]);
      assert bits[..i][1..] == bits[1..][..i - 1];
    }
  }

  /** Unit `u` of the block belongs to column `i`. */
  ghost predicate Holds(bits: seq<bool>, i: nat, u: int) {
    i < |bits| && Place(bits, i) <= u < Place(bits, i) + Units(bits, i)
  }

  lemma WidePlaceTiles(bits: seq<bool>, u: nat)
    requires u < 2 * Count(bits)
    ensures Holds(bits, ColumnAt(bits, u), u)
  {
    NthSetIs(bits, true, u / 2);
  }

  lemma NarrowPlaceTiles(bits: seq<bool>, u: nat)
    requires 2 * Count(bits) <= u < |bits| + Count(bits)
    ensures Holds(bits, ColumnAt(bits, u), u)
  {
    NthSetIs(bits, false, u - 2 * Count(bits));
  }

  lemma PlacesTile(bits: seq<bool>, u: nat)
    requires u < |bits| + Count(bits)
    ensures Holds(bits, ColumnAt(bits, u), u)
  {
    if u < 2 * Count(bits) {
      WidePlaceTiles(bits, u);
    } else {
      NarrowPlaceTiles(bits, u);
    }
  }

  /** The block is tiled: every unit belongs to the column the inverse names. */
  lemma BlockTiled(bits: seq<bool>, u: nat)
    requires u < |bits| + Count(bits)
    ensures var i := ColumnAt(bits, u);
      i < |bits| && Evaluate(Mask(bits), i) <= u < Evaluate(Mask(bits), i) + Units(bits, i)
  {
    PlacesTile(bits, u);
    EvaluateIs(bits, ColumnAt(bits, u));
  }
}
