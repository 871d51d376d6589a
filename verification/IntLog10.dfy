/**
 `ilog10_floor` (Warren): a base-2 logarithm scaled by 19/64, corrected by one
 comparison that is done as a wrapped subtraction whose sign bit is kept.
 */
module IntLog10 {
  import opened Bits

  function Pow10(n: nat): (p: nat)
    ensures 0 < p
  {
    if n == 0 then 1 else 10 * Pow10(n - 1)
  }

  /** Entries 1 to 19 of the 64-bit tables; the first nine are the 32-bit ones. */
  function Correction(i: nat): nat {
    match i
    case 1 => 9
    case 2 => 99
    case 3 => 999
    case 4 => 9999
    case 5 => 99999
    case 6 => 999999
    case 7 => 9999999
    case 8 => 99999999
    case 9 => 999999999
    case 10 => 9999999999
    case 11 => 99999999999
    case 12 => 999999999999
    case 13 => 9999999999999
    case 14 => 99999999999999
    case 15 => 999999999999999
    case 16 => 9999999999999999
    case 17 => 99999999999999999
    case 18 => 999999999999999999
    case _ => 9999999999999999999
  }

  /** `g_ilog10_i32_table_0` (zero maps to 0) and `g_ilog10_i32_table_1` (zero maps to -1). */
  function Table32(i: nat, zeroReturn: int): nat {
    if i == 0 then (if zeroReturn == 0 then 0xFFFF_FFFF else 0)
    else if i == 10 then 0xFFFF_FFFF
    else Correction(i)
  }

  /** `g_ilog10_i64_table_0` and `g_ilog10_i64_table_1` */
  function Table64(i: nat, zeroReturn: int): nat {
    if i == 0 then (if zeroReturn == 0 then 0xFFFF_FFFF_FFFF_FFFF else 0) else Correction(i)
  }

  /** `(19 * (31 - nlz(x))) >> 6`, an arithmetic shift: -1 for zero. */
  function Estimate(x: nat): int {
    19 * Log2Floor(x) / 64
  }

  /** The sign bit of `entry - x` in 32 unsigned bits. */
  function Borrow32(entry: nat, x: nat): nat {
    (entry - x) % 0x1_0000_0000 / 0x8000_0000
  }

  function Borrow64(entry: nat, x: nat): nat {
    (entry - x) % 0x1_0000_0000_0000_0000 / 0x8000_0000_0000_0000
  }

  /** `ops_int::ilog10_floor<uint32_t>` */
  function Ilog10Floor32(x: nat, zeroReturn: int): int
    requires x < 0x1_0000_0000
  {
    var y := Estimate(x);
    EstimateInTable(x);
    y + Borrow32(Table32(y + 1, zeroReturn), x)
  }

  /** `ops_int::ilog10_floor<uint64_t>` */
  function Ilog10Floor64(x: nat, zeroReturn: int): int
    requires x < 0x1_0000_0000_0000_0000
  {
    var y := Estimate(x);
    EstimateInTable(x);
    y + Borrow64(Table64(y + 1, zeroReturn), x)
  }

  lemma EstimateInTable(x: nat)
    ensures Estimate(x) >= -1
  {
  }

  lemma Borrow32Is(entry: nat, x: nat)
    requires entry < 0x1_0000_0000 && x < 0x1_0000_0000
    requires -0x8000_0000 <= entry - x < 0x8000_0000
    ensures Borrow32(entry, x) == if entry < x then 1 else 0
  {
  }

  lemma Borrow64Is(entry: nat, x: nat)
    requires -0x8000_0000_0000_0000 <= entry - x < 0x8000_0000_0000_0000
    ensures Borrow64(entry, x) == if entry < x then 1 else 0
  {
  }

  lemma {:induction false} CorrectionIs(i: nat)
    requires 1 <= i <= 19
    ensures Correction(i) == Pow10(i) - 1
  {
    if i == 1 {
      assert Pow10(1) == 10 * Pow10(0);
    } else {
      CorrectionIs(i - 1);
      CorrectionStep(i);
    }
  }

  lemma CorrectionStep(i: nat)
    requires 2 <= i <= 19
    ensures Correction(i) == 10 * Correction(i - 1) + 9
  {
  }

  /** For the bit length `k + 1` with `two == 2^k`: the estimate `y`, with `ten == 10^y`, is at most
      one low and near its entry. */
  predicate Near(k: nat, two: nat, y: nat, ten: nat) {
    && 19 * k / 64 == y
    && ten <= two && 2 * two <= 100 * ten
    && 10 * ten - 1 - two < 0x8000_0000_0000_0000
    && 2 * two - (10 * ten - 1) <= 0x8000_0000_0000_0000
  }

  /** All bit lengths from `k + 1` to `end`. */
  predicate AllNear(k: nat, end: nat, two: nat, y: nat, ten: nat)
    requires k <= end
    decreases end - k
  {
    k == end
    || (&& Near(k, two, y, ten)
        && if 19 * (k + 1) / 64 == y then AllNear(k + 1, end, 2 * two, y, ten)
           else AllNear(k + 1, end, 2 * two, y + 1, 10 * ten))
  }

  lemma LengthsFrom48()
    ensures AllNear(48, 64, 0x1000000000000, 14, 100000000000000)
  {
    assert AllNear(56, 64, 0x100000000000000, 16, 10000000000000000);
  }

  lemma LengthsFrom32()
    ensures AllNear(32, 64, 0x100000000, 9, 1000000000)
  {
    LengthsFrom48();
    assert AllNear(40, 64, 0x10000000000, 11, 100000000000);
  }

  lemma LengthsFrom16()
    ensures AllNear(16, 64, 0x10000, 4, 10000)
  {
    LengthsFrom32();
    assert AllNear(24, 64, 0x1000000, 7, 10000000);
  }

  lemma LengthsFrom0()
    ensures AllNear(0, 64, 0x1, 0, 1)
  {
    LengthsFrom16();
    assert AllNear(8, 64, 0x100, 2, 100);
  }

  lemma {:induction false} NearFrom(j: nat, k: nat, end: nat, two: nat, y: nat, ten: nat)
    requires j <= k < end && AllNear(j, end, two, y, ten)
    requires two == Pow2(j) && ten == Pow10(y)
    ensures Near(k, Pow2(k), 19 * k / 64, Pow10(19 * k / 64))
    decreases k - j
  {
    if j < k {
      if 19 * (j + 1) / 64 == y {
        NearFrom(j + 1, k, end, 2 * two, y, ten);
      } else {
        NearFrom(j + 1, k, end, 2 * two, y + 1, 10 * ten);
      }
    }
  }

  lemma {:induction false} Log2Below(x: nat, k: nat)
    requires 0 < x < Pow2(k)
    ensures Log2Floor(x) < k
  {
    if k <= Log2Floor(x) {
      Pow2Monotone(k, Log2Floor(x));
    }
  }

  /** What the estimate is worth, for any 64-bit number. */
  lemma EstimateIsNear(x: nat)
    requires 0 < x < 0x1_0000_0000_0000_0000
    ensures 0 <= Estimate(x) <= 18
    ensures Pow10(Estimate(x)) <= x < 100 * Pow10(Estimate(x))
    ensures -0x8000_0000_0000_0000 <= 10 * Pow10(Estimate(x)) - 1 - x < 0x8000_0000_0000_0000
  {
    var k: nat := Log2Floor(x);
    assert k < 64 by {
      WordSizes();
      Log2Below(x, 64);
    }
    LengthsFrom0();
    NearFrom(0, k, 64, 1, 0, 1);
  }

  /** `y` is the floor of the decimal logarithm of `x`. */
  predicate IsLog10(x: nat, y: int) {
    y >= 0 && Pow10(y) <= x < Pow10(y + 1)
  }

  /** One comparison with the next power mends the estimate. */
  lemma CorrectedEstimate(x: nat, y: nat)
    requires Pow10(y) <= x < 100 * Pow10(y)
    ensures IsLog10(x, if Pow10(y + 1) - 1 < x then y + 1 else y)
  {
    assert Pow10(y + 2) == 10 * Pow10(y + 1) == 100 * Pow10(y);
  }

  lemma Entry64(x: nat, zeroReturn: int)
    requires 0 < x < 0x1_0000_0000_0000_0000
    ensures 0 <= Estimate(x) <= 18
    ensures Table64(Estimate(x) + 1, zeroReturn) == Pow10(Estimate(x) + 1) - 1
  {
    EstimateIsNear(x);
    CorrectionIs(Estimate(x) + 1);
  }

  lemma Ilog10Floor64Value(x: nat, zeroReturn: int)
    requires 0 < x < 0x1_0000_0000_0000_0000
    ensures Ilog10Floor64(x, zeroReturn) == if Pow10(Estimate(x) + 1) - 1 < x then Estimate(x) + 1 else Estimate(x)
  {
    EstimateIsNear(x);
    Entry64(x, zeroReturn);
    Borrow64Is(Pow10(Estimate(x) + 1) - 1, x);
  }

  /** The 64-bit form is the exact floor of the decimal logarithm; for zero, what the policy asks for. */
  lemma Ilog10Floor64IsFloor(x: nat, zeroReturn: int)
    requires x < 0x1_0000_0000_0000_0000 && (zeroReturn == 0 || zeroReturn == -1)
    ensures if x == 0 then Ilog10Floor64(x, zeroReturn) == zeroReturn else IsLog10(x, Ilog10Floor64(x, zeroReturn))
  {
    if x > 0 {
      EstimateIsNear(x);
      Ilog10Floor64Value(x, zeroReturn);
      CorrectedEstimate(x, Estimate(x));
    }
  }

  // ---- 32 bits: the last entry is the greatest 32-bit number, which nothing exceeds ----

  lemma ShortEstimate(x: nat)
    requires 0 < x < 0x1_0000_0000
    ensures Estimate(x) <= 9
    ensures Estimate(x) == 9 ==> 0x8000_0000 <= x
    ensures Estimate(x) <= 8 ==> x < 0x8000_0000
  {
    WordSizes();
    Log2Below(x, 32);
    assert Pow2(32) == 2 * Pow2(31);
    if Log2Floor(x) == 31 {
    } else {
      Pow2Monotone(Log2Floor(x) + 1, 31);
    }
  }

  lemma {:induction false} ShortPowers(y: nat)
    requires y <= 9
    ensures Pow10(y) <= 1_000_000_000
    ensures y == 9 ==> Pow10(y) == 1_000_000_000
  {
    CorrectionIs(y + 1);
    assert Pow10(y + 1) == 10 * Pow10(y);
  }

  lemma Ilog10Floor32Value(x: nat, zeroReturn: int)
    requires 0 < x < 0x1_0000_0000
    ensures Ilog10Floor32(x, zeroReturn) == if Pow10(Estimate(x) + 1) - 1 < x then Estimate(x) + 1 else Estimate(x)
  {
    var y := Estimate(x);
    EstimateIsNear(x);
    ShortEstimate(x);
    assert Pow10(y + 1) == 10 * Pow10(y);
    ShortPowers(y);
    if y == 9 {
      Borrow32Is(0xFFFF_FFFF, x);
    } else {
      ShortPowers(y + 1);
      CorrectionIs(y + 1);
      Borrow32Is(Pow10(y + 1) - 1, x);
    }
  }

  /** So is the 32-bit form. */
  lemma Ilog10Floor32IsFloor(x: nat, zeroReturn: int)
    requires x < 0x1_0000_0000 && (zeroReturn == 0 || zeroReturn == -1)
    ensures if x == 0 then Ilog10Floor32(x, zeroReturn) == zeroReturn else IsLog10(x, Ilog10Floor32(x, zeroReturn))
  {
    if x > 0 {
      EstimateIsNear(x);
      Ilog10Floor32Value(x, zeroReturn);
      CorrectedEstimate(x, Estimate(x));
    }
  }

  lemma {:induction false} Pow10Monotone(m: nat, n: nat)
    requires m <= n
    ensures Pow10(m) <= Pow10(n)
  {
    if m < n {
      Pow10Monotone(m, n - 1);
    }
  }

  lemma Log10Unique(x: nat, m: int, n: int)
    requires IsLog10(x, m) && IsLog10(x, n)
    ensures m == n
  {
    if m < n {
      Pow10Monotone(m + 1, n);
    } else if n < m {
      Pow10Monotone(n + 1, m);
    }
  }
}
