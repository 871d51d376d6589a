/** Powers of two and bit positions, as the integer operations of `ops_int` define them. */
module Bits {

  function Pow2(n: nat): (p: nat)
    ensures 0 < p
  {
    if n == 0 then 1 else 2 * Pow2(n - 1)
  }

  ghost predicate IsPow2(x: int) {
    exists n: nat :: x == Pow2(n)
  }

  /** Index of the highest 1-bit; -1 for zero, where `lzcnt` returns the operand width. */
  function Log2Floor(x: nat): (n: int)
    ensures x == 0 <==> n == -1
    ensures x > 0 ==> n >= 0 && Pow2(n) <= x < 2 * Pow2(n)
  {
    if x == 0 then -1 else if x == 1 then 0 else 1 + Log2Floor(x / 2)
  }

  /** `1 << log2_ceil(x)`: the least power of two that is no less than `x`. */
  function CeilPow2(x: nat): (p: nat)
    requires 0 < x
    ensures IsPow2(p) && x <= p
    ensures forall q | IsPow2(q) && x <= q :: p <= q
  {
    var p := Pow2(1 + Log2Floor(x - 1));
    CeilIsLeast(x);
    p
  }

  lemma CeilIsLeast(x: nat)
    requires 0 < x
    ensures x <= Pow2(1 + Log2Floor(x - 1))
    ensures forall q | IsPow2(q) && x <= q :: Pow2(1 + Log2Floor(x - 1)) <= q
  {
    forall q | IsPow2(q) && x <= q ensures Pow2(1 + Log2Floor(x - 1)) <= q {
      var n: nat :| q == Pow2(n);
      if n < 1 + Log2Floor(x - 1) {
        Pow2Monotone(n, Log2Floor(x - 1));
      } else {
        Pow2Monotone(1 + Log2Floor(x - 1), n);
      }
    }
  }

  lemma {:induction false} Pow2Monotone(m: nat, n: nat)
    requires m <= n
    ensures Pow2(m) <= Pow2(n)
  {
    if m < n {
      Pow2Monotone(m, n - 1);
    }
  }

  lemma {:induction false} Pow2Add(m: nat, n: nat)
    ensures Pow2(m + n) == Pow2(m) * Pow2(n)
  {
    if m > 0 {
      Pow2Add(m - 1, n);
    }
  }

  lemma DoublePow2(x: int)
    requires IsPow2(x)
    ensures IsPow2(2 * x)
  {
    var n: nat :| x == Pow2(n);
    assert 2 * x == Pow2(n + 1);
  }

  lemma Pow2Positive(x: int)
    requires IsPow2(x)
    ensures 0 < x
  {
  }

  lemma Log2OfPow2(x: int)
    ensures IsPow2(x) ==> 0 < x && x == Pow2(Log2Floor(x))
  {
    if IsPow2(x) {
      var n: nat :| x == Pow2(n);
      if n < Log2Floor(x) {
        Pow2Monotone(n + 1, Log2Floor(x));
      } else {
        Pow2Monotone(Log2Floor(x), n);
        if Log2Floor(x) < n {
          Pow2Monotone(Log2Floor(x) + 1, n);
        }
      }
    }
  }

  lemma WordSizes()
    ensures Pow2(32) == 0x1_0000_0000 && Pow2(64) == 0x1_0000_0000_0000_0000
  {
    assert Pow2(8) == 256;
    Pow2Add(8, 8);
    Pow2Add(16, 16);
    Pow2Add(32, 32);
  }

  /** `n << k` */
  function Shl(n: int, k: nat): int {
    if k == 0 then n else 2 * Shl(n, k - 1)
  }

  /** `n >> k` for a non-negative `n` */
  function Shr(n: nat, k: nat): nat {
    if k == 0 then n else Shr(n, k - 1) / 2
  }

  lemma {:induction false} ShlAdd(a: int, b: int, k: nat)
    ensures Shl(a + b, k) == Shl(a, k) + Shl(b, k)
  {
    if k > 0 {
      ShlAdd(a, b, k - 1);
    }
  }

  lemma {:induction false} ShlOrder(a: int, b: int, k: nat)
    requires a <= b
    ensures Shl(a, k) <= Shl(b, k)
  {
    if k > 0 {
      ShlOrder(a, b, k - 1);
    }
  }

  lemma {:induction false} ShlGrows(a: nat, k: nat)
    ensures a <= Shl(a, k)
  {
    if k > 0 {
      ShlGrows(a, k - 1);
    }
  }

  lemma {:induction false} ShlEven(a: int, k: nat)
    requires a % 2 == 0 || 0 < k
    ensures Shl(a, k) % 2 == 0
  {
    if k > 1 {
      ShlEven(a, k - 1);
    }
  }

  lemma {:induction false} ShlIsTimes(a: int, k: nat)
    ensures Shl(a, k) == a * Pow2(k)
  {
    if k > 0 {
      ShlIsTimes(a, k - 1);
      assert a * Pow2(k) == 2 * (a * Pow2(k - 1));
    }
  }

  lemma {:induction false} ShrBounds(x: nat, k: nat)
    ensures Shl(Shr(x, k), k) <= x < Shl(Shr(x, k) + 1, k)
  {
    if k > 0 {
      var y := Shr(x, k - 1);
      ShrBounds(x, k - 1);
      ShlAdd(y / 2, y / 2, k - 1);
      ShlAdd(y / 2 + 1, y / 2 + 1, k - 1);
      ShlOrder(y / 2 + y / 2, y, k - 1);
      ShlOrder(y + 1, y / 2 + 1 + (y / 2 + 1), k - 1);
    }
  }

  /** What lies between two shifted values shifts back to between them. */
  lemma ShrBelow(x: nat, n: nat, k: nat)
    requires x < Shl(n, k)
    ensures Shr(x, k) < n
  {
    ShrBounds(x, k);
    if n <= Shr(x, k) {
      ShlOrder(n, Shr(x, k), k);
    }
  }
}
