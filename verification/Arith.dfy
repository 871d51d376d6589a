/** The division facts the models need; each is one non-linear step. */
module Arith {

  lemma SmallMultiple(k: int, m: int)
    requires 0 < m && -m < k * m < m
    ensures k == 0
  {
    assert k > 0 ==> (k - 1) * m >= 0;
    assert k < 0 ==> (-k - 1) * m >= 0;
  }

  lemma ZeroOrOneMultiple(k: int, m: int)
    requires 0 < m && -m < k * m < 2 * m
    ensures k == 0 || k == 1
  {
    assert k > 1 ==> (k - 2) * m >= 0;
    assert k < 0 ==> (-k - 1) * m >= 0;
  }

  /** Quotient and remainder are determined. */
  lemma DivModIs(x: int, q: int, r: int, m: int)
    requires 0 < m && x == q * m + r && 0 <= r < m
    ensures x / m == q && x % m == r
  {
    assert x == x / m * m + x % m;
    assert (x / m - q) * m == r - x % m;
    SmallMultiple(x / m - q, m);
  }

  lemma ModPlusMultiple(x: int, k: int, m: int)
    requires 0 < m
    ensures (x + k * m) % m == x % m
  {
    assert x + k * m == (x / m + k) * m + x % m;
    DivModIs(x + k * m, x / m + k, x % m, m);
  }

  /** Reducing by a multiple of the modulus first changes nothing. */
  lemma ModOfMod(x: nat, k: nat, m: nat)
    requires 0 < m && 0 < k * m
    ensures x % (k * m) % m == x % m
  {
    var q := x / (k * m);
    assert x == q * (k * m) + x % (k * m);
    assert q * (k * m) == (q * k) * m;
    ModPlusMultiple(x % (k * m), q * k, m);
  }

  lemma QuotientBelow(x: nat, n: nat, m: nat)
    requires 0 < m
    ensures x / m < n <==> x < n * m
    ensures x == x / m * m + x % m
  {
    var q := x / m;
    assert x == q * m + x % m;
    if q < n {
      TimesMonotone(q + 1, n, m);
      TimesNext(q, m);
    } else {
      TimesMonotone(n, q, m);
    }
  }

  lemma TimesNext(k: int, m: int)
    ensures (k + 1) * m == k * m + m
  {
  }

  lemma TimesMonotone(a: nat, b: nat, m: nat)
    requires a <= b
    ensures a * m <= b * m
  {
    assert (b - a) * m >= 0;
    assert b * m == (b - a) * m + a * m;
  }

  lemma QuotientGap(x: int, y: int, m: int)
    requires 0 < m
    ensures (y / m - x / m) * m == y - y % m - (x - x % m)
  {
    assert x == x / m * m + x % m;
    assert y == y / m * m + y % m;
  }

  /** Sums and differences of multiples are multiples. */
  lemma MultiplesAdd(a: int, b: int, m: int)
    requires 0 < m && a % m == 0 && b % m == 0
    ensures (a + b) % m == 0 && (a - b) % m == 0
  {
    assert a + b == (a / m + b / m) * m;
    DivModIs(a + b, a / m + b / m, 0, m);
    assert a - b == (a / m - b / m) * m;
    DivModIs(a - b, a / m - b / m, 0, m);
  }

  /** Distinct multiples are at least one modulus apart. */
  lemma MultiplesApart(a: int, b: int, m: int)
    requires 0 < m && a % m == 0 && b % m == 0 && a < b
    ensures a + m <= b
  {
    var q := b / m - a / m;
    assert q * m == b - a;
    assert q >= 1 ==> (q - 1) * m >= 0;
    assert q <= 0 ==> -q * m >= 0;
  }
}
