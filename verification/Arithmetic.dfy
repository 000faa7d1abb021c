/** Facts about multiplication, division and remainder that the solver does not find unaided. */
module Arithmetic {

  function Min(a: int, b: int): int { if a <= b then a else b }

  lemma Distribute(x: int, y: int, z: int)
    ensures (x + y) * z == x * z + y * z && z * (x + y) == z * x + z * y
  {}

  lemma MulMono(a: int, b: int, c: int)
    requires a <= b && 0 <= c
    ensures a * c <= b * c
  {}

  lemma MulLess(a: int, b: int, c: int)
    requires a < b && 0 < c
    ensures a * c < b * c
  {}

  /** Euclidean division is determined by its defining equation. */
  lemma DivModUnique(x: int, q: int, r: int, m: int)
    requires 0 <= r < m && x == q * m + r
    ensures x / m == q && x % m == r
  {
    var d, e := x / m, x % m;
    assert x == d * m + e;
    assert (q - d) * m == e - r;
    if q > d {
      MulMono(1, q - d, m);
    } else if q < d {
      MulMono(q - d, -1, m);
    }
  }

  lemma DivModIs(x: int, m: int)
    requires m > 0
    ensures x == x / m * m + x % m
  {}

  lemma Regroup3(q: int, m: int, r: int, p: int)
    ensures (q * m + r) * p == q * (m * p) + r * p
  {
    Distribute(q * m, r, p);
    assert q * m * p == q * (m * p);
  }

  lemma ScaledParts(x: nat, m: nat, p: nat)
    requires m > 0 && p > 0
    ensures x * p == (x / m) * (m * p) + (x % m) * p
    ensures m * p > 0 && 0 <= (x % m) * p && (x % m) * p + p <= m * p
  {
    var q, r := x / m, x % m;
    DivModIs(x, m);
    Regroup3(q, m, r, p);
    MulLess(0, m, p);
    MulMono(0, r, p);
    MulMono(r + 1, m, p);
    Distribute(r, 1, p);
  }

  /** Scaling dividend and divisor scales the remainder. */
  lemma ScaledMod(x: nat, m: nat, p: nat)
    requires m > 0 && p > 0
    ensures m * p > 0 && (x * p) % (m * p) == (x % m) * p
    ensures (x % m) * p + p <= m * p
  {
    ScaledParts(x, m, p);
    DivModUnique(x * p, x / m, (x % m) * p, m * p);
  }

  /** The remainder of a two-digit number in base `p` modulo a multiple of the base. */
  lemma DigitMod(low: nat, x: nat, m: nat, p: nat)
    requires m > 0 && low < p
    ensures m * p > 0 && (low + x * p) % (m * p) == low + (x % m) * p
  {
    ScaledParts(x, m, p);
    DivModUnique(low + x * p, x / m, low + (x % m) * p, m * p);
  }

  /** Adding a multiple of the modulus. */
  lemma MultipleMod(low: nat, x: nat, m: nat, n: nat)
    requires n > 0
    ensures (x * (m * n)) % n == 0 && (low + x * (m * n)) % n == low % n
  {
    assert x * (m * n) == (x * m) * n;
    DivModUnique(x * (m * n), x * m, 0, n);
    var q, r := low / n, low % n;
    assert q * n + (x * m) * n == (q + x * m) * n;
    DivModUnique(low + x * (m * n), q + x * m, r, n);
  }
}
