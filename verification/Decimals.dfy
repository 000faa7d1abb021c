/** `ConvertDecimals`: moving a signed amount between decimal scales. */
module Decimals {
  import opened Machine
  import opened Arithmetic
  import opened DecimalText

  /** Scaling up multiplies; scaling down divides, rounding towards minus infinity as `big.Int.Div` does. */
  function ConvertDecimals(amount: int, fromDecimals: int, toDecimals: int): Option<int> {
    if fromDecimals < 0 || toDecimals < 0 then None
    else if fromDecimals == toDecimals then Some(amount)
    else if fromDecimals > toDecimals then Some(amount / Pow10(fromDecimals - toDecimals))
    else Some(amount * Pow10(toDecimals - fromDecimals))
  }

  /** The same between non-negative scales. */
  function Convert(x: int, a: nat, b: nat): (r: int)
    ensures Some(r) == ConvertDecimals(x, a, b)
  {
    ConvertDecimals(x, a, b).value
  }

  lemma ConvertIs(x: int, a: nat, b: nat)
    ensures a >= b ==> Convert(x, a, b) == x / Pow10(a - b)
    ensures a <= b ==> Convert(x, a, b) == x * Pow10(b - a)
  {
    assert Pow10(0) == 1;
  }

  /** Rejected exactly for a negative scale; scaling down rounds towards minus infinity, up is exact. */
  lemma ConvertDecimalsIs(amount: int, a: int, b: int)
    ensures ConvertDecimals(amount, a, b).None? <==> a < 0 || b < 0
    ensures 0 <= a <= b ==> ConvertDecimals(amount, a, b) == Some(amount * Pow10(b - a))
    ensures 0 <= b <= a ==>
              var r, p := ConvertDecimals(amount, a, b).value, Pow10(a - b); r * p <= amount < (r + 1) * p
  {
    assert Pow10(0) == 1;
    if 0 <= b <= a {
      var p := Pow10(a - b);
      hide Pow10;
      DivModIs(amount, p);
      Distribute(amount / p, 1, p);
    }
  }

  lemma DivTwice(x: int, p: nat, q: nat)
    requires p > 0 && q > 0
    ensures p * q > 0 && x / p / q == x / (p * q)
  {
    var d, r := x / p, x % p;
    var e, s := d / q, d % q;
    MulLess(0, p, q);
    assert x == d * p + r && d == e * q + s;
    assert (e * q + s) * p == e * (p * q) + s * p;
    MulMono(s + 1, q, p);
    MulMono(0, s, p);
    DivModUnique(x, e, s * p + r, p * q);
  }

  lemma DivOfMultiple(x: int, p: nat)
    requires p > 0
    ensures (x * p) / p == x
  {
    DivModUnique(x * p, x, 0, p);
  }

  lemma MulTwice(x: int, p: int, q: int)
    ensures x * p * q == x * (p * q)
  {}

  /** Down in two steps, up in two steps, and up then down. */
  lemma TwoSteps(x: int, m: nat, n: nat)
    ensures x / Pow10(m) / Pow10(n) == x / Pow10(m + n)
    ensures x * Pow10(m) * Pow10(n) == x * Pow10(m + n)
    ensures m >= n ==> (x * Pow10(m)) / Pow10(n) == x * Pow10(m - n)
    ensures m <= n ==> (x * Pow10(m)) / Pow10(n) == x / Pow10(n - m)
  {
    hide Pow10;
    Pow10Add(m, n);
    DivTwice(x, Pow10(m), Pow10(n));
    MulTwice(x, Pow10(m), Pow10(n));
    if m >= n {
      Pow10Add(m - n, n);
      MulTwice(x, Pow10(m - n), Pow10(n));
      DivOfMultiple(x * Pow10(m - n), Pow10(n));
    }
    if m <= n {
      Pow10Add(m, n - m);
      DivTwice(x * Pow10(m), Pow10(m), Pow10(n - m));
      DivOfMultiple(x, Pow10(m));
    }
  }

  /** Going through a scale that is fine enough loses nothing more than going directly. */
  lemma ThroughFineScale(x: int, a: nat, b: nat, c: nat)
    requires b >= Min(a, c)
    ensures Convert(Convert(x, a, b), b, c) == Convert(x, a, c)
  {
    hide Pow10;
    ConvertIs(x, a, b);
    ConvertIs(Convert(x, a, b), b, c);
    ConvertIs(x, a, c);
    if a <= b {
      TwoSteps(x, b - a, if c <= b then b - c else c - b);
    } else {
      TwoSteps(x, a - b, b - c);
    }
  }

  lemma RestoredIff(y: int, p: nat)
    requires p > 0
    ensures y / p * p == y <==> y % p == 0
  {}

  lemma Cancel(x: int, y: int, p: nat)
    requires p > 0
    ensures x * p == y * p <==> x == y
  {
    if x * p == y * p {
      DivOfMultiple(x, p);
      DivOfMultiple(y, p);
    }
  }

  /** Through a coarser scale it does exactly when the digits that are cut off are zero. */
  lemma ThroughCoarseScale(x: int, a: nat, b: nat, c: nat)
    requires b < Min(a, c)
    ensures Convert(Convert(x, a, b), b, c) == Convert(x, a, c)
            <==> Convert(x, a, Min(a, c)) % Pow10(Min(a, c) - b) == 0
  {
    hide Pow10;
    ConvertIs(x, a, b);
    ConvertIs(Convert(x, a, b), b, c);
    ConvertIs(x, a, c);
    ConvertIs(x, a, Min(a, c));
    if c >= a {
      var y := x / Pow10(a - b);
      TwoSteps(y, a - b, c - a);
      Cancel(y * Pow10(a - b), x, Pow10(c - a));
      RestoredIff(x, Pow10(a - b));
      ConvertSame(x, a);
    } else {
      TwoSteps(x, a - c, c - b);
      RestoredIff(x / Pow10(a - c), Pow10(c - b));
    }
  }

  lemma ConvertSame(x: int, a: nat)
    ensures Convert(x, a, a) == x
  {}

  /** Every amount, negative ones included: when a detour over scale `b` makes no difference. */
  lemma DetourIff(x: int, a: nat, b: nat, c: nat)
    ensures Convert(Convert(x, a, b), b, c) == Convert(x, a, c)
            <==> b >= Min(a, c) || Convert(x, a, Min(a, c)) % Pow10(Min(a, c) - b) == 0
  {
    hide Pow10, Convert;
    if b >= Min(a, c) {
      ThroughFineScale(x, a, b, c);
    } else {
      ThroughCoarseScale(x, a, b, c);
    }
  }
}
