/** `RoundSignificantFigures`: keeps the leading decimal digits of a uint64. */
module SignificantFigures {
  import opened Machine
  import opened Arithmetic
  import opened DecimalText
  import Varint

  /** The number of decimal digits, none for zero. */
  function Digits(n: nat): nat {
    if n == 0 then 0 else 1 + Digits(n / 10)
  }

  lemma {:induction false} DigitsBounds(n: nat)
    requires n > 0
    ensures Digits(n) > 0 && Pow10(Digits(n) - 1) <= n < Pow10(Digits(n))
  {
    if n >= 10 { DigitsBounds(n / 10); } else { assert Pow10(0) == 1 && Pow10(1) == 10; }
  }

  lemma {:induction false} Pow10Mono(a: nat, b: nat)
    requires a <= b
    ensures Pow10(a) <= Pow10(b)
    decreases b - a
  {
    if a < b { Pow10Mono(a + 1, b); }
  }

  lemma DigitsUnique(n: nat, d: nat)
    requires d > 0 && Pow10(d - 1) <= n < Pow10(d)
    ensures Digits(n) == d
  {
    DigitsBounds(n);
    var e := Digits(n);
    if e < d { Pow10Mono(e, d - 1); }
    if d < e { Pow10Mono(d, e - 1); }
  }

  function Floor(n: nat, p: nat): nat
    requires p > 0
  {
    MulMono(0, n / p, p);
    n / p * p
  }

  /** The value of the last digit that is kept. */
  function Unit(n: nat, sd: nat): (p: nat)
    ensures p > 0
  {
    if Digits(n) <= sd then 1 else Pow10(Digits(n) - sd)
  }

  /** The rounding for at least one significant digit. */
  function Rounded(n: nat, sd: nat): nat { Floor(n, Unit(n, sd)) }

  // ----------------------------------------------------------------- the method

  lemma Pow10Value()
    ensures Pow10(18) == 1_000_000_000_000_000_000 && Pow10(19) == 10_000_000_000_000_000_000
    ensures Pow10(19) < TWO_64 < Pow10(20)
  {
    hide Pow10;
    Pow10Three();
    Pow10Add(3, 3);
    Pow10Add(6, 6);
    Pow10Add(12, 6);
    Pow10Add(18, 1);
    Pow10Add(19, 1);
  }

  lemma Pow10Three()
    ensures Pow10(1) == 10 && Pow10(3) == 1000
  {
    assert Pow10(2) == 100;
  }

  lemma Uint64Digits(n: uint64)
    ensures Digits(n) <= 20
  {
    if n > 0 {
      DigitsBounds(n);
      Pow10Value();
      if Digits(n) > 20 { Pow10Mono(20, Digits(n) - 1); }
    }
  }

  /** The divisor loop on a uint64, wrap-around included. */
  method PowerOfTen(count: int) returns (divisor: uint64)
    ensures divisor == Pow10(if count < 0 then 0 else count) % TWO_64
  {
    divisor := 1;
    var i: nat := 0;
    while i < count
      invariant count >= 0 ==> i <= count
      invariant i > 0 ==> count > 0
      invariant divisor == Pow10(i) % TWO_64
    {
      TenTimesMod(Pow10(i));
      divisor := divisor * 10 % TWO_64;
      i := i + 1;
    }
  }

  lemma TenTimesMod(x: nat)
    ensures (x % TWO_64) * 10 % TWO_64 == 10 * x % TWO_64
  {
    var q, r := x / TWO_64, x % TWO_64;
    var s, t := 10 * r / TWO_64, 10 * r % TWO_64;
    DivModUnique(10 * x, 10 * q + s, t, TWO_64);
  }

  /** The multiple of `p` at or just below `n`. */
  predicate IsFloor(m: nat, n: nat, p: nat) {
    p > 0 && m % p == 0 && m <= n < m + p
  }

  lemma FloorIs(n: nat, p: nat)
    requires p > 0
    ensures IsFloor(Floor(n, p), n, p)
  {
    FloorBelow(n, p);
    DivModUnique(Floor(n, p), n / p, 0, p);
  }

  lemma FloorUnique(a: nat, b: nat, n: nat, p: nat)
    requires IsFloor(a, n, p) && IsFloor(b, n, p)
    ensures a == b
  {
    if a < b { NextMultiple(a, b, p); }
    if b < a { NextMultiple(b, a, p); }
  }

  /** Two different multiples are a whole unit apart. */
  lemma NextMultiple(a: nat, b: nat, p: nat)
    requires p > 0 && a % p == 0 && b % p == 0 && a < b
    ensures a + p <= b
  {
    var i, j := a / p, b / p;
    DivModIs(a, p);
    DivModIs(b, p);
    assert a == i * p && b == j * p;
    if i >= j { MulMono(j, i, p); }
    MulMono(i + 1, j, p);
    Distribute(i, 1, p);
  }

  /** The result for fewer than one significant digit; `k` is the exponent that the divisor loop counts to. */
  function WithoutDigits(number: uint64, k: int64): (r: Option<uint64>)
    ensures r.None? <==> k >= 64
    ensures k < 0 ==> r == Some(number)
    ensures 0 <= k < 20 ==> r == Some(0)
    ensures 20 <= k < 64 ==> IsFloor(r.value, number, Pow10(k) % 0x1_0000_0000_0000_0000)
  {
    if k < 0 then Some(number)
    else if k < 20 then Some(0)
    else if k < 64 then
      ZeroFrom64(k);
      FloorIs(number, Pow10(k) % TWO_64);
      Some(Floor(number, Pow10(k) % TWO_64))
    else None
  }

  /**
   `None` stands for the run-time panic of a division by zero. For one or more
   significant digits the divisor never overflows and the result is the rounding.
   With fewer the divisor exceeds the number, then wraps around, and is zero after 64
   steps; so many fewer that the exponent itself wraps leave the number as it is.
   */
  method RoundSignificantFigures(number: uint64, significantDigits: int64) returns (r: Option<uint64>)
    ensures significantDigits >= 1 ==> r == Some(Rounded(number, significantDigits))
    ensures significantDigits >= 1 && Digits(number) > significantDigits ==>
              IsFloor(r.value, number, Pow10(Digits(number) - significantDigits))
    ensures significantDigits >= 1 && Digits(number) <= significantDigits ==> r.value == number
    ensures significantDigits < 1 && number != 0 ==>
              r == WithoutDigits(number, WrapInt64(Digits(number) - significantDigits))
    ensures number == 0 ==> r == Some(0)
    ensures r.None? <==> number != 0 && WrapInt64(Digits(number) - significantDigits) >= 64
  {
    hide Pow10, Digits, WithoutDigits, Floor;
    Uint64Digits(number);
    DigitsStep(number);
    if number == 0 {
      RoundedBounds(0, 1);
      if significantDigits >= 1 { RoundedBounds(0, significantDigits); }
      return Some(0);
    }
    var magnitude := 0;
    var temp := number;
    while temp != 0
      invariant magnitude + Digits(temp) == Digits(number)
    {
      DigitsStep(temp);
      temp := temp / 10;
      magnitude := magnitude + 1;
    }
    DigitsStep(temp);
    if magnitude <= significantDigits {
      FloorBy1(number);
      return Some(number);
    }
    var divisor := PowerOfTen(WrapInt64(magnitude - significantDigits));
    DivisorFits(number, significantDigits);
    if significantDigits >= 1 { RoundedIs(number, significantDigits); }
    if significantDigits < 1 { FewDigits(number, significantDigits); }
    if divisor == 0 { return None; }
    FloorBelow(number, divisor);
    return Some(Floor(number, divisor));
  }

  lemma DigitsStep(n: nat)
    ensures Digits(n) == if n == 0 then 0 else 1 + Digits(n / 10)
  {}

  lemma FloorBy1(n: nat)
    ensures Floor(n, 1) == n
  {}

  lemma FloorOfSmall(n: nat, p: nat)
    requires n < p
    ensures Floor(n, p) == 0
  {}

  /** With fewer than one digit the divisor is 1, or more than the number, or has wrapped around. */
  lemma FewDigits(number: uint64, sd: int64)
    requires sd < 1 && number != 0
    ensures var k := WrapInt64(Digits(number) - sd);
            var divisor := Pow10(if k < 0 then 0 else k) % TWO_64;
            WithoutDigits(number, k) == if divisor == 0 then None else Some(Floor(number, divisor))
  {
    hide Pow10, Digits, Floor;
    var k := WrapInt64(Digits(number) - sd);
    Uint64Digits(number);
    DigitsBounds(number);
    FloorBy1(number);
    Pow10Zero();
    if k >= 0 {
      ZeroFrom64(k);
      if k < 20 {
        Pow10Mono(Digits(number), k);
        Pow10Mono(k, 19);
        Pow10Value();
        FloorOfSmall(number, Pow10(k));
      }
    }
  }

  lemma Pow10Zero()
    ensures Pow10(0) == 1
  {}

  lemma FloorBelow(n: nat, p: nat)
    requires p > 0
    ensures Floor(n, p) <= n < Floor(n, p) + p
  {}

  /** When the divisor is exact and when it is zero. */
  lemma DivisorFits(number: uint64, sd: int64)
    requires Digits(number) > sd
    ensures sd >= 1 ==> WrapInt64(Digits(number) - sd) == Digits(number) - sd
    ensures sd >= 1 ==> Pow10(Digits(number) - sd) % TWO_64 == Unit(number, sd)
    ensures forall k: nat :: Pow10(k) % TWO_64 == 0 <==> k >= 64
  {
    hide Pow10, Digits;
    Uint64Digits(number);
    if sd >= 1 {
      Pow10Mono(Digits(number) - sd, 19);
      Pow10Value();
    }
    forall k: nat ensures Pow10(k) % TWO_64 == 0 <==> k >= 64 {
      ZeroFrom64(k);
    }
  }

  // -------------------------------------------------- when the divisor wraps to 0

  function Pow5(k: nat): (p: nat)
    ensures p % 2 == 1
  {
    if k == 0 then 1 else 5 * Pow5(k - 1)
  }

  lemma {:induction false} Pow10Factors(k: nat)
    ensures Pow10(k) == Varint.Pow2(k) * Pow5(k)
  {
    if k > 0 {
      Pow10Factors(k - 1);
      Regroup(Varint.Pow2(k - 1), Pow5(k - 1));
    }
  }

  lemma Regroup(x: nat, y: nat)
    ensures 10 * (x * y) == (2 * x) * (5 * y)
  {}

  lemma ZeroFrom64(k: nat)
    ensures Pow10(k) % TWO_64 == 0 <==> k >= 64
  {
    hide Pow10, Varint.Pow2, Pow5;
    Varint.Pow2Widths();
    Pow10Factors(k);
    if k >= 64 {
      Varint.Pow2Add(64, k - 64);
      MultipleOf(Varint.Pow2(64), Varint.Pow2(k - 64), Pow5(k));
    } else {
      Varint.Pow2Add(k, 64 - k);
      EvenPow2(64 - k);
      NotMultipleOf(Varint.Pow2(k), Pow5(k), Varint.Pow2(64 - k));
    }
  }

  lemma MultipleOf(t: nat, c: nat, f: nat)
    requires t > 0
    ensures (t * c * f) % t == 0
  {
    assert t * c * f == (c * f) * t;
    DivModUnique(t * c * f, c * f, 0, t);
  }

  /** An odd number of `a`s is not a multiple of an even number of them. */
  lemma NotMultipleOf(a: nat, odd: nat, even: nat)
    requires a > 0 && odd % 2 == 1 && even > 0 && even % 2 == 0
    ensures a * even > 0 && (a * odd) % (a * even) != 0
  {
    ScaledMod(odd, even, a);
    OddRemainder(odd, even);
    assert a * odd == odd * a && a * even == even * a;
    MulMono(1, odd % even, a);
  }

  lemma EvenPow2(k: nat)
    requires k > 0
    ensures Varint.Pow2(k) % 2 == 0
  {}

  lemma OddRemainder(x: nat, m: nat)
    requires x % 2 == 1 && m > 0 && m % 2 == 0
    ensures (x % m) % 2 == 1
  {
    var q, h, r := x / m, m / 2, x % m;
    assert x == q * m + r && m == 2 * h;
    assert q * (2 * h) == 2 * (q * h);
    assert x == 2 * (q * h) + r;
  }

  // ------------------------------------------------------------------ properties

  /** The result is the input with only its last digits cleared. */
  lemma RoundedBounds(n: nat, sd: nat)
    ensures Rounded(n, sd) <= n < Rounded(n, sd) + Unit(n, sd)
  {
    FloorBelow(n, Unit(n, sd));
  }

  /**
   Exactly which number it is: the multiple of ten to the number of dropped digits at or
   just below the input, and the input itself when no digit is dropped.
   */
  lemma RoundedIs(n: nat, sd: nat)
    requires sd >= 1
    ensures Digits(n) > sd ==> IsFloor(Rounded(n, sd), n, Pow10(Digits(n) - sd))
    ensures Digits(n) > sd ==>
              var p := Pow10(Digits(n) - sd); forall m: nat :: IsFloor(m, n, p) ==> m == Rounded(n, sd)
    ensures Digits(n) <= sd ==> Rounded(n, sd) == n
  {
    hide Floor, Digits, Pow10;
    FloorBy1(n);
    if Digits(n) > sd {
      var p := Pow10(Digits(n) - sd);
      FloorIs(n, p);
      forall m: nat | IsFloor(m, n, p) ensures m == Rounded(n, sd) { FloorUnique(m, Rounded(n, sd), n, p); }
    }
  }

  lemma FloorMono(n: nat, m: nat, p: nat)
    requires p > 0 && n <= m
    ensures Floor(n, p) <= Floor(m, p)
  {
    if n / p > m / p { MulMono(m / p + 1, n / p, p); }
    MulMono(n / p, m / p, p);
  }

  lemma FloorOfMultiple(k: nat, p: nat)
    requires p > 0
    ensures k * p >= 0 && Floor(k * p, p) == k * p
  {
    MulMono(0, k, p);
    DivModUnique(k * p, k, 0, p);
  }

  /** Rounding never drops below the smallest number of the same length. */
  lemma KeepsDigits(n: nat, sd: nat)
    requires sd >= 1
    ensures Digits(Rounded(n, sd)) == Digits(n)
    ensures n > 0 ==> Rounded(n, sd) >= Pow10(Digits(n) - 1)
  {
    hide Pow10;
    if n > 0 {
      var d, p := Digits(n), Unit(n, sd);
      DigitsBounds(n);
      RoundedBounds(n, sd);
      if d > sd {
        Pow10Add(sd - 1, d - sd);
        FloorOfMultiple(Pow10(sd - 1), p);
        FloorMono(Pow10(d - 1), n, p);
      } else {
        DivModUnique(n, n, 0, 1);
      }
      DigitsUnique(Rounded(n, sd), d);
    }
  }

  lemma RoundedIdempotent(n: nat, sd: nat)
    requires sd >= 1
    ensures Rounded(Rounded(n, sd), sd) == Rounded(n, sd)
  {
    KeepsDigits(n, sd);
    FloorOfMultiple(n / Unit(n, sd), Unit(n, sd));
  }

  /** A larger number never rounds to a smaller one, also across a change of length. */
  lemma RoundedMonotone(n: nat, m: nat, sd: nat)
    requires sd >= 1 && n <= m
    ensures Rounded(n, sd) <= Rounded(m, sd)
  {
    hide Pow10, Digits;
    RoundedBounds(n, sd);
    if n > 0 {
      DigitsBounds(n);
      DigitsBounds(m);
      KeepsDigits(m, sd);
      if Digits(n) == Digits(m) {
        FloorMono(n, m, Unit(n, sd));
      } else if Digits(n) < Digits(m) {
        Pow10Mono(Digits(n), Digits(m) - 1);
      } else {
        Pow10Mono(Digits(m), Digits(n) - 1);
      }
    }
  }
}
