/** Pro-rata shares: `GetUncappedShare`, `GetSafeShare` and the rounding they do. */
module Shares {
  import opened Arithmetic

  /** The integer nearest to `x / t`, halves up: the only one within half a unit, upper end included. */
  predicate IsHalfUp(r: int, x: int, t: int) {
    2 * x - t < 2 * (r * t) <= 2 * x + t
  }

  lemma HalfUpUnique(r: int, q: int, x: int, t: int)
    requires t > 0 && IsHalfUp(r, x, t) && IsHalfUp(q, x, t)
    ensures r == q
  {
    if r < q { MulMono(r + 1, q, t); }
    if q < r { MulMono(q + 1, r, t); }
  }

  /** `num = a*p + floor(t/2)`, then one truncating division. */
  function UncappedShare(part: nat, total: nat, allocation: nat): nat {
    if part == 0 || total == 0 || allocation == 0 then 0
    else if part == total then allocation
    else (allocation * part + total / 2) / total
  }

  function SafeShare(part: nat, total: nat, allocation: nat): nat {
    UncappedShare(if part >= total then total else part, total, allocation)
  }

  /** The steps of `GetUncappedShare` on its local big integers. */
  method GetUncappedShare(part: nat, total: nat, allocation: nat) returns (share: nat)
    ensures total > 0 ==> IsHalfUp(share, allocation * part, total)
    ensures total == 0 ==> share == 0
    ensures share == UncappedShare(part, total, allocation)
  {
    if total > 0 { ShareIsHalfUp(part, total, allocation); }
    if part == 0 || total == 0 || allocation == 0 { return 0; }
    if part == total { return allocation; }
    MulMono(0, allocation, part);
    var num: nat := allocation * part;
    var half := total / 2;
    num := num + half;
    var res := num / total;
    return res;
  }

  /** `GetSafeShare` caps the part first. */
  method GetSafeShare(part: nat, total: nat, allocation: nat) returns (share: nat)
    ensures share == SafeShare(part, total, allocation)
    ensures share <= allocation
    ensures total > 0 && part <= total ==> IsHalfUp(share, allocation * part, total)
    ensures total > 0 && part >= total ==> share == allocation
  {
    if total > 0 { CappedShareBound(part, total, allocation); }
    var p := part;
    if p >= total { p := total; }
    share := GetUncappedShare(p, total, allocation);
  }

  /** Adding half the divisor before a truncating division rounds half up, for odd divisors too. */
  lemma HalfUpDivision(x: nat, t: nat)
    requires t > 0
    ensures IsHalfUp((x + t / 2) / t, x, t)
  {
    var n := x + t / 2;
    var q, r := n / t, n % t;
    assert n == q * t + r;
  }

  lemma ShareIsHalfUp(part: nat, total: nat, allocation: nat)
    requires total > 0
    ensures IsHalfUp(UncappedShare(part, total, allocation), allocation * part, total)
  {
    MulMono(0, allocation, part);
    HalfUpDivision(allocation * part, total);
  }

  /** A larger part never gets a smaller share. */
  lemma ShareMonotone(part: nat, part': nat, total: nat, allocation: nat)
    requires total > 0 && part <= part'
    ensures UncappedShare(part, total, allocation) <= UncappedShare(part', total, allocation)
    ensures SafeShare(part, total, allocation) <= SafeShare(part', total, allocation)
  {
    MonotoneUncapped(part, part', total, allocation);
    var p, p' := if part >= total then total else part, if part' >= total then total else part';
    MonotoneUncapped(p, p', total, allocation);
  }

  lemma HalfUpMono(r: int, x: int, r': int, x': int, t: int)
    requires t > 0 && x <= x' && IsHalfUp(r, x, t) && IsHalfUp(r', x', t)
    ensures r <= r'
  {
    if r > r' {
      MulMono(r' + 1, r, t);
      Distribute(r', 1, t);
    }
  }

  lemma MonotoneUncapped(part: nat, part': nat, total: nat, allocation: nat)
    requires total > 0 && part <= part'
    ensures UncappedShare(part, total, allocation) <= UncappedShare(part', total, allocation)
  {
    hide UncappedShare;
    var r, r' := UncappedShare(part, total, allocation), UncappedShare(part', total, allocation);
    ShareIsHalfUp(part, total, allocation);
    ShareIsHalfUp(part', total, allocation);
    MulMono(part, part', allocation);
    HalfUpMono(r, allocation * part, r', allocation * part', total);
  }

  lemma CappedShareBound(part: nat, total: nat, allocation: nat)
    requires total > 0
    ensures SafeShare(part, total, allocation) <= allocation
    ensures part >= total ==> SafeShare(part, total, allocation) == allocation
    ensures part <= total ==> SafeShare(part, total, allocation) == UncappedShare(part, total, allocation)
  {
    ShareMonotone(if part >= total then total else part, total, total, allocation);
  }

  // ----------------------------------------------------------- dividing it all up

  function Sum(xs: seq<nat>): nat {
    if xs == [] then 0 else xs[0] + Sum(xs[1..])
  }

  function SumOfShares(parts: seq<nat>, total: nat, allocation: nat): nat {
    if parts == [] then 0 else UncappedShare(parts[0], total, allocation) + SumOfShares(parts[1..], total, allocation)
  }

  lemma {:induction false} SharesBound(parts: seq<nat>, total: nat, allocation: nat)
    requires total > 0
    ensures 2 * (allocation * Sum(parts)) - |parts| * total
            <= 2 * (SumOfShares(parts, total, allocation) * total)
            <= 2 * (allocation * Sum(parts)) + |parts| * total
  {
    hide UncappedShare;
    if parts != [] {
      var s, rest := UncappedShare(parts[0], total, allocation), SumOfShares(parts[1..], total, allocation);
      ShareIsHalfUp(parts[0], total, allocation);
      SharesBound(parts[1..], total, allocation);
      Distribute(s, rest, total);
      Distribute(parts[0], Sum(parts[1..]), allocation);
      Distribute(1, |parts| - 1, total);
    }
  }

  /** Parts that make up the total get the allocation back, to within half a unit for each of them. */
  lemma SharesSumToAllocation(parts: seq<nat>, total: nat, allocation: nat)
    requires total > 0 && Sum(parts) == total
    ensures -|parts| <= 2 * (SumOfShares(parts, total, allocation) - allocation) <= |parts|
  {
    hide SumOfShares, Sum;
    SharesBound(parts, total, allocation);
    Squeeze(SumOfShares(parts, total, allocation), allocation, |parts|, total);
  }

  lemma Squeeze(s: int, a: int, n: int, t: int)
    requires n >= 0 && t > 0 && 2 * (a * t) - n * t <= 2 * (s * t) <= 2 * (a * t) + n * t
    ensures -n <= 2 * (s - a) <= n
  {
    var d := 2 * (s - a);
    assert d * t == 2 * (s * t) - 2 * (a * t);
    if d > n { MulMono(n + 1, d, t); }
    if d < -n { MulMono(d, -n - 1, t); }
  }

  /** The exact share falls half way between two integers. */
  predicate IsTie(part: nat, total: nat, allocation: nat)
    requires total > 0
  {
    (2 * (allocation * part)) % (2 * total) == total
  }

  /** Two complementary parts get the whole allocation, and one unit more exactly at a tie. */
  lemma ComplementaryShares(part: nat, total: nat, allocation: nat)
    requires total > 0 && part <= total
    ensures UncappedShare(part, total, allocation) + UncappedShare(total - part, total, allocation)
            == allocation + if IsTie(part, total, allocation) then 1 else 0
  {
    hide UncappedShare;
    var r, q := UncappedShare(part, total, allocation), UncappedShare(total - part, total, allocation);
    var x := allocation * part;
    ShareIsHalfUp(part, total, allocation);
    ShareIsHalfUp(total - part, total, allocation);
    Distribute(part, total - part, allocation);
    var y := allocation * (total - part);
    assert x + y == allocation * total;
    ComplementaryHalfUps(r, q, x, y, allocation, total);
  }

  lemma ComplementaryHalfUps(r: nat, q: nat, x: nat, y: nat, a: nat, t: nat)
    requires t > 0 && x + y == a * t && IsHalfUp(r, x, t) && IsHalfUp(q, y, t)
    ensures r + q == a + if (2 * x) % (2 * t) == t then 1 else 0
  {
    var d := r + q - a;
    Distribute(r, q, t);
    Distribute(d, a, t);
    assert d * t == r * t + q * t - a * t;
    assert -2 * t < 2 * (d * t) <= 2 * t;
    if d >= 2 { MulMono(2, d, t); }
    if d <= -1 { MulMono(d, -1, t); }
    if d == 1 {
      assert 2 * (r * t) == 2 * x + t;
      TieFrom(r, x, t);
    }
    if (2 * x) % (2 * t) == t {
      var k := TieQuotient(x, t);
      TieBoth(r, q, x, y, a, t, k);
    }
  }

  lemma TieFrom(r: int, x: int, t: int)
    requires t > 0 && 2 * (r * t) == 2 * x + t
    ensures (2 * x) % (2 * t) == t
  {
    assert (r - 1) * (2 * t) == 2 * (r * t) - 2 * t;
    DivModUnique(2 * x, r - 1, t, 2 * t);
  }

  /** At a tie both sides round up. */
  lemma TieBoth(r: int, q: int, x: int, y: int, a: int, t: int, k: int)
    requires t > 0 && x + y == a * t && IsHalfUp(r, x, t) && IsHalfUp(q, y, t)
    requires 2 * x == 2 * (k * t) + t
    ensures r + q == a + 1
  {
    hide IsHalfUp;
    HalfUpAbove(k, x, t);
    HalfUpUnique(r, k + 1, x, t);
    LessOne(a, k, t);
    HalfUpAbove(a - k - 1, y, t);
    HalfUpUnique(q, a - k, y, t);
  }

  lemma TieQuotient(x: int, t: int) returns (k: int)
    requires t > 0 && (2 * x) % (2 * t) == t
    ensures 2 * x == 2 * (k * t) + t
  {
    var m := 2 * t;
    k := (2 * x) / m;
    DivModIs(2 * x, m);
    TwiceTimes(k, t);
  }

  lemma HalfUpAbove(k: int, x: int, t: int)
    requires t > 0 && 2 * x == 2 * (k * t) + t
    ensures IsHalfUp(k + 1, x, t)
  {
    Distribute(k, 1, t);
  }

  lemma LessOne(a: int, k: int, t: int)
    ensures (a - k - 1) * t == a * t - k * t - t
  {}

  lemma TwiceTimes(k: int, t: int)
    ensures k * (2 * t) == 2 * (k * t)
  {}
}
