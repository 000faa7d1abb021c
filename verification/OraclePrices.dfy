/**
 `NewOraclePrice`, over the decimal text that `big.Float.Text('f', -1)` gives it:
 the number is cut to a few places after its leading fraction zeros and to 18
 digits in all, so that the amount fits a uint64.
 */
module OraclePrices {
  import opened Machine
  import opened Arithmetic
  import opened Text
  import opened DecimalText
  import opened SignificantFigures
  import opened Messages

  const MAX_PRECISION_AFTER_ZEROS: nat := 4
  const MAX_INTEGER_LENGTH: nat := 18

  predicate IsDot(c: char) { c == '.' }

  /** `strconv.ParseUint(s, 10, 64)` */
  function ParseUint64(s: string): Option<uint64> {
    match ParseDecimal(s)
    case None => None
    case Some(n) => if n < TWO_64 then Some(n) else None
  }

  /** `strings.TrimRight(s, "0")` */
  function TrimZeros(s: string): (r: string)
    ensures |r| <= |s| && r == s[..|r|]
    ensures r != "" ==> r[|r| - 1] != '0'
  {
    if s != "" && s[|s| - 1] == '0' then TrimZeros(s[..|s| - 1]) else s
  }

  function LeadingZeros(s: string): (n: nat)
    ensures n <= |s|
    ensures forall i :: 0 <= i < n ==> s[i] == '0'
    ensures n < |s| ==> s[n] != '0'
  {
    if s == "" || s[0] != '0' then 0 else 1 + LeadingZeros(s[1..])
  }

  /** How many places of the fraction are looked at. */
  function Places(intLen: nat, frac: string): (k: nat)
    requires intLen <= MAX_INTEGER_LENGTH
    ensures k <= |frac| && intLen + k <= MAX_INTEGER_LENGTH
  {
    Min(LeadingZeros(frac) + MAX_PRECISION_AFTER_ZEROS, Min(MAX_INTEGER_LENGTH - intLen, |frac|))
  }

  /** The price for an integer part and a fraction; no dot is the empty fraction. */
  function PriceOf(integer: string, frac: string): Option<OraclePrice> {
    if |integer| > MAX_INTEGER_LENGTH then None
    else
      var fraction := TrimZeros(frac[..Places(|integer|, frac)]);
      match ParseUint64(integer + fraction)
      case None => None
      case Some(amount) => Some(OraclePrice(amount, |fraction|))
  }

  /** The two parts of a text with at most one dot. */
  function IntegerPart(text: string): string { text[..Find(text, IsDot)] }

  function FractionPart(text: string): string {
    var k := Find(text, IsDot);
    if k < |text| then text[k + 1..] else ""
  }

  /** A second dot is an error. */
  function PriceOfText(text: string): Option<OraclePrice> {
    if '.' in FractionPart(text) then None else PriceOf(IntegerPart(text), FractionPart(text))
  }

  /** The parts are what stands on the two sides of the dot. */
  lemma TextWithDot(i: string, f: string)
    requires '.' !in i
    ensures PriceOfText(i + "." + f) == if '.' in f then None else PriceOf(i, f)
  {
    hide PriceOf;
    var text := i + "." + f;
    assert text[|i|] == '.' && forall j :: 0 <= j < |i| ==> text[j] == i[j];
    FindAt(text, IsDot, |i|);
    assert IntegerPart(text) == i && FractionPart(text) == f;
  }

  lemma TextWithoutDot(text: string)
    requires '.' !in text
    ensures PriceOfText(text) == PriceOf(text, "")
  {
    hide PriceOf;
    assert IntegerPart(text) == text;
  }

  // ------------------------------------------------------------------ the method

  method NewOraclePrice(text: string) returns (r: Option<OraclePrice>)
    ensures r == PriceOfText(text)
  {
    hide PriceOf, ParseUint64, Places, TrimZeros;
    var k := Find(text, IsDot);
    if k < |text| && '.' in text[k + 1..] { return None; }
    var parts0 := text[..k];
    ghost var frac := FractionPart(text);
    TooLong(parts0, frac);
    if |parts0| > MAX_INTEGER_LENGTH { return None; }
    var integer := parts0;
    var decimals: nat := 0;
    var remain := MAX_INTEGER_LENGTH - |parts0|;
    if k < |text| {
      var parts1 := text[k + 1..];
      var index, zeros := CountPlaces(parts1, remain);
      PlacesAre(|parts0|, frac);
      if index > zeros {
        var fraction := TrimZeros(parts1[..index]);
        integer := integer + fraction;
        decimals := |fraction|;
      } else {
        TrimAllZeros(parts1[..index]);
        assert integer + "" == integer;
      }
    } else {
      TrimAllZeros("");
      assert integer + "" == integer && frac[..Places(|parts0|, frac)] == "";
    }
    PriceFrom(parts0, frac);
    var amount := ParseUint64(integer);
    if amount.None? { return None; }
    return Some(OraclePrice(amount.value, decimals));
  }

  lemma TooLong(integer: string, frac: string)
    ensures |integer| > MAX_INTEGER_LENGTH ==> PriceOf(integer, frac).None?
  {}

  lemma PlacesAre(intLen: nat, frac: string)
    requires intLen <= MAX_INTEGER_LENGTH
    ensures Places(intLen, frac) ==
            Min(LeadingZeros(frac) + MAX_PRECISION_AFTER_ZEROS, Min(MAX_INTEGER_LENGTH - intLen, |frac|))
  {}

  lemma PriceFrom(integer: string, frac: string)
    requires |integer| <= MAX_INTEGER_LENGTH
    ensures var fraction := TrimZeros(frac[..Places(|integer|, frac)]);
            var amount := ParseUint64(integer + fraction);
            PriceOf(integer, frac) == if amount.None? then None else Some(OraclePrice(amount.value, |fraction|))
  {}

  /** The loop over the fraction, which stops four places after its leading zeros. */
  method CountPlaces(frac: string, remain: nat) returns (index: nat, zeros: nat)
    ensures index == Min(LeadingZeros(frac) + MAX_PRECISION_AFTER_ZEROS, Min(remain, |frac|))
    ensures zeros <= index && forall i :: 0 <= i < zeros ==> frac[i] == '0'
    ensures index > zeros ==> frac[zeros] != '0'
  {
    ghost var lead := LeadingZeros(frac);
    zeros, index := 0, 0;
    var i := 0;
    while i < remain && i < |frac|
      invariant i <= Min(remain, |frac|) && index == i < lead + MAX_PRECISION_AFTER_ZEROS
      invariant zeros == Min(i, lead)
    {
      index := index + 1;
      if frac[i] == '0' && zeros == i {
        zeros := zeros + 1;
      } else if index >= zeros + MAX_PRECISION_AFTER_ZEROS {
        break;
      }
      i := i + 1;
    }
  }

  lemma {:induction false} TrimAllZeros(s: string)
    requires forall i :: 0 <= i < |s| ==> s[i] == '0'
    ensures TrimZeros(s) == ""
  {
    if s != "" { TrimAllZeros(s[..|s| - 1]); }
  }

  // ------------------------------------------------------------------ properties

  /** Trailing zeros of a fraction are powers of ten of the value. */
  lemma {:induction false} TrimKeepsValue(integer: string, s: string)
    requires AllDigits(integer) && AllDigits(s)
    ensures AllDigits(integer + s) && AllDigits(integer + TrimZeros(s))
    ensures Value(integer + s) == Value(integer + TrimZeros(s)) * Pow10(|s| - |TrimZeros(s)|)
  {
    if s != "" && s[|s| - 1] == '0' {
      var t := s[..|s| - 1];
      TrimKeepsValue(integer, t);
      var all := integer + s;
      assert all[..|all| - 1] == integer + t;
      NextDigit(Value(integer + TrimZeros(t)), Pow10(|t| - |TrimZeros(t)|));
    } else {
      assert Pow10(0) == 1;
    }
  }

  /** Cutting a fraction after `k` places truncates the value there. */
  lemma CutTruncates(integer: string, frac: string, k: nat)
    requires AllDigits(integer) && AllDigits(frac) && k <= |frac|
    ensures AllDigits(integer + frac) && AllDigits(integer + frac[..k])
    ensures Value(integer + frac[..k]) == Value(integer + frac) / Pow10(|frac| - k)
  {
    var a, b := integer + frac[..k], frac[k..];
    assert integer + frac == a + b;
    ValueConcat(a, b);
    ValueBound(b);
    DivModUnique(Value(a + b), Value(a), Value(b), Pow10(|b|));
  }

  lemma {:induction false} LastDigit(s: string)
    requires s != "" && AllDigits(s)
    ensures Value(s) % 10 == DigitValue(s[|s| - 1])
  {}

  /**
   For digits with at most 18 before the dot the price exists and is exactly the
   number truncated after the fraction's leading zeros and four more places, or
   where 18 digits or the fraction end; its own last fraction digit is not zero, and
   its amount is below ten to the eighteenth, so the uint64 parse cannot overflow.
   */
  lemma PriceIsTruncation(integer: string, frac: string)
    requires AllDigits(integer) && AllDigits(frac) && 0 < |integer| <= MAX_INTEGER_LENGTH
    ensures AllDigits(integer + frac)
    ensures PriceOf(integer, frac).Some?
    ensures var p := PriceOf(integer, frac).value;
            var k := Places(|integer|, frac);
            && p.decimals <= k
            && p.amount * Pow10(k - p.decimals) == Value(integer + frac) / Pow10(|frac| - k)
            && (p.decimals > 0 ==> p.amount % 10 != 0)
            && p.amount < Pow10(MAX_INTEGER_LENGTH)
  {
    hide Pow10, Value, Places, TrimZeros, PriceOf;
    var k := Places(|integer|, frac);
    CutTruncates(integer, frac, k);
    TrimKeepsValue(integer, frac[..k]);
    PriceValue(integer, frac);
  }

  /**
   The same in literals, for a fraction with `zeros` leading zeros: four more places are
   kept, as far as eighteen digits and the fraction go.
   */
  lemma TextTruncation(integer: string, frac: string, zeros: nat, k: nat)
    requires AllDigits(integer) && AllDigits(frac) && 0 < |integer| <= 18
    requires zeros <= |frac| && (forall i :: 0 <= i < zeros ==> frac[i] == '0')
    requires zeros < |frac| ==> frac[zeros] != '0'
    requires k <= zeros + 4 && k <= 18 - |integer| && k <= |frac|
    requires k == zeros + 4 || k == 18 - |integer| || k == |frac|
    ensures PriceOfText(integer + "." + frac).Some? && AllDigits(integer + frac)
    ensures var p := PriceOfText(integer + "." + frac).value;
            && p.decimals <= k && p.amount < 1_000_000_000_000_000_000
            && p.amount * Pow10(k - p.decimals) == Value(integer + frac) / Pow10(|frac| - k)
            && (p.decimals > 0 ==> p.amount % 10 != 0)
  {
    hide PriceOf, PriceOfText, Pow10, Value, LeadingZeros;
    assert LeadingZeros(frac) == zeros;
    TextWithDot(integer, frac);
    Pow10Value();
    PriceIsTruncation(integer, frac);
  }

  /** What is parsed: the integer digits and the trimmed fraction. */
  lemma PriceValue(integer: string, frac: string)
    requires AllDigits(integer) && AllDigits(frac) && 0 < |integer| <= MAX_INTEGER_LENGTH
    ensures var fraction := TrimZeros(frac[..Places(|integer|, frac)]);
            && AllDigits(integer + fraction)
            && PriceOf(integer, frac).Some?
            && PriceOf(integer, frac).value.amount == Value(integer + fraction)
            && PriceOf(integer, frac).value.decimals == |fraction|
            && Value(integer + fraction) < Pow10(MAX_INTEGER_LENGTH)
            && (fraction != "" ==> Value(integer + fraction) % 10 != 0)
  {
    hide Pow10, Value, Places, TrimZeros;
    var fraction := TrimZeros(frac[..Places(|integer|, frac)]);
    var s := integer + fraction;
    ValueBound(s);
    Pow10Mono(|s|, MAX_INTEGER_LENGTH);
    Pow10Value();
    LastDigit(s);
    if fraction != "" {
      assert s[|s| - 1] == fraction[|fraction| - 1];
    }
  }

  /** Exactly which digit texts are rejected: those with more than 18 integer digits. */
  lemma TooLongRejected(integer: string, frac: string)
    requires AllDigits(integer) && AllDigits(frac) && integer != ""
    ensures PriceOf(integer, frac).None? <==> |integer| > MAX_INTEGER_LENGTH
  {
    hide LeadingZeros;
    if |integer| <= MAX_INTEGER_LENGTH { PriceIsTruncation(integer, frac); }
  }

  /** A sign is not a digit: negative numbers and infinities are rejected. */
  lemma SignRejected(integer: string, frac: string)
    requires integer != "" && !IsDigit(integer[0])
    ensures PriceOf(integer, frac).None?
  {
    if |integer| <= MAX_INTEGER_LENGTH {
      var s := integer + TrimZeros(frac[..Places(|integer|, frac)]);
      assert s[0] == integer[0];
    }
  }
}
