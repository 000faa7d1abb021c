/**
 Base 128 varints: the writer, the size function and the reader that
 common/common.pb.go inlines at every field.
 */
module Varint {
  import opened Machine
  import opened Arithmetic

  datatype Error =
    | IntOverflow
    | UnexpectedEOF
    | InvalidLength
    | UnexpectedEndOfGroup
    | IllegalWireType(wireType: nat)
    | EndGroupForNonGroup
    | IllegalTag(num: int, wire: nat)
    | WrongWireType(num: int, wireType: nat)

  datatype Result<+T> = Ok(value: T) | Err(error: Error)

  /** A number read from the front of a byte string and how many bytes it took. */
  datatype Read = Read(raw: nat, len: nat)

  /** The tenth byte is the last one read: the shift then is 63, the next would be 70. */
  const MAX_VARINT_LEN := 10

  // -------------------------------------------------------------------- bits

  function Pow2(k: nat): (p: nat)
    ensures p > 0
  {
    if k == 0 then 1 else 2 * Pow2(k - 1)
  }

  lemma Double(x: int, y: int)
    ensures 2 * x * y == 2 * (x * y)
  {}

  lemma {:induction false} Pow2Add(a: nat, b: nat)
    ensures Pow2(a + b) == Pow2(a) * Pow2(b)
  {
    if a > 0 {
      Pow2Add(a - 1, b);
      Double(Pow2(a - 1), Pow2(b));
    }
  }

  lemma Pow2Small()
    ensures Pow2(3) == 8 && Pow2(4) == 16
  {
    assert Pow2(2) == 4;
  }

  lemma Pow2Widths()
    ensures Pow2(7) == 128 && Pow2(32) == TWO_32 && Pow2(64) == TWO_64 && Pow2(70) == 64 * TWO_64
  {
    Pow2Small();
    hide Pow2;
    Pow2Add(4, 3);
    Pow2Add(4, 4);
    Pow2Add(8, 8);
    Pow2Add(16, 16);
    Pow2Add(32, 32);
    Pow2Add(3, 3);
    Pow2Add(64, 6);
  }

  lemma Pow2Group(k: nat)
    ensures Pow2(7 * (k + 1)) == 128 * Pow2(7 * k)
  {
    Pow2Add(7, 7 * k);
    Pow2Widths();
  }

  /** Bitwise or of two naturals. */
  function Or(a: nat, b: nat): nat {
    if a == 0 then b else if b == 0 then a
    else (if a % 2 == 1 || b % 2 == 1 then 1 else 0) + 2 * Or(a / 2, b / 2)
  }

  lemma OrZero(a: nat)
    ensures Or(a, 0) == a
  {}

  /** A bit that is set on both sides is set once. */
  lemma {:induction false} OrSame(a: nat)
    ensures Or(a, a) == a
  {
    if a != 0 { OrSame(a / 2); }
  }

  /** Bits that do not overlap are added. */
  lemma {:induction false} OrDisjoint(a: nat, x: nat, s: nat)
    requires a < Pow2(s)
    ensures Or(a, x * Pow2(s)) == a + x * Pow2(s)
  {
    if a != 0 && x * Pow2(s) != 0 {
      var b := x * Pow2(s - 1);
      assert x * Pow2(s) == 2 * b;
      OrDisjoint(a / 2, x, s - 1);
    }
  }

  /**
   One step of every varint loop, `v |= (x << shift)` on `w`-bit unsigned
   integers, keeps the low `w` bits of the sum read so far.
   */
  lemma AccumulateStep(low: nat, x: nat, shift: nat, w: nat)
    requires low < Pow2(shift)
    ensures Or(low % Pow2(w), (x * Pow2(shift)) % Pow2(w)) == (low + x * Pow2(shift)) % Pow2(w)
  {
    hide Pow2, Or;
    var p, n := Pow2(shift), Pow2(w);
    if shift <= w {
      var m := Pow2(w - shift);
      Pow2Add(w - shift, shift);
      ScaledMod(x, m, p);
      DigitMod(low, x, m, p);
      DigitMod(low, 0, m, p);
      OrDisjoint(low, x % m, shift);
    } else {
      Pow2Add(shift - w, w);
      MultipleMod(low, x, Pow2(shift - w), n);
      OrZero(low % n);
    }
  }

  // ---------------------------------------------------------------- encoding

  function EncodeVarint(v: nat): (r: bytes)
    ensures |r| > 0
  {
    if v < 128 then [v] else [v % 128 + 128] + EncodeVarint(v / 128)
  }

  /** `math_bits.Len64`: the number of bits needed to write `x`. */
  function BitLen(x: nat): nat {
    if x == 0 then 0 else 1 + BitLen(x / 2)
  }

  /** `x | 1` */
  function SetLowBit(x: nat): nat {
    if x % 2 == 0 then x + 1 else x
  }

  /** `sovCommon` */
  function Sov(x: nat): nat {
    (BitLen(SetLowBit(x)) + 6) / 7
  }

  lemma BitLenDrop7(x: nat)
    requires x >= 128
    ensures BitLen(x) == 7 + BitLen(x / 128)
  {
    assert x / 2 / 2 / 2 / 2 / 2 / 2 / 2 == x / 128;
    var a := x / 2;
    var b := a / 2;
    var c := b / 2;
    var d := c / 2;
    var e := d / 2;
    var f := e / 2;
    assert BitLen(x) == 1 + BitLen(a) == 2 + BitLen(b) == 3 + BitLen(c);
    assert BitLen(c) == 1 + BitLen(d) == 2 + BitLen(e) == 3 + BitLen(f);
    assert BitLen(f) == 1 + BitLen(f / 2);
  }

  lemma BitLenSmall(x: nat)
    requires 0 < x < 128
    ensures 1 <= BitLen(x) <= 7
  {
    BitLenBound(x, 7, 128);
  }

  lemma {:induction false} BitLenBound(x: nat, k: nat, p: nat)
    requires x < p
    requires p == Pow2(k)
    ensures BitLen(x) <= k
  {
    if x > 0 {
      var half := Pow2(k - 1);
      assert p == 2 * half && x / 2 < half;
      BitLenBound(x / 2, k - 1, half);
    }
  }

  /** `sovCommon` is exactly the number of bytes the writer emits. */
  lemma {:induction false} SovIsEncodedLength(v: nat)
    ensures Sov(v) == |EncodeVarint(v)|
  {
    if v < 128 {
      BitLenSmall(SetLowBit(v));
    } else {
      var u := v / 128;
      SovIsEncodedLength(u);
      BitLenLowBit(v);
      BitLenLowBit(u);
      BitLenDrop7(v);
      assert Sov(v) == (BitLen(u) + 7 + 6) / 7 == 1 + (BitLen(u) + 6) / 7;
    }
  }

  /** Setting the low bit changes the bit length of zero only. */
  lemma BitLenLowBit(x: nat)
    requires x > 0
    ensures BitLen(SetLowBit(x)) == BitLen(x)
  {
    assert SetLowBit(x) / 2 == x / 2;
  }

  // ---------------------------------------------------------------- decoding

  /**
   The varint at the front of `s` when `k` bytes of it were read before. `raw` is
   the sum of all seven-bit groups; the reader keeps its low 64 or 32 bits.
   */
  function ReadVarint(s: bytes, k: nat := 0): (r: Result<Read>)
    ensures r.Ok? ==> 0 < r.value.len <= |s| && k + r.value.len <= MAX_VARINT_LEN
  {
    if k >= MAX_VARINT_LEN then Err(IntOverflow)
    else if s == [] then Err(UnexpectedEOF)
    else if s[0] < 0x80 then Ok(Read(s[0], 1))
    else
      match ReadVarint(s[1..], k + 1)
      case Err(e) => Err(e)
      case Ok(rest) => Ok(Read(s[0] % 128 + 128 * rest.raw, 1 + rest.len))
  }

  /** A byte string that is one varint and nothing else, minimal or not. */
  predicate IsVarint(b: bytes) {
    var r := ReadVarint(b);
    r.Ok? && r.value.len == |b|
  }

  /** The uint64 a complete varint stands for. */
  function VarintValue(b: bytes): uint64
    requires IsVarint(b)
  {
    ReadVarint(b).value.raw % TWO_64
  }

  /** The first `n` bytes all say that another one follows. */
  predicate AllContinue(s: bytes, n: nat)
    requires n <= |s|
  {
    forall i :: 0 <= i < n ==> s[i] >= 0x80
  }

  lemma {:induction false} ReadVarintIs(s: bytes, k: nat)
    requires k <= 10
    ensures ReadVarint(s, k) == Err(IntOverflow) <==> |s| >= 10 - k && AllContinue(s, 10 - k)
    ensures ReadVarint(s, k) == Err(UnexpectedEOF) <==> |s| < 10 - k && AllContinue(s, |s|)
    ensures ReadVarint(s, k).Ok? ==> var n := ReadVarint(s, k).value.len; AllContinue(s, n - 1) && s[n - 1] < 0x80
    ensures ReadVarint(s, k).Err? ==> ReadVarint(s, k).error in {IntOverflow, UnexpectedEOF}
  {
    if k < 10 && s != [] && s[0] >= 0x80 {
      ReadVarintIs(s[1..], k + 1);
      assert forall i :: 0 <= i < |s| - 1 ==> s[1..][i] == s[i + 1];
      assert forall i :: 1 <= i < |s| ==> s[i] == s[1..][i - 1];
    }
  }

  /** Where a read ends: at the first byte below 128 among ten, or with one of two errors when there is none. */
  lemma ReadVarintEnds(s: bytes)
    ensures ReadVarint(s) == Err(IntOverflow) <==> |s| >= 10 && AllContinue(s, 10)
    ensures ReadVarint(s) == Err(UnexpectedEOF) <==> |s| < 10 && AllContinue(s, |s|)
    ensures forall n :: 0 <= n < 10 && n < |s| && AllContinue(s, n) && s[n] < 0x80 ==>
              ReadVarint(s).Ok? && ReadVarint(s).value.len == n + 1
  {
    hide ReadVarint;
    ReadVarintIs(s, 0);
    forall n | 0 <= n < 10 && n < |s| && AllContinue(s, n) && s[n] < 0x80
      ensures ReadVarint(s).Ok? && ReadVarint(s).value.len == n + 1
    {}
  }

  /** What follows a varint does not matter to the reader. */
  lemma {:induction false} ReadVarintPrefix(b: bytes, q: bytes, k: nat)
    requires ReadVarint(b, k).Ok?
    ensures ReadVarint(b + q, k) == ReadVarint(b, k)
  {
    if b[0] >= 0x80 {
      assert (b + q)[1..] == b[1..] + q;
      ReadVarintPrefix(b[1..], q, k + 1);
    }
  }

  /** The bytes a successful read took are a varint of their own. */
  lemma {:induction false} ReadVarintExact(s: bytes, k: nat)
    requires ReadVarint(s, k).Ok?
    ensures ReadVarint(s[..ReadVarint(s, k).value.len], k) == ReadVarint(s, k)
  {
    if s[0] >= 0x80 {
      var n := ReadVarint(s, k).value.len;
      ReadVarintExact(s[1..], k + 1);
      assert s[..n][1..] == s[1..][..n - 1];
    }
  }

  /** The reader undoes the writer, whatever follows. */
  lemma {:induction false} ReadEncodedVarint(v: nat, q: bytes, k: nat)
    requires k + |EncodeVarint(v)| <= MAX_VARINT_LEN
    ensures ReadVarint(EncodeVarint(v) + q, k) == Ok(Read(v, |EncodeVarint(v)|))
  {
    if v >= 128 {
      ReadEncodedVarint(v / 128, q, k + 1);
      assert (EncodeVarint(v) + q)[1..] == EncodeVarint(v / 128) + q;
    }
  }

  lemma {:induction false} EncodedLengthBound(v: nat, n: nat)
    requires n > 0 && v < Pow2(7 * n)
    ensures |EncodeVarint(v)| <= n
  {
    if v >= 128 {
      if n == 1 { Pow2Widths(); }
      Pow2Add(7, 7 * (n - 1));
      Pow2Widths();
      EncodedLengthBound(v / 128, n - 1);
    }
  }

  /** Every uint64 is written as a complete varint of at most ten bytes that stands for it. */
  lemma EncodeVarintRoundTrip(v: uint64, q: bytes)
    ensures |EncodeVarint(v)| == Sov(v) <= MAX_VARINT_LEN
    ensures IsVarint(EncodeVarint(v)) && VarintValue(EncodeVarint(v)) == v
    ensures ReadVarint(EncodeVarint(v) + q) == Ok(Read(v, Sov(v)))
  {
    Pow2Widths();
    SovIsEncodedLength(v);
    EncodedLengthBound(v, MAX_VARINT_LEN);
    ReadEncodedVarint(v, q, 0);
    ReadEncodedVarint(v, [], 0);
    assert EncodeVarint(v) + [] == EncodeVarint(v);
  }

  /** Two's complement int64 fields survive the uint64 they travel in; negative ones take ten bytes. */
  lemma Int64RoundTrip(x: int64)
    ensures ToInt64(ToUint64(x)) == x
    ensures x < 0 ==> |EncodeVarint(ToUint64(x))| == MAX_VARINT_LEN
  {
    if x < 0 {
      var v := ToUint64(x);
      EncodeVarintRoundTrip(v, []);
      Pow2Widths();
      Pow2Add(63, 1);
      EncodedLengthFloor(v, 9);
    }
  }

  lemma {:induction false} EncodedLengthFloor(v: nat, n: nat)
    requires v >= Pow2(7 * n)
    ensures |EncodeVarint(v)| > n
  {
    if n > 0 {
      Pow2Add(7, 7 * (n - 1));
      Pow2Widths();
      EncodedLengthFloor(v / 128, n - 1);
    }
  }

  /** The outcome of reading a varint of which `k` groups with sum `low` are behind and `s` is ahead. */
  ghost function Continued(low: nat, k: nat, s: bytes): Result<Read> {
    match ReadVarint(s, k)
    case Err(e) => Err(e)
    case Ok(rest) =>
      MulMono(0, rest.raw, Pow2(7 * k));
      Ok(Read(low + rest.raw * Pow2(7 * k), k + rest.len))
  }

  lemma NextGroup(x: nat, raw: nat, p: nat)
    ensures (x + 128 * raw) * p == x * p + raw * (128 * p)
  {}

  /** One more group read: `low` grows by it and nothing about the outcome changes. */
  lemma ContinuedStep(low: nat, k: nat, s: bytes)
    requires low < Pow2(7 * k) && k < MAX_VARINT_LEN && s != []
    ensures 0 <= low + s[0] % 128 * Pow2(7 * k) < Pow2(7 * (k + 1))
    ensures s[0] < 0x80 ==> Continued(low, k, s) == Ok(Read(low + s[0] % 128 * Pow2(7 * k), k + 1))
    ensures s[0] >= 0x80 ==> Continued(low, k, s) == Continued(low + s[0] % 128 * Pow2(7 * k), k + 1, s[1..])
  {
    hide Pow2;
    var x, p := s[0] % 128, Pow2(7 * k);
    Pow2Group(k);
    MulMono(x + 1, 128, p);
    MulMono(0, x, p);
    var r := ReadVarint(s[1..], k + 1);
    if s[0] >= 0x80 && r.Ok? {
      NextGroup(x, r.value.raw, p);
    }
  }

  /**
   The loop inlined at every varint: `w` is the width of the Go variable that
   accumulates the groups. Shifting by 63 leaves one bit of the tenth group, and
   a 32-bit accumulator loses everything above its width.
   */
  method DecodeVarint(dAtA: bytes, start: nat, w: nat) returns (r: Result<Read>)
    requires start <= |dAtA|
    ensures match ReadVarint(dAtA[start..])
            case Err(e) => r == Err(e)
            case Ok(x) => r == Ok(Read(x.raw % Pow2(w), x.len))
  {
    var l, iNdEx, shift, v := |dAtA|, start, 0, 0;
    ghost var low: nat, k: nat := 0, 0;
    assert Pow2(0) == 1;
    while true
      invariant start <= iNdEx <= l && k == iNdEx - start <= MAX_VARINT_LEN && shift == 7 * k
      invariant low < Pow2(shift) && v == low % Pow2(w)
      invariant Continued(low, k, dAtA[iNdEx..]) == Continued(0, 0, dAtA[start..])
      decreases MAX_VARINT_LEN - k
    {
      if shift >= 64 { return Err(IntOverflow); }
      if iNdEx >= l { return Err(UnexpectedEOF); }
      var b := dAtA[iNdEx];
      assert dAtA[iNdEx..][0] == b && dAtA[iNdEx..][1..] == dAtA[iNdEx + 1..];
      ContinuedStep(low, k, dAtA[iNdEx..]);
      AccumulateStep(low, b % 128, shift, w);
      iNdEx := iNdEx + 1;
      v := Or(v, ((b % 128) * Pow2(shift)) % Pow2(w));
      low, k := low + b % 128 * Pow2(shift), k + 1;
      if b < 0x80 { return Ok(Read(v, iNdEx - start)); }
      shift := shift + 7;
    }
  }

  /** The uint64 at the front of `s`, as the decoders use it. */
  function ReadUint64(s: bytes): (r: Result<Read>)
    ensures r.Ok? ==> 0 < r.value.len <= |s| && r.value.raw < TWO_64
  {
    match ReadVarint(s)
    case Err(e) => Err(e)
    case Ok(x) => Ok(Read(x.raw % TWO_64, x.len))
  }

  method DecodeUint64(dAtA: bytes, start: nat) returns (r: Result<Read>)
    requires start <= |dAtA|
    ensures r == ReadUint64(dAtA[start..])
  {
    hide Pow2, ReadVarint;
    r := DecodeVarint(dAtA, start, 64);
    Pow2Widths();
  }

  lemma LowBits(x: nat)
    ensures x % TWO_64 % TWO_32 == x % TWO_32
  {
    var q, r := x / TWO_64, x % TWO_64;
    DivModUnique(x, q * TWO_32 + r / TWO_32, r % TWO_32, TWO_32);
  }

  /** A uint32 field: the same groups in a 32-bit accumulator. */
  method DecodeUint32(dAtA: bytes, start: nat) returns (r: Result<Read>)
    requires start <= |dAtA|
    ensures match ReadUint64(dAtA[start..])
            case Err(e) => r == Err(e)
            case Ok(x) => r == Ok(Read(x.raw % TWO_32, x.len))
  {
    hide Pow2, ReadVarint;
    r := DecodeVarint(dAtA, start, 32);
    Pow2Widths();
    match ReadVarint(dAtA[start..])
    case Err(_) =>
    case Ok(x) => LowBits(x.raw);
  }
}
