/**
 The generated `Size`, `MarshalToSizedBuffer` and `Marshal` methods. Each fills
 exactly its own length below index `hi`, which stands for the slice `dAtA[:hi]`,
 with the encoding of its message, and leaves every other byte alone.
 */
module Marshal {
  import opened Machine
  import opened Varint
  import opened Decoding
  import opened Encoding
  import opened Messages
  import opened Buffers

  /** The bytes of a repeated field from element `k` on. */
  ghost function From<M>(num: int, encode: M -> bytes, ms: seq<M>, k: nat): bytes
    requires 1 <= num <= 15 && k <= |ms|
  {
    EncodeEvents(Repeated(num, encode, ms[k..]))
  }

  lemma FromEnds<M>(num: int, encode: M -> bytes, ms: seq<M>)
    requires 1 <= num <= 15
    ensures From(num, encode, ms, |ms|) == []
    ensures From(num, encode, ms, 0) == EncodeEvents(Repeated(num, encode, ms))
  {
    assert ms[0..] == ms;
  }

  lemma FromStep<M>(num: int, encode: M -> bytes, ms: seq<M>, k: nat)
    requires 1 <= num <= 15 && k < |ms|
    ensures From(num, encode, ms, k) == EncodeEvents([BytesEvent(num, encode(ms[k]))]) + From(num, encode, ms, k + 1)
  {
    var ev := BytesEvent(num, encode(ms[k]));
    assert ms[k..][1..] == ms[k + 1..];
    assert Repeated(num, encode, ms[k..]) == [ev] + Repeated(num, encode, ms[k + 1..]);
    EncodeEventsConcat([ev], Repeated(num, encode, ms[k + 1..]));
  }

  /** What is written so far is no longer than the whole. */
  lemma {:induction false} FromFits<M>(num: int, encode: M -> bytes, ms: seq<M>, k: nat)
    requires 1 <= num <= 15 && k <= |ms|
    ensures |From(num, encode, ms, k)| <= |From(num, encode, ms, 0)|
  {
    hide From;
    if k > 0 {
      FromStep(num, encode, ms, k - 1);
      FromFits(num, encode, ms, k - 1);
    }
  }

  /** The length of one length-delimited field, as every `Size` adds it. */
  lemma DelimitedSize(num: int, payload: bytes)
    requires 1 <= num <= 15
    ensures |EncodeEvents([BytesEvent(num, payload)])| == 1 + |payload| + Sov(|payload|)
  {
    hide EncodeVarint;
    EncodeOne(BytesEvent(num, payload));
    SovIsEncodedLength(|payload|);
  }

  lemma VarintSize(num: int, v: uint64)
    requires 1 <= num <= 15
    ensures |EncodeEvents(VarintField(num, v))| == if v != 0 then 1 + Sov(v) else 0
  {
    hide EncodeVarint;
    EncodeOne(VarintEvent(num, v));
    SovIsEncodedLength(v);
  }

  lemma BytesSize(num: int, b: bytes)
    requires 1 <= num <= 15
    ensures |EncodeEvents(BytesField(num, b))| == if |b| > 0 then 1 + |b| + Sov(|b|) else 0
  {
    DelimitedSize(num, b);
  }

  lemma BoolSize(num: int, b: bool)
    requires 1 <= num <= 15
    ensures |EncodeEvents(BoolField(num, b))| == if b then 2 else 0
  {
    EncodeOne(VarintEvent(num, 1));
    assert EncodeVarint(1) == [1];
  }

  // -------------------------------------------------------------- OraclePrice

  lemma OraclePriceParts(m: OraclePrice)
    ensures EncodeOraclePrice(m) == EncodeEvents(VarintField(1, m.amount)) + EncodeEvents(VarintField(2, m.decimals))
  {
    hide EncodeEvents;
    EncodeEventsConcat(VarintField(1, m.amount), VarintField(2, m.decimals));
  }

  method SizeOraclePrice(m: OraclePrice) returns (n: nat)
    ensures n == |EncodeOraclePrice(m)|
  {
    hide EncodeEvents, Sov, EncodeOraclePrice;
    OraclePriceParts(m);
    n := 0;
    VarintSize(1, m.amount);
    if m.amount != 0 { n := n + 1 + Sov(m.amount); }
    VarintSize(2, m.decimals);
    if m.decimals != 0 { n := n + 1 + Sov(m.decimals); }
  }

  method MarshalOraclePriceToSizedBuffer(m: OraclePrice, dAtA: array<byte>, hi: nat) returns (n: nat)
    requires |EncodeOraclePrice(m)| <= hi <= dAtA.Length < TWO_63
    modifies dAtA
    ensures n == |EncodeOraclePrice(m)| && Filled(dAtA, old(dAtA[..]), hi - n, EncodeOraclePrice(m))
  {
    hide EncodeEvents, Filled, EncodeOraclePrice, VarintField, BytesField, BoolField, Repeated;
    FilledNothing(dAtA, hi);
    OraclePriceParts(m);
    var i := hi;
    ghost var was, tail: bytes := dAtA[..], [];
    i := PutVarintField(dAtA, i, 0x10, m.decimals, 2, was, tail);
    tail := EncodeEvents(VarintField(2, m.decimals)) + tail;
    assert tail == EncodeEvents(VarintField(2, m.decimals));
    i := PutVarintField(dAtA, i, 0x08, m.amount, 1, was, tail);
    tail := EncodeEvents(VarintField(1, m.amount)) + tail;
    return hi - i;
  }

  /** A nested message, its length and its tag. */
  method PutRate(m: OraclePrice, dAtA: array<byte>, i: nat, ghost was: bytes, ghost tail: bytes) returns (j: nat)
    requires |EncodeEvents([BytesEvent(3, EncodeOraclePrice(m))])| <= i && dAtA.Length < TWO_63
    requires Filled(dAtA, was, i, tail)
    modifies dAtA
    ensures j == i - |EncodeEvents([BytesEvent(3, EncodeOraclePrice(m))])|
    ensures Filled(dAtA, was, j, EncodeEvents([BytesEvent(3, EncodeOraclePrice(m))]) + tail)
  {
    hide EncodeEvents, Filled, EncodeOraclePrice, Sov;
    ghost var sub := EncodeOraclePrice(m);
    DelimitedSize(3, sub);
    FilledIs(dAtA, was, i, tail);
    ghost var before := dAtA[..];
    var size := MarshalOraclePriceToSizedBuffer(m, dAtA, i);
    FilledBelow(dAtA, was, before, i, tail, i - size, sub);
    j := PutHeader(dAtA, i - size, 0x1a, 3, sub, size, was, tail);
  }

  method MarshalOraclePrice(m: OraclePrice) returns (dAtA: array<byte>)
    requires |EncodeOraclePrice(m)| < TWO_63
    ensures fresh(dAtA) && dAtA[..] == EncodeOraclePrice(m)
  {
    hide EncodeOraclePrice;
    var size := SizeOraclePrice(m);
    dAtA := new byte[size];
    var n := MarshalOraclePriceToSizedBuffer(m, dAtA, size);
  }

  // -------------------------------------------------------------- Attestation

  lemma AttestationParts(m: Attestation)
    ensures EncodeAttestation(m) == EncodeEvents(BytesField(1, m.pubKey)) + EncodeEvents(BytesField(2, m.signature))
  {
    hide EncodeEvents;
    EncodeEventsConcat(BytesField(1, m.pubKey), BytesField(2, m.signature));
  }

  method SizeAttestation(m: Attestation) returns (n: nat)
    ensures n == |EncodeAttestation(m)|
  {
    hide EncodeEvents, Sov, EncodeAttestation;
    AttestationParts(m);
    n := 0;
    BytesSize(1, m.pubKey);
    if |m.pubKey| > 0 { n := n + 1 + |m.pubKey| + Sov(|m.pubKey|); }
    BytesSize(2, m.signature);
    if |m.signature| > 0 { n := n + 1 + |m.signature| + Sov(|m.signature|); }
  }

  method MarshalAttestationToSizedBuffer(m: Attestation, dAtA: array<byte>, hi: nat) returns (n: nat)
    requires |EncodeAttestation(m)| <= hi <= dAtA.Length < TWO_63
    modifies dAtA
    ensures n == |EncodeAttestation(m)| && Filled(dAtA, old(dAtA[..]), hi - n, EncodeAttestation(m))
  {
    hide EncodeEvents, Filled, EncodeAttestation, VarintField, BytesField, BoolField, Repeated;
    FilledNothing(dAtA, hi);
    AttestationParts(m);
    var i := hi;
    ghost var was, tail: bytes := dAtA[..], [];
    i := PutBytesField(dAtA, i, 0x12, m.signature, 2, was, tail);
    tail := EncodeEvents(BytesField(2, m.signature)) + tail;
    assert tail == EncodeEvents(BytesField(2, m.signature));
    i := PutBytesField(dAtA, i, 0x0a, m.pubKey, 1, was, tail);
    tail := EncodeEvents(BytesField(1, m.pubKey)) + tail;
    return hi - i;
  }

  /** A nested message, its length and its tag. */
  method PutAttestation(m: Attestation, dAtA: array<byte>, i: nat, ghost was: bytes, ghost tail: bytes) returns (j: nat)
    requires |EncodeEvents([BytesEvent(2, EncodeAttestation(m))])| <= i && dAtA.Length < TWO_63
    requires Filled(dAtA, was, i, tail)
    modifies dAtA
    ensures j == i - |EncodeEvents([BytesEvent(2, EncodeAttestation(m))])|
    ensures Filled(dAtA, was, j, EncodeEvents([BytesEvent(2, EncodeAttestation(m))]) + tail)
  {
    hide EncodeEvents, Filled, EncodeAttestation, Sov;
    ghost var sub := EncodeAttestation(m);
    DelimitedSize(2, sub);
    FilledIs(dAtA, was, i, tail);
    ghost var before := dAtA[..];
    var size := MarshalAttestationToSizedBuffer(m, dAtA, i);
    FilledBelow(dAtA, was, before, i, tail, i - size, sub);
    j := PutHeader(dAtA, i - size, 0x12, 2, sub, size, was, tail);
  }

  method MarshalAttestation(m: Attestation) returns (dAtA: array<byte>)
    requires |EncodeAttestation(m)| < TWO_63
    ensures fresh(dAtA) && dAtA[..] == EncodeAttestation(m)
  {
    hide EncodeAttestation;
    var size := SizeAttestation(m);
    dAtA := new byte[size];
    var n := MarshalAttestationToSizedBuffer(m, dAtA, size);
  }

  // ----------------------------------------------------------------- ErrataTx

  lemma ErrataTxParts(m: ErrataTx)
    ensures EncodeErrataTx(m) == EncodeEvents(BytesField(1, m.id)) + EncodeEvents(BytesField(2, m.chain))
  {
    hide EncodeEvents;
    EncodeEventsConcat(BytesField(1, m.id), BytesField(2, m.chain));
  }

  method SizeErrataTx(m: ErrataTx) returns (n: nat)
    ensures n == |EncodeErrataTx(m)|
  {
    hide EncodeEvents, Sov, EncodeErrataTx;
    ErrataTxParts(m);
    n := 0;
    BytesSize(1, m.id);
    if |m.id| > 0 { n := n + 1 + |m.id| + Sov(|m.id|); }
    BytesSize(2, m.chain);
    if |m.chain| > 0 { n := n + 1 + |m.chain| + Sov(|m.chain|); }
  }

  method MarshalErrataTxToSizedBuffer(m: ErrataTx, dAtA: array<byte>, hi: nat) returns (n: nat)
    requires |EncodeErrataTx(m)| <= hi <= dAtA.Length < TWO_63
    modifies dAtA
    ensures n == |EncodeErrataTx(m)| && Filled(dAtA, old(dAtA[..]), hi - n, EncodeErrataTx(m))
  {
    hide EncodeEvents, Filled, EncodeErrataTx, VarintField, BytesField, BoolField, Repeated;
    FilledNothing(dAtA, hi);
    ErrataTxParts(m);
    var i := hi;
    ghost var was, tail: bytes := dAtA[..], [];
    i := PutBytesField(dAtA, i, 0x12, m.chain, 2, was, tail);
    tail := EncodeEvents(BytesField(2, m.chain)) + tail;
    assert tail == EncodeEvents(BytesField(2, m.chain));
    i := PutBytesField(dAtA, i, 0x0a, m.id, 1, was, tail);
    tail := EncodeEvents(BytesField(1, m.id)) + tail;
    return hi - i;
  }

  method MarshalErrataTx(m: ErrataTx) returns (dAtA: array<byte>)
    requires |EncodeErrataTx(m)| < TWO_63
    ensures fresh(dAtA) && dAtA[..] == EncodeErrataTx(m)
  {
    hide EncodeErrataTx;
    var size := SizeErrataTx(m);
    dAtA := new byte[size];
    var n := MarshalErrataTxToSizedBuffer(m, dAtA, size);
  }

  // --------------------------------------------------------------- NetworkFee

  lemma NetworkFeeParts(m: NetworkFee)
    ensures EncodeNetworkFee(m) ==
            EncodeEvents(VarintField(1, ToUint64(m.height))) + (EncodeEvents(BytesField(2, m.chain)) +
            (EncodeEvents(VarintField(3, m.transactionSize)) + EncodeEvents(VarintField(4, m.transactionRate))))
  {
    hide EncodeEvents;
    var f1, f2 := VarintField(1, ToUint64(m.height)), BytesField(2, m.chain);
    var f3, f4 := VarintField(3, m.transactionSize), VarintField(4, m.transactionRate);
    EncodeEventsConcat(f3, f4);
    EncodeEventsConcat(f2, f3 + f4);
    EncodeEventsConcat(f1, f2 + (f3 + f4));
  }

  method SizeNetworkFee(m: NetworkFee) returns (n: nat)
    ensures n == |EncodeNetworkFee(m)|
  {
    hide EncodeEvents, Sov, EncodeNetworkFee;
    NetworkFeeParts(m);
    n := 0;
    VarintSize(1, ToUint64(m.height));
    if ToUint64(m.height) != 0 { n := n + 1 + Sov(ToUint64(m.height)); }
    BytesSize(2, m.chain);
    if |m.chain| > 0 { n := n + 1 + |m.chain| + Sov(|m.chain|); }
    VarintSize(3, m.transactionSize);
    if m.transactionSize != 0 { n := n + 1 + Sov(m.transactionSize); }
    VarintSize(4, m.transactionRate);
    if m.transactionRate != 0 { n := n + 1 + Sov(m.transactionRate); }
  }

  method MarshalNetworkFeeToSizedBuffer(m: NetworkFee, dAtA: array<byte>, hi: nat) returns (n: nat)
    requires |EncodeNetworkFee(m)| <= hi <= dAtA.Length < TWO_63
    modifies dAtA
    ensures n == |EncodeNetworkFee(m)| && Filled(dAtA, old(dAtA[..]), hi - n, EncodeNetworkFee(m))
  {
    hide EncodeEvents, Filled, EncodeNetworkFee, VarintField, BytesField, BoolField, Repeated;
    FilledNothing(dAtA, hi);
    NetworkFeeParts(m);
    var i := hi;
    ghost var was, tail: bytes := dAtA[..], [];
    i := PutVarintField(dAtA, i, 0x20, m.transactionRate, 4, was, tail);
    tail := EncodeEvents(VarintField(4, m.transactionRate)) + tail;
    assert tail == EncodeEvents(VarintField(4, m.transactionRate));
    i := PutVarintField(dAtA, i, 0x18, m.transactionSize, 3, was, tail);
    tail := EncodeEvents(VarintField(3, m.transactionSize)) + tail;
    i := PutBytesField(dAtA, i, 0x12, m.chain, 2, was, tail);
    tail := EncodeEvents(BytesField(2, m.chain)) + tail;
    i := PutVarintField(dAtA, i, 0x08, ToUint64(m.height), 1, was, tail);
    tail := EncodeEvents(VarintField(1, ToUint64(m.height))) + tail;
    return hi - i;
  }

  method MarshalNetworkFee(m: NetworkFee) returns (dAtA: array<byte>)
    requires |EncodeNetworkFee(m)| < TWO_63
    ensures fresh(dAtA) && dAtA[..] == EncodeNetworkFee(m)
  {
    hide EncodeNetworkFee;
    var size := SizeNetworkFee(m);
    dAtA := new byte[size];
    var n := MarshalNetworkFeeToSizedBuffer(m, dAtA, size);
  }

  // -------------------------------------------------------------------- Asset

  lemma AssetParts(m: Asset)
    ensures EncodeAsset(m) ==
            EncodeEvents(BytesField(1, m.chain)) + (EncodeEvents(BytesField(2, m.symbol)) +
            (EncodeEvents(BytesField(3, m.ticker)) + (EncodeEvents(BoolField(4, m.synth)) +
            (EncodeEvents(BoolField(5, m.trade)) + EncodeEvents(BoolField(6, m.secured))))))
  {
    hide EncodeEvents;
    var f1, f2, f3 := BytesField(1, m.chain), BytesField(2, m.symbol), BytesField(3, m.ticker);
    var f4, f5, f6 := BoolField(4, m.synth), BoolField(5, m.trade), BoolField(6, m.secured);
    EncodeEventsConcat(f5, f6);
    EncodeEventsConcat(f4, f5 + f6);
    EncodeEventsConcat(f3, f4 + (f5 + f6));
    EncodeEventsConcat(f2, f3 + (f4 + (f5 + f6)));
    EncodeEventsConcat(f1, f2 + (f3 + (f4 + (f5 + f6))));
  }

  method SizeAsset(m: Asset) returns (n: nat)
    ensures n == |EncodeAsset(m)|
  {
    hide EncodeEvents, Sov, EncodeAsset;
    AssetParts(m);
    n := 0;
    BytesSize(1, m.chain);
    if |m.chain| > 0 { n := n + 1 + |m.chain| + Sov(|m.chain|); }
    BytesSize(2, m.symbol);
    if |m.symbol| > 0 { n := n + 1 + |m.symbol| + Sov(|m.symbol|); }
    BytesSize(3, m.ticker);
    if |m.ticker| > 0 { n := n + 1 + |m.ticker| + Sov(|m.ticker|); }
    BoolSize(4, m.synth);
    if m.synth { n := n + 2; }
    BoolSize(5, m.trade);
    if m.trade { n := n + 2; }
    BoolSize(6, m.secured);
    if m.secured { n := n + 2; }
  }

  method MarshalAssetToSizedBuffer(m: Asset, dAtA: array<byte>, hi: nat) returns (n: nat)
    requires |EncodeAsset(m)| <= hi <= dAtA.Length < TWO_63
    modifies dAtA
    ensures n == |EncodeAsset(m)| && Filled(dAtA, old(dAtA[..]), hi - n, EncodeAsset(m))
  {
    hide EncodeEvents, Filled, EncodeAsset, VarintField, BytesField, BoolField, Repeated;
    FilledNothing(dAtA, hi);
    AssetParts(m);
    var i := hi;
    ghost var was, tail: bytes := dAtA[..], [];
    i := PutBoolField(dAtA, i, 0x30, m.secured, 6, was, tail);
    tail := EncodeEvents(BoolField(6, m.secured)) + tail;
    assert tail == EncodeEvents(BoolField(6, m.secured));
    i := PutBoolField(dAtA, i, 0x28, m.trade, 5, was, tail);
    tail := EncodeEvents(BoolField(5, m.trade)) + tail;
    i := PutBoolField(dAtA, i, 0x20, m.synth, 4, was, tail);
    tail := EncodeEvents(BoolField(4, m.synth)) + tail;
    i := PutBytesField(dAtA, i, 0x1a, m.ticker, 3, was, tail);
    tail := EncodeEvents(BytesField(3, m.ticker)) + tail;
    i := PutBytesField(dAtA, i, 0x12, m.symbol, 2, was, tail);
    tail := EncodeEvents(BytesField(2, m.symbol)) + tail;
    i := PutBytesField(dAtA, i, 0x0a, m.chain, 1, was, tail);
    tail := EncodeEvents(BytesField(1, m.chain)) + tail;
    return hi - i;
  }

  method MarshalAsset(m: Asset) returns (dAtA: array<byte>)
    requires |EncodeAsset(m)| < TWO_63
    ensures fresh(dAtA) && dAtA[..] == EncodeAsset(m)
  {
    hide EncodeAsset;
    var size := SizeAsset(m);
    dAtA := new byte[size];
    var n := MarshalAssetToSizedBuffer(m, dAtA, size);
  }

  // ---------------------------------------------------------------- PriceFeed

  lemma PriceFeedParts(m: PriceFeed)
    ensures EncodePriceFeed(m) ==
            EncodeEvents(BytesField(1, m.version)) + (EncodeEvents(VarintField(2, ToUint64(m.time))) +
            EncodeEvents(Repeated(3, EncodeOraclePrice, m.rates)))
  {
    hide EncodeEvents;
    var f1, f2 := BytesField(1, m.version), VarintField(2, ToUint64(m.time));
    var f3 := Repeated(3, EncodeOraclePrice, m.rates);
    EncodeEventsConcat(f2, f3);
    EncodeEventsConcat(f1, f2 + f3);
  }

  method SizePriceFeed(m: PriceFeed) returns (n: nat)
    ensures n == |EncodePriceFeed(m)|
  {
    hide EncodeEvents, Sov, EncodePriceFeed, EncodeOraclePrice, From, Repeated;
    PriceFeedParts(m);
    n := 0;
    BytesSize(1, m.version);
    if |m.version| > 0 { n := n + 1 + |m.version| + Sov(|m.version|); }
    VarintSize(2, ToUint64(m.time));
    if ToUint64(m.time) != 0 { n := n + 1 + Sov(ToUint64(m.time)); }
    FromEnds(3, EncodeOraclePrice, m.rates);
    ghost var before := n;
    for k := 0 to |m.rates|
      invariant n + |From(3, EncodeOraclePrice, m.rates, k)|
                == before + |From(3, EncodeOraclePrice, m.rates, 0)|
    {
      var l := SizeOraclePrice(m.rates[k]);
      FromStep(3, EncodeOraclePrice, m.rates, k);
      DelimitedSize(3, EncodeOraclePrice(m.rates[k]));
      n := n + 1 + l + Sov(l);
    }
  }

  method MarshalPriceFeedToSizedBuffer(m: PriceFeed, dAtA: array<byte>, hi: nat) returns (n: nat)
    requires |EncodePriceFeed(m)| <= hi <= dAtA.Length < TWO_63
    modifies dAtA
    ensures n == |EncodePriceFeed(m)| && Filled(dAtA, old(dAtA[..]), hi - n, EncodePriceFeed(m))
  {
    hide EncodeEvents, Filled, EncodePriceFeed, VarintField, BytesField, BoolField, Repeated, EncodeOraclePrice, From;
    FilledNothing(dAtA, hi);
    PriceFeedParts(m);
    var i := hi;
    ghost var was, tail: bytes := dAtA[..], [];
    FromEnds(3, EncodeOraclePrice, m.rates);
    for k := |m.rates| downto 0
      invariant tail == From(3, EncodeOraclePrice, m.rates, k) && i == hi - |tail|
      invariant Filled(dAtA, was, i, tail)
    {
      FromStep(3, EncodeOraclePrice, m.rates, k);
      FromFits(3, EncodeOraclePrice, m.rates, k);
      i := PutRate(m.rates[k], dAtA, i, was, tail);
      tail := EncodeEvents([BytesEvent(3, EncodeOraclePrice(m.rates[k]))]) + tail;
    }
    i := PutVarintField(dAtA, i, 0x10, ToUint64(m.time), 2, was, tail);
    tail := EncodeEvents(VarintField(2, ToUint64(m.time))) + tail;
    i := PutBytesField(dAtA, i, 0x0a, m.version, 1, was, tail);
    tail := EncodeEvents(BytesField(1, m.version)) + tail;
    return hi - i;
  }

  /** A nested message, its length and its tag. */
  method PutPriceFeed(m: PriceFeed, dAtA: array<byte>, i: nat, ghost was: bytes, ghost tail: bytes) returns (j: nat)
    requires |EncodeEvents([BytesEvent(1, EncodePriceFeed(m))])| <= i && dAtA.Length < TWO_63
    requires Filled(dAtA, was, i, tail)
    modifies dAtA
    ensures j == i - |EncodeEvents([BytesEvent(1, EncodePriceFeed(m))])|
    ensures Filled(dAtA, was, j, EncodeEvents([BytesEvent(1, EncodePriceFeed(m))]) + tail)
  {
    hide EncodeEvents, Filled, EncodePriceFeed, Sov;
    ghost var sub := EncodePriceFeed(m);
    DelimitedSize(1, sub);
    FilledIs(dAtA, was, i, tail);
    ghost var before := dAtA[..];
    var size := MarshalPriceFeedToSizedBuffer(m, dAtA, i);
    FilledBelow(dAtA, was, before, i, tail, i - size, sub);
    j := PutHeader(dAtA, i - size, 0x0a, 1, sub, size, was, tail);
  }

  method MarshalPriceFeed(m: PriceFeed) returns (dAtA: array<byte>)
    requires |EncodePriceFeed(m)| < TWO_63
    ensures fresh(dAtA) && dAtA[..] == EncodePriceFeed(m)
  {
    hide EncodePriceFeed;
    var size := SizePriceFeed(m);
    dAtA := new byte[size];
    var n := MarshalPriceFeedToSizedBuffer(m, dAtA, size);
  }

  // ---------------------------------------------------------- QuorumPriceFeed

  lemma FeedFieldIs(m: QuorumPriceFeed)
    ensures if m.priceFeed.Some? then FeedField(m) == [BytesEvent(1, EncodePriceFeed(m.priceFeed.value))]
            else EncodeEvents(FeedField(m)) == []
    ensures SmallNumbers(FeedField(m))
  {}

  lemma QuorumPriceFeedParts(m: QuorumPriceFeed)
    ensures EncodeQuorumPriceFeed(m) ==
            EncodeEvents(FeedField(m)) + EncodeEvents(Repeated(2, EncodeAttestation, m.attestations))
  {
    hide EncodeEvents;
    EncodeEventsConcat(FeedField(m), Repeated(2, EncodeAttestation, m.attestations));
  }

  method SizeQuorumPriceFeed(m: QuorumPriceFeed) returns (n: nat)
    ensures n == |EncodeQuorumPriceFeed(m)|
  {
    hide EncodeEvents, Sov, EncodeQuorumPriceFeed, EncodeAttestation, EncodePriceFeed, From, Repeated, FeedField;
    QuorumPriceFeedParts(m);
    n := 0;
    if m.priceFeed.Some? {
      var l := SizePriceFeed(m.priceFeed.value);
      DelimitedSize(1, EncodePriceFeed(m.priceFeed.value));
      n := n + 1 + l + Sov(l);
    }
    FeedFieldIs(m);
    FromEnds(2, EncodeAttestation, m.attestations);
    ghost var before := n;
    for k := 0 to |m.attestations|
      invariant n + |From(2, EncodeAttestation, m.attestations, k)|
                == before + |From(2, EncodeAttestation, m.attestations, 0)|
    {
      var l := SizeAttestation(m.attestations[k]);
      FromStep(2, EncodeAttestation, m.attestations, k);
      DelimitedSize(2, EncodeAttestation(m.attestations[k]));
      n := n + 1 + l + Sov(l);
    }
  }

  method MarshalQuorumPriceFeedToSizedBuffer(m: QuorumPriceFeed, dAtA: array<byte>, hi: nat) returns (n: nat)
    requires |EncodeQuorumPriceFeed(m)| <= hi <= dAtA.Length < TWO_63
    modifies dAtA
    ensures n == |EncodeQuorumPriceFeed(m)| && Filled(dAtA, old(dAtA[..]), hi - n, EncodeQuorumPriceFeed(m))
  {
    hide EncodeEvents, Filled, EncodeQuorumPriceFeed, VarintField, BytesField, BoolField, Repeated,
         EncodeAttestation, EncodePriceFeed, From, FeedField;
    FilledNothing(dAtA, hi);
    QuorumPriceFeedParts(m);
    var i := hi;
    ghost var was, tail: bytes := dAtA[..], [];
    FromEnds(2, EncodeAttestation, m.attestations);
    for k := |m.attestations| downto 0
      invariant tail == From(2, EncodeAttestation, m.attestations, k) && i == hi - |tail|
      invariant Filled(dAtA, was, i, tail)
    {
      FromStep(2, EncodeAttestation, m.attestations, k);
      FromFits(2, EncodeAttestation, m.attestations, k);
      i := PutAttestation(m.attestations[k], dAtA, i, was, tail);
      tail := EncodeEvents([BytesEvent(2, EncodeAttestation(m.attestations[k]))]) + tail;
    }
    FeedFieldIs(m);
    if m.priceFeed.Some? {
      i := PutPriceFeed(m.priceFeed.value, dAtA, i, was, tail);
      tail := EncodeEvents([BytesEvent(1, EncodePriceFeed(m.priceFeed.value))]) + tail;
    } else {
      assert [] + tail == tail;
    }
    return hi - i;
  }

  /** A nested message, its length and its tag. */
  method PutQuorumPriceFeed(m: QuorumPriceFeed, dAtA: array<byte>, i: nat, ghost was: bytes, ghost tail: bytes)
    returns (j: nat)
    requires |EncodeEvents([BytesEvent(1, EncodeQuorumPriceFeed(m))])| <= i && dAtA.Length < TWO_63
    requires Filled(dAtA, was, i, tail)
    modifies dAtA
    ensures j == i - |EncodeEvents([BytesEvent(1, EncodeQuorumPriceFeed(m))])|
    ensures Filled(dAtA, was, j, EncodeEvents([BytesEvent(1, EncodeQuorumPriceFeed(m))]) + tail)
  {
    hide EncodeEvents, Filled, EncodeQuorumPriceFeed, Sov;
    ghost var sub := EncodeQuorumPriceFeed(m);
    DelimitedSize(1, sub);
    FilledIs(dAtA, was, i, tail);
    ghost var before := dAtA[..];
    var size := MarshalQuorumPriceFeedToSizedBuffer(m, dAtA, i);
    FilledBelow(dAtA, was, before, i, tail, i - size, sub);
    j := PutHeader(dAtA, i - size, 0x0a, 1, sub, size, was, tail);
  }

  method MarshalQuorumPriceFeed(m: QuorumPriceFeed) returns (dAtA: array<byte>)
    requires |EncodeQuorumPriceFeed(m)| < TWO_63
    ensures fresh(dAtA) && dAtA[..] == EncodeQuorumPriceFeed(m)
  {
    hide EncodeQuorumPriceFeed;
    var size := SizeQuorumPriceFeed(m);
    dAtA := new byte[size];
    var n := MarshalQuorumPriceFeedToSizedBuffer(m, dAtA, size);
  }

  // ----------------------------------------------------- QuorumPriceFeedBatch

  lemma BatchParts(m: QuorumPriceFeedBatch)
    ensures EncodeBatch(m) == EncodeEvents(Repeated(1, EncodeQuorumPriceFeed, m.quorumPriceFeeds))
  {
    hide EncodeEvents;
  }

  method SizeBatch(m: QuorumPriceFeedBatch) returns (n: nat)
    ensures n == |EncodeBatch(m)|
  {
    hide EncodeEvents, Sov, EncodeBatch, EncodeQuorumPriceFeed, From, Repeated;
    BatchParts(m);
    n := 0;
    FromEnds(1, EncodeQuorumPriceFeed, m.quorumPriceFeeds);
    ghost var before := n;
    for k := 0 to |m.quorumPriceFeeds|
      invariant n + |From(1, EncodeQuorumPriceFeed, m.quorumPriceFeeds, k)|
                == before + |From(1, EncodeQuorumPriceFeed, m.quorumPriceFeeds, 0)|
    {
      var l := SizeQuorumPriceFeed(m.quorumPriceFeeds[k]);
      FromStep(1, EncodeQuorumPriceFeed, m.quorumPriceFeeds, k);
      DelimitedSize(1, EncodeQuorumPriceFeed(m.quorumPriceFeeds[k]));
      n := n + 1 + l + Sov(l);
    }
  }

  method MarshalBatchToSizedBuffer(m: QuorumPriceFeedBatch, dAtA: array<byte>, hi: nat) returns (n: nat)
    requires |EncodeBatch(m)| <= hi <= dAtA.Length < TWO_63
    modifies dAtA
    ensures n == |EncodeBatch(m)| && Filled(dAtA, old(dAtA[..]), hi - n, EncodeBatch(m))
  {
    hide EncodeEvents, Filled, EncodeBatch, VarintField, BytesField, BoolField, Repeated, EncodeQuorumPriceFeed, From;
    FilledNothing(dAtA, hi);
    BatchParts(m);
    var i := hi;
    ghost var was, tail: bytes := dAtA[..], [];
    FromEnds(1, EncodeQuorumPriceFeed, m.quorumPriceFeeds);
    for k := |m.quorumPriceFeeds| downto 0
      invariant tail == From(1, EncodeQuorumPriceFeed, m.quorumPriceFeeds, k) && i == hi - |tail|
      invariant Filled(dAtA, was, i, tail)
    {
      FromStep(1, EncodeQuorumPriceFeed, m.quorumPriceFeeds, k);
      FromFits(1, EncodeQuorumPriceFeed, m.quorumPriceFeeds, k);
      i := PutQuorumPriceFeed(m.quorumPriceFeeds[k], dAtA, i, was, tail);
      tail := EncodeEvents([BytesEvent(1, EncodeQuorumPriceFeed(m.quorumPriceFeeds[k]))]) + tail;
    }
    return hi - i;
  }

  method MarshalBatch(m: QuorumPriceFeedBatch) returns (dAtA: array<byte>)
    requires |EncodeBatch(m)| < TWO_63
    ensures fresh(dAtA) && dAtA[..] == EncodeBatch(m)
  {
    hide EncodeBatch;
    var size := SizeBatch(m);
    dAtA := new byte[size];
    var n := MarshalBatchToSizedBuffer(m, dAtA, size);
  }
}
