/**
 Decoding what a message encodes gives the message back, at every nesting level,
 so two messages have the same bytes only if they are the same.
 */
module RoundTrips {
  import opened Machine
  import opened Varint
  import opened Decoding
  import opened DecodingLaws
  import opened Encoding
  import opened Messages

  /** Fields applied one group after the other. */
  lemma FoldStep<M>(apply: (M, Event) -> Result<M>, m: M, p: seq<Event>, m': M, q: seq<Event>)
    requires Fold(apply, m, p) == Ok(m')
    ensures Fold(apply, m, p + q) == Fold(apply, m', q)
  {
    FoldConcat(apply, m, p, q);
  }

  lemma FoldOne<M>(apply: (M, Event) -> Result<M>, m: M, ev: Event)
    ensures Fold(apply, m, [ev]) == apply(m, ev)
    ensures Fold(apply, m, []) == Ok(m)
  {}

  lemma FoldBytes<M>(apply: (M, Event) -> Result<M>, m: M, num: int, b: bytes, m': M)
    requires if b == [] then m' == m else apply(m, BytesEvent(num, b)) == Ok(m')
    ensures Fold(apply, m, BytesField(num, b)) == Ok(m')
  {
    FoldOne(apply, m, BytesEvent(num, b));
  }

  lemma FoldVarint<M>(apply: (M, Event) -> Result<M>, m: M, num: int, v: uint64, m': M)
    requires if v == 0 then m' == m else apply(m, VarintEvent(num, v)) == Ok(m')
    ensures Fold(apply, m, VarintField(num, v)) == Ok(m')
  {
    FoldOne(apply, m, VarintEvent(num, v));
  }

  lemma FoldBool<M>(apply: (M, Event) -> Result<M>, m: M, num: int, b: bool, m': M)
    requires if b then apply(m, VarintEvent(num, 1)) == Ok(m') else m' == m
    ensures Fold(apply, m, BoolField(num, b)) == Ok(m')
  {
    FoldOne(apply, m, VarintEvent(num, 1));
  }

  /** A nested message is no longer than what holds it. */
  lemma {:induction false} PayloadFits(events: seq<Event>, i: nat)
    requires SmallNumbers(events) && i < |events| && events[i].BytesEvent?
    ensures |events[i].payload| <= |EncodeEvents(events)|
  {
    if i > 0 {
      PayloadFits(events[1..], i - 1);
    }
  }

  lemma RepeatedFits<M>(num: int, encode: M -> bytes, ms: seq<M>, before: seq<Event>)
    requires 1 <= num <= 15 && SmallNumbers(before)
    requires |EncodeEvents(before + Repeated(num, encode, ms))| < TWO_63
    ensures forall i :: 0 <= i < |ms| ==> |encode(ms[i])| < TWO_63
  {
    var events := before + Repeated(num, encode, ms);
    forall i | 0 <= i < |ms|
      ensures |encode(ms[i])| < TWO_63
    {
      assert events[|before| + i] == BytesEvent(num, encode(ms[i]));
      PayloadFits(events, |before| + i);
    }
  }

  // ------------------------------------------------------------ flat messages

  lemma OraclePriceRoundTrip(m: OraclePrice)
    requires |EncodeOraclePrice(m)| < TWO_63
    ensures DecodeOraclePrice(ZERO_ORACLE_PRICE, EncodeOraclePrice(m)) == Ok(m)
  {
    hide Fold, EncodeEvents, Decode;
    var m1 := ZERO_ORACLE_PRICE.(amount := m.amount);
    FoldVarint(ApplyOraclePrice, ZERO_ORACLE_PRICE, 1, m.amount, m1);
    FoldVarint(ApplyOraclePrice, m1, 2, m.decimals, m);
    FoldStep(ApplyOraclePrice, ZERO_ORACLE_PRICE, VarintField(1, m.amount), m1, VarintField(2, m.decimals));
    DecodeEncoded(ORACLE_PRICE, ApplyOraclePrice, ZERO_ORACLE_PRICE, OraclePriceFields(m));
  }

  lemma AttestationRoundTrip(m: Attestation)
    requires |EncodeAttestation(m)| < TWO_63
    ensures DecodeAttestation(ZERO_ATTESTATION, EncodeAttestation(m)) == Ok(m)
  {
    hide Fold, EncodeEvents, Decode;
    var m1 := ZERO_ATTESTATION.(pubKey := m.pubKey);
    FoldBytes(ApplyAttestation, ZERO_ATTESTATION, 1, m.pubKey, m1);
    FoldBytes(ApplyAttestation, m1, 2, m.signature, m);
    FoldStep(ApplyAttestation, ZERO_ATTESTATION, BytesField(1, m.pubKey), m1, BytesField(2, m.signature));
    DecodeEncoded(ATTESTATION, ApplyAttestation, ZERO_ATTESTATION, AttestationFields(m));
  }

  lemma ErrataTxRoundTrip(m: ErrataTx)
    requires |EncodeErrataTx(m)| < TWO_63
    ensures DecodeErrataTx(ZERO_ERRATA_TX, EncodeErrataTx(m)) == Ok(m)
  {
    hide Fold, EncodeEvents, Decode;
    var m1 := ZERO_ERRATA_TX.(id := m.id);
    FoldBytes(ApplyErrataTx, ZERO_ERRATA_TX, 1, m.id, m1);
    FoldBytes(ApplyErrataTx, m1, 2, m.chain, m);
    FoldStep(ApplyErrataTx, ZERO_ERRATA_TX, BytesField(1, m.id), m1, BytesField(2, m.chain));
    DecodeEncoded(ERRATA_TX, ApplyErrataTx, ZERO_ERRATA_TX, ErrataTxFields(m));
  }

  lemma NetworkFeeRoundTrip(m: NetworkFee)
    requires |EncodeNetworkFee(m)| < TWO_63
    ensures DecodeNetworkFee(ZERO_NETWORK_FEE, EncodeNetworkFee(m)) == Ok(m)
  {
    hide Fold, EncodeEvents, Decode;
    Int64RoundTrip(m.height);
    var m1 := ZERO_NETWORK_FEE.(height := m.height);
    var m2 := m1.(chain := m.chain);
    var m3 := m2.(transactionSize := m.transactionSize);
    var f1, f2 := VarintField(1, ToUint64(m.height)), BytesField(2, m.chain);
    var f3, f4 := VarintField(3, m.transactionSize), VarintField(4, m.transactionRate);
    FoldVarint(ApplyNetworkFee, ZERO_NETWORK_FEE, 1, ToUint64(m.height), m1);
    FoldBytes(ApplyNetworkFee, m1, 2, m.chain, m2);
    FoldVarint(ApplyNetworkFee, m2, 3, m.transactionSize, m3);
    FoldVarint(ApplyNetworkFee, m3, 4, m.transactionRate, m);
    FoldStep(ApplyNetworkFee, ZERO_NETWORK_FEE, f1, m1, f2 + (f3 + f4));
    FoldStep(ApplyNetworkFee, m1, f2, m2, f3 + f4);
    FoldStep(ApplyNetworkFee, m2, f3, m3, f4);
    DecodeEncoded(NETWORK_FEE, ApplyNetworkFee, ZERO_NETWORK_FEE, NetworkFeeFields(m));
  }

  lemma AssetFlagsRoundTrip(m: Asset, m3: Asset)
    requires m3 == m.(synth := false, trade := false, secured := false)
    ensures Fold(ApplyAsset, m3, AssetFlags(m)) == Ok(m)
  {
    hide Fold;
    var m4 := m3.(synth := m.synth);
    var m5 := m4.(trade := m.trade);
    var f4, f5, f6 := BoolField(4, m.synth), BoolField(5, m.trade), BoolField(6, m.secured);
    FoldBool(ApplyAsset, m3, 4, m.synth, m4);
    FoldBool(ApplyAsset, m4, 5, m.trade, m5);
    FoldBool(ApplyAsset, m5, 6, m.secured, m);
    FoldStep(ApplyAsset, m3, f4, m4, f5 + f6);
    FoldStep(ApplyAsset, m4, f5, m5, f6);
  }

  lemma AssetRoundTrip(m: Asset)
    requires |EncodeAsset(m)| < TWO_63
    ensures DecodeAsset(ZERO_ASSET, EncodeAsset(m)) == Ok(m)
  {
    hide Fold, EncodeEvents, Decode, AssetFlags;
    var m1 := ZERO_ASSET.(chain := m.chain);
    var m2 := m1.(symbol := m.symbol);
    var m3 := m2.(ticker := m.ticker);
    var f1, f2, f3 := BytesField(1, m.chain), BytesField(2, m.symbol), BytesField(3, m.ticker);
    FoldBytes(ApplyAsset, ZERO_ASSET, 1, m.chain, m1);
    FoldBytes(ApplyAsset, m1, 2, m.symbol, m2);
    FoldBytes(ApplyAsset, m2, 3, m.ticker, m3);
    AssetFlagsRoundTrip(m, m3);
    FoldStep(ApplyAsset, ZERO_ASSET, f1, m1, f2 + (f3 + AssetFlags(m)));
    FoldStep(ApplyAsset, m1, f2, m2, f3 + AssetFlags(m));
    FoldStep(ApplyAsset, m2, f3, m3, AssetFlags(m));
    DecodeEncoded(ASSET, ApplyAsset, ZERO_ASSET, AssetFields(m));
  }

  // ---------------------------------------------------------- nested messages

  lemma {:induction false} RatesRoundTrip(m: PriceFeed, rates: seq<OraclePrice>)
    requires forall i :: 0 <= i < |rates| ==> |EncodeOraclePrice(rates[i])| < TWO_63
    ensures Fold(ApplyPriceFeed, m, Repeated(3, EncodeOraclePrice, rates)) == Ok(m.(rates := m.rates + rates))
    decreases |rates|
  {
    hide Fold, EncodeOraclePrice, DecodeOraclePrice;
    if rates == [] {
      FoldOne(ApplyPriceFeed, m, VarintEvent(0, 0));
      assert m.rates + rates == m.rates;
    } else {
      OraclePriceRoundTrip(rates[0]);
      var m' := m.(rates := m.rates + [rates[0]]);
      FoldFirst(ApplyPriceFeed, m, BytesEvent(3, EncodeOraclePrice(rates[0])),
                Repeated(3, EncodeOraclePrice, rates[1..]));
      RatesRoundTrip(m', rates[1..]);
      assert m'.rates + rates[1..] == m.rates + rates;
    }
  }

  lemma PriceFeedRoundTrip(m: PriceFeed)
    requires |EncodePriceFeed(m)| < TWO_63
    ensures DecodePriceFeed(ZERO_PRICE_FEED, EncodePriceFeed(m)) == Ok(m)
  {
    hide Fold, EncodeEvents, Decode, EncodeOraclePrice, DecodeOraclePrice, Repeated;
    Int64RoundTrip(m.time);
    var m1 := ZERO_PRICE_FEED.(version := m.version);
    var m2 := m1.(time := m.time);
    var f1, f2 := BytesField(1, m.version), VarintField(2, ToUint64(m.time));
    var f3 := Repeated(3, EncodeOraclePrice, m.rates);
    assert f1 + (f2 + f3) == (f1 + f2) + f3;
    RepeatedFits(3, EncodeOraclePrice, m.rates, f1 + f2);
    FoldBytes(ApplyPriceFeed, ZERO_PRICE_FEED, 1, m.version, m1);
    FoldVarint(ApplyPriceFeed, m1, 2, ToUint64(m.time), m2);
    RatesRoundTrip(m2, m.rates);
    assert m2.rates + m.rates == m.rates;
    FoldStep(ApplyPriceFeed, ZERO_PRICE_FEED, f1, m1, f2 + f3);
    FoldStep(ApplyPriceFeed, m1, f2, m2, f3);
    DecodeEncoded(PRICE_FEED, ApplyPriceFeed, ZERO_PRICE_FEED, PriceFeedFields(m));
  }

  lemma {:induction false} AttestationsRoundTrip(m: QuorumPriceFeed, atts: seq<Attestation>)
    requires forall i :: 0 <= i < |atts| ==> |EncodeAttestation(atts[i])| < TWO_63
    ensures Fold(ApplyQuorumPriceFeed, m, Repeated(2, EncodeAttestation, atts))
            == Ok(m.(attestations := m.attestations + atts))
    decreases |atts|
  {
    hide Fold, EncodeAttestation, DecodeAttestation;
    if atts == [] {
      FoldOne(ApplyQuorumPriceFeed, m, VarintEvent(0, 0));
      assert m.attestations + atts == m.attestations;
    } else {
      AttestationRoundTrip(atts[0]);
      var m' := m.(attestations := m.attestations + [atts[0]]);
      FoldFirst(ApplyQuorumPriceFeed, m, BytesEvent(2, EncodeAttestation(atts[0])),
                Repeated(2, EncodeAttestation, atts[1..]));
      AttestationsRoundTrip(m', atts[1..]);
      assert m'.attestations + atts[1..] == m.attestations + atts;
    }
  }

  lemma QuorumPriceFeedRoundTrip(m: QuorumPriceFeed)
    requires |EncodeQuorumPriceFeed(m)| < TWO_63
    ensures DecodeQuorumPriceFeed(ZERO_QUORUM_PRICE_FEED, EncodeQuorumPriceFeed(m)) == Ok(m)
  {
    hide Fold, EncodeEvents, Decode, EncodeAttestation, DecodeAttestation, EncodePriceFeed, DecodePriceFeed, Repeated;
    var zero, m1 := ZERO_QUORUM_PRICE_FEED, ZERO_QUORUM_PRICE_FEED.(priceFeed := m.priceFeed);
    var f2 := Repeated(2, EncodeAttestation, m.attestations);
    var f1 := FeedField(m);
    RepeatedFits(2, EncodeAttestation, m.attestations, f1);
    if m.priceFeed.Some? {
      assert (f1 + f2)[0] == f1[0];
      PayloadFits(f1 + f2, 0);
      PriceFeedRoundTrip(m.priceFeed.value);
      FoldOne(ApplyQuorumPriceFeed, zero, f1[0]);
    } else {
      FoldOne(ApplyQuorumPriceFeed, zero, VarintEvent(0, 0));
    }
    AttestationsRoundTrip(m1, m.attestations);
    assert m1.attestations + m.attestations == m.attestations;
    FoldStep(ApplyQuorumPriceFeed, zero, f1, m1, f2);
    DecodeEncoded(QUORUM_PRICE_FEED, ApplyQuorumPriceFeed, zero, f1 + f2);
  }

  lemma {:induction false} QuorumPriceFeedsRoundTrip(m: QuorumPriceFeedBatch, qs: seq<QuorumPriceFeed>)
    requires forall i :: 0 <= i < |qs| ==> |EncodeQuorumPriceFeed(qs[i])| < TWO_63
    ensures Fold(ApplyBatch, m, Repeated(1, EncodeQuorumPriceFeed, qs))
            == Ok(m.(quorumPriceFeeds := m.quorumPriceFeeds + qs))
    decreases |qs|
  {
    hide Fold, EncodeQuorumPriceFeed, DecodeQuorumPriceFeed;
    if qs == [] {
      FoldOne(ApplyBatch, m, VarintEvent(0, 0));
      assert m.quorumPriceFeeds + qs == m.quorumPriceFeeds;
    } else {
      QuorumPriceFeedRoundTrip(qs[0]);
      var m' := m.(quorumPriceFeeds := m.quorumPriceFeeds + [qs[0]]);
      FoldFirst(ApplyBatch, m, BytesEvent(1, EncodeQuorumPriceFeed(qs[0])),
                Repeated(1, EncodeQuorumPriceFeed, qs[1..]));
      QuorumPriceFeedsRoundTrip(m', qs[1..]);
      assert m'.quorumPriceFeeds + qs[1..] == m.quorumPriceFeeds + qs;
    }
  }

  /** Three levels down: a batch of quorum price feeds, each with a feed of rates and its attestations. */
  lemma BatchRoundTrip(m: QuorumPriceFeedBatch)
    requires |EncodeBatch(m)| < TWO_63
    ensures DecodeBatch(ZERO_BATCH, EncodeBatch(m)) == Ok(m)
  {
    hide Fold, EncodeEvents, Decode, EncodeQuorumPriceFeed, DecodeQuorumPriceFeed, Repeated;
    var f := Repeated(1, EncodeQuorumPriceFeed, m.quorumPriceFeeds);
    assert [] + f == f;
    RepeatedFits(1, EncodeQuorumPriceFeed, m.quorumPriceFeeds, []);
    QuorumPriceFeedsRoundTrip(ZERO_BATCH, m.quorumPriceFeeds);
    assert ZERO_BATCH.quorumPriceFeeds + m.quorumPriceFeeds == m.quorumPriceFeeds;
    DecodeEncoded(BATCH, ApplyBatch, ZERO_BATCH, f);
  }
}
