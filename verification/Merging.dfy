/**
 A message decoded on top of another, as the Protocol Buffers encoding, section "Last
 One Wins", asks for: scalars that are written replace, lists grow, and a nested
 message that comes twice is merged in the same way.
 */
module Merging {
  import opened Machine
  import opened Varint
  import opened Decoding
  import opened DecodingLaws
  import opened Encoding
  import opened Messages
  import opened RoundTrips

  function MergeFeed(m: PriceFeed, b: PriceFeed): PriceFeed {
    PriceFeed(
      if b.version == [] then m.version else b.version,
      if b.time == 0 then m.time else b.time,
      m.rates + b.rates)
  }

  function MergeOptional(m: Option<PriceFeed>, b: Option<PriceFeed>): Option<PriceFeed> {
    if b.None? then m else if m.None? then b else Some(MergeFeed(m.value, b.value))
  }

  function MergeQuorum(m: QuorumPriceFeed, b: QuorumPriceFeed): QuorumPriceFeed {
    QuorumPriceFeed(MergeOptional(m.priceFeed, b.priceFeed), m.attestations + b.attestations)
  }

  /** A price feed decoded on top of any other. */
  lemma FeedOnTop(m: PriceFeed, b: PriceFeed)
    requires |EncodePriceFeed(b)| < TWO_63
    ensures DecodePriceFeed(m, EncodePriceFeed(b)) == Ok(MergeFeed(m, b))
  {
    hide Fold, EncodeEvents, Decode, EncodeOraclePrice, DecodeOraclePrice, Repeated;
    Int64RoundTrip(b.time);
    var m1 := if b.version == [] then m else m.(version := b.version);
    var m2 := if b.time == 0 then m1 else m1.(time := b.time);
    var f1, f2 := BytesField(1, b.version), VarintField(2, ToUint64(b.time));
    var f3 := Repeated(3, EncodeOraclePrice, b.rates);
    assert f1 + (f2 + f3) == (f1 + f2) + f3;
    RepeatedFits(3, EncodeOraclePrice, b.rates, f1 + f2);
    FoldBytes(ApplyPriceFeed, m, 1, b.version, m1);
    FoldVarint(ApplyPriceFeed, m1, 2, ToUint64(b.time), m2);
    RatesRoundTrip(m2, b.rates);
    FoldStep(ApplyPriceFeed, m, f1, m1, f2 + f3);
    FoldStep(ApplyPriceFeed, m1, f2, m2, f3);
    DecodeEncoded(PRICE_FEED, ApplyPriceFeed, m, PriceFeedFields(b));
  }

  lemma MergeWithZero(b: PriceFeed)
    ensures MergeFeed(ZERO_PRICE_FEED, b) == b
  {
    assert [] + b.rates == b.rates;
  }

  /** A quorum price feed decoded on top of any other: its feed is merged into the one that is there. */
  lemma QuorumOnTop(m: QuorumPriceFeed, b: QuorumPriceFeed)
    requires |EncodeQuorumPriceFeed(b)| < TWO_63
    ensures DecodeQuorumPriceFeed(m, EncodeQuorumPriceFeed(b)) == Ok(MergeQuorum(m, b))
  {
    hide Fold, EncodeEvents, Decode, EncodeAttestation, DecodeAttestation, EncodePriceFeed, DecodePriceFeed, Repeated;
    var m1 := m.(priceFeed := MergeOptional(m.priceFeed, b.priceFeed));
    var f1, f2 := FeedField(b), Repeated(2, EncodeAttestation, b.attestations);
    RepeatedFits(2, EncodeAttestation, b.attestations, f1);
    if b.priceFeed.Some? {
      assert (f1 + f2)[0] == f1[0];
      PayloadFits(f1 + f2, 0);
      FeedOnTop(if m.priceFeed.Some? then m.priceFeed.value else ZERO_PRICE_FEED, b.priceFeed.value);
      MergeWithZero(b.priceFeed.value);
      FoldOne(ApplyQuorumPriceFeed, m, f1[0]);
    } else {
      FoldOne(ApplyQuorumPriceFeed, m, VarintEvent(0, 0));
    }
    AttestationsRoundTrip(m1, b.attestations);
    FoldStep(ApplyQuorumPriceFeed, m, f1, m1, f2);
    DecodeEncoded(QUORUM_PRICE_FEED, ApplyQuorumPriceFeed, m, f1 + f2);
  }

  /** Two encoded quorum price feeds in one buffer, so two feed fields among others, decode to their merge. */
  lemma TwoInOneBuffer(a: QuorumPriceFeed, b: QuorumPriceFeed)
    requires |EncodeQuorumPriceFeed(a)| + |EncodeQuorumPriceFeed(b)| < TWO_63
    ensures DecodeQuorumPriceFeed(ZERO_QUORUM_PRICE_FEED, EncodeQuorumPriceFeed(a) + EncodeQuorumPriceFeed(b))
            == Ok(MergeQuorum(a, b))
  {
    hide Decode, EncodeQuorumPriceFeed, MergeQuorum;
    QuorumPriceFeedRoundTrip(a);
    QuorumOnTop(a, b);
    DecodeConcat(QUORUM_PRICE_FEED, ApplyQuorumPriceFeed, ZERO_QUORUM_PRICE_FEED,
                 EncodeQuorumPriceFeed(a), EncodeQuorumPriceFeed(b));
  }

  /** Batches in one buffer are their quorum price feeds one after the other. */
  lemma BatchesInOneBuffer(a: QuorumPriceFeedBatch, b: QuorumPriceFeedBatch)
    requires |EncodeBatch(a)| + |EncodeBatch(b)| < TWO_63
    ensures DecodeBatch(ZERO_BATCH, EncodeBatch(a) + EncodeBatch(b))
            == Ok(QuorumPriceFeedBatch(a.quorumPriceFeeds + b.quorumPriceFeeds))
  {
    hide Fold, EncodeEvents, Decode, EncodeQuorumPriceFeed, DecodeQuorumPriceFeed, Repeated;
    var f := Repeated(1, EncodeQuorumPriceFeed, b.quorumPriceFeeds);
    assert [] + f == f;
    RepeatedFits(1, EncodeQuorumPriceFeed, b.quorumPriceFeeds, []);
    QuorumPriceFeedsRoundTrip(a, b.quorumPriceFeeds);
    DecodeEncoded(BATCH, ApplyBatch, a, f);
    BatchRoundTrip(a);
    DecodeConcat(BATCH, ApplyBatch, ZERO_BATCH, EncodeBatch(a), EncodeBatch(b));
  }

  // ---------------------------------------------- values that no encoder writes

  lemma OneField<M>(sc: Schema, apply: (M, Event) -> Result<M>, m: M, num: int, v: uint64)
    requires Conforms(sc, VarintEvent(num, v))
    ensures Decode(sc, apply, m, EncodeEvents([VarintEvent(num, v)])) == apply(m, VarintEvent(num, v))
  {
    hide Decode, Fold;
    var ev := VarintEvent(num, v);
    EncodeVarintRoundTrip(v, []);
    assert EncodeEvents([ev]) == EncodeEvent(ev) + [];
    FoldOne(apply, m, ev);
    DecodeEncoded(sc, apply, m, [ev]);
  }

  /** Any number but zero is a true flag, and a number of decimals keeps its low 32 bits. */
  lemma LooseScalars(v: uint64, m: Asset, p: OraclePrice)
    ensures DecodeAsset(m, EncodeEvents([VarintEvent(4, v)])) == Ok(m.(synth := v > 0))
    ensures DecodeAsset(m, EncodeEvents([VarintEvent(5, v)])) == Ok(m.(trade := v > 0))
    ensures DecodeAsset(m, EncodeEvents([VarintEvent(6, v)])) == Ok(m.(secured := v > 0))
    ensures DecodeOraclePrice(p, EncodeEvents([VarintEvent(2, v)])) == Ok(p.(decimals := v % 0x1_0000_0000))
  {
    hide Decode, EncodeEvents;
    OneField(ASSET, ApplyAsset, m, 4, v);
    OneField(ASSET, ApplyAsset, m, 5, v);
    OneField(ASSET, ApplyAsset, m, 6, v);
    OneField(ORACLE_PRICE, ApplyOraclePrice, p, 2, v);
  }
}
