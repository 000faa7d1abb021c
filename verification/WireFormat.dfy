/**
 The layout of every message in terms of the literal tag bytes of the generated
 code and of the Protocol Buffers encoding, sections "Base 128 Varints" and
 "Message Structure": fields in number order, zero values left out.
 */
module WireFormat {
  import opened Machine
  import opened Varint
  import opened Decoding
  import opened Encoding
  import opened Messages
  import opened Buffers
  import opened Marshal

  function Scalar(tag: byte, v: uint64): bytes { if v == 0 then [] else [tag] + EncodeVarint(v) }

  function Flag(tag: byte, b: bool): bytes { if b then [tag, 1] else [] }

  function LengthDelimited(tag: byte, b: bytes): bytes { [tag] + EncodeVarint(|b|) + b }

  function Text(tag: byte, b: bytes): bytes { if b == [] then [] else LengthDelimited(tag, b) }

  function Each<M>(tag: byte, encode: M -> bytes, ms: seq<M>): bytes {
    if ms == [] then [] else LengthDelimited(tag, encode(ms[0])) + Each(tag, encode, ms[1..])
  }

  lemma ScalarIs(num: int, v: uint64)
    requires 1 <= num <= 15
    ensures EncodeEvents(VarintField(num, v)) == Scalar(8 * num, v)
  {
    hide EncodeVarint;
    EncodeOne(VarintEvent(num, v));
  }

  lemma FlagIs(num: int, b: bool)
    requires 1 <= num <= 15
    ensures EncodeEvents(BoolField(num, b)) == Flag(8 * num, b)
  {
    EncodeOne(VarintEvent(num, 1));
    assert EncodeVarint(1) == [1];
  }

  lemma DelimitedIs(num: int, b: bytes)
    requires 1 <= num <= 15
    ensures EncodeEvents([BytesEvent(num, b)]) == LengthDelimited(8 * num + 2, b)
    ensures EncodeEvents(BytesField(num, b)) == Text(8 * num + 2, b)
  {
    hide EncodeVarint;
    EncodeOne(BytesEvent(num, b));
  }

  lemma {:induction false} EachIs<M>(num: int, encode: M -> bytes, ms: seq<M>)
    requires 1 <= num <= 15
    ensures EncodeEvents(Repeated(num, encode, ms)) == Each(8 * num + 2, encode, ms)
  {
    hide EncodeEvents, LengthDelimited;
    if ms == [] {
      EncodeOne(VarintEvent(1, 0));
    } else {
      DelimitedIs(num, encode(ms[0]));
      EachIs(num, encode, ms[1..]);
      EncodeEventsConcat([BytesEvent(num, encode(ms[0]))], Repeated(num, encode, ms[1..]));
    }
  }

  lemma OraclePriceFormat(m: OraclePrice)
    ensures EncodeOraclePrice(m) == Scalar(0x08, m.amount) + Scalar(0x10, m.decimals)
  {
    hide EncodeEvents, Scalar;
    OraclePriceParts(m);
    ScalarIs(1, m.amount);
    ScalarIs(2, m.decimals);
  }

  lemma AttestationFormat(m: Attestation)
    ensures EncodeAttestation(m) == Text(0x0a, m.pubKey) + Text(0x12, m.signature)
  {
    hide EncodeEvents, Text;
    AttestationParts(m);
    DelimitedIs(1, m.pubKey);
    DelimitedIs(2, m.signature);
  }

  lemma ErrataTxFormat(m: ErrataTx)
    ensures EncodeErrataTx(m) == Text(0x0a, m.id) + Text(0x12, m.chain)
  {
    hide EncodeEvents, Text;
    ErrataTxParts(m);
    DelimitedIs(1, m.id);
    DelimitedIs(2, m.chain);
  }

  lemma NetworkFeeFormat(m: NetworkFee)
    ensures EncodeNetworkFee(m) ==
            Scalar(0x08, ToUint64(m.height)) +
            (Text(0x12, m.chain) + (Scalar(0x18, m.transactionSize) + Scalar(0x20, m.transactionRate)))
  {
    hide EncodeEvents, Text, Scalar;
    NetworkFeeParts(m);
    ScalarIs(1, ToUint64(m.height));
    DelimitedIs(2, m.chain);
    ScalarIs(3, m.transactionSize);
    ScalarIs(4, m.transactionRate);
  }

  lemma AssetFormat(m: Asset)
    ensures EncodeAsset(m) ==
            Text(0x0a, m.chain) + (Text(0x12, m.symbol) + (Text(0x1a, m.ticker) +
            (Flag(0x20, m.synth) + (Flag(0x28, m.trade) + Flag(0x30, m.secured)))))
  {
    hide EncodeEvents, Text, Flag;
    AssetParts(m);
    DelimitedIs(1, m.chain);
    DelimitedIs(2, m.symbol);
    DelimitedIs(3, m.ticker);
    FlagIs(4, m.synth);
    FlagIs(5, m.trade);
    FlagIs(6, m.secured);
  }

  lemma PriceFeedFormat(m: PriceFeed)
    ensures EncodePriceFeed(m) ==
            Text(0x0a, m.version) + (Scalar(0x10, ToUint64(m.time)) + Each(0x1a, EncodeOraclePrice, m.rates))
  {
    hide EncodeEvents, Text, Scalar, Each, EncodeOraclePrice;
    PriceFeedParts(m);
    DelimitedIs(1, m.version);
    ScalarIs(2, ToUint64(m.time));
    EachIs(3, EncodeOraclePrice, m.rates);
  }

  /** A price feed that is present is written even when its own encoding is empty. */
  lemma QuorumPriceFeedFormat(m: QuorumPriceFeed)
    ensures EncodeQuorumPriceFeed(m) ==
            (if m.priceFeed.Some? then LengthDelimited(0x0a, EncodePriceFeed(m.priceFeed.value)) else []) +
            Each(0x12, EncodeAttestation, m.attestations)
  {
    hide EncodeEvents, LengthDelimited, Each, EncodePriceFeed, EncodeAttestation;
    QuorumPriceFeedParts(m);
    FeedFieldIs(m);
    if m.priceFeed.Some? { DelimitedIs(1, EncodePriceFeed(m.priceFeed.value)); }
    EachIs(2, EncodeAttestation, m.attestations);
  }

  lemma BatchFormat(m: QuorumPriceFeedBatch)
    ensures EncodeBatch(m) == Each(0x0a, EncodeQuorumPriceFeed, m.quorumPriceFeeds)
  {
    hide EncodeEvents, Each, EncodeQuorumPriceFeed;
    BatchParts(m);
    EachIs(1, EncodeQuorumPriceFeed, m.quorumPriceFeeds);
  }
}
