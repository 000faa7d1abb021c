/**
 The messages with their fields, the schema of each, how each applies a decoded
 field, and which fields it encodes. Go strings and byte slices are byte
 strings; a nil and an empty slice are the same value.
 */
module Messages {
  import opened Machine
  import opened Varint
  import opened Decoding
  import opened Encoding

  datatype OraclePrice = OraclePrice(amount: uint64, decimals: uint32)

  datatype PriceFeed = PriceFeed(version: bytes, time: int64, rates: seq<OraclePrice>)

  datatype Attestation = Attestation(pubKey: bytes, signature: bytes)

  datatype QuorumPriceFeed = QuorumPriceFeed(priceFeed: Option<PriceFeed>, attestations: seq<Attestation>)

  datatype QuorumPriceFeedBatch = QuorumPriceFeedBatch(quorumPriceFeeds: seq<QuorumPriceFeed>)

  datatype NetworkFee = NetworkFee(height: int64, chain: bytes, transactionSize: uint64, transactionRate: uint64)

  datatype ErrataTx = ErrataTx(id: bytes, chain: bytes)

  datatype Asset = Asset(chain: bytes, symbol: bytes, ticker: bytes, synth: bool, trade: bool, secured: bool)

  // ------------------------------------------------------------- zero structs

  const ZERO_ORACLE_PRICE := OraclePrice(0, 0)
  const ZERO_PRICE_FEED := PriceFeed([], 0, [])
  const ZERO_ATTESTATION := Attestation([], [])
  const ZERO_QUORUM_PRICE_FEED := QuorumPriceFeed(None, [])
  const ZERO_BATCH := QuorumPriceFeedBatch([])
  const ZERO_NETWORK_FEE := NetworkFee(0, [], 0, 0)
  const ZERO_ERRATA_TX := ErrataTx([], [])
  const ZERO_ASSET := Asset([], [], [], false, false, false)

  // ------------------------------------------------------------------ schemas

  const ORACLE_PRICE: Schema := map[1 := VarintKind, 2 := VarintKind]
  const PRICE_FEED: Schema := map[1 := BytesKind, 2 := VarintKind, 3 := BytesKind]
  const ATTESTATION: Schema := map[1 := BytesKind, 2 := BytesKind]
  const QUORUM_PRICE_FEED: Schema := map[1 := BytesKind, 2 := BytesKind]
  const BATCH: Schema := map[1 := BytesKind]
  const NETWORK_FEE: Schema := map[1 := VarintKind, 2 := BytesKind, 3 := VarintKind, 4 := VarintKind]
  const ERRATA_TX: Schema := map[1 := BytesKind, 2 := BytesKind]
  const ASSET: Schema :=
    map[1 := BytesKind, 2 := BytesKind, 3 := BytesKind, 4 := VarintKind, 5 := VarintKind, 6 := VarintKind]

  // ----------------------------------------------- applying one decoded field

  function ApplyOraclePrice(m: OraclePrice, ev: Event): Result<OraclePrice> {
    match ev
    case VarintEvent(1, v) => Ok(m.(amount := v))
    case VarintEvent(2, v) => Ok(m.(decimals := v % TWO_32))
    case _ => Ok(m)
  }

  function DecodeOraclePrice(m: OraclePrice, s: bytes): Result<OraclePrice> {
    Decode(ORACLE_PRICE, ApplyOraclePrice, m, s)
  }

  function ApplyPriceFeed(m: PriceFeed, ev: Event): Result<PriceFeed> {
    match ev
    case BytesEvent(1, b) => Ok(m.(version := b))
    case VarintEvent(2, v) => Ok(m.(time := ToInt64(v)))
    case BytesEvent(3, b) =>
      (match DecodeOraclePrice(ZERO_ORACLE_PRICE, b)
       case Err(e) => Err(e)
       case Ok(rate) => Ok(m.(rates := m.rates + [rate])))
    case _ => Ok(m)
  }

  function DecodePriceFeed(m: PriceFeed, s: bytes): Result<PriceFeed> {
    Decode(PRICE_FEED, ApplyPriceFeed, m, s)
  }

  function ApplyAttestation(m: Attestation, ev: Event): Result<Attestation> {
    match ev
    case BytesEvent(1, b) => Ok(m.(pubKey := b))
    case BytesEvent(2, b) => Ok(m.(signature := b))
    case _ => Ok(m)
  }

  function DecodeAttestation(m: Attestation, s: bytes): Result<Attestation> {
    Decode(ATTESTATION, ApplyAttestation, m, s)
  }

  /** A second price feed field is decoded on top of the first; a second attestation is appended. */
  function ApplyQuorumPriceFeed(m: QuorumPriceFeed, ev: Event): Result<QuorumPriceFeed> {
    match ev
    case BytesEvent(1, b) =>
      (match DecodePriceFeed(if m.priceFeed.Some? then m.priceFeed.value else ZERO_PRICE_FEED, b)
       case Err(e) => Err(e)
       case Ok(feed) => Ok(m.(priceFeed := Some(feed))))
    case BytesEvent(2, b) =>
      (match DecodeAttestation(ZERO_ATTESTATION, b)
       case Err(e) => Err(e)
       case Ok(att) => Ok(m.(attestations := m.attestations + [att])))
    case _ => Ok(m)
  }

  function DecodeQuorumPriceFeed(m: QuorumPriceFeed, s: bytes): Result<QuorumPriceFeed> {
    Decode(QUORUM_PRICE_FEED, ApplyQuorumPriceFeed, m, s)
  }

  function ApplyBatch(m: QuorumPriceFeedBatch, ev: Event): Result<QuorumPriceFeedBatch> {
    match ev
    case BytesEvent(1, b) =>
      (match DecodeQuorumPriceFeed(ZERO_QUORUM_PRICE_FEED, b)
       case Err(e) => Err(e)
       case Ok(q) => Ok(m.(quorumPriceFeeds := m.quorumPriceFeeds + [q])))
    case _ => Ok(m)
  }

  function DecodeBatch(m: QuorumPriceFeedBatch, s: bytes): Result<QuorumPriceFeedBatch> {
    Decode(BATCH, ApplyBatch, m, s)
  }

  function ApplyNetworkFee(m: NetworkFee, ev: Event): Result<NetworkFee> {
    match ev
    case VarintEvent(1, v) => Ok(m.(height := ToInt64(v)))
    case BytesEvent(2, b) => Ok(m.(chain := b))
    case VarintEvent(3, v) => Ok(m.(transactionSize := v))
    case VarintEvent(4, v) => Ok(m.(transactionRate := v))
    case _ => Ok(m)
  }

  function DecodeNetworkFee(m: NetworkFee, s: bytes): Result<NetworkFee> {
    Decode(NETWORK_FEE, ApplyNetworkFee, m, s)
  }

  function ApplyErrataTx(m: ErrataTx, ev: Event): Result<ErrataTx> {
    match ev
    case BytesEvent(1, b) => Ok(m.(id := b))
    case BytesEvent(2, b) => Ok(m.(chain := b))
    case _ => Ok(m)
  }

  function DecodeErrataTx(m: ErrataTx, s: bytes): Result<ErrataTx> {
    Decode(ERRATA_TX, ApplyErrataTx, m, s)
  }

  function ApplyAsset(m: Asset, ev: Event): Result<Asset> {
    match ev
    case BytesEvent(1, b) => Ok(m.(chain := b))
    case BytesEvent(2, b) => Ok(m.(symbol := b))
    case BytesEvent(3, b) => Ok(m.(ticker := b))
    case VarintEvent(4, v) => Ok(m.(synth := v != 0))
    case VarintEvent(5, v) => Ok(m.(trade := v != 0))
    case VarintEvent(6, v) => Ok(m.(secured := v != 0))
    case _ => Ok(m)
  }

  function DecodeAsset(m: Asset, s: bytes): Result<Asset> {
    Decode(ASSET, ApplyAsset, m, s)
  }

  // ------------------------------------------------------- the encoded fields

  /** A scalar field is left out when it is zero. */
  function VarintField(num: int, v: uint64): (r: seq<Event>)
    ensures 1 <= num <= 15 ==> SmallNumbers(r)
  {
    if v == 0 then [] else [VarintEvent(num, v)]
  }

  function BoolField(num: int, b: bool): (r: seq<Event>)
    ensures 1 <= num <= 15 ==> SmallNumbers(r)
  {
    if b then [VarintEvent(num, 1)] else []
  }

  function BytesField(num: int, b: bytes): (r: seq<Event>)
    ensures 1 <= num <= 15 ==> SmallNumbers(r)
  {
    if b == [] then [] else [BytesEvent(num, b)]
  }

  /** Every element of a repeated message field is written, even an empty one. */
  function Repeated<M>(num: int, encode: M -> bytes, ms: seq<M>): (r: seq<Event>)
    ensures |r| == |ms| && forall i :: 0 <= i < |r| ==> r[i] == BytesEvent(num, encode(ms[i]))
    ensures 1 <= num <= 15 ==> SmallNumbers(r)
  {
    if ms == [] then [] else [BytesEvent(num, encode(ms[0]))] + Repeated(num, encode, ms[1..])
  }

  function OraclePriceFields(m: OraclePrice): (r: seq<Event>)
    ensures AllConform(ORACLE_PRICE, r)
  {
    VarintField(1, m.amount) + VarintField(2, m.decimals)
  }

  function EncodeOraclePrice(m: OraclePrice): bytes { EncodeEvents(OraclePriceFields(m)) }

  function PriceFeedFields(m: PriceFeed): (r: seq<Event>)
    ensures AllConform(PRICE_FEED, r)
  {
    BytesField(1, m.version) + (VarintField(2, ToUint64(m.time)) + Repeated(3, EncodeOraclePrice, m.rates))
  }

  function EncodePriceFeed(m: PriceFeed): bytes { EncodeEvents(PriceFeedFields(m)) }

  function AttestationFields(m: Attestation): (r: seq<Event>)
    ensures AllConform(ATTESTATION, r)
  {
    BytesField(1, m.pubKey) + BytesField(2, m.signature)
  }

  function EncodeAttestation(m: Attestation): bytes { EncodeEvents(AttestationFields(m)) }

  /** The optional price feed. */
  function FeedField(m: QuorumPriceFeed): (r: seq<Event>)
    ensures AllConform(QUORUM_PRICE_FEED, r)
  {
    if m.priceFeed.Some? then [BytesEvent(1, EncodePriceFeed(m.priceFeed.value))] else []
  }

  function QuorumPriceFeedFields(m: QuorumPriceFeed): (r: seq<Event>)
    ensures AllConform(QUORUM_PRICE_FEED, r)
  {
    FeedField(m) + Repeated(2, EncodeAttestation, m.attestations)
  }

  function EncodeQuorumPriceFeed(m: QuorumPriceFeed): bytes { EncodeEvents(QuorumPriceFeedFields(m)) }

  function BatchFields(m: QuorumPriceFeedBatch): (r: seq<Event>)
    ensures AllConform(BATCH, r)
  {
    Repeated(1, EncodeQuorumPriceFeed, m.quorumPriceFeeds)
  }

  function EncodeBatch(m: QuorumPriceFeedBatch): bytes { EncodeEvents(BatchFields(m)) }

  function NetworkFeeFields(m: NetworkFee): (r: seq<Event>)
    ensures AllConform(NETWORK_FEE, r)
  {
    VarintField(1, ToUint64(m.height)) + (BytesField(2, m.chain) +
    (VarintField(3, m.transactionSize) + VarintField(4, m.transactionRate)))
  }

  function EncodeNetworkFee(m: NetworkFee): bytes { EncodeEvents(NetworkFeeFields(m)) }

  function ErrataTxFields(m: ErrataTx): (r: seq<Event>)
    ensures AllConform(ERRATA_TX, r)
  {
    BytesField(1, m.id) + BytesField(2, m.chain)
  }

  function EncodeErrataTx(m: ErrataTx): bytes { EncodeEvents(ErrataTxFields(m)) }

  function AssetFlags(m: Asset): (r: seq<Event>)
    ensures AllConform(ASSET, r)
  {
    BoolField(4, m.synth) + (BoolField(5, m.trade) + BoolField(6, m.secured))
  }

  lemma AssetTexts(m: Asset)
    ensures AllConform(ASSET, BytesField(1, m.chain)) && AllConform(ASSET, BytesField(2, m.symbol))
    ensures AllConform(ASSET, BytesField(3, m.ticker) + AssetFlags(m))
  {}

  function AssetFields(m: Asset): (r: seq<Event>)
    ensures AllConform(ASSET, r)
  {
    AssetTexts(m);
    BytesField(1, m.chain) + (BytesField(2, m.symbol) + (BytesField(3, m.ticker) + AssetFlags(m)))
  }

  function EncodeAsset(m: Asset): bytes { EncodeEvents(AssetFields(m)) }
}
