/**
 The generated `Unmarshal` methods as the loops they are: an index that moves
 through the buffer and a message that is updated field by field. Each is proved
 equal to the decoding function of its message type, error values included.
 */
module Unmarshal {
  import opened Machine
  import opened Varint
  import opened Wire
  import opened Decoding
  import opened Messages

  /** What the loop still has to return at index `i` with message `m`. */
  ghost function Remaining<M>(sc: Schema, apply: (M, Event) -> Result<M>, m: M, dAtA: bytes, i: nat): Result<M>
    requires i <= |dAtA|
  {
    Finish(apply, m, Walk(sc, dAtA[i..], i))
  }

  /** One turn of the loop, in terms of the indices it uses. */
  ghost function TurnAt(sc: Schema, dAtA: bytes, i: nat): Turn
    requires i < |dAtA|
  {
    match ReadTag(dAtA, i)
    case Err(e) => Stop(e)
    case Ok(tag) =>
      if tag.num !in sc then UnknownField(dAtA[i..], i)
      else if tag.wireType != WireTypeOf(sc[tag.num]) then Stop(WrongWireType(tag.num, tag.wireType))
      else KnownField(sc[tag.num], tag.num, dAtA[tag.next..], tag.next, tag.next - i)
  }

  datatype Tag = Tag(num: int, wireType: nat, next: nat)

  ghost function ReadTag(dAtA: bytes, i: nat): (r: Result<Tag>)
    requires i < |dAtA|
    ensures r.Ok? ==> i < r.value.next <= |dAtA|
  {
    match ReadUint64(dAtA[i..])
    case Err(e) => Err(e)
    case Ok(x) =>
      if WireType(x.raw) == 4 then Err(EndGroupForNonGroup)
      else if FieldNumber(x.raw) <= 0 then Err(IllegalTag(FieldNumber(x.raw), x.raw))
      else Ok(Tag(FieldNumber(x.raw), WireType(x.raw), i + x.len))
  }

  lemma RemainingAtStart<M>(sc: Schema, apply: (M, Event) -> Result<M>, m: M, dAtA: bytes)
    ensures Remaining(sc, apply, m, dAtA, 0) == Decode(sc, apply, m, dAtA)
  {
    assert dAtA[0..] == dAtA;
  }

  lemma RemainingAtEnd<M>(sc: Schema, apply: (M, Event) -> Result<M>, m: M, dAtA: bytes)
    ensures Remaining(sc, apply, m, dAtA, |dAtA|) == Ok(m)
  {}

  lemma TurnAtIsTurn(sc: Schema, dAtA: bytes, i: nat)
    requires i < |dAtA|
    ensures TurnAt(sc, dAtA, i) == TakeTurn(sc, dAtA[i..], i)
    ensures !TurnAt(sc, dAtA, i).Stop? ==> 0 < TurnAt(sc, dAtA, i).len <= |dAtA| - i
  {
    hide ReadUint64, KnownField, UnknownField, WireType, FieldNumber;
    if ReadTag(dAtA, i).Ok? {
      var tag := ReadTag(dAtA, i).value;
      assert dAtA[i..][tag.next - i..] == dAtA[tag.next..];
    }
  }

  lemma RemainingTurn<M>(sc: Schema, apply: (M, Event) -> Result<M>, m: M, dAtA: bytes, i: nat)
    requires i < |dAtA|
    ensures !TurnAt(sc, dAtA, i).Stop? ==> 0 < TurnAt(sc, dAtA, i).len <= |dAtA| - i
    ensures match TurnAt(sc, dAtA, i)
            case Stop(e) => Remaining(sc, apply, m, dAtA, i) == Err(e)
            case Unknown(n) => Remaining(sc, apply, m, dAtA, i) == Remaining(sc, apply, m, dAtA, i + n)
            case Known(ev, n) =>
              (match apply(m, ev)
               case Err(e) => Remaining(sc, apply, m, dAtA, i) == Err(e)
               case Ok(m') => Remaining(sc, apply, m, dAtA, i) == Remaining(sc, apply, m', dAtA, i + n))
  {
    hide TakeTurn, TurnAt;
    TurnAtIsTurn(sc, dAtA, i);
    var s, t := dAtA[i..], TurnAt(sc, dAtA, i);
    if !t.Stop? {
      assert s[t.len..] == dAtA[i + t.len..];
    }
    if t.Known? {
      var rest := Walk(sc, dAtA[i + t.len..], i + t.len);
      assert ([t.ev] + rest.events)[1..] == rest.events;
    }
  }

  // ------------------------------------ pieces every generated method repeats

  method DecodeTag(dAtA: bytes, i: nat) returns (r: Result<Tag>)
    requires i < |dAtA|
    ensures r == ReadTag(dAtA, i)
  {
    var wire := DecodeUint64(dAtA, i);
    if wire.Err? { return Err(wire.error); }
    var fieldNum, wireType := FieldNumber(wire.value.raw), WireType(wire.value.raw);
    if wireType == 4 { return Err(EndGroupForNonGroup); }
    if fieldNum <= 0 { return Err(IllegalTag(fieldNum, wire.value.raw)); }
    return Ok(Tag(fieldNum, wireType, i + wire.value.len));
  }

  /** Length, sign check, end index with wrap-around, end check, slice. */
  method DecodeDelimited(dAtA: bytes, start: nat) returns (r: Result<Delimited>)
    requires start <= |dAtA| < TWO_63
    ensures r == ReadDelimited(dAtA[start..], start)
  {
    hide ReadVarint;
    var x := DecodeUint64(dAtA, start);
    if x.Err? { return Err(x.error); }
    var iNdEx, byteLen := start + x.value.len, ToInt64(x.value.raw);
    if byteLen < 0 { return Err(InvalidLength); }
    var postIndex := WrapInt64(iNdEx + byteLen);
    if postIndex < 0 { return Err(InvalidLength); }
    if postIndex > |dAtA| { return Err(UnexpectedEOF); }
    assert dAtA[start..][x.value.len..x.value.len + x.value.raw] == dAtA[iNdEx..postIndex];
    return Ok(Delimited(dAtA[iNdEx..postIndex], postIndex - start));
  }

  /** The `default` branch. */
  method DecodeUnknown(dAtA: bytes, preIndex: nat) returns (r: Result<nat>)
    requires preIndex < |dAtA| < TWO_63
    ensures match UnknownField(dAtA[preIndex..], preIndex)
            case Stop(e) => r == Err(e)
            case Unknown(n) => r == Ok(preIndex + n)
            case Known(_, _) => false
  {
    hide Skip;
    var skippy := SkipCommon(dAtA[preIndex..]);
    if skippy.Err? { return Err(skippy.error); }
    SkipBound(dAtA[preIndex..], 0, 0);
    var iNdEx := WrapInt64(preIndex + skippy.value);
    if iNdEx < 0 { return Err(InvalidLength); }
    if iNdEx > |dAtA| { return Err(UnexpectedEOF); }
    return Ok(iNdEx);
  }

  lemma {:induction false} SkipBound(s: bytes, base: nat, depth: nat)
    requires Skip(s, base, depth).Ok?
    ensures Skip(s, base, depth).value < TWO_63
    decreases |s|
  {
    hide ReadVarint, PayloadLen;
    var tag := ReadUint64(s).value;
    var wireType := WireType(tag.raw);
    var step := tag.len + PayloadLen(wireType, s[tag.len..]).value;
    var open := if wireType == 3 then depth + 1 else if wireType == 4 then depth - 1 else depth;
    if open > 0 {
      SkipBound(s[step..], base + step, open);
    }
  }

  // -------------------------------------------------------------- the methods

  method UnmarshalOraclePrice(m0: OraclePrice, dAtA: bytes) returns (r: Result<OraclePrice>)
    requires |dAtA| < TWO_63
    ensures r == DecodeOraclePrice(m0, dAtA)
  {
    hide Walk, Fold, ReadTag, UnknownField, ReadUint64, ReadDelimited;
    var l, iNdEx, m := |dAtA|, 0, m0;
    RemainingAtStart(ORACLE_PRICE, ApplyOraclePrice, m, dAtA);
    while iNdEx < l
      invariant iNdEx <= l
      invariant Remaining(ORACLE_PRICE, ApplyOraclePrice, m, dAtA, iNdEx) == DecodeOraclePrice(m0, dAtA)
    {
      var preIndex := iNdEx;
      RemainingTurn(ORACLE_PRICE, ApplyOraclePrice, m, dAtA, iNdEx);
      var tag := DecodeTag(dAtA, iNdEx);
      if tag.Err? { return Err(tag.error); }
      iNdEx := tag.value.next;
      match tag.value.num {
        case 1 =>
          if tag.value.wireType != 0 { return Err(WrongWireType(1, tag.value.wireType)); }
          var x := DecodeUint64(dAtA, iNdEx);
          if x.Err? { return Err(x.error); }
          m := m.(amount := x.value.raw);
          iNdEx := iNdEx + x.value.len;
        case 2 =>
          if tag.value.wireType != 0 { return Err(WrongWireType(2, tag.value.wireType)); }
          var x := DecodeUint32(dAtA, iNdEx);
          if x.Err? { return Err(x.error); }
          m := m.(decimals := x.value.raw);
          iNdEx := iNdEx + x.value.len;
        case _ =>
          var next := DecodeUnknown(dAtA, preIndex);
          if next.Err? { return Err(next.error); }
          iNdEx := next.value;
      }
    }
    RemainingAtEnd(ORACLE_PRICE, ApplyOraclePrice, m, dAtA);
    return Ok(m);
  }

  method UnmarshalPriceFeed(m0: PriceFeed, dAtA: bytes) returns (r: Result<PriceFeed>)
    requires |dAtA| < TWO_63
    ensures r == DecodePriceFeed(m0, dAtA)
  {
    hide Walk, Fold, ReadTag, UnknownField, ReadUint64, ReadDelimited, DecodeOraclePrice;
    var l, iNdEx, m := |dAtA|, 0, m0;
    RemainingAtStart(PRICE_FEED, ApplyPriceFeed, m, dAtA);
    while iNdEx < l
      invariant iNdEx <= l
      invariant Remaining(PRICE_FEED, ApplyPriceFeed, m, dAtA, iNdEx) == DecodePriceFeed(m0, dAtA)
    {
      var preIndex := iNdEx;
      RemainingTurn(PRICE_FEED, ApplyPriceFeed, m, dAtA, iNdEx);
      var tag := DecodeTag(dAtA, iNdEx);
      if tag.Err? { return Err(tag.error); }
      iNdEx := tag.value.next;
      match tag.value.num {
        case 1 =>
          if tag.value.wireType != 2 { return Err(WrongWireType(1, tag.value.wireType)); }
          var d := DecodeDelimited(dAtA, iNdEx);
          if d.Err? { return Err(d.error); }
          m := m.(version := d.value.payload);
          iNdEx := iNdEx + d.value.len;
        case 2 =>
          if tag.value.wireType != 0 { return Err(WrongWireType(2, tag.value.wireType)); }
          var x := DecodeUint64(dAtA, iNdEx);
          if x.Err? { return Err(x.error); }
          m := m.(time := ToInt64(x.value.raw));
          iNdEx := iNdEx + x.value.len;
        case 3 =>
          if tag.value.wireType != 2 { return Err(WrongWireType(3, tag.value.wireType)); }
          var d := DecodeDelimited(dAtA, iNdEx);
          if d.Err? { return Err(d.error); }
          var sub := UnmarshalOraclePrice(ZERO_ORACLE_PRICE, d.value.payload);
          if sub.Err? { return Err(sub.error); }
          m := m.(rates := m.rates + [sub.value]);
          iNdEx := iNdEx + d.value.len;
        case _ =>
          var next := DecodeUnknown(dAtA, preIndex);
          if next.Err? { return Err(next.error); }
          iNdEx := next.value;
      }
    }
    RemainingAtEnd(PRICE_FEED, ApplyPriceFeed, m, dAtA);
    return Ok(m);
  }

  method UnmarshalAttestation(m0: Attestation, dAtA: bytes) returns (r: Result<Attestation>)
    requires |dAtA| < TWO_63
    ensures r == DecodeAttestation(m0, dAtA)
  {
    hide Walk, Fold, ReadTag, UnknownField, ReadUint64, ReadDelimited;
    var l, iNdEx, m := |dAtA|, 0, m0;
    RemainingAtStart(ATTESTATION, ApplyAttestation, m, dAtA);
    while iNdEx < l
      invariant iNdEx <= l
      invariant Remaining(ATTESTATION, ApplyAttestation, m, dAtA, iNdEx) == DecodeAttestation(m0, dAtA)
    {
      var preIndex := iNdEx;
      RemainingTurn(ATTESTATION, ApplyAttestation, m, dAtA, iNdEx);
      var tag := DecodeTag(dAtA, iNdEx);
      if tag.Err? { return Err(tag.error); }
      iNdEx := tag.value.next;
      match tag.value.num {
        case 1 =>
          if tag.value.wireType != 2 { return Err(WrongWireType(1, tag.value.wireType)); }
          var d := DecodeDelimited(dAtA, iNdEx);
          if d.Err? { return Err(d.error); }
          m := m.(pubKey := d.value.payload);
          iNdEx := iNdEx + d.value.len;
        case 2 =>
          if tag.value.wireType != 2 { return Err(WrongWireType(2, tag.value.wireType)); }
          var d := DecodeDelimited(dAtA, iNdEx);
          if d.Err? { return Err(d.error); }
          m := m.(signature := d.value.payload);
          iNdEx := iNdEx + d.value.len;
        case _ =>
          var next := DecodeUnknown(dAtA, preIndex);
          if next.Err? { return Err(next.error); }
          iNdEx := next.value;
      }
    }
    RemainingAtEnd(ATTESTATION, ApplyAttestation, m, dAtA);
    return Ok(m);
  }

  method UnmarshalQuorumPriceFeed(m0: QuorumPriceFeed, dAtA: bytes) returns (r: Result<QuorumPriceFeed>)
    requires |dAtA| < TWO_63
    ensures r == DecodeQuorumPriceFeed(m0, dAtA)
  {
    hide Walk, Fold, ReadTag, UnknownField, ReadUint64, ReadDelimited, DecodePriceFeed, DecodeAttestation;
    var l, iNdEx, m := |dAtA|, 0, m0;
    RemainingAtStart(QUORUM_PRICE_FEED, ApplyQuorumPriceFeed, m, dAtA);
    while iNdEx < l
      invariant iNdEx <= l
      invariant Remaining(QUORUM_PRICE_FEED, ApplyQuorumPriceFeed, m, dAtA, iNdEx) == DecodeQuorumPriceFeed(m0, dAtA)
    {
      var preIndex := iNdEx;
      RemainingTurn(QUORUM_PRICE_FEED, ApplyQuorumPriceFeed, m, dAtA, iNdEx);
      var tag := DecodeTag(dAtA, iNdEx);
      if tag.Err? { return Err(tag.error); }
      iNdEx := tag.value.next;
      match tag.value.num {
        case 1 =>
          if tag.value.wireType != 2 { return Err(WrongWireType(1, tag.value.wireType)); }
          var d := DecodeDelimited(dAtA, iNdEx);
          if d.Err? { return Err(d.error); }
          var feed := if m.priceFeed.Some? then m.priceFeed.value else ZERO_PRICE_FEED;
          var sub := UnmarshalPriceFeed(feed, d.value.payload);
          if sub.Err? { return Err(sub.error); }
          m := m.(priceFeed := Some(sub.value));
          iNdEx := iNdEx + d.value.len;
        case 2 =>
          if tag.value.wireType != 2 { return Err(WrongWireType(2, tag.value.wireType)); }
          var d := DecodeDelimited(dAtA, iNdEx);
          if d.Err? { return Err(d.error); }
          var sub := UnmarshalAttestation(ZERO_ATTESTATION, d.value.payload);
          if sub.Err? { return Err(sub.error); }
          m := m.(attestations := m.attestations + [sub.value]);
          iNdEx := iNdEx + d.value.len;
        case _ =>
          var next := DecodeUnknown(dAtA, preIndex);
          if next.Err? { return Err(next.error); }
          iNdEx := next.value;
      }
    }
    RemainingAtEnd(QUORUM_PRICE_FEED, ApplyQuorumPriceFeed, m, dAtA);
    return Ok(m);
  }

  method UnmarshalBatch(m0: QuorumPriceFeedBatch, dAtA: bytes) returns (r: Result<QuorumPriceFeedBatch>)
    requires |dAtA| < TWO_63
    ensures r == DecodeBatch(m0, dAtA)
  {
    hide Walk, Fold, ReadTag, UnknownField, ReadUint64, ReadDelimited, DecodeQuorumPriceFeed;
    var l, iNdEx, m := |dAtA|, 0, m0;
    RemainingAtStart(BATCH, ApplyBatch, m, dAtA);
    while iNdEx < l
      invariant iNdEx <= l
      invariant Remaining(BATCH, ApplyBatch, m, dAtA, iNdEx) == DecodeBatch(m0, dAtA)
    {
      var preIndex := iNdEx;
      RemainingTurn(BATCH, ApplyBatch, m, dAtA, iNdEx);
      var tag := DecodeTag(dAtA, iNdEx);
      if tag.Err? { return Err(tag.error); }
      iNdEx := tag.value.next;
      match tag.value.num {
        case 1 =>
          if tag.value.wireType != 2 { return Err(WrongWireType(1, tag.value.wireType)); }
          var d := DecodeDelimited(dAtA, iNdEx);
          if d.Err? { return Err(d.error); }
          var sub := UnmarshalQuorumPriceFeed(ZERO_QUORUM_PRICE_FEED, d.value.payload);
          if sub.Err? { return Err(sub.error); }
          m := m.(quorumPriceFeeds := m.quorumPriceFeeds + [sub.value]);
          iNdEx := iNdEx + d.value.len;
        case _ =>
          var next := DecodeUnknown(dAtA, preIndex);
          if next.Err? { return Err(next.error); }
          iNdEx := next.value;
      }
    }
    RemainingAtEnd(BATCH, ApplyBatch, m, dAtA);
    return Ok(m);
  }

  method UnmarshalNetworkFee(m0: NetworkFee, dAtA: bytes) returns (r: Result<NetworkFee>)
    requires |dAtA| < TWO_63
    ensures r == DecodeNetworkFee(m0, dAtA)
  {
    hide Walk, Fold, ReadTag, UnknownField, ReadUint64, ReadDelimited;
    var l, iNdEx, m := |dAtA|, 0, m0;
    RemainingAtStart(NETWORK_FEE, ApplyNetworkFee, m, dAtA);
    while iNdEx < l
      invariant iNdEx <= l
      invariant Remaining(NETWORK_FEE, ApplyNetworkFee, m, dAtA, iNdEx) == DecodeNetworkFee(m0, dAtA)
    {
      var preIndex := iNdEx;
      RemainingTurn(NETWORK_FEE, ApplyNetworkFee, m, dAtA, iNdEx);
      var tag := DecodeTag(dAtA, iNdEx);
      if tag.Err? { return Err(tag.error); }
      iNdEx := tag.value.next;
      match tag.value.num {
        case 1 =>
          if tag.value.wireType != 0 { return Err(WrongWireType(1, tag.value.wireType)); }
          var x := DecodeUint64(dAtA, iNdEx);
          if x.Err? { return Err(x.error); }
          m := m.(height := ToInt64(x.value.raw));
          iNdEx := iNdEx + x.value.len;
        case 2 =>
          if tag.value.wireType != 2 { return Err(WrongWireType(2, tag.value.wireType)); }
          var d := DecodeDelimited(dAtA, iNdEx);
          if d.Err? { return Err(d.error); }
          m := m.(chain := d.value.payload);
          iNdEx := iNdEx + d.value.len;
        case 3 =>
          if tag.value.wireType != 0 { return Err(WrongWireType(3, tag.value.wireType)); }
          var x := DecodeUint64(dAtA, iNdEx);
          if x.Err? { return Err(x.error); }
          m := m.(transactionSize := x.value.raw);
          iNdEx := iNdEx + x.value.len;
        case 4 =>
          if tag.value.wireType != 0 { return Err(WrongWireType(4, tag.value.wireType)); }
          var x := DecodeUint64(dAtA, iNdEx);
          if x.Err? { return Err(x.error); }
          m := m.(transactionRate := x.value.raw);
          iNdEx := iNdEx + x.value.len;
        case _ =>
          var next := DecodeUnknown(dAtA, preIndex);
          if next.Err? { return Err(next.error); }
          iNdEx := next.value;
      }
    }
    RemainingAtEnd(NETWORK_FEE, ApplyNetworkFee, m, dAtA);
    return Ok(m);
  }

  method UnmarshalErrataTx(m0: ErrataTx, dAtA: bytes) returns (r: Result<ErrataTx>)
    requires |dAtA| < TWO_63
    ensures r == DecodeErrataTx(m0, dAtA)
  {
    hide Walk, Fold, ReadTag, UnknownField, ReadUint64, ReadDelimited;
    var l, iNdEx, m := |dAtA|, 0, m0;
    RemainingAtStart(ERRATA_TX, ApplyErrataTx, m, dAtA);
    while iNdEx < l
      invariant iNdEx <= l
      invariant Remaining(ERRATA_TX, ApplyErrataTx, m, dAtA, iNdEx) == DecodeErrataTx(m0, dAtA)
    {
      var preIndex := iNdEx;
      RemainingTurn(ERRATA_TX, ApplyErrataTx, m, dAtA, iNdEx);
      var tag := DecodeTag(dAtA, iNdEx);
      if tag.Err? { return Err(tag.error); }
      iNdEx := tag.value.next;
      match tag.value.num {
        case 1 =>
          if tag.value.wireType != 2 { return Err(WrongWireType(1, tag.value.wireType)); }
          var d := DecodeDelimited(dAtA, iNdEx);
          if d.Err? { return Err(d.error); }
          m := m.(id := d.value.payload);
          iNdEx := iNdEx + d.value.len;
        case 2 =>
          if tag.value.wireType != 2 { return Err(WrongWireType(2, tag.value.wireType)); }
          var d := DecodeDelimited(dAtA, iNdEx);
          if d.Err? { return Err(d.error); }
          m := m.(chain := d.value.payload);
          iNdEx := iNdEx + d.value.len;
        case _ =>
          var next := DecodeUnknown(dAtA, preIndex);
          if next.Err? { return Err(next.error); }
          iNdEx := next.value;
      }
    }
    RemainingAtEnd(ERRATA_TX, ApplyErrataTx, m, dAtA);
    return Ok(m);
  }

  method UnmarshalAsset(m0: Asset, dAtA: bytes) returns (r: Result<Asset>)
    requires |dAtA| < TWO_63
    ensures r == DecodeAsset(m0, dAtA)
  {
    hide Walk, Fold, ReadTag, UnknownField, ReadUint64, ReadDelimited;
    var l, iNdEx, m := |dAtA|, 0, m0;
    RemainingAtStart(ASSET, ApplyAsset, m, dAtA);
    while iNdEx < l
      invariant iNdEx <= l
      invariant Remaining(ASSET, ApplyAsset, m, dAtA, iNdEx) == DecodeAsset(m0, dAtA)
    {
      var preIndex := iNdEx;
      RemainingTurn(ASSET, ApplyAsset, m, dAtA, iNdEx);
      var tag := DecodeTag(dAtA, iNdEx);
      if tag.Err? { return Err(tag.error); }
      iNdEx := tag.value.next;
      match tag.value.num {
        case 1 =>
          if tag.value.wireType != 2 { return Err(WrongWireType(1, tag.value.wireType)); }
          var d := DecodeDelimited(dAtA, iNdEx);
          if d.Err? { return Err(d.error); }
          m := m.(chain := d.value.payload);
          iNdEx := iNdEx + d.value.len;
        case 2 =>
          if tag.value.wireType != 2 { return Err(WrongWireType(2, tag.value.wireType)); }
          var d := DecodeDelimited(dAtA, iNdEx);
          if d.Err? { return Err(d.error); }
          m := m.(symbol := d.value.payload);
          iNdEx := iNdEx + d.value.len;
        case 3 =>
          if tag.value.wireType != 2 { return Err(WrongWireType(3, tag.value.wireType)); }
          var d := DecodeDelimited(dAtA, iNdEx);
          if d.Err? { return Err(d.error); }
          m := m.(ticker := d.value.payload);
          iNdEx := iNdEx + d.value.len;
        case 4 =>
          if tag.value.wireType != 0 { return Err(WrongWireType(4, tag.value.wireType)); }
          var x := DecodeUint64(dAtA, iNdEx);
          if x.Err? { return Err(x.error); }
          m := m.(synth := x.value.raw != 0);
          iNdEx := iNdEx + x.value.len;
        case 5 =>
          if tag.value.wireType != 0 { return Err(WrongWireType(5, tag.value.wireType)); }
          var x := DecodeUint64(dAtA, iNdEx);
          if x.Err? { return Err(x.error); }
          m := m.(trade := x.value.raw != 0);
          iNdEx := iNdEx + x.value.len;
        case 6 =>
          if tag.value.wireType != 0 { return Err(WrongWireType(6, tag.value.wireType)); }
          var x := DecodeUint64(dAtA, iNdEx);
          if x.Err? { return Err(x.error); }
          m := m.(secured := x.value.raw != 0);
          iNdEx := iNdEx + x.value.len;
        case _ =>
          var next := DecodeUnknown(dAtA, preIndex);
          if next.Err? { return Err(next.error); }
          iNdEx := next.value;
      }
    }
    RemainingAtEnd(ASSET, ApplyAsset, m, dAtA);
    return Ok(m);
  }
}
