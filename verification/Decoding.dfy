/**
 The loop shared by every generated `Unmarshal`: read a tag, hand a known field
 to the message, step over an unknown one. A message type is a schema, which
 says what wire type each known field number must have, and a function that
 applies one decoded field to the message. What is proved here holds for every
 message type at once.
 */
module Decoding {
  import opened Machine
  import opened Varint
  import opened Wire

  datatype Kind = VarintKind | BytesKind

  /** Known field numbers and the kind of each. */
  type Schema = map<int, Kind>

  /** One known field, decoded: a uint64, or the bytes of a length-delimited field. */
  datatype Event =
    | VarintEvent(num: int, v: uint64)
    | BytesEvent(num: int, payload: bytes)

  function WireTypeOf(k: Kind): nat {
    match k case VarintKind => 0 case BytesKind => 2
  }

  function KindOf(ev: Event): Kind {
    match ev case VarintEvent(_, _) => VarintKind case BytesEvent(_, _) => BytesKind
  }

  // ---------------------------------------------------------------- one turn

  datatype Delimited = Delimited(payload: bytes, len: nat)

  /** A length and that many bytes, at index `base` of the buffer. */
  function ReadDelimited(s: bytes, base: nat): (r: Result<Delimited>)
    ensures r.Ok? ==> |r.value.payload| < r.value.len <= |s|
  {
    match ReadUint64(s)
    case Err(e) => Err(e)
    case Ok(x) =>
      if x.raw >= TWO_63 || base + x.len + x.raw >= TWO_63 then Err(InvalidLength)
      else if x.len + x.raw > |s| then Err(UnexpectedEOF)
      else Ok(Delimited(s[x.len..x.len + x.raw], x.len + x.raw))
  }

  datatype Turn =
    | Known(ev: Event, len: nat)
    | Unknown(len: nat)
    | Stop(error: Error)

  /** The value of a known field; `tagLen` bytes of tag stand before `s`, which is at index `base`. */
  function KnownField(kind: Kind, num: int, s: bytes, base: nat, tagLen: nat): (t: Turn)
    ensures !t.Stop? ==> t.Known? && tagLen < t.len <= tagLen + |s| && t.ev.num == num && KindOf(t.ev) == kind
  {
    match kind
    case VarintKind =>
      (match ReadUint64(s)
       case Err(e) => Stop(e)
       case Ok(x) => Known(VarintEvent(num, x.raw), tagLen + x.len))
    case BytesKind =>
      (match ReadDelimited(s, base)
       case Err(e) => Stop(e)
       case Ok(d) => Known(BytesEvent(num, d.payload), tagLen + d.len))
  }

  /** The `default` branch: from the tag on, `s` at index `base`. */
  function UnknownField(s: bytes, base: nat): (t: Turn)
    requires s != []
    ensures !t.Stop? ==> t.Unknown? && 0 < t.len <= |s|
  {
    match Skip(s)
    case Err(e) => Stop(e)
    case Ok(n) =>
      if base + n >= TWO_63 then Stop(InvalidLength)
      else if n > |s| then Stop(UnexpectedEOF)
      else SkipAdvances(s); Unknown(n)
  }

  lemma SkipAdvances(s: bytes)
    requires Skip(s).Ok? && Skip(s).value <= |s|
    ensures Skip(s).value > 0
  {
    var r := RecordOf(s, Skip(s).value);
    SpellIsTagAndPayload(r);
    hide Skip;
  }

  function TakeTurn(sc: Schema, s: bytes, base: nat): (t: Turn)
    requires s != []
    ensures !t.Stop? ==> 0 < t.len <= |s|
  {
    match ReadUint64(s)
    case Err(e) => Stop(e)
    case Ok(tag) =>
      var num, wireType := FieldNumber(tag.raw), WireType(tag.raw);
      if wireType == 4 then Stop(EndGroupForNonGroup)
      else if num <= 0 then Stop(IllegalTag(num, tag.raw))
      else if num !in sc then UnknownField(s, base)
      else if wireType != WireTypeOf(sc[num]) then Stop(WrongWireType(num, wireType))
      else KnownField(sc[num], num, s[tag.len..], base + tag.len, tag.len)
  }

  // ---------------------------------------------------------------- the loop

  /** The known fields in order, up to the end of the buffer or the first wire error. */
  datatype Trace = Trace(events: seq<Event>, err: Option<Error>)

  function Before(ev: Event, t: Trace): Trace { Trace([ev] + t.events, t.err) }

  function Walk(sc: Schema, s: bytes, base: nat := 0): Trace
    decreases |s|
  {
    if s == [] then Trace([], None)
    else
      match TakeTurn(sc, s, base)
      case Stop(e) => Trace([], Some(e))
      case Unknown(n) => Walk(sc, s[n..], base + n)
      case Known(ev, n) => Before(ev, Walk(sc, s[n..], base + n))
  }

  function Fold<M>(apply: (M, Event) -> Result<M>, m: M, events: seq<Event>): Result<M> {
    if events == [] then Ok(m)
    else
      match apply(m, events[0])
      case Err(e) => Err(e)
      case Ok(m') => Fold(apply, m', events[1..])
  }

  /** An error inside a field comes before any wire error met later. */
  function Finish<M>(apply: (M, Event) -> Result<M>, m: M, t: Trace): Result<M> {
    match Fold(apply, m, t.events)
    case Err(e) => Err(e)
    case Ok(m') => if t.err.Some? then Err(t.err.value) else Ok(m')
  }

  /** `m.Unmarshal(s)` for the message type given by `sc` and `apply`. */
  function Decode<M>(sc: Schema, apply: (M, Event) -> Result<M>, m: M, s: bytes): Result<M> {
    Finish(apply, m, Walk(sc, s))
  }
}
