/**
 What the generated encoders write, field by field, and the proof that the
 decoding loop reads it back for any message type.
 */
module Encoding {
  import opened Machine
  import opened Varint
  import opened Wire
  import opened Decoding
  import opened DecodingLaws

  /** The one-byte tag of a known field; every field number here is below 16. */
  function TagByte(num: int, kind: Kind): byte
    requires 1 <= num <= 15
  {
    8 * num + WireTypeOf(kind)
  }

  function EncodeEvent(ev: Event): bytes
    requires 1 <= ev.num <= 15
  {
    match ev
    case VarintEvent(num, v) => [TagByte(num, VarintKind)] + EncodeVarint(v)
    case BytesEvent(num, payload) => [TagByte(num, BytesKind)] + EncodeVarint(|payload|) + payload
  }

  predicate SmallNumbers(events: seq<Event>) {
    forall i :: 0 <= i < |events| ==> 1 <= events[i].num <= 15
  }

  function EncodeEvents(events: seq<Event>): bytes
    requires SmallNumbers(events)
  {
    if events == [] then [] else EncodeEvent(events[0]) + EncodeEvents(events[1..])
  }

  lemma {:induction false} EncodeEventsConcat(p: seq<Event>, q: seq<Event>)
    requires SmallNumbers(p) && SmallNumbers(q)
    ensures SmallNumbers(p + q) && EncodeEvents(p + q) == EncodeEvents(p) + EncodeEvents(q)
  {
    if p == [] {
      assert p + q == q;
    } else {
      assert (p + q)[1..] == p[1..] + q && (p + q)[0] == p[0];
      EncodeEventsConcat(p[1..], q);
      Assoc(EncodeEvent(p[0]), EncodeEvents(p[1..]), EncodeEvents(q));
    }
  }

  // ---------------------------------------------------------------- round trip

  /** A field with a known number and the kind the schema gives it. */
  predicate Conforms(sc: Schema, ev: Event) {
    1 <= ev.num <= 15 && ev.num in sc && sc[ev.num] == KindOf(ev)
  }

  predicate AllConform(sc: Schema, events: seq<Event>)
    ensures AllConform(sc, events) ==> SmallNumbers(events)
  {
    forall i :: 0 <= i < |events| ==> Conforms(sc, events[i])
  }

  lemma TagByteValue(num: int, kind: Kind)
    requires 1 <= num <= 15
    ensures var tag := [TagByte(num, kind)];
            IsTag(tag, WireTypeOf(kind)) && FieldNumber(VarintValue(tag)) == num
  {}

  /** An encoded field as a record of the wire grammar. */
  lemma RecordOfEvent(sc: Schema, ev: Event) returns (r: Record)
    requires Conforms(sc, ev) && |EncodeEvent(ev)| < TWO_63
    ensures Accepted(sc, r) && Spell(r) == EncodeEvent(ev) && NumberOf(r) == ev.num && EventOf(sc, r) == ev
  {
    hide ReadVarint, EncodeVarint;
    TagByteValue(ev.num, KindOf(ev));
    match ev
    case VarintEvent(num, v) =>
      EncodeVarintRoundTrip(v, []);
      r := VarintRecord([TagByte(num, VarintKind)], EncodeVarint(v));
    case BytesEvent(num, payload) =>
      EncodeVarintRoundTrip(|payload|, []);
      r := LengthRecord([TagByte(num, BytesKind)], EncodeVarint(|payload|), payload);
  }

  lemma {:induction false} RecordsOfEvents(sc: Schema, events: seq<Event>) returns (rs: Records)
    requires AllConform(sc, events) && |EncodeEvents(events)| < TWO_63
    ensures AllAccepted(sc, rs) && SpellAll(rs) == EncodeEvents(events) && EventsOf(sc, rs) == events
  {
    hide Accepted, Spell, EncodeEvent, EventOf, NumberOf;
    if events == [] {
      rs := Nil;
    } else {
      var r := RecordOfEvent(sc, events[0]);
      var tail := RecordsOfEvents(sc, events[1..]);
      rs := Cons(r, tail);
    }
  }

  /** Decoding what was encoded is applying the encoded fields, for every message type. */
  lemma DecodeEncoded<M>(sc: Schema, apply: (M, Event) -> Result<M>, m: M, events: seq<Event>)
    requires AllConform(sc, events) && |EncodeEvents(events)| < TWO_63
    ensures Decode(sc, apply, m, EncodeEvents(events)) == Fold(apply, m, events)
  {
    hide EncodeEvents, AllConform, Walk, Fold;
    var rs := RecordsOfEvents(sc, events);
    WalkRecords(sc, rs, 0);
  }
}
