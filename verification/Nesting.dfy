/**
 Unknown fields inside nested messages. Two buffers that mean the same to a message
 type still do inside a field of a larger message, at whatever place and however its
 length is spelled; so a field of a later schema version is ignored at every level.
 */
module Nesting {
  import opened Machine
  import opened Varint
  import opened Wire
  import opened Decoding
  import opened DecodingLaws
  import opened Messages

  /** Decoded on top of any message, the two buffers give the same message, or both an error. */
  ghost predicate Alike<M(!new)>(sc: Schema, apply: (M, Event) -> Result<M>, b: bytes, b2: bytes) {
    forall m :: SameOutcome(Decode(sc, apply, m, b), Decode(sc, apply, m, b2))
  }

  /** A record between two stretches of a buffer. */
  datatype Place = Place(before: bytes, field: Record, after: bytes)

  function Fill(pl: Place): bytes { pl.before + (Spell(pl.field) + pl.after) }

  /** The record is a known field, and starts where a field can start. */
  predicate AtBoundary(sc: Schema, pl: Place) {
    && Walk(sc, pl.before).err.None? && |Fill(pl)| < TWO_63
    && Accepted(sc, pl.field) && NumberOf(pl.field) in sc
  }

  /** After a field boundary and one known field the loop goes on behind it. */
  lemma WalkPlace(sc: Schema, pl: Place)
    requires AtBoundary(sc, pl)
    ensures Walk(sc, Fill(pl)) ==
            Then(Walk(sc, pl.before),
                 Before(EventOf(sc, pl.field), Walk(sc, pl.after, |pl.before| + |Spell(pl.field)|)))
  {
    hide Accepted, Spell, EventOf, NumberOf, TakeTurn;
    WalkConcat(sc, pl.before, Spell(pl.field) + pl.after, 0);
    TurnAtAccepted(sc, pl.field, pl.after, |pl.before|);
    assert (Spell(pl.field) + pl.after)[|Spell(pl.field)|..] == pl.after;
  }

  /** Two fields that a message takes alike. */
  lemma FinishAlike<M(!new)>(apply: (M, Event) -> Result<M>, m: M, t: Trace, ev: Event, ev2: Event, u: Trace, u2: Trace)
    requires t.err.None? && SameFields(u, u2)
    requires forall m :: SameOutcome(apply(m, ev), apply(m, ev2))
    ensures SameOutcome(Finish(apply, m, Then(t, Before(ev, u))), Finish(apply, m, Then(t, Before(ev2, u2))))
  {
    hide Fold;
    FoldConcat(apply, m, t.events, [ev] + u.events);
    FoldConcat(apply, m, t.events, [ev2] + u.events);
    if Fold(apply, m, t.events).Ok? {
      FoldFirst(apply, Fold(apply, m, t.events).value, ev, u.events);
      FoldFirst(apply, Fold(apply, m, t.events).value, ev2, u.events);
    }
  }

  /** Exchanging a field for one that is taken alike does not change what the buffer means. */
  lemma InsideField<M(!new)>(sc: Schema, apply: (M, Event) -> Result<M>, pl: Place, field: Record)
    requires AtBoundary(sc, pl) && AtBoundary(sc, pl.(field := field))
    requires forall m :: SameOutcome(apply(m, EventOf(sc, pl.field)), apply(m, EventOf(sc, field)))
    ensures Alike(sc, apply, Fill(pl), Fill(pl.(field := field)))
  {
    hide Walk, Fold, EventOf, Accepted, NumberOf;
    var pl2 := pl.(field := field);
    var k, k2 := |pl.before| + |Spell(pl.field)|, |pl.before| + |Spell(field)|;
    WalkPlace(sc, pl);
    WalkPlace(sc, pl2);
    WalkAnywhere(sc, pl.after, k, k2);
    forall m ensures SameOutcome(Decode(sc, apply, m, Fill(pl)), Decode(sc, apply, m, Fill(pl2))) {
      FinishAlike(apply, m, Walk(sc, pl.before), EventOf(sc, pl.field), EventOf(sc, field),
                  Walk(sc, pl.after, k), Walk(sc, pl.after, k2));
    }
  }

  /** A nested message, with its tag and its length spelled in any way. */
  predicate Nests(sc: Schema, num: int, pl: Place, payload: bytes) {
    AtBoundary(sc, pl) && NumberOf(pl.field) == num && pl.field.LengthRecord? && pl.field.payload == payload
  }

  /** The same place with another payload. */
  predicate Swapped(sc: Schema, num: int, pl: Place, pl2: Place, b: bytes, b2: bytes) {
    && pl.before == pl2.before && pl.after == pl2.after
    && Nests(sc, num, pl, b) && Nests(sc, num, pl2, b2)
  }

  lemma NestedEvent(sc: Schema, num: int, pl: Place, b: bytes)
    requires Nests(sc, num, pl, b) && sc[num].BytesKind?
    ensures EventOf(sc, pl.field) == BytesEvent(num, b)
  {
    hide Walk, Spell;
  }

  lemma InsideNested<M(!new)>(sc: Schema, apply: (M, Event) -> Result<M>, num: int,
                              pl: Place, pl2: Place, b: bytes, b2: bytes)
    requires Swapped(sc, num, pl, pl2, b, b2) && sc[num].BytesKind?
    requires forall m :: SameOutcome(apply(m, BytesEvent(num, b)), apply(m, BytesEvent(num, b2)))
    ensures Alike(sc, apply, Fill(pl), Fill(pl2))
  {
    hide Walk, Fill, Accepted, NumberOf, EventOf;
    NestedEvent(sc, num, pl, b);
    NestedEvent(sc, num, pl2, b2);
    assert pl2 == pl.(field := pl2.field);
    InsideField(sc, apply, pl, pl2.field);
  }

  // ---------------------------------------------------- the nested message fields

  lemma RateInFeed(pl: Place, pl2: Place, b: bytes, b2: bytes)
    requires Swapped(PRICE_FEED, 3, pl, pl2, b, b2) && Alike(ORACLE_PRICE, ApplyOraclePrice, b, b2)
    ensures Alike(PRICE_FEED, ApplyPriceFeed, Fill(pl), Fill(pl2))
  {
    hide Decode, Swapped;
    forall m ensures SameOutcome(ApplyPriceFeed(m, BytesEvent(3, b)), ApplyPriceFeed(m, BytesEvent(3, b2))) {
      assert SameOutcome(DecodeOraclePrice(ZERO_ORACLE_PRICE, b), DecodeOraclePrice(ZERO_ORACLE_PRICE, b2));
    }
    InsideNested(PRICE_FEED, ApplyPriceFeed, 3, pl, pl2, b, b2);
  }

  lemma FeedInQuorum(pl: Place, pl2: Place, b: bytes, b2: bytes)
    requires Swapped(QUORUM_PRICE_FEED, 1, pl, pl2, b, b2) && Alike(PRICE_FEED, ApplyPriceFeed, b, b2)
    ensures Alike(QUORUM_PRICE_FEED, ApplyQuorumPriceFeed, Fill(pl), Fill(pl2))
  {
    hide Decode, Swapped;
    forall m: QuorumPriceFeed
      ensures SameOutcome(ApplyQuorumPriceFeed(m, BytesEvent(1, b)), ApplyQuorumPriceFeed(m, BytesEvent(1, b2)))
    {
      var feed := if m.priceFeed.Some? then m.priceFeed.value else ZERO_PRICE_FEED;
      assert SameOutcome(DecodePriceFeed(feed, b), DecodePriceFeed(feed, b2));
    }
    InsideNested(QUORUM_PRICE_FEED, ApplyQuorumPriceFeed, 1, pl, pl2, b, b2);
  }

  lemma AttestationInQuorum(pl: Place, pl2: Place, b: bytes, b2: bytes)
    requires Swapped(QUORUM_PRICE_FEED, 2, pl, pl2, b, b2) && Alike(ATTESTATION, ApplyAttestation, b, b2)
    ensures Alike(QUORUM_PRICE_FEED, ApplyQuorumPriceFeed, Fill(pl), Fill(pl2))
  {
    hide Decode, Swapped;
    forall m
      ensures SameOutcome(ApplyQuorumPriceFeed(m, BytesEvent(2, b)), ApplyQuorumPriceFeed(m, BytesEvent(2, b2)))
    {
      assert SameOutcome(DecodeAttestation(ZERO_ATTESTATION, b), DecodeAttestation(ZERO_ATTESTATION, b2));
    }
    InsideNested(QUORUM_PRICE_FEED, ApplyQuorumPriceFeed, 2, pl, pl2, b, b2);
  }

  lemma QuorumInBatch(pl: Place, pl2: Place, b: bytes, b2: bytes)
    requires Swapped(BATCH, 1, pl, pl2, b, b2) && Alike(QUORUM_PRICE_FEED, ApplyQuorumPriceFeed, b, b2)
    ensures Alike(BATCH, ApplyBatch, Fill(pl), Fill(pl2))
  {
    hide Decode, Swapped;
    forall m ensures SameOutcome(ApplyBatch(m, BytesEvent(1, b)), ApplyBatch(m, BytesEvent(1, b2))) {
      var zero := ZERO_QUORUM_PRICE_FEED;
      assert SameOutcome(DecodeQuorumPriceFeed(zero, b), DecodeQuorumPriceFeed(zero, b2));
    }
    InsideNested(BATCH, ApplyBatch, 1, pl, pl2, b, b2);
  }

  // ------------------------------------------------------ unknown fields inside

  /** A buffer with an unknown field at a field boundary. */
  predicate HasUnknown(sc: Schema, u: Place) {
    Walk(sc, u.before).err.None? && IsUnknown(sc, u.field) && |Fill(u)| < TWO_63
  }

  function Omit(u: Place): bytes { u.before + u.after }

  lemma UnknownAlike<M(!new)>(sc: Schema, apply: (M, Event) -> Result<M>, u: Place)
    requires HasUnknown(sc, u)
    ensures Alike(sc, apply, Fill(u), Omit(u))
  {
    hide Walk, Fold, Spell, IsUnknown, Decode;
    forall m ensures SameOutcome(Decode(sc, apply, m, Fill(u)), Decode(sc, apply, m, Omit(u))) {
      DecodeIgnoresUnknown(sc, apply, m, u.before, u.field, u.after);
    }
  }

  /** An unknown field in a rate, three levels below the batch. */
  lemma UnknownInRate(m: QuorumPriceFeedBatch, u: Place,
                      rate: Place, rate2: Place, feed: Place, feed2: Place, quorum: Place, quorum2: Place)
    requires HasUnknown(ORACLE_PRICE, u)
    requires Swapped(PRICE_FEED, 3, rate, rate2, Fill(u), Omit(u))
    requires Swapped(QUORUM_PRICE_FEED, 1, feed, feed2, Fill(rate), Fill(rate2))
    requires Swapped(BATCH, 1, quorum, quorum2, Fill(feed), Fill(feed2))
    ensures SameOutcome(DecodeBatch(m, Fill(quorum)), DecodeBatch(m, Fill(quorum2)))
  {
    hide Decode, Fill, Omit, Swapped, HasUnknown;
    UnknownAlike(ORACLE_PRICE, ApplyOraclePrice, u);
    RateInFeed(rate, rate2, Fill(u), Omit(u));
    FeedInQuorum(feed, feed2, Fill(rate), Fill(rate2));
    QuorumInBatch(quorum, quorum2, Fill(feed), Fill(feed2));
  }

  /** An unknown field in a price feed, also one that is decoded on top of an earlier one. */
  lemma UnknownInFeed(m: QuorumPriceFeed, u: Place, feed: Place, feed2: Place)
    requires HasUnknown(PRICE_FEED, u) && Swapped(QUORUM_PRICE_FEED, 1, feed, feed2, Fill(u), Omit(u))
    ensures SameOutcome(DecodeQuorumPriceFeed(m, Fill(feed)), DecodeQuorumPriceFeed(m, Fill(feed2)))
  {
    hide Decode, Fill, Omit, Swapped, HasUnknown;
    UnknownAlike(PRICE_FEED, ApplyPriceFeed, u);
    FeedInQuorum(feed, feed2, Fill(u), Omit(u));
  }
}
