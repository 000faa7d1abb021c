/**
 Input that is cut off: whatever field the cut falls into, however deep in nested
 groups, every decoder reports an unexpected end of input and nothing else.
 */
module Truncation {
  import opened Machine
  import opened Varint
  import opened Wire
  import opened Decoding
  import opened DecodingLaws

  lemma {:induction false} ReadVarintCut(b: bytes, n: nat, k: nat)
    requires ReadVarint(b, k).Ok? && ReadVarint(b, k).value.len == |b| && n < |b|
    ensures ReadVarint(b[..n], k) == Err(UnexpectedEOF)
  {
    if n > 0 {
      assert b[0] >= 0x80;
      assert b[..n][0] == b[0] && b[..n][1..] == b[1..][..n - 1];
      ReadVarintCut(b[1..], n - 1, k + 1);
    }
  }

  lemma CutVarint(b: bytes, t: bytes)
    requires IsVarint(b) && t < b
    ensures ReadUint64(t) == Err(UnexpectedEOF)
  {
    assert t == b[..|t|];
    ReadVarintCut(b, |t|, 0);
  }

  /** A proper prefix of two joined parts is cut in the first or in the second. */
  lemma CutWhere(a: bytes, b: bytes, t: bytes)
    requires t < a + b
    ensures |t| < |a| ==> t < a
    ensures |t| >= |a| ==> t == a + t[|a|..] && t[|a|..] < b
  {
    assert t == (a + b)[..|t|];
    if |t| >= |a| {
      assert t[|a|..] == b[..|t| - |a|];
    } else {
      assert t == a[..|t|];
    }
  }

  // ------------------------------------------------------------------ the scanner

  /** The end is reported, or left to the caller as an index past it; never the latter inside a group. */
  predicate Ends(r: Result<nat>, base: nat, depth: nat, whole: nat) {
    r == Err(UnexpectedEOF) || (depth == 0 && r == Ok(base + whole))
  }

  lemma LeafPayloadCut(r: Record, u: bytes)
    requires WellFormed(r) && !r.GroupRecord? && u < Payload(r)
    ensures PayloadLen(TypeOf(r), u) == Err(UnexpectedEOF) || PayloadLen(TypeOf(r), u) == Ok(|Payload(r)|)
  {
    hide ReadUint64;
    match r
    case VarintRecord(_, val) => CutVarint(val, u);
    case LengthRecord(_, len, payload) =>
      CutWhere(len, payload, u);
      if |u| < |len| {
        CutVarint(len, u);
      } else {
        TagPrefix(len, u[|len|..]);
      }
    case _ =>
  }

  lemma SkipLeafCut(r: Record, t: bytes, base: nat, depth: nat)
    requires WellFormed(r) && !r.GroupRecord? && base + |Spell(r)| < TWO_63 && t < Spell(r)
    ensures Ends(Skip(t, base, depth), base, depth, |Spell(r)|)
  {
    hide ReadUint64, PayloadLen, Spell, Payload;
    SpellIsTagAndPayload(r);
    CutWhere(r.tag, Payload(r), t);
    if |t| < |r.tag| {
      CutVarint(r.tag, t);
    } else {
      var u := t[|r.tag|..];
      TagPrefix(r.tag, u);
      LeafPayloadCut(r, u);
    }
  }

  lemma {:induction false} SkipCut(r: Record, t: bytes, base: nat, depth: nat)
    requires WellFormed(r) && base + |Spell(r)| < TWO_63 && t < Spell(r)
    ensures Ends(Skip(t, base, depth), base, depth, |Spell(r)|)
  {
    hide Skip, ReadUint64;
    if r.GroupRecord? {
      var inside := SpellAll(r.body) + r.end;
      CutWhere(r.tag, inside, t);
      if |t| < |r.tag| {
        CutVarint(r.tag, t);
        SkipNothing(t, base, depth);
      } else {
        var u := t[|r.tag|..];
        SkipOpen(r.tag, u, base, depth);
        SkipCutInside(r.body, r.end, u, base + |r.tag|, depth + 1);
      }
    } else {
      SkipLeafCut(r, t, base, depth);
    }
  }

  lemma SkipNothing(t: bytes, base: nat, depth: nat)
    requires ReadUint64(t) == Err(UnexpectedEOF)
    ensures Skip(t, base, depth) == Err(UnexpectedEOF)
  {}

  lemma {:induction false} SkipCutInside(rs: Records, end: bytes, t: bytes, base: nat, depth: nat)
    requires AllWellFormed(rs) && IsTag(end, 4) && depth > 0
    requires t < SpellAll(rs) + end && base + |SpellAll(rs)| + |end| < TWO_63
    ensures Skip(t, base, depth) == Err(UnexpectedEOF)
  {
    hide Skip, ReadUint64, Spell, WellFormed;
    match rs
    case Nil =>
      assert SpellAll(rs) + end == end;
      CutVarint(end, t);
      SkipNothing(t, base, depth);
    case Cons(r, tail) =>
      var rest := SpellAll(tail) + end;
      Assoc(Spell(r), SpellAll(tail), end);
      CutWhere(Spell(r), rest, t);
      if |t| < |Spell(r)| {
        SkipCut(r, t, base, depth);
      } else {
        var u := t[|Spell(r)|..];
        SkipRecord(r, u, base, depth);
        SkipCutInside(tail, end, u, base + |Spell(r)|, depth);
      }
  }

  // ----------------------------------------------------------------- the decoders

  lemma KnownCut(sc: Schema, r: Record, u: bytes, base: nat)
    requires Accepted(sc, r) && NumberOf(r) in sc && base + |Spell(r)| < TWO_63 && u < Payload(r)
    ensures KnownField(sc[NumberOf(r)], NumberOf(r), u, base + |r.tag|, |r.tag|) == Stop(UnexpectedEOF)
  {
    hide ReadUint64;
    SpellIsTagAndPayload(r);
    match r
    case VarintRecord(tag, val) => CutVarint(val, u);
    case LengthRecord(tag, len, payload) =>
      CutWhere(len, payload, u);
      if |u| < |len| {
        CutVarint(len, u);
      } else {
        TagPrefix(len, u[|len|..]);
      }
    case _ =>
  }

  lemma TurnCut(sc: Schema, r: Record, t: bytes, base: nat)
    requires Accepted(sc, r) && base + |Spell(r)| < TWO_63 && t < Spell(r) && t != []
    ensures TakeTurn(sc, t, base) == Stop(UnexpectedEOF)
  {
    hide ReadUint64, KnownField, WellFormed, Spell, Payload, Skip, FieldNumber;
    SpellIsTagAndPayload(r);
    TagAtRecord(r, []);
    CutWhere(r.tag, Payload(r), t);
    if |t| < |r.tag| {
      CutVarint(TagBytes(r), t);
    } else {
      var u := t[|r.tag|..];
      TagPrefix(TagBytes(r), u);
      if NumberOf(r) in sc {
        KnownCut(sc, r, u, base);
      } else {
        SkipCut(r, t, 0, 0);
      }
    }
  }

  lemma {:induction false} WalkCut(sc: Schema, rs: Records, r: Record, t: bytes, base: nat)
    requires AllAccepted(sc, rs) && Accepted(sc, r) && t < Spell(r) && t != []
    requires base + |SpellAll(rs)| + |Spell(r)| < TWO_63
    ensures Walk(sc, SpellAll(rs) + t, base) == Trace(EventsOf(sc, rs), Some(UnexpectedEOF))
  {
    hide TakeTurn, Accepted, Spell, EventOf, NumberOf;
    match rs
    case Nil =>
      assert SpellAll(rs) + t == t;
      TurnCut(sc, r, t, base);
    case Cons(first, tail) =>
      var rest := SpellAll(tail) + t;
      Assoc(Spell(first), SpellAll(tail), t);
      TurnAtAccepted(sc, first, rest, base);
      assert (Spell(first) + rest)[|Spell(first)|..] == rest;
      WalkCut(sc, tail, r, t, base + |Spell(first)|);
  }

  /**
   A buffer that ends inside a field after some whole ones: unless one of the whole
   fields is itself in error, every decoder answers that the input ended too early.
   */
  lemma DecodeTruncated<M>(sc: Schema, apply: (M, Event) -> Result<M>, m: M, rs: Records, r: Record, t: bytes)
    requires AllAccepted(sc, rs) && Accepted(sc, r) && t < Spell(r) && t != []
    requires |SpellAll(rs)| + |Spell(r)| < TWO_63
    ensures Decode(sc, apply, m, SpellAll(rs) + t) ==
            match Fold(apply, m, EventsOf(sc, rs)) case Err(e) => Err(e) case Ok(_) => Err(UnexpectedEOF)
  {
    hide Walk, AllAccepted, Accepted, Spell, SpellAll, Fold, EventsOf;
    WalkCut(sc, rs, r, t, 0);
  }
}
