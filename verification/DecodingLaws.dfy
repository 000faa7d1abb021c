/** What every generated decoder promises, whatever its message type. */
module DecodingLaws {
  import opened Machine
  import opened Varint
  import opened Wire
  import opened Decoding

  // ------------------------------------------- bytes after a field are not read

  lemma ReadUint64Prefix(s: bytes, q: bytes)
    requires ReadUint64(s).Ok?
    ensures ReadUint64(s + q) == ReadUint64(s)
  {
    ReadVarintPrefix(s, q, 0);
  }

  lemma SkipPrefix(s: bytes, q: bytes)
    requires Skip(s).Ok? && Skip(s).value <= |s| && |s| < TWO_63
    ensures Skip(s + q) == Skip(s)
  {
    hide Skip, WellFormed, Spell;
    var n := Skip(s).value;
    var r := RecordOf(s, n);
    assert s + q == Spell(r) + (s[n..] + q);
    SkipRecord(r, s[n..] + q, 0, 0);
  }

  lemma DelimitedPrefix(s: bytes, q: bytes, base: nat)
    requires ReadDelimited(s, base).Ok?
    ensures ReadDelimited(s + q, base) == ReadDelimited(s, base)
  {
    ReadUint64Prefix(s, q);
    var x := ReadUint64(s).value;
    hide ReadUint64;
    assert (s + q)[x.len..x.len + x.raw] == s[x.len..x.len + x.raw];
  }

  lemma KnownPrefix(kind: Kind, num: int, s: bytes, q: bytes, base: nat, tagLen: nat)
    requires !KnownField(kind, num, s, base, tagLen).Stop?
    ensures KnownField(kind, num, s + q, base, tagLen) == KnownField(kind, num, s, base, tagLen)
  {
    hide ReadUint64, ReadDelimited;
    match kind
    case VarintKind => ReadUint64Prefix(s, q);
    case BytesKind => DelimitedPrefix(s, q, base);
  }

  lemma TurnPrefix(sc: Schema, s: bytes, q: bytes, base: nat)
    requires s != [] && |s| < TWO_63 && !TakeTurn(sc, s, base).Stop?
    ensures TakeTurn(sc, s + q, base) == TakeTurn(sc, s, base)
  {
    ReadUint64Prefix(s, q);
    var tag := ReadUint64(s).value;
    var num := FieldNumber(tag.raw);
    hide Skip, ReadUint64, FieldNumber, WireType, KnownField;
    if num !in sc {
      SkipPrefix(s, q);
    } else {
      assert (s + q)[tag.len..] == s[tag.len..] + q;
      KnownPrefix(sc[num], num, s[tag.len..], q, base + tag.len, tag.len);
    }
  }

  function Then(t: Trace, u: Trace): Trace { Trace(t.events + u.events, u.err) }

  /** After a buffer that ends at a field boundary the loop goes on with the next buffer. */
  lemma {:induction false} WalkConcat(sc: Schema, p: bytes, q: bytes, base: nat)
    requires Walk(sc, p, base).err.None? && |p| < TWO_63
    ensures Walk(sc, p + q, base) == Then(Walk(sc, p, base), Walk(sc, q, base + |p|))
    decreases |p|
  {
    hide TakeTurn;
    if p == [] {
      assert p + q == q;
      var u := Walk(sc, q, base);
      assert [] + u.events == u.events;
    } else {
      var t := TakeTurn(sc, p, base);
      TurnPrefix(sc, p, q, base);
      assert (p + q)[t.len..] == p[t.len..] + q;
      WalkConcat(sc, p[t.len..], q, base + t.len);
      if t.Known? {
        var a, b := Walk(sc, p[t.len..], base + t.len), Walk(sc, q, base + |p|);
        assert [t.ev] + (a.events + b.events) == ([t.ev] + a.events) + b.events;
      }
    }
  }

  // -------------------------------- where a buffer stands only tells errors apart

  lemma TurnAnywhere(sc: Schema, s: bytes, b: nat, c: nat)
    requires s != [] && b + |s| < TWO_63 && c + |s| < TWO_63
    ensures TakeTurn(sc, s, b) == TakeTurn(sc, s, c) || (TakeTurn(sc, s, b).Stop? && TakeTurn(sc, s, c).Stop?)
  {
    hide Skip, ReadUint64, FieldNumber, WireType;
  }

  predicate SameFields(t: Trace, u: Trace) {
    t.events == u.events && (t.err.None? <==> u.err.None?)
  }

  lemma {:induction false} WalkAnywhere(sc: Schema, s: bytes, b: nat, c: nat)
    requires b + |s| < TWO_63 && c + |s| < TWO_63
    ensures SameFields(Walk(sc, s, b), Walk(sc, s, c))
    decreases |s|
  {
    hide TakeTurn;
    if s != [] {
      TurnAnywhere(sc, s, b, c);
      var t := TakeTurn(sc, s, b);
      if !t.Stop? {
        WalkAnywhere(sc, s[t.len..], b + t.len, c + t.len);
      }
    }
  }

  // ------------------------------------------------ the language of the decoders

  /** The tag of a well-formed record. */
  function TagBytes(r: Record): (b: bytes)
    requires WellFormed(r)
    ensures IsTag(b, TypeOf(r)) && b == r.tag
  {
    r.tag
  }

  function NumberOf(r: Record): int
    requires WellFormed(r)
  {
    FieldNumber(VarintValue(TagBytes(r)))
  }

  /** A record the loop takes: a positive number, of the right wire type when it is known. */
  predicate Accepted(sc: Schema, r: Record) {
    WellFormed(r) && NumberOf(r) > 0 && (NumberOf(r) in sc ==> TypeOf(r) == WireTypeOf(sc[NumberOf(r)]))
  }

  predicate AllAccepted(sc: Schema, rs: Records) {
    match rs
    case Nil => true
    case Cons(r, tail) => Accepted(sc, r) && AllAccepted(sc, tail)
  }

  /** The field a known record carries. */
  function EventOf(sc: Schema, r: Record): (ev: Event)
    requires Accepted(sc, r) && NumberOf(r) in sc
    ensures ev.num == NumberOf(r) && KindOf(ev) == sc[NumberOf(r)]
  {
    match sc[NumberOf(r)]
    case VarintKind => VarintEvent(NumberOf(r), VarintValue(r.val))
    case BytesKind => BytesEvent(NumberOf(r), r.payload)
  }

  function EventsOf(sc: Schema, rs: Records): seq<Event>
    requires AllAccepted(sc, rs)
  {
    match rs
    case Nil => []
    case Cons(r, tail) =>
      if NumberOf(r) in sc then [EventOf(sc, r)] + EventsOf(sc, tail) else EventsOf(sc, tail)
  }

  lemma TagAtRecord(r: Record, q: bytes)
    requires WellFormed(r)
    ensures ReadUint64(Spell(r) + q) == Ok(Read(VarintValue(TagBytes(r)), |r.tag|)) && |r.tag| > 0
    ensures Spell(r) + q == r.tag + (Payload(r) + q)
  {
    SpellIsTagAndPayload(r);
    Assoc(r.tag, Payload(r), q);
    TagPrefix(r.tag, Payload(r) + q);
  }

  lemma KnownAtRecord(sc: Schema, r: Record, q: bytes, base: nat)
    requires Accepted(sc, r) && NumberOf(r) in sc && base + |Spell(r)| < TWO_63
    ensures KnownField(sc[NumberOf(r)], NumberOf(r), Payload(r) + q, base + |r.tag|, |r.tag|)
            == Known(EventOf(sc, r), |Spell(r)|)
  {
    hide ReadVarint;
    SpellIsTagAndPayload(r);
    match r
    case VarintRecord(tag, val) =>
      TagPrefix(val, q);
    case LengthRecord(tag, len, payload) =>
      Assoc(len, payload, q);
      TagPrefix(len, payload + q);
      assert (len + (payload + q))[|len|..|len| + |payload|] == payload;
    case _ =>
  }

  lemma TurnAtAccepted(sc: Schema, r: Record, q: bytes, base: nat)
    requires Accepted(sc, r) && base + |Spell(r)| < TWO_63
    ensures Spell(r) != []
    ensures TakeTurn(sc, Spell(r) + q, base) ==
            if NumberOf(r) in sc then Known(EventOf(sc, r), |Spell(r)|) else Unknown(|Spell(r)|)
  {
    hide Skip, ReadUint64, FieldNumber, WellFormed, Spell, KnownField, EventOf, Payload;
    TagAtRecord(r, q);
    SpellIsTagAndPayload(r);
    if NumberOf(r) in sc {
      KnownAtRecord(sc, r, q, base);
      assert (r.tag + (Payload(r) + q))[|r.tag|..] == Payload(r) + q;
    } else {
      SkipRecord(r, q, 0, 0);
    }
  }

  lemma {:induction false} WalkRecords(sc: Schema, rs: Records, base: nat)
    requires AllAccepted(sc, rs) && base + |SpellAll(rs)| < TWO_63
    ensures Walk(sc, SpellAll(rs), base) == Trace(EventsOf(sc, rs), None)
  {
    hide TakeTurn, Accepted, Spell, EventOf, NumberOf;
    match rs
    case Nil =>
    case Cons(r, tail) =>
      TurnAtAccepted(sc, r, SpellAll(tail), base);
      assert (Spell(r) + SpellAll(tail))[|Spell(r)|..] == SpellAll(tail);
      WalkRecords(sc, tail, base + |Spell(r)|);
  }

  /** The record behind one successful turn. */
  lemma RecordOfTurn(sc: Schema, s: bytes, base: nat) returns (r: Record)
    requires s != [] && !TakeTurn(sc, s, base).Stop?
    ensures Accepted(sc, r) && Spell(r) == s[..TakeTurn(sc, s, base).len]
  {
    hide ReadVarint, Skip;
    var tag := ReadUint64(s).value;
    var num := FieldNumber(tag.raw);
    var n := TakeTurn(sc, s, base).len;
    if num in sc {
      r := LeafOf(s, n - tag.len);
    } else {
      r := RecordOf(s, n);
    }
    SameTag(r, s, n);
  }

  /** A record that spells the front of `s` has the tag found there. */
  lemma SameTag(r: Record, s: bytes, n: nat)
    requires WellFormed(r) && n <= |s| && Spell(r) == s[..n]
    ensures ReadUint64(s) == Ok(Read(VarintValue(TagBytes(r)), |r.tag|))
    ensures WireType(VarintValue(TagBytes(r))) == TypeOf(r)
  {
    hide WellFormed, Spell, ReadUint64;
    TagAtRecord(r, s[n..]);
    assert s == Spell(r) + s[n..];
  }

  lemma {:induction false} RecordsOfWalk(sc: Schema, s: bytes, base: nat) returns (rs: Records)
    requires Walk(sc, s, base).err.None?
    ensures AllAccepted(sc, rs) && SpellAll(rs) == s
    decreases |s|
  {
    hide TakeTurn, Accepted, Spell;
    if s == [] {
      rs := Nil;
    } else {
      var n := TakeTurn(sc, s, base).len;
      var r := RecordOfTurn(sc, s, base);
      var tail := RecordsOfWalk(sc, s[n..], base + n);
      rs := Cons(r, tail);
      assert s == s[..n] + s[n..];
    }
  }

  /**
   The loop ends without a wire error exactly when the whole buffer, to its last
   byte, spells a list of accepted records, and then it has seen exactly the known
   ones. So the check after the loop, that the index passed the end, never fires.
   */
  lemma WalkIsExact(sc: Schema, s: bytes)
    requires |s| < TWO_63
    ensures Walk(sc, s).err.None? <==> exists rs :: AllAccepted(sc, rs) && SpellAll(rs) == s
    ensures forall rs :: AllAccepted(sc, rs) && SpellAll(rs) == s ==> Walk(sc, s).events == EventsOf(sc, rs)
  {
    hide Walk, SpellAll, AllAccepted, EventsOf;
    if Walk(sc, s).err.None? {
      var rs := RecordsOfWalk(sc, s, 0);
    }
    forall rs | AllAccepted(sc, rs) && SpellAll(rs) == s
      ensures Walk(sc, s) == Trace(EventsOf(sc, rs), None)
    {
      WalkRecords(sc, rs, 0);
    }
  }

  /** A field that this message type does not know. */
  predicate IsUnknown(sc: Schema, r: Record) {
    Accepted(sc, r) && NumberOf(r) !in sc
  }

  lemma WalkUnknown(sc: Schema, r: Record, q: bytes, base: nat)
    requires IsUnknown(sc, r) && base + |Spell(r)| < TWO_63
    ensures Walk(sc, Spell(r) + q, base) == Walk(sc, q, base + |Spell(r)|)
  {
    hide TakeTurn, Accepted, Spell, EventOf, NumberOf;
    TurnAtAccepted(sc, r, q, base);
    assert (Spell(r) + q)[|Spell(r)|..] == q;
  }

  // -------------------------------------------------------- laws of the decoders

  /** Equal messages, or an error on both sides. */
  predicate SameOutcome<M(==)>(a: Result<M>, b: Result<M>) {
    a == b || (a.Err? && b.Err?)
  }

  lemma {:induction false} FoldConcat<M>(apply: (M, Event) -> Result<M>, m: M, p: seq<Event>, q: seq<Event>)
    ensures Fold(apply, m, p + q) ==
            match Fold(apply, m, p) case Err(e) => Err(e) case Ok(m') => Fold(apply, m', q)
  {
    if p == [] {
      assert p + q == q;
    } else {
      assert (p + q)[1..] == p[1..] + q;
      match apply(m, p[0])
      case Err(_) =>
      case Ok(m') => FoldConcat(apply, m', p[1..], q);
    }
  }

  lemma {:induction false} FoldFirst<M>(apply: (M, Event) -> Result<M>, m: M, ev: Event, rest: seq<Event>)
    ensures Fold(apply, m, [ev] + rest) ==
            match apply(m, ev) case Err(e) => Err(e) case Ok(m') => Fold(apply, m', rest)
  {
    assert ([ev] + rest)[1..] == rest;
  }

  lemma FinishThen<M>(apply: (M, Event) -> Result<M>, m: M, t: Trace, u: Trace, u': Trace)
    requires t.err.None? && SameFields(u, u')
    ensures Finish(apply, m, t).Ok? ==>
              SameOutcome(Finish(apply, m, Then(t, u)), Finish(apply, Finish(apply, m, t).value, u'))
    ensures SameOutcome(Finish(apply, m, Then(t, u)), Finish(apply, m, Then(t, u')))
  {
    FoldConcat(apply, m, t.events, u.events);
  }

  /** "Last one wins": decoding `p` followed by `q` is decoding `q` on top of what `p` gave. */
  lemma DecodeConcat<M>(sc: Schema, apply: (M, Event) -> Result<M>, m: M, p: bytes, q: bytes)
    requires |p| + |q| < TWO_63 && Decode(sc, apply, m, p).Ok?
    ensures SameOutcome(Decode(sc, apply, m, p + q), Decode(sc, apply, Decode(sc, apply, m, p).value, q))
  {
    hide Walk, Fold;
    WalkConcat(sc, p, q, 0);
    WalkAnywhere(sc, q, |p|, 0);
    FinishThen(apply, m, Walk(sc, p), Walk(sc, q, |p|), Walk(sc, q));
  }

  /**
   A field of a later schema version, groups of any depth included, put at any
   field boundary leaves the decoded message as it was.
   */
  lemma DecodeIgnoresUnknown<M>(sc: Schema, apply: (M, Event) -> Result<M>, m: M, p: bytes, r: Record, q: bytes)
    requires Walk(sc, p).err.None? && IsUnknown(sc, r) && |p| + |Spell(r)| + |q| < TWO_63
    ensures SameOutcome(Decode(sc, apply, m, p + (Spell(r) + q)), Decode(sc, apply, m, p + q))
  {
    hide Walk, Fold, Spell, IsUnknown;
    WalkConcat(sc, p, Spell(r) + q, 0);
    WalkConcat(sc, p, q, 0);
    WalkUnknown(sc, r, q, |p|);
    WalkAnywhere(sc, q, |p| + |Spell(r)|, |p|);
    FinishThen(apply, m, Walk(sc, p), Walk(sc, q, |p| + |Spell(r)|), Walk(sc, q, |p|));
  }

  /**
   The same in plain arithmetic: any well-formed record whose tag, without its low three
   bits, is a positive 32-bit number that the message type does not list, such as the
   tag `8 * n + w` of a field `n` from a later schema.
   */
  lemma DecodeIgnoresNumber<M>(sc: Schema, apply: (M, Event) -> Result<M>, m: M, p: bytes, r: Record, q: bytes, n: int)
    requires Walk(sc, p).err.None? && |p| + |Spell(r)| + |q| < TWO_63 && WellFormed(r)
    requires 0 < n < 0x8000_0000 && VarintValue(TagBytes(r)) / 8 % 0x1_0000_0000 == n && n !in sc
    ensures SameOutcome(Decode(sc, apply, m, p + (Spell(r) + q)), Decode(sc, apply, m, p + q))
  {
    hide Walk, Fold, Spell, WellFormed, Decode;
    DecodeIgnoresUnknown(sc, apply, m, p, r, q);
  }

  /** A tag `8 * n + w` is taken for field `n` and no other, whether the message type lists it or not. */
  lemma AcceptedIff(sc: Schema, r: Record, n: nat)
    requires WellFormed(r) && VarintValue(TagBytes(r)) == 8 * n + TypeOf(r) && 1 <= n < 0x2000_0000
    ensures Accepted(sc, r) <==> n !in sc || TypeOf(r) == (match sc[n] case VarintKind => 0 case BytesKind => 2)
    ensures Accepted(sc, r) && n in sc && sc[n].BytesKind? ==> EventOf(sc, r) == BytesEvent(n, r.payload)
    ensures Accepted(sc, r) && n in sc && sc[n].VarintKind? ==> EventOf(sc, r) == VarintEvent(n, VarintValue(r.val))
  {
    hide Spell;
    TagSplits(n, TypeOf(r));
  }

  /**
   Exactly what a decoder accepts and returns: the whole buffer spells accepted
   records, and the message is what its known ones give when applied in order.
   */
  lemma DecodeOkIff<M>(sc: Schema, apply: (M, Event) -> Result<M>, m: M, s: bytes, m': M)
    requires |s| < TWO_63
    ensures Decode(sc, apply, m, s) == Ok(m') <==>
            exists rs :: AllAccepted(sc, rs) && SpellAll(rs) == s && Fold(apply, m, EventsOf(sc, rs)) == Ok(m')
  {
    hide Walk, SpellAll, AllAccepted, EventsOf, Fold;
    WalkIsExact(sc, s);
  }
}
