/**
 Wire records and `skipCommon`, which steps over one record of any kind,
 nested groups included. The grammar of records below is independent of the
 scanner; the two are proved to describe the same byte strings.
 */
module Wire {
  import opened Machine
  import opened Varint

  function FieldNumber(wire: uint64): int { ToInt32(wire / 8) }

  function WireType(wire: uint64): nat { wire % 8 }

  /** The number and type of a tag that a writer makes as `8 * n + w`. */
  lemma TagSplits(n: nat, w: nat)
    requires 1 <= n < 0x2000_0000 && w < 8
    ensures FieldNumber(8 * n + w) == n && WireType(8 * n + w) == w
  {}

  /** Of any tag: the low three bits, and the rest cut to a signed 32-bit number. */
  lemma TagTruncates(wire: uint64)
    ensures -0x8000_0000 <= FieldNumber(wire) < 0x8000_0000
    ensures (FieldNumber(wire) - wire / 8) % 0x1_0000_0000 == 0
    ensures 0 <= WireType(wire) < 8 && (wire - WireType(wire)) % 8 == 0
  {}

  // ------------------------------------------------------------- the scanner

  /** How many bytes after its tag a record of this wire type takes, as `skipCommon` advances. */
  function PayloadLen(wireType: nat, rest: bytes): (r: Result<nat>) {
    match wireType
    case 0 => (match ReadUint64(rest) case Err(e) => Err(e) case Ok(x) => Ok(x.len))
    case 1 => Ok(8)
    case 2 =>
      (match ReadUint64(rest)
       case Err(e) => Err(e)
       case Ok(x) => if x.raw >= TWO_63 then Err(InvalidLength) else Ok(x.len + x.raw))
    case 3 => Ok(0)
    case 4 => Ok(0)
    case 5 => Ok(4)
    case _ => Err(IllegalWireType(wireType))
  }

  /**
   The index at which `skipCommon` stops, when it has reached index `base` with
   `depth` groups open and `s` is what remains. The result can lie past the end:
   the caller compares it with the length.
   */
  function Skip(s: bytes, base: nat := 0, depth: nat := 0): (r: Result<nat>)
    decreases |s|
  {
    if s == [] then Err(UnexpectedEOF)
    else
      match ReadUint64(s)
      case Err(e) => Err(e)
      case Ok(tag) =>
        var wireType := WireType(tag.raw);
        if wireType == 4 && depth == 0 then Err(UnexpectedEndOfGroup)
        else
          match PayloadLen(wireType, s[tag.len..])
          case Err(e) => Err(e)
          case Ok(n) =>
            var step := tag.len + n;
            var open := if wireType == 3 then depth + 1 else if wireType == 4 then depth - 1 else depth;
            if base + step >= TWO_63 then Err(InvalidLength)
            else if open == 0 then Ok(base + step)
            else if step >= |s| then Err(UnexpectedEOF)
            else Skip(s[step..], base + step, open)
  }

  /** What the loop of `skipCommon` still has to return at index `i`. */
  ghost function SkipAt(dAtA: bytes, i: nat, depth: nat): Result<nat> {
    if i >= |dAtA| then Err(UnexpectedEOF) else Skip(dAtA[i..], i, depth)
  }

  lemma SkipAtStart(dAtA: bytes)
    ensures SkipAt(dAtA, 0, 0) == Skip(dAtA)
  {
    assert dAtA[0..] == dAtA;
  }

  /** Where that loop stops with an error. */
  lemma SkipAtError(dAtA: bytes, i: nat, depth: nat)
    requires i < |dAtA|
    ensures ReadUint64(dAtA[i..]).Err? ==> SkipAt(dAtA, i, depth) == Err(ReadUint64(dAtA[i..]).error)
    ensures ReadUint64(dAtA[i..]).Ok? ==>
              var tag := ReadUint64(dAtA[i..]).value;
              if WireType(tag.raw) == 4 && depth == 0 then SkipAt(dAtA, i, depth) == Err(UnexpectedEndOfGroup)
              else PayloadLen(WireType(tag.raw), dAtA[i + tag.len..]).Err? ==>
                SkipAt(dAtA, i, depth) == Err(PayloadLen(WireType(tag.raw), dAtA[i + tag.len..]).error)
  {
    if ReadUint64(dAtA[i..]).Ok? {
      var tag := ReadUint64(dAtA[i..]).value;
      assert dAtA[i..][tag.len..] == dAtA[i + tag.len..];
    }
  }

  /** One turn of that loop. */
  lemma SkipAtStep(dAtA: bytes, i: nat, depth: nat, tag: Read, n: nat)
    requires i < |dAtA| && ReadUint64(dAtA[i..]) == Ok(tag)
    requires !(WireType(tag.raw) == 4 && depth == 0)
    requires PayloadLen(WireType(tag.raw), dAtA[i + tag.len..]) == Ok(n)
    ensures var next := i + tag.len + n;
            var open := match WireType(tag.raw) case 3 => depth + 1 case 4 => depth - 1 case _ => depth;
            SkipAt(dAtA, i, depth) ==
            if next >= TWO_63 then Err(InvalidLength)
            else if open == 0 then Ok(next)
            else SkipAt(dAtA, next, open)
  {
    var s := dAtA[i..];
    assert s[tag.len..] == dAtA[i + tag.len..];
    if tag.len + n < |s| {
      assert s[tag.len + n..] == dAtA[i + tag.len + n..];
    }
  }

  /** The `switch` of `skipCommon` on the wire type: the next index, an int64 that wraps around. */
  method SkipPayload(dAtA: bytes, start: nat, wireType: nat) returns (r: Result<int64>)
    requires start <= |dAtA| < TWO_63
    ensures match PayloadLen(wireType, dAtA[start..])
            case Err(e) => r == Err(e)
            case Ok(n) => r.Ok? && if start + n < TWO_63 then r.value == start + n else r.value < 0
  {
    hide ReadUint64;
    match wireType {
      case 0 =>
        var x := DecodeUint64(dAtA, start);
        if x.Err? { return Err(x.error); }
        return Ok(start + x.value.len);
      case 1 => return Ok(WrapInt64(start + 8));
      case 2 =>
        var x := DecodeUint64(dAtA, start);
        if x.Err? { return Err(x.error); }
        var length := ToInt64(x.value.raw);
        if length < 0 { return Err(InvalidLength); }
        return Ok(WrapInt64(start + x.value.len + length));
      case 3 => return Ok(start);
      case 4 => return Ok(start);
      case 5 => return Ok(WrapInt64(start + 4));
      case _ => return Err(IllegalWireType(wireType));
    }
  }

  method SkipCommon(dAtA: bytes) returns (r: Result<nat>)
    requires |dAtA| < TWO_63
    ensures r == Skip(dAtA)
  {
    hide Skip, ReadVarint, PayloadLen;
    var l := |dAtA|;
    var iNdEx: int := 0;
    var depth: nat := 0;
    SkipAtStart(dAtA);
    while iNdEx < l
      invariant 0 <= iNdEx && SkipAt(dAtA, iNdEx, depth) == Skip(dAtA)
      decreases l - iNdEx
    {
      ghost var start := iNdEx;
      SkipAtError(dAtA, iNdEx, depth);
      var tag := DecodeUint64(dAtA, iNdEx);
      if tag.Err? { return Err(tag.error); }
      iNdEx := iNdEx + tag.value.len;
      var wireType := WireType(tag.value.raw);
      if wireType == 4 && depth == 0 { return Err(UnexpectedEndOfGroup); }
      var next := SkipPayload(dAtA, iNdEx, wireType);
      if next.Err? { return Err(next.error); }
      SkipAtStep(dAtA, start, depth, tag.value, PayloadLen(wireType, dAtA[iNdEx..]).value);
      if wireType == 3 { depth := depth + 1; }
      if wireType == 4 { depth := depth - 1; }
      iNdEx := next.value;
      if iNdEx < 0 { return Err(InvalidLength); }
      if depth == 0 { return Ok(iNdEx); }
    }
    return Err(UnexpectedEOF);
  }

  // ------------------------------------------------------------- the grammar

  /** One field as it stands on the wire, every varint kept as the bytes that spell it. */
  datatype Record =
    | VarintRecord(tag: bytes, val: bytes)
    | Fixed64Record(tag: bytes, data: bytes)
    | LengthRecord(tag: bytes, len: bytes, payload: bytes)
    | GroupRecord(tag: bytes, body: Records, end: bytes)
    | Fixed32Record(tag: bytes, data: bytes)

  datatype Records = Nil | Cons(head: Record, tail: Records)

  function Spell(r: Record): bytes {
    match r
    case VarintRecord(tag, val) => tag + val
    case Fixed64Record(tag, data) => tag + data
    case LengthRecord(tag, len, payload) => tag + len + payload
    case GroupRecord(tag, body, end) => tag + (SpellAll(body) + end)
    case Fixed32Record(tag, data) => tag + data
  }

  function SpellAll(rs: Records): bytes {
    match rs
    case Nil => []
    case Cons(r, tail) => Spell(r) + SpellAll(tail)
  }

  predicate IsTag(b: bytes, wireType: nat) {
    IsVarint(b) && WireType(VarintValue(b)) == wireType
  }

  /**
   What `skipCommon` asks of a record. It does not compare the field number that
   closes a group with the one that opened it, and looks at no number inside.
   */
  predicate WellFormed(r: Record) {
    match r
    case VarintRecord(tag, val) => IsTag(tag, 0) && IsVarint(val)
    case Fixed64Record(tag, data) => IsTag(tag, 1) && |data| == 8
    case LengthRecord(tag, len, payload) => IsTag(tag, 2) && IsVarint(len) && VarintValue(len) == |payload| < TWO_63
    case GroupRecord(tag, body, end) => IsTag(tag, 3) && AllWellFormed(body) && IsTag(end, 4)
    case Fixed32Record(tag, data) => IsTag(tag, 5) && |data| == 4
  }

  predicate AllWellFormed(rs: Records) {
    match rs
    case Nil => true
    case Cons(r, tail) => WellFormed(r) && AllWellFormed(tail)
  }

  // ----------------------------------------------- the scanner takes a record

  lemma TagPrefix(tag: bytes, q: bytes)
    requires IsVarint(tag)
    ensures ReadUint64(tag + q) == Ok(Read(VarintValue(tag), |tag|)) && |tag| > 0
  {
    ReadVarintPrefix(tag, q, 0);
  }

  /** The part of a record after its tag. */
  function Payload(r: Record): bytes {
    match r
    case VarintRecord(_, val) => val
    case Fixed64Record(_, data) => data
    case LengthRecord(_, len, payload) => len + payload
    case GroupRecord(_, body, end) => SpellAll(body) + end
    case Fixed32Record(_, data) => data
  }

  lemma SpellIsTagAndPayload(r: Record)
    ensures Spell(r) == r.tag + Payload(r)
  {
    if r.LengthRecord? {
      assert r.tag + r.len + r.payload == r.tag + (r.len + r.payload);
    }
  }

  function TypeOf(r: Record): nat {
    match r
    case VarintRecord(_, _) => 0
    case Fixed64Record(_, _) => 1
    case LengthRecord(_, _, _) => 2
    case GroupRecord(_, _, _) => 3
    case Fixed32Record(_, _) => 5
  }

  lemma LeafPayload(r: Record, q: bytes)
    requires WellFormed(r) && !r.GroupRecord?
    ensures PayloadLen(TypeOf(r), Payload(r) + q) == Ok(|Payload(r)|)
  {
    match r {
      case VarintRecord(tag, val) =>
        ReadVarintPrefix(val, q, 0);
      case LengthRecord(tag, len, payload) =>
        assert Payload(r) + q == len + (payload + q);
        ReadVarintPrefix(len, payload + q, 0);
      case Fixed64Record(tag, data) =>
      case Fixed32Record(tag, data) =>
    }
  }

  /** The scanner at a record that is not a group. */
  lemma SkipLeaf(r: Record, q: bytes, base: nat, depth: nat)
    requires WellFormed(r) && !r.GroupRecord? && base + |Spell(r)| < TWO_63
    ensures Skip(Spell(r) + q, base, depth) ==
            if depth == 0 then Ok(base + |Spell(r)|) else Skip(q, base + |Spell(r)|, depth)
  {
    hide ReadUint64, PayloadLen, Spell, Payload;
    var s, rest := Spell(r) + q, Payload(r) + q;
    SpellIsTagAndPayload(r);
    assert s == r.tag + rest;
    TagPrefix(r.tag, rest);
    LeafPayload(r, q);
    assert s[|r.tag|..] == rest && s[|Spell(r)|..] == q;
  }

  /** The scanner at a tag that opens a group. */
  lemma SkipOpen(tag: bytes, rest: bytes, base: nat, depth: nat)
    requires IsTag(tag, 3) && base + |tag| < TWO_63
    ensures Skip(tag + rest, base, depth) == Skip(rest, base + |tag|, depth + 1)
  {
    hide ReadUint64;
    TagPrefix(tag, rest);
    assert (tag + rest)[|tag|..] == rest;
  }

  /** The scanner at a tag that closes one. */
  lemma SkipClose(end: bytes, q: bytes, base: nat, depth: nat)
    requires IsTag(end, 4) && base + |end| < TWO_63
    ensures Skip(end + q, base, depth + 1) ==
            if depth == 0 then Ok(base + |end|) else Skip(q, base + |end|, depth)
  {
    hide ReadUint64;
    TagPrefix(end, q);
    assert (end + q)[|end|..] == q;
  }

  lemma Assoc(a: bytes, b: bytes, c: bytes)
    ensures (a + b) + c == a + (b + c)
  {}

  /** The scanner steps over exactly one well-formed record, at any nesting. */
  lemma {:induction false} SkipRecord(r: Record, q: bytes, base: nat, depth: nat)
    requires WellFormed(r) && base + |Spell(r)| < TWO_63
    ensures Skip(Spell(r) + q, base, depth) ==
            if depth == 0 then Ok(base + |Spell(r)|) else Skip(q, base + |Spell(r)|, depth)
  {
    hide Skip;
    if r.GroupRecord? {
      var body := SpellAll(r.body);
      Assoc(r.tag, body + r.end, q);
      Assoc(body, r.end, q);
      SkipOpen(r.tag, body + (r.end + q), base, depth);
      SkipRecords(r.body, r.end + q, base + |r.tag|, depth + 1);
      SkipClose(r.end, q, base + |r.tag| + |body|, depth);
    } else {
      SkipLeaf(r, q, base, depth);
    }
  }

  lemma {:induction false} SkipRecords(rs: Records, q: bytes, base: nat, depth: nat)
    requires AllWellFormed(rs) && base + |SpellAll(rs)| < TWO_63 && depth > 0
    ensures Skip(SpellAll(rs) + q, base, depth) == Skip(q, base + |SpellAll(rs)|, depth)
  {
    hide Skip;
    match rs
    case Nil =>
      assert SpellAll(rs) + q == q;
    case Cons(r, tail) =>
      Assoc(Spell(r), SpellAll(tail), q);
      SkipRecord(r, SpellAll(tail) + q, base, depth);
      SkipRecords(tail, q, base + |Spell(r)|, depth);
  }

  // ----------------------------------- what the scanner takes is a record

  /** What remains of the open groups, innermost first: some records and the tag that closes each. */
  datatype Rests = Done | Rest(records: Records, end: bytes, outer: Rests)

  function SpellRests(t: Rests): bytes {
    match t
    case Done => []
    case Rest(records, end, outer) => SpellAll(records) + (end + SpellRests(outer))
  }

  predicate RestsWellFormed(t: Rests, depth: nat) {
    match t
    case Done => depth == 0
    case Rest(records, end, outer) =>
      AllWellFormed(records) && IsTag(end, 4) && depth > 0 && RestsWellFormed(outer, depth - 1)
  }

  lemma TagOf(s: bytes) returns (tag: bytes)
    requires ReadUint64(s).Ok?
    ensures var x := ReadUint64(s).value; tag == s[..x.len] && IsVarint(tag) && VarintValue(tag) == x.raw
  {
    ReadVarintExact(s, 0);
    tag := s[..ReadUint64(s).value.len];
  }

  /** The record that is not a group at the front of `s`. */
  lemma LeafOf(s: bytes, n: nat) returns (r: Record)
    requires ReadUint64(s).Ok?
    requires var x := ReadUint64(s).value;
             WireType(x.raw) !in {3, 4} && PayloadLen(WireType(x.raw), s[x.len..]) == Ok(n) && x.len + n <= |s|
    ensures WellFormed(r) && !r.GroupRecord? && Spell(r) == s[..ReadUint64(s).value.len + n]
  {
    var x := ReadUint64(s).value;
    var tag := TagOf(s);
    var rest := s[x.len..];
    assert s[..x.len + n] == tag + rest[..n];
    match WireType(x.raw) {
      case 0 =>
        var val := TagOf(rest);
        r := VarintRecord(tag, val);
      case 1 =>
        r := Fixed64Record(tag, rest[..8]);
      case 2 =>
        var len := TagOf(rest);
        r := LengthRecord(tag, len, rest[|len|..n]);
        assert rest[..n] == len + rest[|len|..n];
        SpellIsTagAndPayload(r);
      case 5 =>
        r := Fixed32Record(tag, rest[..4]);
    }
  }

  /** A record put in front of the innermost open group. */
  function Prepend(r: Record, t: Rests): (u: Rests)
    requires t.Rest?
    ensures SpellRests(u) == Spell(r) + SpellRests(t)
    ensures forall depth: nat :: WellFormed(r) && RestsWellFormed(t, depth) ==> RestsWellFormed(u, depth)
  {
    Assoc(Spell(r), SpellAll(t.records), t.end + SpellRests(t.outer));
    Rest(Cons(r, t.records), t.end, t.outer)
  }

  /** The group that a scanned tag opens, closed by what was scanned after it. */
  lemma CloseGroup(tag: bytes, t: Rests, depth: nat) returns (u: Rests)
    requires IsTag(tag, 3) && RestsWellFormed(t, depth + 1) && depth > 0
    ensures RestsWellFormed(u, depth) && SpellRests(u) == tag + SpellRests(t)
  {
    var r := GroupRecord(tag, t.records, t.end);
    var body, rest := SpellAll(t.records), SpellRests(t.outer);
    u := Prepend(r, t.outer);
    Assoc(tag, body + t.end, rest);
    Assoc(body, t.end, rest);
  }

  /** One turn of the scanner, read off a successful scan. */
  lemma SkipTurn(s: bytes, base: nat, depth: nat, n: nat) returns (x: Read, step: nat, open: nat)
    requires Skip(s, base, depth) == Ok(n) && n <= base + |s|
    ensures ReadUint64(s) == Ok(x) && PayloadLen(WireType(x.raw), s[x.len..]) == Ok(step - x.len)
    ensures match WireType(x.raw)
            case 3 => open == depth + 1 && step == x.len
            case 4 => open == depth - 1 && step == x.len
            case _ => open == depth
    ensures if open == 0 then n == base + step else step < |s| && Skip(s[step..], base + step, open) == Ok(n)
  {
    hide ReadUint64;
    x := ReadUint64(s).value;
    var wireType := WireType(x.raw);
    step := x.len + PayloadLen(wireType, s[x.len..]).value;
    open := if wireType == 3 then depth + 1 else if wireType == 4 then depth - 1 else depth;
  }

  lemma {:induction false} RestsOf(s: bytes, base: nat, depth: nat, n: nat) returns (t: Rests)
    requires depth > 0 && Skip(s, base, depth) == Ok(n) && n <= base + |s|
    ensures base <= n && RestsWellFormed(t, depth) && SpellRests(t) == s[..n - base]
    decreases |s|
  {
    hide Skip, ReadVarint, PayloadLen;
    var x, step, open := SkipTurn(s, base, depth, n);
    if open == 0 {
      var end := TagOf(s);
      t := Rest(Nil, end, Done);
    } else {
      var u := RestsOf(s[step..], base + step, open, n);
      assert s[..n - base] == s[..step] + s[step..][..n - base - step];
      if WireType(x.raw) == 4 {
        var end := TagOf(s);
        t := Rest(Nil, end, u);
      } else if WireType(x.raw) == 3 {
        var tag := TagOf(s);
        t := CloseGroup(tag, u, depth);
      } else {
        var r := LeafOf(s, step - x.len);
        t := Prepend(r, u);
      }
    }
  }

  lemma RecordOf(s: bytes, n: nat) returns (r: Record)
    requires Skip(s) == Ok(n) && n <= |s|
    ensures WellFormed(r) && Spell(r) == s[..n]
  {
    hide ReadVarint, PayloadLen;
    var x, step, open := SkipTurn(s, 0, 0, n);
    assert WireType(x.raw) != 4;
    hide Skip;
    if WireType(x.raw) == 3 {
      var tag := TagOf(s);
      var t := RestsOf(s[x.len..], x.len, 1, n);
      r := GroupRecord(tag, t.records, t.end);
      assert t.outer == Done && t.end + [] == t.end;
      assert s[..n] == tag + s[x.len..][..n - x.len];
    } else {
      r := LeafOf(s, n - x.len);
    }
  }

  /**
   `skipCommon` stops inside the buffer at `n` exactly when the first `n` bytes
   spell one well-formed record.
   */
  lemma SkipIsExact(s: bytes, n: nat)
    requires |s| < TWO_63 && n <= |s|
    ensures Skip(s) == Ok(n) <==> exists r :: WellFormed(r) && Spell(r) == s[..n]
  {
    hide Skip, WellFormed, Spell;
    if Skip(s) == Ok(n) {
      var r := RecordOf(s, n);
    }
    forall r | WellFormed(r) && Spell(r) == s[..n]
      ensures Skip(s) == Ok(n)
    {
      assert s == Spell(r) + s[n..];
      SkipRecord(r, s[n..], 0, 0);
    }
  }
}
