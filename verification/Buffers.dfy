/**
 The pre-sized buffer that the encoders fill from the back: the varint writer,
 the copies and the tags, each written just below what is already there.
 */
module Buffers {
  import opened Machine
  import opened Varint
  import opened Decoding
  import opened Encoding
  import opened Messages

  /** The buffer holds `tail` from index `i` on and is otherwise as it `was`. */
  ghost predicate Filled(dAtA: array<byte>, was: bytes, i: nat, tail: bytes)
    reads dAtA
  {
    && |was| == dAtA.Length && i + |tail| <= |was|
    && dAtA[..] == was[..i] + tail + was[i + |tail|..]
  }

  lemma FilledNothing(dAtA: array<byte>, i: nat)
    requires i <= dAtA.Length
    ensures Filled(dAtA, dAtA[..], i, [])
  {}

  /** A nested message written below `tail` by a method of its own. */
  lemma FilledBelow(dAtA: array<byte>, was: bytes, before: bytes, i: nat, tail: bytes, j: nat, sub: bytes)
    requires i + |tail| <= |was| && before == was[..i] + tail + was[i + |tail|..]
    requires j + |sub| == i && Filled(dAtA, before, j, sub)
    ensures Filled(dAtA, was, j, sub + tail)
  {
    assert before[..j] == was[..j] && before[i..] == tail + was[i + |tail|..];
    Reassociate(was[..j], sub, tail, was[i + |tail|..]);
  }

  lemma Reassociate(a: bytes, b: bytes, c: bytes, d: bytes)
    ensures a + b + (c + d) == a + (b + c) + d
  {}

  lemma FilledIs(dAtA: array<byte>, was: bytes, i: nat, tail: bytes)
    requires Filled(dAtA, was, i, tail)
    ensures |was| == dAtA.Length && i + |tail| <= |was| && dAtA[..] == was[..i] + tail + was[i + |tail|..]
  {}

  /** `i--` and a store. */
  method PutByte(dAtA: array<byte>, i: nat, b: byte, ghost was: bytes, ghost tail: bytes) returns (j: nat)
    requires 0 < i && Filled(dAtA, was, i, tail)
    modifies dAtA
    ensures j == i - 1 && Filled(dAtA, was, j, [b] + tail)
  {
    ghost var before := dAtA[..];
    j := i - 1;
    dAtA[j] := b;
    assert dAtA[..] == before[..j] + [b] + before[i..];
    assert before[..j] == was[..j] && before[i..] == tail + was[i + |tail|..];
  }

  /** `i -= len(bs)` and a copy. */
  method PutBytes(dAtA: array<byte>, i: nat, bs: bytes, ghost was: bytes, ghost tail: bytes) returns (j: nat)
    requires |bs| <= i && Filled(dAtA, was, i, tail)
    modifies dAtA
    ensures j == i - |bs| && Filled(dAtA, was, j, bs + tail)
  {
    ghost var before := dAtA[..];
    j := i - |bs|;
    forall k | 0 <= k < |bs| {
      dAtA[j + k] := bs[k];
    }
    assert dAtA[..j] == before[..j] && dAtA[j..i] == bs && dAtA[i..] == before[i..];
    assert dAtA[..] == dAtA[..j] + dAtA[j..i] + dAtA[i..];
    assert before[..j] == was[..j] && before[i..] == tail + was[i + |tail|..];
  }

  lemma UpdateAfter(a: bytes, b: bytes, c: bytes, x: byte)
    requires c != []
    ensures (a + b + c)[|a| + |b| := x] == a + (b + [x]) + c[1..]
  {}

  /** A store just above what is written. */
  method PutAbove(dAtA: array<byte>, offset: nat, b: byte, ghost was: bytes, ghost base: nat, ghost written: bytes)
    requires Filled(dAtA, was, base, written) && offset == base + |written| < dAtA.Length
    modifies dAtA
    ensures Filled(dAtA, was, base, written + [b])
  {
    ghost var before := dAtA[..];
    dAtA[offset] := b;
    assert dAtA[..] == before[offset := b];
    UpdateAfter(was[..base], written, was[offset..], b);
    assert was[offset..][1..] == was[offset + 1..];
  }

  /** `encodeVarintCommon`: moves down by `sovCommon(v)`, then writes upwards. */
  method EncodeVarintCommon(dAtA: array<byte>, end: nat, value: uint64, ghost was: bytes, ghost tail: bytes)
    returns (base: nat)
    requires Sov(value) <= end && Filled(dAtA, was, end, tail)
    modifies dAtA
    ensures base == end - |EncodeVarint(value)| && Filled(dAtA, was, base, EncodeVarint(value) + tail)
  {
    hide Sov, Filled;
    SovIsEncodedLength(value);
    FilledIs(dAtA, was, end, tail);
    var offset: nat := end - Sov(value);
    base := offset;
    var v: nat := value;
    ghost var before, written: bytes := dAtA[..], [];
    FilledNothing(dAtA, base);
    while v >= 128
      invariant offset == base + |written| && offset + |EncodeVarint(v)| == end <= dAtA.Length
      invariant written + EncodeVarint(v) == EncodeVarint(value)
      invariant Filled(dAtA, before, base, written)
    {
      ghost var group := [v % 128 + 128];
      assert written + (group + EncodeVarint(v / 128)) == (written + group) + EncodeVarint(v / 128);
      PutAbove(dAtA, offset, v % 128 + 128, before, base, written);
      written := written + group;
      v := v / 128;
      offset := offset + 1;
    }
    PutAbove(dAtA, offset, v, before, base, written);
    FilledBelow(dAtA, was, before, end, tail, base, EncodeVarint(value));
  }

  // ------------------------------------------------------------- field writers

  lemma EncodeOne(ev: Event)
    requires 1 <= ev.num <= 15
    ensures EncodeEvents([ev]) == EncodeEvent(ev) && EncodeEvents([]) == []
  {
    assert EncodeEvents([ev]) == EncodeEvent(ev) + [];
  }

  method PutVarintField(dAtA: array<byte>, i: nat, tag: byte, v: uint64,
                        ghost num: int, ghost was: bytes, ghost tail: bytes)
    returns (j: nat)
    requires 1 <= num <= 15 && tag == TagByte(num, VarintKind)
    requires |EncodeEvents(VarintField(num, v))| <= i && Filled(dAtA, was, i, tail)
    modifies dAtA
    ensures j == i - |EncodeEvents(VarintField(num, v))|
    ensures Filled(dAtA, was, j, EncodeEvents(VarintField(num, v)) + tail)
  {
    hide EncodeVarint, Sov, Filled, EncodeEvents;
    EncodeOne(VarintEvent(num, v));
    j := i;
    if v != 0 {
      SovIsEncodedLength(v);
      j := EncodeVarintCommon(dAtA, j, v, was, tail);
      j := PutByte(dAtA, j, tag, was, EncodeVarint(v) + tail);
      assert [tag] + (EncodeVarint(v) + tail) == ([tag] + EncodeVarint(v)) + tail;
    } else {
      assert [] + tail == tail;
    }
  }

  method PutBoolField(dAtA: array<byte>, i: nat, tag: byte, b: bool,
                      ghost num: int, ghost was: bytes, ghost tail: bytes)
    returns (j: nat)
    requires 1 <= num <= 15 && tag == TagByte(num, VarintKind)
    requires |EncodeEvents(BoolField(num, b))| <= i && Filled(dAtA, was, i, tail)
    modifies dAtA
    ensures j == i - |EncodeEvents(BoolField(num, b))| && Filled(dAtA, was, j, EncodeEvents(BoolField(num, b)) + tail)
  {
    hide Filled, EncodeEvents;
    EncodeOne(VarintEvent(num, 1));
    assert EncodeVarint(1) == [1];
    j := i;
    if b {
      j := PutByte(dAtA, j, 1, was, tail);
      j := PutByte(dAtA, j, tag, was, [1] + tail);
      assert [tag] + ([1] + tail) == ([tag] + [1]) + tail;
    } else {
      assert [] + tail == tail;
    }
  }

  /** The length and the tag, below a payload that is already written. */
  method PutHeader(dAtA: array<byte>, i: nat, tag: byte,
                   ghost num: int, ghost payload: bytes, size: nat, ghost was: bytes, ghost tail: bytes)
    returns (j: nat)
    requires 1 <= num <= 15 && tag == TagByte(num, BytesKind)
    requires size == |payload| && dAtA.Length < TWO_63
    requires |EncodeEvents([BytesEvent(num, payload)])| <= i + size && Filled(dAtA, was, i, payload + tail)
    modifies dAtA
    ensures j == i + size - |EncodeEvents([BytesEvent(num, payload)])|
    ensures Filled(dAtA, was, j, EncodeEvents([BytesEvent(num, payload)]) + tail)
  {
    hide EncodeVarint, Sov, Filled, EncodeEvents;
    EncodeOne(BytesEvent(num, payload));
    SovIsEncodedLength(size);
    FilledIs(dAtA, was, i, payload + tail);
    ghost var len := EncodeVarint(size);
    j := EncodeVarintCommon(dAtA, i, size, was, payload + tail);
    j := PutByte(dAtA, j, tag, was, len + (payload + tail));
    assert [tag] + (len + (payload + tail)) == ([tag] + len + payload) + tail;
  }

  method PutBytesField(dAtA: array<byte>, i: nat, tag: byte, b: bytes,
                       ghost num: int, ghost was: bytes, ghost tail: bytes)
    returns (j: nat)
    requires 1 <= num <= 15 && tag == TagByte(num, BytesKind) && dAtA.Length < TWO_63
    requires |EncodeEvents(BytesField(num, b))| <= i && Filled(dAtA, was, i, tail)
    modifies dAtA
    ensures j == i - |EncodeEvents(BytesField(num, b))| && Filled(dAtA, was, j, EncodeEvents(BytesField(num, b)) + tail)
  {
    hide EncodeVarint, Filled, EncodeEvents;
    EncodeOne(BytesEvent(num, b));
    j := i;
    FilledIs(dAtA, was, i, tail);
    if |b| > 0 {
      j := PutBytes(dAtA, j, b, was, tail);
      j := PutHeader(dAtA, j, tag, num, b, |b|, was, tail);
    } else {
      assert [] + tail == tail;
    }
  }
}
