/**
 Go's fixed-width integers as subsets of the mathematical integers, with every
 conversion that truncates or changes sign written out.
 */
module Machine {
  const TWO_31: int := 0x8000_0000
  const TWO_32: int := 0x1_0000_0000
  const TWO_63: int := 0x8000_0000_0000_0000
  const TWO_64: int := 0x1_0000_0000_0000_0000

  type byte = x: int | 0 <= x < 256
  type bytes = seq<byte>
  type uint32 = x: int | 0 <= x < TWO_32
  type int64 = x: int | -TWO_63 <= x < TWO_63
  type uint64 = x: int | 0 <= x < TWO_64

  datatype Option<+T> = None | Some(value: T)

  /** `int64(x)`: reinterprets the top bit as a sign. */
  function ToInt64(x: uint64): int64 {
    if x < TWO_63 then x else x - TWO_64
  }

  /** `uint64(x)`: two's complement. */
  function ToUint64(x: int64): uint64 {
    if x >= 0 then x else x + TWO_64
  }

  /** `int32(x)`: keeps the low 32 bits and reads them as signed. */
  function ToInt32(x: nat): int {
    var y := x % TWO_32;
    if y < TWO_31 then y else y - TWO_32
  }

  /** The sum of two ints that Go would compute, with two's complement wrap-around. */
  function WrapInt64(x: int): int64 {
    var y := x % TWO_64;
    if y < TWO_63 then y else y - TWO_64
  }

  /** Every conversion differs from its argument by a multiple of two to its width; its type gives the range. */
  lemma ConversionsWrap(x: uint64, y: int64, z: int)
    ensures (ToInt64(x) - x) % 0x1_0000_0000_0000_0000 == 0
    ensures (ToUint64(y) - y) % 0x1_0000_0000_0000_0000 == 0
    ensures (WrapInt64(z) - z) % 0x1_0000_0000_0000_0000 == 0
    ensures (ToInt32(x) - x) % 0x1_0000_0000 == 0 && -0x8000_0000 <= ToInt32(x) < 0x8000_0000
  {}
}
