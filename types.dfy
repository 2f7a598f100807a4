/** Fixed-width integer types of the reader and the two's-complement
    reinterpretations it performs with `static_cast`. */
module BymlTypes {

  type Byte = b: int | 0 <= b < 0x100
  type u16 = x: int | 0 <= x < 0x1_0000
  type u32 = x: int | 0 <= x < 0x1_0000_0000
  type u64 = x: int | 0 <= x < 0x1_0000_0000_0000_0000
  type s32 = x: int | -0x8000_0000 <= x < 0x8000_0000
  type s64 = x: int | -0x8000_0000_0000_0000 <= x < 0x8000_0000_0000_0000

  datatype Option<+T> = None | Some(value: T)

  /** Unsigned 32-bit arithmetic: the result of a `u32` expression wraps modulo 2^32. */
  function U32(x: nat): (r: u32)
    ensures x < 0x1_0000_0000 ==> r == x
    ensures (x - r) % 0x1_0000_0000 == 0
  {
    x % 0x1_0000_0000
  }

  /** `static_cast<s32>(u32)`: the two's-complement reading of a 32-bit word. */
  function ToS32(x: u32): (r: s32)
    ensures r >= 0 <==> x < 0x8000_0000
    ensures r == x || r == x - 0x1_0000_0000
  {
    if x < 0x8000_0000 then x else x - 0x1_0000_0000
  }

  /** `static_cast<u32>(s32)`, the inverse reinterpretation. */
  function FromS32(x: s32): (r: u32)
    ensures r == x || r == x + 0x1_0000_0000
  {
    if x >= 0 then x else x + 0x1_0000_0000
  }

  /** `static_cast<s64>(u64)`. */
  function ToS64(x: u64): (r: s64)
    ensures r >= 0 <==> x < 0x8000_0000_0000_0000
    ensures r == x || r == x - 0x1_0000_0000_0000_0000
  {
    if x < 0x8000_0000_0000_0000 then x else x - 0x1_0000_0000_0000_0000
  }

  /** The two 32-bit reinterpretations are inverse to each other. */
  lemma S32RoundTrip(x: u32, y: s32)
    ensures FromS32(ToS32(x)) == x
    ensures ToS32(FromS32(y)) == y
  {
  }
}
