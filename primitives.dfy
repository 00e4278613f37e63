/**
 * Fixed-width integers, bytes and colours shared by the renderer, the buffers and the
 * terminal-size code.  Integers in Dafny are unbounded, so every Rust width used here is
 * a subset type and every wrap-around or saturation is written out.
 */
module Primitives {
  const U16_LIMIT: int := 0x1_0000
  const U16_MAX: int := 0xFFFF
  const U32_LIMIT: int := 0x1_0000_0000

  type u16 = x: int | 0 <= x < 0x1_0000
  type u32 = x: int | 0 <= x < 0x1_0000_0000

  /** A raw byte, as found in a video buffer or an environment variable. */
  type byte = bv8

  /** `Rgb<u8>` from the `rgb` crate: three colour channels laid out as r, g, b. */
  datatype Rgb = Rgb(r: byte, g: byte, b: byte)

  /** `Rgb::new(0, 0, 0)`, which is also the all-zero bit pattern of the type. */
  const Black: Rgb := Rgb(0, 0, 0)

  /** `a + b` on `u16` in a release build, where overflow checks are off and the sum wraps. */
  function AddU16(a: u16, b: u16): (r: u16)
    ensures a + b < U16_LIMIT ==> r == a + b
    ensures a + b >= U16_LIMIT ==> r == a + b - U16_LIMIT
  {
    if a + b < U16_LIMIT then a + b else a + b - U16_LIMIT
  }

  /** `u16::saturating_add`. */
  function SaturatingAddU16(a: u16, b: u16): (r: u16)
    ensures r <= U16_MAX
    ensures a + b <= U16_MAX ==> r == a + b
    ensures a + b > U16_MAX ==> r == U16_MAX
  {
    if a + b <= U16_MAX then a + b else U16_MAX
  }

  /** `a - b` on `u16` in a release build, where overflow checks are off and the difference wraps. */
  function SubU16(a: u16, b: u16): (r: u16)
    ensures a >= b ==> r == a - b
    ensures a < b ==> r == a - b + U16_LIMIT
  {
    if a >= b then a - b else a - b + U16_LIMIT
  }

  /** `u16::saturating_mul`. */
  function SaturatingMulU16(a: u16, b: u16): (r: u16)
    ensures a * b <= 0xFFFF ==> r == a * b
    ensures a * b > 0xFFFF ==> r == 0xFFFF
  {
    if a * b <= 0xFFFF then a * b else 0xFFFF
  }

  /** `u32::div_ceil(2)`, also `u16::div_ceil(2)`: the number of rows of half-block cells a pixel height needs. */
  function HalfUp(n: nat): (r: nat)
    ensures 2 * r == n || 2 * r == n + 1
  {
    (n + 1) / 2
  }
}
