/**
 * The integer types and the pixel type shared by the rasterizer and the
 * compositor of the terminal clock.
 */
module Pixels {

  /** Rust's `u8`: a value outside the range cannot be formed. */
  newtype u8 = n: int | 0 <= n < 256

  /** Rust's `i8`: every arithmetic step on it is checked not to overflow. */
  newtype i8 = n: int | -128 <= n < 128

  /**
   * Rust's `v as u8` on a signed integer: the value modulo 256, so `-1`
   * becomes `255`. The cast never fails.
   */
  function AsU8(v: int): u8
  {
    if 0 <= v < 256 then v as u8 else (v % 256) as u8
  }

  /**
   * On an `i8` the cast keeps a non-negative value and adds 256 to a
   * negative one, so it is lossless exactly on `0..128`.
   */
  lemma AsU8OfI8(v: int)
    requires -128 <= v < 128
    ensures v >= 0 ==> AsU8(v) as int == v
    ensures v < 0 ==> AsU8(v) as int == v + 256
  {
  }

  /** One point `(x, y)` of the high-resolution canvas, the source's `(u8, u8)`. */
  datatype Pixel = Pixel(x: u8, y: u8)

  /** The canvas is 16 pixels wide and 16 pixels high. */
  const CanvasSize: int := 16

  predicate OnCanvas(p: Pixel)
  {
    p.x as int < CanvasSize && p.y as int < CanvasSize
  }

  function Abs(v: int): (r: nat)
    ensures r == v || r == -v
  {
    if v < 0 then -v else v
  }

  function Max(a: int, b: int): (r: int)
    ensures r >= a && r >= b && (r == a || r == b)
  {
    if a < b then b else a
  }

  /** -1, 0 or 1 according to the sign of `v`. */
  function Sign(v: int): int
  {
    if v < 0 then -1 else if v == 0 then 0 else 1
  }

  /** `v` lies on the closed interval between `a` and `b`, in either order. */
  predicate Between(v: int, a: int, b: int)
  {
    (a <= v <= b) || (b <= v <= a)
  }

  /**
   * Rust's `a / 2` on a signed integer: the quotient is truncated toward zero,
   * whereas Dafny's `/` on `int` rounds toward negative infinity for a
   * negative dividend.
   */
  function HalfTrunc(a: int): (q: int)
    ensures a >= 0 ==> 0 <= a - 2 * q < 2
    ensures a < 0 ==> -2 < a - 2 * q <= 0
  {
    if a >= 0 then a / 2 else -((-a) / 2)
  }
}
