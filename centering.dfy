/** The draw origin of the text in `main`:
    `start = (dim as i32 - text_dim as i32) / 2` on each axis, with Rust's
    signed division, which truncates toward zero. */
module Centering {

  const I32Min: int := -0x8000_0000
  const I32Max: int := 0x7FFF_FFFF

  /** A `u32` that `as i32` keeps unchanged. */
  predicate FitsI32(n: nat) {
    n <= I32Max
  }

  /** Rust's `/` on signed integers by a positive divisor: the remainder has
      the sign of the dividend and is smaller than the divisor. */
  function TruncDiv(a: int, b: int): (q: int)
    requires b > 0
    ensures a >= 0 ==> 0 <= a - q * b < b
    ensures a < 0 ==> -b < a - q * b <= 0
  {
    if a >= 0 then a / b else -((-a) / b)
  }

  /** Truncation is odd: negating the dividend negates the quotient. */
  lemma TruncDivOdd(a: int, b: int)
    requires b > 0
    ensures TruncDiv(-a, b) == -TruncDiv(a, b)
  {
  }

  /** `(dim as i32 - text_dim as i32) / 2` for one axis. */
  function StartOffset(dim: nat, textDim: nat): (start: int)
    requires FitsI32(dim) && FitsI32(textDim)
    ensures I32Min <= start <= I32Max
    ensures textDim <= dim ==> 0 <= start && start + textDim <= dim
    ensures textDim <= dim ==> 2 * start + textDim == dim || 2 * start + textDim == dim - 1
    ensures textDim > dim ==> start <= 0
    ensures textDim > dim ==> 2 * start + textDim == dim || 2 * start + textDim == dim + 1
  {
    TruncDiv(dim - textDim, 2)
  }

  /** The i32 subtraction never overflows for dimensions that fit an i32. */
  lemma StartOffsetNoOverflow(dim: nat, textDim: nat)
    requires FitsI32(dim) && FitsI32(textDim)
    ensures I32Min <= dim - textDim <= I32Max
  {
  }

  /** The odd pixel always goes to the right (or bottom): the far margin is
      the near one or one more, and when the text overhangs the canvas the
      far overhang is the near one or one more. */
  lemma StartOffsetMargins(dim: nat, textDim: nat)
    requires FitsI32(dim) && FitsI32(textDim)
    ensures var s := StartOffset(dim, textDim);
      textDim <= dim ==> 0 <= (dim - textDim - s) - s <= 1
    ensures var s := StartOffset(dim, textDim);
      textDim > dim ==> 0 <= (s + textDim - dim) - (-s) <= 1
  {
  }

  /** Swapping canvas and text negates the offset, which a floored division
      would not. */
  lemma StartOffsetAntisymmetric(dim: nat, textDim: nat)
    requires FitsI32(dim) && FitsI32(textDim)
    ensures StartOffset(textDim, dim) == -StartOffset(dim, textDim)
  {
    TruncDivOdd(dim - textDim, 2);
  }

  /** Text 13 wide on a canvas 10 wide starts at -1: the division truncates
      -3 / 2 toward zero, where a floored division would give -2. */
  lemma StartOffsetOverhangExample()
    ensures StartOffset(10, 13) == -1
  {
  }

  datatype Point = Point(x: int, y: int)

  /** `(start_x, start_y)` for a `width` x `height` canvas and text measured
      `textWidth` x `textHeight`. */
  function Origin(width: nat, height: nat, textWidth: nat, textHeight: nat): (p: Point)
    requires FitsI32(width) && FitsI32(height) && FitsI32(textWidth) && FitsI32(textHeight)
    ensures textWidth <= width ==> 0 <= p.x && p.x + textWidth <= width
    ensures textHeight <= height ==> 0 <= p.y && p.y + textHeight <= height
    ensures -1 <= 2 * p.x + textWidth - width <= 1 && -1 <= 2 * p.y + textHeight - height <= 1
  {
    Point(StartOffset(width, textWidth), StartOffset(height, textHeight))
  }
}
