/** The random source. `Math.random()` returns a double in [0, 1); it is
    modelled as an integer draw k standing for k / RANDOM_SCALE, and a stream
    of draws as an oracle `nat -> Draw` supplied by the caller. */
module Chance {
  import opened Arithmetic

  /** 2^53, the resolution of a double in [0, 1). */
  const RANDOM_SCALE: nat := 0x20_0000_0000_0000

  type Draw = k: int | 0 <= k < RANDOM_SCALE

  /** `Math.random() * span`, rounded down to an integer: the exact product
      of the draw and `span`, rounded down. For a length `span` this is
      `Math.floor(Math.random() * span)` up to the rounding of the product
      to a double, which this model does not carry out. */
  function Uniform(d: Draw, span: int): (r: int)
    ensures span >= 0 ==> 0 <= r <= span
    ensures span > 0 ==> r < span
    ensures span < 0 ==> span <= r <= 0
  {
    ScaledBounds(d, span);
    Times(d, span) / RANDOM_SCALE
  }

  lemma ScaledBounds(d: Draw, span: int)
    ensures span >= 0 ==> 0 <= Times(d, span) / RANDOM_SCALE <= span
    ensures span > 0 ==> Times(d, span) / RANDOM_SCALE < span
    ensures span < 0 ==> span <= Times(d, span) / RANDOM_SCALE <= 0
  {
    TimesIsProduct(d, span);
    ScaledBoundsFor(d, span, RANDOM_SCALE);
  }

  lemma ScaledBoundsFor(d: int, span: int, s: int)
    requires 0 <= d < s
    ensures span >= 0 ==> 0 <= d * span / s <= span
    ensures span > 0 ==> d * span / s < span
    ensures span < 0 ==> span <= d * span / s <= 0
  {
    if span > 0 {
      MulStrict(d, s, span);
      DivBetween(d * span, s, 0, span);
    } else if span < 0 {
      MulStrict(d, s, -span);
      DivBetween(d * span, s, span, 1);
    }
  }
}
