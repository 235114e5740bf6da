/**
 Rounding to a fixed number of decimal places, half to even, on exact reals:
 scale by a power of ten, round to the nearest integer (a tie goes to the
 even neighbour), and scale back.
 */
module Rounding {

  function Pow10(d: nat): (p: nat)
    ensures p >= 1
  {
    if d == 0 then 1 else 10 * Pow10(d - 1)
  }

  /** `k` is a nearest integer to `y`, and the even one when `y` lies halfway
      between two integers. */
  ghost predicate IsNearestEven(y: real, k: int)
  {
    && -0.5 <= y - k as real <= 0.5
    && ((y - k as real == 0.5 || y - k as real == -0.5) ==> k % 2 == 0)
  }

  /** Rounds to the nearest integer, ties to even. */
  function RoundHalfEven(y: real): (k: int)
    ensures IsNearestEven(y, k)
  {
    var f := y.Floor;
    var frac := y - f as real;
    if frac < 0.5 then f
    else if frac > 0.5 then f + 1
    else if f % 2 == 0 then f
    else f + 1
  }

  /** Only one integer is nearest to `y` with ties to even, so the rounding is
      the unique one. */
  lemma RoundHalfEvenUnique(y: real, k: int)
    ensures IsNearestEven(y, k) <==> k == RoundHalfEven(y)
  {
  }

  /** The factor that moves `digits` decimal places in front of the point. */
  function Scale(digits: nat): (scale: real)
    ensures scale >= 1.0
  {
    Pow10(digits) as real
  }

  /** `x` rounded to `digits` decimal places, half to even. */
  function RoundTo(x: real, digits: nat): real
  {
    RoundHalfEven(x * Scale(digits)) as real / Scale(digits)
  }

  /** Scaled by `10^digits`, the rounding of `x` is the integer nearest to `x`
      scaled the same way, the even one on a tie; so it lies within half a
      unit of the last kept place. */
  lemma RoundToSpec(x: real, digits: nat)
    ensures RoundTo(x, digits) * Scale(digits) == RoundHalfEven(x * Scale(digits)) as real
    ensures IsNearestEven(x * Scale(digits), RoundHalfEven(x * Scale(digits)))
    ensures -0.5 <= x * Scale(digits) - RoundTo(x, digits) * Scale(digits) <= 0.5
  {
    var k := RoundHalfEven(x * Scale(digits));
    assert (k as real / Scale(digits)) * Scale(digits) == k as real;
  }

  lemma CancelScale(a: real, b: real, scale: real)
    requires scale > 0.0 && a * scale == b * scale
    ensures a == b
  {
    assert (a - b) * scale == 0.0;
  }

  /** A value already on the grid of `digits` decimal places is left alone. */
  lemma RoundToOnGrid(r: real, digits: nat, k: int)
    requires r * Scale(digits) == k as real
    ensures RoundTo(r, digits) == r
  {
    assert IsNearestEven(r * Scale(digits), k);
    RoundHalfEvenUnique(r * Scale(digits), k);
    RoundToSpec(r, digits);
    assert RoundTo(r, digits) * Scale(digits) == k as real;
    CancelScale(RoundTo(r, digits), r, Scale(digits));
  }

  /** Rounding twice is rounding once. */
  lemma RoundToIdempotent(x: real, digits: nat)
    ensures RoundTo(RoundTo(x, digits), digits) == RoundTo(x, digits)
  {
    RoundToSpec(x, digits);
    RoundToOnGrid(RoundTo(x, digits), digits, RoundHalfEven(x * Scale(digits)));
  }
}
