/** Colours as the three visible channels of a pixel, and the L1 (Manhattan) distance
    the background classifier compares them with. */
module Color {

  /** The `{ r, g, b }` object of the source. Its channels are JavaScript numbers, here
      unbounded integers; `InRange` says when they are 8-bit channel values. */
  datatype RGB = RGB(r: int, g: int, b: int)

  predicate InRange(c: RGB) {
    0 <= c.r <= 255 && 0 <= c.g <= 255 && 0 <= c.b <= 255
  }

  /** `Math.abs` on integers. */
  function Abs(x: int): (y: nat)
    ensures y == x || y == -x
  {
    if x < 0 then -x else x
  }

  /** `colorDifference`: the sum of the absolute per-channel differences. It is zero
      exactly when the two colours are the same. */
  function ColorDifference(c1: RGB, c2: RGB): (d: nat)
    ensures d == 0 <==> c1 == c2
  {
    Abs(c1.r - c2.r) + Abs(c1.g - c2.g) + Abs(c1.b - c2.b)
  }

  lemma ColorDifferenceSymmetric(c1: RGB, c2: RGB)
    ensures ColorDifference(c1, c2) == ColorDifference(c2, c1)
  {
  }

  /** Two 8-bit colours are never more than 3 * 255 apart. */
  lemma ColorDifferenceBounded(c1: RGB, c2: RGB)
    requires InRange(c1) && InRange(c2)
    ensures ColorDifference(c1, c2) <= 765
  {
  }

  /** The distance is a metric: it satisfies the triangle inequality. */
  lemma ColorDifferenceTriangle(c1: RGB, c2: RGB, c3: RGB)
    ensures ColorDifference(c1, c3) <= ColorDifference(c1, c2) + ColorDifference(c2, c3)
  {
  }

  /** Against white, the distance of an 8-bit colour is what its channel sum lacks of
      3 * 255, so the nearer a colour is to white the larger its channel sum. */
  lemma DistanceFromWhite(c: RGB)
    requires InRange(c)
    ensures ColorDifference(c, RGB(255, 255, 255)) == 765 - (c.r + c.g + c.b)
  {
  }
}
