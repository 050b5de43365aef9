/** How products of reals order, one step at a time. */
module RealProducts {

  lemma ProductSign(x: real, w: real)
    requires x >= 0.0 && w >= 0.0
    ensures x * w >= 0.0
    ensures x > 0.0 && w > 0.0 ==> x * w > 0.0
  {
  }

  lemma ProductOfDifference(x: real, y: real, w: real)
    ensures (y - x) * w == y * w - x * w
  {
  }

  lemma ProductIsMonotone(x: real, y: real, w: real)
    requires x <= y && w >= 0.0
    ensures x * w <= y * w
    ensures x < y && w > 0.0 ==> x * w < y * w
  {
    ProductSign(y - x, w);
    ProductOfDifference(x, y, w);
  }

  lemma ProductCommutes(x: real, y: real)
    ensures x * y == y * x
  {
  }

  /** A product of larger factors is no smaller. */
  lemma ProductRises(x: real, y: real, v: real, w: real)
    requires 0.0 <= x <= y && 0.0 <= v <= w
    ensures x * v <= y * w
  {
    ProductIsMonotone(x, y, v);
    ProductIsMonotone(v, w, y);
    ProductCommutes(v, y);
    ProductCommutes(w, y);
  }

  /** A positive factor taken off both sides. */
  lemma ProductOrder(x: real, y: real, w: real)
    requires w > 0.0
    ensures x * w <= y * w <==> x <= y
  {
    if x <= y {
      ProductIsMonotone(x, y, w);
    } else {
      ProductIsMonotone(y, x, w);
    }
  }
}
