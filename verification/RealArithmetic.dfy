/** Facts about products and quotients of reals that the solver needs spelled out. */
module RealArithmetic {
  lemma Scale(w: real, d: real)
    requires 0.0 <= w <= 1.0 && d >= 0.0
    ensures 0.0 <= w * d <= d
  {
  }

  lemma StrictScale(w: real, d: real)
    requires 0.0 < w < 1.0 && d > 0.0
    ensures 0.0 < w * d < d
  {
  }

  lemma Negated(w: real, d: real)
    ensures w * -d == -(w * d)
  {
  }

  /** Multiplying by a positive number keeps the order, both ways. */
  lemma ProductOrder(a: real, b: real, d: real)
    requires d > 0.0
    ensures a < b <==> a * d < b * d
    ensures a == b <==> a * d == b * d
  {
  }

  lemma OrderTimes(a: real, b: real, d: real)
    requires a < b
    ensures d > 0.0 ==> a * d < b * d
    ensures d < 0.0 ==> a * d > b * d
  {
    var e := b - a;
    assert b * d == a * d + e * d;
    if d > 0.0 {
      assert e * d > 0.0;
    } else if d < 0.0 {
      assert e * -d > 0.0;
    }
  }

  lemma DivideBack(a: real, s: real, p: real)
    requires s != 0.0 && p == a * s
    ensures p / s == a
  {
    Cancel(p / s, a, s);
  }

  lemma Cancel(a: real, b: real, s: real)
    requires s != 0.0 && a * s == b * s
    ensures a == b
  {
  }

  lemma Quotient(a: real, s: real)
    requires s != 0.0
    ensures (a / s) * s == a
  {
  }

  /** A quotient of a part by the whole. */
  lemma Fraction(a: real, s: real)
    requires 0.0 <= a <= s && s > 0.0
    ensures 0.0 <= a / s <= 1.0
    ensures a == s ==> a / s == 1.0
  {
  }

  lemma ProductBound(w: real, h: real, w': real, h': real)
    requires 0.0 <= w <= w' && 0.0 <= h <= h'
    ensures 0.0 <= w * h <= w' * h'
  {
  }

  lemma QuotientSign(a: real, d: real)
    requires a >= 0.0 && d > 0.0
    ensures a / d >= 0.0
  {
  }

  lemma SplitQuotient(a: real, b: real, d: real)
    requires d != 0.0
    ensures a / d - b / d == (a - b) / d
  {
  }

  lemma PositiveProduct(w: real, h: real)
    requires w > 0.0 && h > 0.0
    ensures w * h > 0.0
  {
  }

  /** Of two rectangles with equal area, one within the other, the sides are equal. */
  lemma EqualProducts(w: real, h: real, w': real, h': real)
    requires 0.0 <= w <= w' && 0.0 <= h <= h' && w' > 0.0 && h' > 0.0 && w * h == w' * h'
    ensures w == w' && h == h'
  {
    PositiveProduct(w', h');
    ProductBound(w, h, w, h');
    ProductOrder(w, w', h');
    if h < h' {
      OrderTimes(h, h', w');
    }
  }
}
