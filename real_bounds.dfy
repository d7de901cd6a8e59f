/** Facts of real arithmetic behind the enclosure properties of interval
    multiplication and division: a product or quotient of two members lies
    between the least and the greatest of the four corner values. Kept in a
    module of their own, away from the interval definitions. */
module RealBounds {
  import opened Utils

  /** `m` lies between `p` and `q`, in either order. */
  predicate Between(m: real, p: real, q: real) {
    p <= m <= q || q <= m <= p
  }

  /** Scaling by a fixed `y` keeps `x*y` between the scaled bounds of `x`. */
  lemma ScaleRight(p: real, q: real, x: real, y: real)
    requires p <= x <= q
    ensures Between(x * y, p * y, q * y)
  {
    if y >= 0.0 {
      assert (x - p) * y >= 0.0 && (q - x) * y >= 0.0;
    } else {
      assert (x - p) * y <= 0.0 && (q - x) * y <= 0.0;
    }
  }

  /** The same with the fixed factor on the left. */
  lemma ScaleLeft(p: real, q: real, y: real, x: real)
    requires p <= y <= q
    ensures Between(x * y, x * p, x * q)
  {
    if x >= 0.0 {
      assert x * (y - p) >= 0.0 && x * (q - y) >= 0.0;
    } else {
      assert x * (y - p) <= 0.0 && x * (q - y) <= 0.0;
    }
  }

  /** A value between two values that each lie between two corners lies
      between the least and the greatest corner. */
  lemma Sandwich(w: real, m: real, n: real, c0: real, c1: real, c2: real, c3: real, lo: real, hi: real)
    requires Between(w, m, n) && Between(m, c0, c1) && Between(n, c2, c3)
    requires lo <= c0 && lo <= c1 && lo <= c2 && lo <= c3
    requires c0 <= hi && c1 <= hi && c2 <= hi && c3 <= hi
    ensures lo <= w <= hi
  {
  }

  /** A product `u*v` with `u` in `[a, b]` and `v` in `[c, d]` lies between
      any two bounds of the four corner products. */
  lemma ProductBetweenCorners(a: real, b: real, c: real, d: real, u: real, v: real, lo: real, hi: real)
    requires a <= u <= b && c <= v <= d
    requires lo <= a * c && lo <= a * d && lo <= b * c && lo <= b * d
    requires a * c <= hi && a * d <= hi && b * c <= hi && b * d <= hi
    ensures lo <= u * v <= hi
  {
    ScaleRight(a, b, u, v);
    ScaleLeft(c, d, v, a);
    ScaleLeft(c, d, v, b);
    Sandwich(u * v, a * v, b * v, a * c, a * d, b * c, b * d, lo, hi);
  }

  /** The reciprocal of a divisor that keeps away from 0 lies between the
      reciprocals of its bounds. */
  lemma ReciprocalBetween(c: real, d: real, v: real)
    requires c <= v <= d && (0.0 < c || d < 0.0)
    ensures 1.0 / d <= 1.0 / v <= 1.0 / c
  {
    assert c * v > 0.0 && v * d > 0.0;
    assert 1.0 / c - 1.0 / v == (v - c) / (c * v);
    assert 1.0 / v - 1.0 / d == (d - v) / (v * d);
  }

  lemma DivByReciprocal(x: real, y: real)
    requires y != 0.0
    ensures x / y == x * (1.0 / y)
  {
  }

  /** Dividing by a fixed nonzero `y` keeps `x/y` between the divided bounds
      of `x`. */
  lemma DivScaleRight(p: real, q: real, x: real, y: real)
    requires p <= x <= q && y != 0.0
    ensures Between(x / y, p / y, q / y)
  {
    DivByReciprocal(x, y);
    DivByReciprocal(p, y);
    DivByReciprocal(q, y);
    ScaleRight(p, q, x, 1.0 / y);
  }

  /** Dividing a fixed `x` by a `y` from a range that keeps away from 0
      keeps `x/y` between `x` divided by the bounds. */
  lemma DivScaleLeft(p: real, q: real, y: real, x: real)
    requires p <= y <= q && (0.0 < p || q < 0.0)
    ensures Between(x / y, x / p, x / q)
  {
    ReciprocalBetween(p, q, y);
    ScaleLeft(1.0 / q, 1.0 / p, 1.0 / y, x);
    DivByReciprocal(x, y);
    DivByReciprocal(x, p);
    DivByReciprocal(x, q);
    BetweenSwap(x * (1.0 / y), x * (1.0 / q), x * (1.0 / p));
  }

  lemma BetweenSwap(m: real, p: real, q: real)
    requires Between(m, p, q)
    ensures Between(m, q, p)
  {
  }

  /** A quotient `u/v` with `u` in `[a, b]` and `v` in `[c, d]`, a divisor
      range that keeps away from 0, lies between any two bounds of the four
      corner quotients. */
  lemma QuotientBetweenCorners(a: real, b: real, c: real, d: real, u: real, v: real, lo: real, hi: real)
    requires a <= u <= b && c <= v <= d && (0.0 < c || d < 0.0)
    requires lo <= a / c && lo <= a / d && lo <= b / c && lo <= b / d
    requires a / c <= hi && a / d <= hi && b / c <= hi && b / d <= hi
    ensures lo <= u / v <= hi
  {
    DivScaleRight(a, b, u, v);
    DivScaleLeft(c, d, v, a);
    DivScaleLeft(c, d, v, b);
    Sandwich(u / v, a / v, b / v, a / c, a / d, b / c, b / d, lo, hi);
  }

  /** The four corner products of `[a, b]` and `[c, d]`, in the order
      `a*c, a*d, b*c, b*d`. */
  function CornerProducts(a: real, b: real, c: real, d: real): (cs: seq<real>)
    ensures |cs| == 4
  {
    [a * c, a * d, b * c, b * d]
  }

  /** The four corner quotients of `[a, b]` and `[c, d]`, in the order
      `a/c, a/d, b/c, b/d`. */
  function CornerQuotients(a: real, b: real, c: real, d: real): (cs: seq<real>)
    requires c != 0.0 && d != 0.0
    ensures |cs| == 4
  {
    [a / c, a / d, b / c, b / d]
  }

  /** The least and the greatest corner product bound every product of
      members. */
  lemma ProductInHull(a: real, b: real, c: real, d: real, u: real, v: real, lo: real, hi: real)
    requires a <= u <= b && c <= v <= d
    requires IsLeast(lo, CornerProducts(a, b, c, d))
    requires IsGreatest(hi, CornerProducts(a, b, c, d))
    ensures lo <= u * v <= hi
  {
    var cs := CornerProducts(a, b, c, d);
    assert lo <= cs[0] <= hi && lo <= cs[1] <= hi && lo <= cs[2] <= hi && lo <= cs[3] <= hi;
    ProductBetweenCorners(a, b, c, d, u, v, lo, hi);
  }

  /** The least and the greatest corner quotient bound every quotient of
      members when the divisor range keeps away from 0. */
  lemma QuotientInHull(a: real, b: real, c: real, d: real, u: real, v: real, lo: real, hi: real)
    requires a <= u <= b && c <= v <= d && (0.0 < c || d < 0.0)
    requires IsLeast(lo, CornerQuotients(a, b, c, d))
    requires IsGreatest(hi, CornerQuotients(a, b, c, d))
    ensures lo <= u / v <= hi
  {
    var cs := CornerQuotients(a, b, c, d);
    assert lo <= cs[0] <= hi && lo <= cs[1] <= hi && lo <= cs[2] <= hi && lo <= cs[3] <= hi;
    QuotientBetweenCorners(a, b, c, d, u, v, lo, hi);
  }
}
