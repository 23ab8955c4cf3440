/** The Park rotation of a two-phase vector by an angle and its inverse, `arm_park_q31` and `arm_inv_park_q31`. */
module Park {
  import opened FixedPoint
  import opened IntegerFacts

  const UNIT: int := 0x4000_0000_0000_0000      // 2^62
  const RADIUS: int := 0x7FFF_FFF8              // 2^31 - 8
  const OUTER: int := 0x8000_0001               // 2^31 + 1

  /** `(q31_t) (((q63_t) x * y) >> 31)` */
  function Product(x: Q31, y: Q31): Q31 { S32(x * y / ONE31) }

  /** The direct and quadrature components. */
  function Forward(alpha: Q31, beta: Q31, sin: Q31, cos: Q31): (Q31, Q31) {
    (Qadd(Product(alpha, cos), Product(beta, sin)), Qsub(Product(beta, cos), Product(alpha, sin)))
  }

  function Inverse(d: Q31, q: Q31, sin: Q31, cos: Q31): (Q31, Q31) {
    (Qsub(Product(d, cos), Product(q, sin)), Qadd(Product(q, cos), Product(d, sin)))
  }

  lemma SquareBound(x: int, m: int)
    requires 0 <= m && x * x <= m * m
    ensures -m <= x <= m
  {
    var a := Abs(x);
    assert a * a == x * x;
    if a > m {
      MulLe(m + 1, a, a);
      MulLe(m + 1, a, m + 1);
    }
  }

  lemma Components(x: int, y: int, m: int)
    requires 0 <= m && x * x + y * y <= m * m
    ensures -m <= x <= m && -m <= y <= m
  {
    SquareNonnegative(x);
    SquareNonnegative(y);
    SquareBound(x, m);
    SquareBound(y, m);
  }

  /** A rotation does not lengthen a vector: the sum-of-products identity and its bound. */
  lemma RotatedLength(a: int, b: int, s: int, c: int, m: int, n: int)
    requires 0 <= m && 0 <= n && a * a + b * b <= m * m && s * s + c * c <= n * n
    ensures -(m * n) <= a * c + b * s <= m * n
    ensures -(m * n) <= b * c - a * s <= m * n
  {
    var x, y := a * c + b * s, b * c - a * s;
    Brahmagupta(a, b, s, c);
    SquareNonnegative(a);
    SquareNonnegative(b);
    SquareNonnegative(s);
    SquareNonnegative(c);
    MulLe(a * a + b * b, m * m, s * s + c * c);
    MulLe(s * s + c * c, n * n, m * m);
    Regroup(m, n);
    MulLe(0, m, n);
    hide *;
    Components(x, y, m * n);
  }

  lemma Regroup(m: int, n: int)
    requires 0 <= m
    ensures n * n * (m * m) == m * n * (m * n)
    ensures 0 <= m * m
  {
  }

  lemma Brahmagupta(a: int, b: int, s: int, c: int)
    ensures (a * c + b * s) * (a * c + b * s) + (b * c - a * s) * (b * c - a * s)
            == (a * a + b * b) * (s * s + c * c)
  {
  }

  /** A product of two bounded values, truncated, fits. */
  lemma PlainProduct(x: Q31, y: Q31)
    requires -0x7FFF_FFFC <= x <= 0x7FFF_FFFC
    ensures Product(x, y) == x * y / ONE31
    ensures 0 <= x * y - ONE31 * Product(x, y) < ONE31
  {
    ProductBound(x, y, 0x7FFF_FFFC, ONE31);
    var p := x * y;
    S32Congruent(p / ONE31, 0);
    hide S32;
  }

  /** A truncated product fits 32 bits unless both factors are the minimum, when it wraps from full scale to its
      opposite. */
  lemma NarrowedProduct(x: Q31, y: Q31)
    ensures -ONE31 <= x * y / ONE31 <= ONE31
    ensures x * y / ONE31 == ONE31 <==> x == -ONE31 && y == -ONE31
    ensures Product(x, y) == Narrowed(x * y / ONE31)
  {
    ProductBound(x, y, ONE31, ONE31);
    FullScaleProduct(x, y);
    var p: int := x * y / ONE31;
    S32Congruent(p, 0);
    hide S32;
  }

  lemma FullScaleProduct(x: Q31, y: Q31)
    ensures x * y >= UNIT <==> x == -ONE31 && y == -ONE31
  {
    if x > 0 || y > 0 {
      ProductBound(x, y, if x > 0 then ONE31 - 1 else ONE31, if y > 0 then ONE31 - 1 else ONE31);
    } else if x > -ONE31 {
      ProductBound(x, y, ONE31 - 1, ONE31);
    } else if y > -ONE31 {
      ProductBound(x, y, ONE31, ONE31 - 1);
    }
  }

  /** Both rotations are documented to be free of overflow. They return the saturated sum and difference of the
      exact truncated products exactly when no component of the vector and of the angle are both the minimum. */
  lemma SaturatesIff(x: Q31, y: Q31, sin: Q31, cos: Q31)
    ensures Forward(x, y, sin, cos)
            == (Clamp31(x * cos / ONE31 + y * sin / ONE31), Clamp31(y * cos / ONE31 - x * sin / ONE31))
            <==> !((x == -ONE31 || y == -ONE31) && (sin == -ONE31 || cos == -ONE31))
    ensures Inverse(x, y, sin, cos)
            == (Clamp31(x * cos / ONE31 - y * sin / ONE31), Clamp31(y * cos / ONE31 + x * sin / ONE31))
            <==> !((x == -ONE31 || y == -ONE31) && (sin == -ONE31 || cos == -ONE31))
  {
    hide Product, Clamp31, Forward, Inverse;
    RotationsSaturate(x, y, sin, cos);
    NarrowedProduct(x, cos);
    NarrowedProduct(y, sin);
    NarrowedProduct(y, cos);
    NarrowedProduct(x, sin);
    WrappedSums(x == -ONE31, y == -ONE31, sin == -ONE31, cos == -ONE31,
                x * cos / ONE31, y * sin / ONE31, y * cos / ONE31, x * sin / ONE31);
  }

  /** On all inputs, both rotations saturate the sum and the difference of the narrowed products. */
  lemma RotationsSaturate(x: Q31, y: Q31, sin: Q31, cos: Q31)
    ensures var xc, ys := Narrowed(x * cos / ONE31), Narrowed(y * sin / ONE31);
            var yc, xs := Narrowed(y * cos / ONE31), Narrowed(x * sin / ONE31);
            && Forward(x, y, sin, cos) == (Clamp31(xc + ys), Clamp31(yc - xs))
            && Inverse(x, y, sin, cos) == (Clamp31(xc - ys), Clamp31(yc + xs))
  {
    hide Product, Clamp31, Qadd, Qsub, Narrowed;
    QaddQsubSaturate(Product(x, cos), Product(y, sin));
    QaddQsubSaturate(Product(y, cos), Product(x, sin));
    NarrowedProduct(x, cos);
    NarrowedProduct(y, sin);
    NarrowedProduct(y, cos);
    NarrowedProduct(x, sin);
  }

  function Narrowed(p: int): int { if p == ONE31 then -ONE31 else p }

  /** A single wrapped product changes the saturated result, and no two of them cancel in both results. */
  lemma WrappedSums(x: bool, y: bool, s: bool, c: bool, xc: int, ys: int, yc: int, xs: int)
    requires -ONE31 <= xc <= ONE31 && -ONE31 <= ys <= ONE31 && -ONE31 <= yc <= ONE31 && -ONE31 <= xs <= ONE31
    requires (xc == ONE31 <==> x && c) && (ys == ONE31 <==> y && s)
    requires (yc == ONE31 <==> y && c) && (xs == ONE31 <==> x && s)
    ensures Clamp31(Narrowed(xc) + Narrowed(ys)) == Clamp31(xc + ys)
            && Clamp31(Narrowed(yc) - Narrowed(xs)) == Clamp31(yc - xs)
            <==> !((x || y) && (s || c))
    ensures Clamp31(Narrowed(xc) - Narrowed(ys)) == Clamp31(xc - ys)
            && Clamp31(Narrowed(yc) + Narrowed(xs)) == Clamp31(yc + xs)
            <==> !((x || y) && (s || c))
  {
  }

  /** Inside the radius, and up to the outer circle, the forward rotation neither wraps nor saturates: it is the
      exact rotation with errors `e1` in [0, 2) and `e2` in (-1, 1) units. */
  lemma ForwardExact(alpha: Q31, beta: Q31, sin: Q31, cos: Q31)
    requires alpha * alpha + beta * beta <= RADIUS * RADIUS && sin * sin + cos * cos <= OUTER * OUTER
    ensures var (d, q) := Forward(alpha, beta, sin, cos);
            && 0 <= alpha * cos + beta * sin - ONE31 * d < 2 * ONE31
            && -ONE31 < ONE31 * q - (beta * cos - alpha * sin) < ONE31
            && -0x7FFF_FFFA <= d <= 0x7FFF_FFFA && -0x7FFF_FFFA <= q <= 0x7FFF_FFFA
  {
    Components(alpha, beta, RADIUS);
    RotatedLength(alpha, beta, sin, cos, RADIUS, OUTER);
    PlainProduct(alpha, cos);
    PlainProduct(beta, sin);
    PlainProduct(beta, cos);
    PlainProduct(alpha, sin);
    hide Product, Clamp, Qadd, Qsub;
    QaddQsubSaturate(Product(alpha, cos), Product(beta, sin));
    QaddQsubSaturate(Product(beta, cos), Product(alpha, sin));
    Unsaturated(Product(alpha, cos) + Product(beta, sin));
    Unsaturated(Product(beta, cos) - Product(alpha, sin));
  }

  lemma Unsaturated(x: int)
    ensures -ONE31 <= x < ONE31 ==> Clamp31(x) == x
  {
  }

  /** The inverse rotation of an inexact forward rotation: what is left of each error. */
  lemma RoundTripAlgebra(a: int, b: int, s: int, c: int, d: int, q: int, e1: int, e2: int)
    requires ONE31 * d == a * c + b * s - e1 && ONE31 * q == b * c - a * s + e2
    ensures ONE31 * (d * c - q * s) == a * (s * s + c * c) - e1 * c - e2 * s
    ensures ONE31 * (q * c + d * s) == b * (s * s + c * c) + e2 * c - e1 * s
  {
    FirstComponent(ONE31, a, b, s, c, d, q, e1, e2);
    SecondComponent(ONE31, a, b, s, c, d, q, e1, e2);
  }

  lemma FirstComponent(one: int, a: int, b: int, s: int, c: int, d: int, q: int, e1: int, e2: int)
    requires one * d == a * c + b * s - e1 && one * q == b * c - a * s + e2
    ensures one * (d * c - q * s) == a * (s * s + c * c) - e1 * c - e2 * s
  {
    calc {
      one * (d * c - q * s);
      one * d * c - one * q * s;
      (a * c + b * s - e1) * c - (b * c - a * s + e2) * s;
      a * (s * s + c * c) - e1 * c - e2 * s;
    }
  }

  lemma SecondComponent(one: int, a: int, b: int, s: int, c: int, d: int, q: int, e1: int, e2: int)
    requires one * d == a * c + b * s - e1 && one * q == b * c - a * s + e2
    ensures one * (q * c + d * s) == b * (s * s + c * c) + e2 * c - e1 * s
  {
    calc {
      one * (q * c + d * s);
      one * q * c + one * d * s;
      (b * c - a * s + e2) * c + (a * c + b * s - e1) * s;
      b * (s * s + c * c) + e2 * c - e1 * s;
    }
  }

  lemma StrictProduct(e: int, x: int, m: int)
    requires -m < e < m && -ONE31 <= x <= ONE31
    ensures -(m * ONE31) < e * x < m * ONE31
  {
    ProductBound(e, x, m - 1, ONE31);
    assert (m - 1) * ONE31 == m * ONE31 - ONE31;
  }

  /** Main result: for a vector inside the radius and a sine and cosine that exceed the unit circle by at most one
      unit, nothing saturates, and rotating forward and back returns the vector with an error below 4 and 5 units,
      plus the part by which the circle is missed. */
  lemma RoundTrip(alpha: Q31, beta: Q31, sin: Q31, cos: Q31)
    requires alpha * alpha + beta * beta <= RADIUS * RADIUS && sin * sin + cos * cos <= OUTER * OUTER
    ensures var (d, q) := Forward(alpha, beta, sin, cos);
            var (alpha', beta') := Inverse(d, q, sin, cos);
            var miss := UNIT - (sin * sin + cos * cos);
            && -4 * UNIT < UNIT * (alpha' - alpha) + alpha * miss < 4 * UNIT
            && -5 * UNIT < UNIT * (beta' - beta) + beta * miss < 5 * UNIT
            && alpha' == Product(d, cos) - Product(q, sin)
            && beta' == Product(q, cos) + Product(d, sin)
  {
    ForwardExact(alpha, beta, sin, cos);
    var (d, q) := Forward(alpha, beta, sin, cos);
    Components(alpha, beta, RADIUS);
    hide Forward, Product, Clamp, Qadd, Qsub;
    InverseError(alpha, beta, sin, cos, d, q);
    ScaledBound(alpha, sin, cos);
    ScaledBound(beta, sin, cos);
    QaddQsubSaturate(Product(d, cos), Product(q, sin));
    QaddQsubSaturate(Product(q, cos), Product(d, sin));
    Unsaturated(Product(d, cos) - Product(q, sin));
    Unsaturated(Product(q, cos) + Product(d, sin));
  }

  lemma InverseError(alpha: Q31, beta: Q31, sin: Q31, cos: Q31, d: Q31, q: Q31)
    requires 0 <= alpha * cos + beta * sin - ONE31 * d < 2 * ONE31
    requires -ONE31 < ONE31 * q - (beta * cos - alpha * sin) < ONE31
    requires -0x7FFF_FFFA <= d <= 0x7FFF_FFFA && -0x7FFF_FFFA <= q <= 0x7FFF_FFFA
    ensures var miss := UNIT - (sin * sin + cos * cos);
            && -4 * UNIT < UNIT * (Product(d, cos) - Product(q, sin) - alpha) + alpha * miss < 4 * UNIT
            && -5 * UNIT < UNIT * (Product(q, cos) + Product(d, sin) - beta) + beta * miss < 5 * UNIT
  {
    var e1, e2 := alpha * cos + beta * sin - ONE31 * d, ONE31 * q - (beta * cos - alpha * sin);
    var n := sin * sin + cos * cos;
    RoundTripAlgebra(alpha, beta, sin, cos, d, q, e1, e2);
    StrictProduct(e1, cos, 2 * ONE31);
    StrictProduct(e1, sin, 2 * ONE31);
    StrictProduct(e2, cos, ONE31);
    StrictProduct(e2, sin, ONE31);
    PlainProduct(d, cos);
    PlainProduct(q, sin);
    PlainProduct(q, cos);
    PlainProduct(d, sin);
    assert alpha * (UNIT - n) == alpha * UNIT - alpha * n;
    assert beta * (UNIT - n) == beta * UNIT - beta * n;
    hide Product;
  }

  /** A value scaled by at most the outer circle grows by less than two units. */
  lemma ScaledBound(x: Q31, sin: Q31, cos: Q31)
    requires -RADIUS <= x <= RADIUS && sin * sin + cos * cos <= OUTER * OUTER
    ensures var miss := UNIT - (sin * sin + cos * cos);
            -(RADIUS + 2) * UNIT < UNIT * x - x * miss < (RADIUS + 2) * UNIT
  {
    SquareNonnegative(sin);
    SquareNonnegative(cos);
    var n := sin * sin + cos * cos;
    ProductBound(x, n, RADIUS, OUTER * OUTER);
    assert x * (UNIT - n) == x * UNIT - x * n;
  }
}
