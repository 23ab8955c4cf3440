/** The four transforms in the order a motor current controller applies them: Clarke, Park, and back. */
module CurrentLoop {
  import opened FixedPoint
  import opened IntegerFacts
  import Clarke
  import Park

  /** Sine and cosine lie within `t` units of the unit circle, and not outside the outer one. */
  predicate OnCircle(sin: Q31, cos: Q31, t: nat) {
    && Abs(Park.UNIT - (sin * sin + cos * cos)) <= t * ONE31
    && sin * sin + cos * cos <= Park.OUTER * Park.OUTER
  }

  function Magnitude(x: real): real { if x < 0.0 then -x else x }

  /** Rounded to the nearest value or toward zero, or held one unit short of full scale. */
  predicate Rounded(x: Q31, exact: real) {
    Abs(x) as real - 0.5 <= Magnitude(exact) <= Abs(x) as real + 1.0
  }

  /** Three units are enough for every angle: any point of the unit circle, rounded to 1.31. */
  lemma RoundedOnCircle(sin: Q31, cos: Q31, S: real, C: real)
    requires S * S + C * C == Park.UNIT as real
    requires Rounded(sin, S) && Rounded(cos, C)
    ensures OnCircle(sin, cos, 3)
  {
    var a: real, b: real := Magnitude(S), Magnitude(C);
    assert a * a == S * S && b * b == C * C;
    RoundedSquare(Abs(sin), a);
    RoundedSquare(Abs(cos), b);
    SquareOfMagnitude(sin);
    SquareOfMagnitude(cos);
    SumOfLegs(a, b);
    hide Rounded, Magnitude;
  }

  lemma SquareOfMagnitude(x: int)
    ensures Abs(x) * Abs(x) == x * x
  {
  }

  lemma RoundedSquare(n: nat, a: real)
    requires n as real - 0.5 <= a <= n as real + 1.0 && 0.0 <= a
    ensures a * a - 2.0 * a <= (n * n) as real <= a * a + a + 0.25
  {
    var r := n as real;
    assert (n * n) as real == r * r;
    RealBounds(r, a);
  }

  lemma RealBounds(r: real, a: real)
    requires 0.0 <= r && 0.0 <= a && r - 0.5 <= a <= r + 1.0
    ensures a * a - 2.0 * a <= r * r <= a * a + a + 0.25
  {
    var h := a + 0.5;
    assert h * h == a * a + a + 0.25;
    RealSquares(r, h);
    if a >= 1.0 {
      var l := a - 1.0;
      assert l * l == a * a - 2.0 * a + 1.0;
      RealSquares(l, r);
    } else {
      RealProduct(a, 2.0 - a);
      RealProduct(r, r);
      assert a * (2.0 - a) == 2.0 * a - a * a;
    }
  }

  lemma RealSquares(x: real, y: real)
    requires 0.0 <= x <= y
    ensures x * x <= y * y
  {
    RealProduct(y - x, y + x);
    assert (y - x) * (y + x) == y * y - x * x;
  }

  lemma RealProduct(x: real, y: real)
    requires 0.0 <= x && 0.0 <= y
    ensures 0.0 <= x * y
  {
  }

  /** Twice the legs of a right triangle are together at most three times its hypotenuse. */
  lemma SumOfLegs(a: real, b: real)
    requires a * a + b * b == Park.UNIT as real
    ensures 2.0 * a + 2.0 * b <= 3.0 * ONE31 as real
  {
    BelowMeanSquare(a);
    BelowMeanSquare(b);
  }

  lemma BelowMeanSquare(a: real)
    ensures 2.0 * a * ONE31 as real <= a * a + Park.UNIT as real
  {
    var d := Magnitude(a - ONE31 as real);
    RealProduct(d, d);
    assert d * d == a * a - 2.0 * a * ONE31 as real + Park.UNIT as real;
  }

  /** A unit-scaled error below `m` units plus a miss of at most `t` units is less than `m + t` whole units. */
  lemma WholeUnits(x: Q31, delta: int, miss: int, m: int, t: nat)
    requires -(m * Park.UNIT) < Park.UNIT * delta + x * miss < m * Park.UNIT
    requires Abs(miss) <= t * ONE31
    ensures Abs(delta) < m + t
  {
    ProductBound(x, miss, ONE31, t * ONE31);
    assert ONE31 * (t * ONE31) == t * Park.UNIT;
  }

  /** When the circle is missed by at most `t` units, the two rotations together err by at most 3 + `t` and
      4 + `t` units. */
  lemma VectorReturns(alpha: Q31, beta: Q31, sin: Q31, cos: Q31, t: nat)
    requires alpha * alpha + beta * beta <= Park.RADIUS * Park.RADIUS
    requires OnCircle(sin, cos, t)
    ensures var (d, q) := Park.Forward(alpha, beta, sin, cos);
            var (alpha', beta') := Park.Inverse(d, q, sin, cos);
            Abs(alpha' - alpha) <= 3 + t && Abs(beta' - beta) <= 4 + t
  {
    hide Park.Forward, Park.Inverse, Park.Product;
    Park.RoundTrip(alpha, beta, sin, cos);
    var (d, q) := Park.Forward(alpha, beta, sin, cos);
    var (alpha', beta') := Park.Inverse(d, q, sin, cos);
    var miss: int := Park.UNIT - (sin * sin + cos * cos);
    WholeUnits(alpha, alpha' - alpha, miss, 4, t);
    WholeUnits(beta, beta' - beta, miss, 5, t);
  }

  lemma ClarkeInRange(Ia: Q31, Ib: Q31, b: int)
    requires -Clarke.LIMIT <= Ib <= Clarke.LIMIT && b == Clarke.BetaSum(Ia, Ib)
    requires Ia * Ia + b * b <= Park.RADIUS * Park.RADIUS
    ensures -Park.RADIUS <= b <= Park.RADIUS
    ensures Clarke.Forward(Ia, Ib) == (Ia, b)
    ensures Abs(Clarke.Inverse(Ia, b).1 - Ib) <= 3
  {
    hide Clarke.BetaSum, Clarke.Inverse;
    Park.Components(Ia, b, Park.RADIUS);
    Clarke.BetaSaturatesIff(Ia, Ib);
    Clarke.RoundTrip(Ia, Ib);
    Clarke.UnsaturatedInverse(Ia, Ib, b);
    assert Clarke.Forward(Ia, Ib).0 == Ia;
  }

  /** Main result: phase currents inside the range of all four transforms come back with an error that grows only
      with the distance of sine and cosine from the unit circle. */
  lemma PhasesReturn(Ia: Q31, Ib: Q31, sin: Q31, cos: Q31, t: nat)
    requires -Clarke.LIMIT <= Ib <= Clarke.LIMIT
    requires Ia * Ia + Clarke.BetaSum(Ia, Ib) * Clarke.BetaSum(Ia, Ib) <= Park.RADIUS * Park.RADIUS
    requires OnCircle(sin, cos, t)
    ensures var (alpha, beta) := Clarke.Forward(Ia, Ib);
            var (d, q) := Park.Forward(alpha, beta, sin, cos);
            var (alpha', beta') := Park.Inverse(d, q, sin, cos);
            var (ia, ib) := Clarke.Inverse(alpha', beta');
            Abs(ia - Ia) <= 3 + t && Abs(ib - Ib) <= 7 + t + (t + 4) / 2
  {
    hide Clarke.Forward, Clarke.Inverse, Clarke.BetaSum, Park.Forward, Park.Inverse;
    var b := Clarke.BetaSum(Ia, Ib);
    ClarkeInRange(Ia, Ib, b);
    VectorReturns(Ia, b, sin, cos, t);
    var (d, q) := Park.Forward(Ia, b, sin, cos);
    var (alpha, beta) := Park.Inverse(d, q, sin, cos);
    Clarke.InverseStable(Ia, b, alpha, beta, 3 + t, 4 + t);
  }

  /** Whatever the angle, with its sine and cosine rounded to 1.31, they come back within 6 and 13 units. */
  lemma EveryAngleReturns(Ia: Q31, Ib: Q31, sin: Q31, cos: Q31, S: real, C: real)
    requires -Clarke.LIMIT <= Ib <= Clarke.LIMIT
    requires Ia * Ia + Clarke.BetaSum(Ia, Ib) * Clarke.BetaSum(Ia, Ib) <= Park.RADIUS * Park.RADIUS
    requires S * S + C * C == Park.UNIT as real && Rounded(sin, S) && Rounded(cos, C)
    ensures var (alpha, beta) := Clarke.Forward(Ia, Ib);
            var (d, q) := Park.Forward(alpha, beta, sin, cos);
            var (alpha', beta') := Park.Inverse(d, q, sin, cos);
            var (ia, ib) := Clarke.Inverse(alpha', beta');
            Abs(ia - Ia) <= 6 && Abs(ib - Ib) <= 13
  {
    RoundedOnCircle(sin, cos, S, C);
    hide OnCircle, Rounded, Clarke.Forward, Clarke.Inverse, Park.Forward, Park.Inverse;
    PhasesReturn(Ia, Ib, sin, cos, 3);
  }
}
