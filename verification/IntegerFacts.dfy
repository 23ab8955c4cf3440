/** Facts of integer arithmetic that the solver is better told than left to find. */
module IntegerFacts {

  function Abs(x: int): nat { if x < 0 then -x else x }

  lemma MulLe(x: int, y: int, z: int)
    requires x <= y && 0 <= z
    ensures x * z <= y * z
  {
    assert 0 <= (y - x) * z;
  }

  lemma Double(x: int, y: int)
    ensures 2 * x * y == 2 * (x * y) == x * (2 * y)
  {
  }

  lemma ProductBound(x: int, y: int, m: int, n: int)
    requires 0 <= m && 0 <= n && -m <= x <= m && -n <= y <= n
    ensures -(m * n) <= x * y <= m * n
  {
    MulLe(Abs(x), m, Abs(y));
    MulLe(Abs(y), n, m);
    assert Abs(x * y) == Abs(x) * Abs(y);
  }

  /** Quotient and remainder are determined by their defining equation. */
  lemma DivModUnique(x: int, d: int, q: int, r: int)
    requires 0 <= r < d
    requires x == q * d + r
    ensures x / d == q && x % d == r
  {
    var e := q - x / d;
    assert e * d == x % d - r;
    if e >= 1 {
      MulLe(1, e, d);
    } else if e <= -1 {
      MulLe(e, -1, d);
    }
  }

  /** Shifting right in two steps is shifting once, and the parts of the remainder fit together. */
  lemma DivDiv(x: int, a: int, b: int)
    requires 0 < a && 0 < b
    ensures 0 < a * b
    ensures x / a / b == x / (a * b)
    ensures x % (a * b) == (x / a % b) * a + x % a
    ensures x % (a * b) / a == x / a % b
    ensures x % (a * b) % a == x % a
  {
    MulLe(1, b, a);
    var q, r := x / a / b, x / a % b;
    assert x == (q * b + r) * a + x % a;
    assert (q * b) * a == q * (a * b);
    MulLe(0, r, a);
    MulLe(r, b - 1, a);
    DivModUnique(x, a * b, q, r * a + x % a);
    DivModUnique(x % (a * b), a, r, x % a);
  }

  lemma ProductBelow(x: int, y: int, m: int, n: int)
    requires 0 <= x < m && 0 <= y <= n && 0 < n
    ensures 0 <= x * y < m * n
  {
    MulLe(0, x, y);
    MulLe(y, n, x);
    MulLe(x + 1, m, n);
  }

  lemma ProductLower(x: int, y: int, m: int, n: int)
    requires 0 <= m <= x && 0 <= n <= y
    ensures m * n <= x * y
  {
    MulLe(m, x, n);
    MulLe(n, y, x);
  }

  lemma SquareNonnegative(x: int)
    ensures 0 <= x * x
  {
  }

  lemma DivLower(x: int, d: int, b: int)
    requires 0 < d && b * d <= x
    ensures b <= x / d
  {
    if x / d <= b - 1 {
      MulLe(x / d, b - 1, d);
    }
  }
}
