/** Which strides of the circular access functions visit the whole ring. */
module StrideCoverage {
  import opened CircularBuffer
  import opened IntegerFacts

  function Gcd(a: nat, b: nat): nat
    decreases b
  {
    if b == 0 then a else Gcd(b, a % b)
  }

  function Times(q: int, d: int): int { q * d }

  lemma {:induction false} GcdDivides(a: nat, b: nat) returns (p: nat, q: nat)
    ensures a == Times(p, Gcd(a, b)) && b == Times(q, Gcd(a, b))
    decreases b
  {
    if b == 0 {
      p, q := 1, 0;
    } else {
      var g := Gcd(b, a % b);
      var s, t := GcdDivides(b, a % b);
      var m := a / b;
      assert a == m * b + a % b;
      Combine(m, s, t, g);
      MulLe(0, m, s);
      p, q := m * s + t, s;
    }
  }

  lemma Combine(m: int, s: int, t: int, g: int)
    ensures m * (s * g) + t * g == (m * s + t) * g
  {
  }

  /** The greatest common divisor is an integer combination of the two numbers. */
  lemma {:induction false} Bezout(a: nat, b: nat) returns (u: int, v: int)
    ensures u * a + v * b == Gcd(a, b)
    decreases b
  {
    if b == 0 {
      u, v := 1, 0;
    } else {
      var s, t := Bezout(b, a % b);
      var m := a / b;
      assert a % b == a - m * b;
      u, v := t, s - t * m;
      BezoutStep(a, b, m, s, t);
    }
  }

  lemma BezoutStep(a: int, b: int, m: int, s: int, t: int)
    ensures t * a + (s - t * m) * b == s * b + t * (a - m * b)
  {
  }

  /** Accesses `i` and `j` meet exactly when the distance walked between them is a multiple of the length. */
  lemma SameSlot(start: int, inc: int, L: int, i: nat, j: nat)
    requires 0 < L
    ensures Slot(start + i * inc, L) == Slot(start + j * inc, L) <==> ((j - i) * inc) % L == 0
  {
    var a, b := start + i * inc, start + j * inc;
    assert b - a == (j - i) * inc;
    hide *;
    SameResidue(a, b, L);
  }

  lemma SameResidue(a: int, b: int, L: int)
    requires 0 < L
    ensures Slot(a, L) == Slot(b, L) <==> (b - a) % L == 0
  {
    var q := (b - a) / L;
    if (b - a) % L == 0 {
      assert b == (a / L + q) * L + a % L;
      DivModUnique(b, L, a / L + q, a % L);
    } else if a % L == b % L {
      assert b - a == (b / L - a / L) * L;
      DivModUnique(b - a, L, b / L - a / L, 0);
    }
  }

  /** A number below L that a coprime stride carries to a multiple of L is zero. */
  lemma CoprimeCancels(inc: nat, L: nat, x: int)
    requires 0 < x < L && Gcd(inc, L) == 1
    ensures (x * inc) % L != 0
  {
    if (x * inc) % L == 0 {
      var m := x * inc / L;
      var u, v := Bezout(inc, L);
      Cancel(x, inc, L, u, v, m);
      var f := u * m + x * v;
      hide *;
      if f >= 1 {
        MulLe(1, f, L);
      } else {
        MulLe(f, 0, L);
      }
    }
  }

  lemma Cancel(x: int, inc: int, L: int, u: int, v: int, m: int)
    requires u * inc + v * L == 1 && x * inc == m * L
    ensures x == (u * m + x * v) * L
  {
    calc {
      x;
      x * (u * inc + v * L);
      u * (x * inc) + x * v * L;
      u * (m * L) + x * v * L;
      (u * m + x * v) * L;
    }
  }

  /** A stride that shares a divisor `g > 1` with the length is back at its start after `L / g` accesses. */
  lemma SharedDivisorReturns(inc: nat, L: nat) returns (period: nat)
    requires 0 < L && Gcd(inc, L) > 1
    ensures 0 < period < L && (period * inc) % L == 0
  {
    var g := Gcd(inc, L);
    var p, q := GcdDivides(inc, L);
    period := q;
    hide *;
    if q == 0 {
      assert false by {
        ZeroTimes(g);
      }
    }
    Return(p, q, g, inc, L);
  }

  lemma ZeroTimes(g: int)
    ensures Times(0, g) == 0
  {
  }

  lemma Return(p: int, q: int, g: int, inc: int, L: int)
    requires inc == Times(p, g) && L == Times(q, g) && 0 < q && 1 < g
    ensures q < L && (q * inc) % L == 0
  {
    MulLe(2, g, q);
    assert q * (p * g) == p * (q * g);
    DivModUnique(q * inc, L, p, 0);
  }

  /** Main result: the first `L` accesses of a stride visit `L` different slots exactly when the stride and the
      length have no common divisor. */
  lemma CoprimeStrideCovers(start: nat, inc: nat, L: nat)
    requires start < L <= 0x7FFF_FFFF && Stride(inc, L)
    ensures (forall i, j :: 0 <= i < j < L ==> OffsetAt(start, inc, L, i) != OffsetAt(start, inc, L, j))
            <==> Gcd(inc, L) == 1
  {
    if Gcd(inc, L) == 1 {
      forall i, j | 0 <= i < j < L
        ensures OffsetAt(start, inc, L, i) != OffsetAt(start, inc, L, j)
      {
        hide *;
        OffsetIsResidue(start, inc, L, i);
        OffsetIsResidue(start, inc, L, j);
        SameSlot(start, inc, L, i, j);
        CoprimeCancels(inc, L, j - i);
      }
    } else {
      hide OffsetAt, Gcd, Slot;
      NonzeroGcd(inc, L);
      var period := SharedDivisorReturns(inc, L);
      OffsetIsResidue(start, inc, L, 0);
      OffsetIsResidue(start, inc, L, period);
      SameSlot(start, inc, L, 0, period);
      assert OffsetAt(start, inc, L, 0) == OffsetAt(start, inc, L, period);
    }
  }

  lemma {:induction false} NonzeroGcd(a: nat, b: nat)
    requires 0 < b
    ensures Gcd(a, b) > 0
    decreases b
  {
    if a % b == 0 {
    } else {
      NonzeroGcd(b, a % b);
    }
  }
}
