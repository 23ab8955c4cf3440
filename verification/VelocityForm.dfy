/** The recurrence both PID controllers implement, on unbounded integers:

      y[n] = y[n-1] + A0 * x[n] + A1 * x[n-1] + A2 * x[n-2]

    and the textbook proportional-integral-derivative law it telescopes to. `one` is the scale of the
    fixed-point format, 2^31 or 2^15, by which each product sum is divided, rounding down. */
module VelocityForm {

  datatype Gains = Gains(a0: int, a1: int, a2: int)

  /** `A0 = Kp + Ki + Kd`, `A1 = -Kp - 2 Kd`, `A2 = Kd` */
  predicate Derived(g: Gains, kp: int, ki: int, kd: int) {
    g.a0 == kp + ki + kd && g.a1 == -kp - 2 * kd && g.a2 == kd
  }

  function Products(g: Gains, x: int, x1: int, x2: int): int {
    g.a0 * x + g.a1 * x1 + g.a2 * x2
  }

  /** The input at time `k`, zero before the first. */
  function At(xs: seq<int>, k: int): int
    requires k < |xs|
  {
    if k < 0 then 0 else xs[k]
  }

  /** One sample later, every input is one place further back. */
  lemma OneLater(xs: seq<int>)
    requires xs != []
    ensures var prev := xs[..|xs| - 1];
            At(prev, |prev| - 1) == At(xs, |xs| - 2) && At(prev, |prev| - 2) == At(xs, |xs| - 3)
  {
  }

  function Sum(xs: seq<int>): int {
    if xs == [] then 0 else Sum(xs[..|xs| - 1]) + xs[|xs| - 1]
  }

  /** The product sum of the last step of a run from reset. */
  function Increment(g: Gains, xs: seq<int>): int
    requires xs != []
  {
    Products(g, At(xs, |xs| - 1), At(xs, |xs| - 2), At(xs, |xs| - 3))
  }

  /** The unbounded output of a run from reset: each product sum scaled and rounded down, then added. */
  function Velocity(g: Gains, one: int, xs: seq<int>): int
    requires one > 0
  {
    if xs == [] then 0 else Velocity(g, one, xs[..|xs| - 1]) + Increment(g, xs) / one
  }

  /** The textbook law on the whole input history, unscaled. */
  function Positional(kp: int, ki: int, kd: int, xs: seq<int>): int {
    if xs == [] then 0
    else kp * xs[|xs| - 1] + ki * Sum(xs) + kd * (xs[|xs| - 1] - At(xs, |xs| - 2))
  }

  /** The increments telescope: one more sample adds exactly one product sum to the textbook law. */
  lemma Telescope(g: Gains, kp: int, ki: int, kd: int, xs: seq<int>)
    requires Derived(g, kp, ki, kd) && xs != []
    ensures Positional(kp, ki, kd, xs) == Positional(kp, ki, kd, xs[..|xs| - 1]) + Increment(g, xs)
  {
    var n := |xs|;
    var prev, a, b, c := xs[..n - 1], xs[n - 1], At(xs, n - 2), At(xs, n - 3);
    if n >= 2 {
      assert prev[n - 2] == b && At(prev, n - 3) == c;
    }
    var sum := Sum(prev);
    assert Sum(xs) == sum + a;
    TelescopeAlgebra(kp, ki, kd, a, b, c, sum);
  }

  lemma TelescopeAlgebra(kp: int, ki: int, kd: int, a: int, b: int, c: int, sum: int)
    ensures kp * a + ki * (sum + a) + kd * (a - b)
            == kp * b + ki * sum + kd * (b - c) + ((kp + ki + kd) * a + (-kp - 2 * kd) * b + kd * c)
  {
  }

  /** Every step rounds down by less than one unit: after N samples the scaled output is below the textbook
      law by less than N units. */
  lemma {:induction false} RoundingDrift(g: Gains, kp: int, ki: int, kd: int, one: int, xs: seq<int>)
    requires Derived(g, kp, ki, kd) && one > 0
    ensures 0 <= Positional(kp, ki, kd, xs) - one * Velocity(g, one, xs) <= (one - 1) * |xs|
  {
    if xs == [] {
    } else {
      var prev, inc := xs[..|xs| - 1], Increment(g, xs);
      RoundingDrift(g, kp, ki, kd, one, prev);
      Telescope(g, kp, ki, kd, xs);
      assert Velocity(g, one, xs) == Velocity(g, one, prev) + inc / one;
      hide *;
      DriftStep(one, Positional(kp, ki, kd, prev), Velocity(g, one, prev), |prev|, inc);
    }
  }

  lemma DriftStep(one: int, p: int, y: int, n: int, inc: int)
    requires one > 0 && 0 <= p - one * y <= (one - 1) * n
    ensures 0 <= p + inc - one * (y + inc / one) <= (one - 1) * (n + 1)
  {
    var q := inc / one;
    assert 0 <= inc - one * q <= one - 1;
    Distribute(one, y, q);
    Distribute(one - 1, n, 1);
  }

  lemma Distribute(a: int, b: int, c: int)
    ensures a * (b + c) == a * b + a * c
  {
  }
}
