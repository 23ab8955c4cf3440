/** The 1.31 PID controller, `arm_pid_q31`: the velocity form, with a wrapping 64-bit accumulator and a
    wrapping 32-bit output. */
module PidQ31 {
  import opened FixedPoint
  import opened IntegerFacts
  import opened VelocityForm

  /** `state[0]`, `state[1]` and `state[2]`: the two previous inputs and the previous output. */
  datatype State = State(x1: Q31, x2: Q31, y: Q31)

  const RESET: State := State(0, 0, 0)

  function Accumulate(g: Gains, s: State, x: Q31): int {
    S64(S64(S64(g.a0 * x) + g.a1 * s.x1) + g.a2 * s.x2)
  }

  function Step(g: Gains, s: State, x: Q31): State {
    State(x, s.x1, S32(S32(Accumulate(g, s, x) / ONE31) + s.y))
  }

  class Pid {
    var A0: Q31
    var A1: Q31
    var A2: Q31
    const state: array<Q31>

    ghost predicate Valid()
      reads this
    {
      state.Length == 3
    }

    ghost function Coefficients(): Gains
      reads this
    {
      Gains(A0, A1, A2)
    }

    ghost function Memory(): State
      requires Valid()
      reads this, state
    {
      State(state[0], state[1], state[2])
    }

    /** A controller at reset: the state array cleared. */
    constructor (a0: Q31, a1: Q31, a2: Q31)
      ensures Valid() && fresh(state)
      ensures Coefficients() == Gains(a0, a1, a2) && Memory() == RESET
    {
      A0, A1, A2 := a0, a1, a2;
      state := new Q31[3](_ => 0);
    }

    /** `arm_pid_q31` */
    method Process(inp: Q31) returns (out: Q31)
      requires Valid()
      modifies state
      ensures Valid() && Memory() == Step(Coefficients(), old(Memory()), inp)
      ensures out == Memory().y
    {
      var acc: Q63 := S64(A0 * inp);
      acc := S64(acc + A1 * state[0]);
      acc := S64(acc + A2 * state[1]);
      out := S32(acc / ONE31);
      out := S32(out + state[2]);
      state[1] := state[0];
      state[0] := inp;
      state[2] := out;
    }
  }

  lemma Wrap64Sum(a: int, b: int)
    ensures S64(S64(a) + b) == S64(a + b)
  {
    var k := (a - S64(a)) / 0x1_0000_0000_0000_0000;
    assert a == S64(a) + 0x1_0000_0000_0000_0000 * k;
  }

  lemma Wrap32Sum(a: int, b: int)
    ensures S32(b + S32(a)) == S32(a + b)
  {
    var k := (a - S32(a)) / 0x1_0000_0000;
    assert a == S32(a) + 0x1_0000_0000 * k;
    S32Congruent(b + S32(a), k);
  }

  /** An overflow of the accumulator is a multiple of 2^64, which the shift turns into a multiple of 2^33. */
  lemma WrappedShift(z: int, y: int)
    ensures S32(S32(S64(z) / ONE31) + y) == S32(z / ONE31 + y)
  {
    var k := (z - S64(z)) / 0x1_0000_0000_0000_0000;
    assert z == S64(z) + 0x1_0000_0000_0000_0000 * k;
    assert z / ONE31 == S64(z) / ONE31 + 0x1_0000_0000 * (2 * k);
    Wrap32Sum(S64(z) / ONE31, y);
    S32Congruent(S64(z) / ONE31 + y, 2 * k);
  }

  /** Whatever overflows inside, the output is the exact scaled sum plus the last output, modulo 2^32. */
  lemma StepModulo(g: Gains, s: State, x: Q31)
    ensures Step(g, s, x) == State(x, s.x1, S32(Products(g, x, s.x1, s.x2) / ONE31 + s.y))
  {
    hide S32, S64;
    Wrap64Sum(g.a0 * x, g.a1 * s.x1);
    Wrap64Sum(g.a0 * x + g.a1 * s.x1, g.a2 * s.x2);
    WrappedShift(Products(g, x, s.x1, s.x2), s.y);
  }

  /** The output the comment of the function announces: saturated instead of wrapped. */
  function SaturatedOutput(g: Gains, s: State, x: Q31): Q31 {
    Clamp31(Products(g, x, s.x1, s.x2) / ONE31 + s.y)
  }

  predicate Q31Gains(g: Gains) {
    -ONE31 <= g.a0 < ONE31 && -ONE31 <= g.a1 < ONE31 && -ONE31 <= g.a2 < ONE31
  }

  /** The announced saturation happens exactly when the exact output fits, apart from two values beyond the
      range whose low word looks saturated. */
  lemma SaturatesOnlyInRange(g: Gains, s: State, x: Q31)
    requires Q31Gains(g)
    ensures var v := Products(g, x, s.x1, s.x2) / ONE31 + s.y;
            Step(g, s, x).y == SaturatedOutput(g, s, x)
            <==> -ONE31 <= v < ONE31 || v == 3 * ONE31 - 1 || v == -3 * ONE31
  {
    StepModulo(g, s, x);
    ProductBound(g.a0, x, ONE31, ONE31);
    ProductBound(g.a1, s.x1, ONE31, ONE31);
    ProductBound(g.a2, s.x2, ONE31, ONE31);
    WrapVersusClamp(Products(g, x, s.x1, s.x2) / ONE31 + s.y);
    hide S32, Clamp;
  }

  lemma WrapVersusClamp(v: int)
    requires -4 * ONE31 <= v <= 4 * ONE31
    ensures S32(v) == Clamp31(v) <==> -ONE31 <= v < ONE31 || v == 3 * ONE31 - 1 || v == -3 * ONE31
  {
  }

  /** A full-scale output driven further up comes out at the bottom. */
  lemma WrapsAtFullScale()
    ensures var g, s := Gains(0x4000_0000, 0, 0), State(0, 0, 0x7FFF_FFFF);
            Step(g, s, 2).y == -0x8000_0000 && SaturatedOutput(g, s, 2) == 0x7FFF_FFFF
  {
    hide S64, Step;
    StepModulo(Gains(0x4000_0000, 0, 0), State(0, 0, 0x7FFF_FFFF), 2);
  }

  function Run(g: Gains, s: State, xs: seq<Q31>): State {
    if xs == [] then s else Step(g, Run(g, s, xs[..|xs| - 1]), xs[|xs| - 1])
  }

  /** Over any run from reset the output is the unbounded one modulo 2^32, however often anything wrapped. */
  lemma {:induction false} RunModulo(g: Gains, xs: seq<Q31>)
    ensures Run(g, RESET, xs) == State(At(xs, |xs| - 1), At(xs, |xs| - 2), S32(Velocity(g, ONE31, xs)))
  {
    hide Step, S32, Products;
    if xs == [] {
      assert S32(0) == 0 by {
        S32Congruent(0, 0);
      }
    } else {
      var prev, x := xs[..|xs| - 1], xs[|xs| - 1];
      RunModulo(g, prev);
      StepModulo(g, Run(g, RESET, prev), x);
      OneLater(xs);
      Wrap32Sum(Velocity(g, ONE31, prev), Increment(g, xs) / ONE31);
    }
  }

  /** Main result, over any run from reset with the documented gains: the output is congruent modulo 2^32 to
      the textbook law rounded down by less than one unit per sample. Whenever that value fits, it is output,
      even if earlier outputs or accumulators wrapped. */
  lemma OutputIsPositional(g: Gains, kp: int, ki: int, kd: int, xs: seq<Q31>)
    requires Derived(g, kp, ki, kd)
    ensures Run(g, RESET, xs).y == S32(Velocity(g, ONE31, xs))
    ensures 0 <= Positional(kp, ki, kd, xs) - ONE31 * Velocity(g, ONE31, xs) <= (ONE31 - 1) * |xs|
    ensures var p := Positional(kp, ki, kd, xs);
            -ONE31 * ONE31 + ONE31 * |xs| <= p < ONE31 * ONE31 ==>
            0 <= p - ONE31 * Run(g, RESET, xs).y <= (ONE31 - 1) * |xs|
  {
    RunModulo(g, xs);
    RoundingDrift(g, kp, ki, kd, ONE31, xs);
    var y := Velocity(g, ONE31, xs);
    hide *;
    S32Congruent(y, 0);
  }
}
