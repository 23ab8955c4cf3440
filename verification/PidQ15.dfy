/** The 1.15 PID controller, `arm_pid_q15`, in its two builds: the portable one and the one on the packed
    multiply-accumulate operations `__SMUAD` and `__SMLALD`. */
module PidQ15 {
  import opened Bits
  import opened FixedPoint
  import opened IntegerFacts
  import opened VelocityForm

  /** `state[0]`, `state[1]` and `state[2]`: the two previous inputs and the previous output. */
  datatype State = State(x1: Q15, x2: Q15, y: Q15)

  const RESET: State := State(0, 0, 0)

  predicate Q15Gains(g: Gains) {
    -ONE15 <= g.a0 < ONE15 && -ONE15 <= g.a1 < ONE15 && -ONE15 <= g.a2 < ONE15
  }

  /** What the documentation promises of a step: full precision inside, one saturation at the end. */
  function Step(g: Gains, s: State, x: Q15): State {
    State(x, s.x1, Clamp15(s.y + Products(g, x, s.x1, s.x2) / ONE15))
  }

  // Packed pairs of 16-bit values

  /** A word with `lo` in its low and `hi` in its high half, as two adjacent samples are read in memory. */
  function Pack(lo: Q15, hi: Q15): Q31 { hi * 0x1_0000 + lo % 0x1_0000 }

  function LowHalf(w: Word): Q15 { S16(w) }

  function HighHalf(w: Word): int { S32(w) / 0x1_0000 }

  function U64(x: int): nat { x % 0x1_0000_0000_0000_0000 }

  /** `__SMUAD`: both products are added in 32 bits, by the instruction as by the C form. */
  function Smuad(x: Word, y: Word): Word {
    U32(S32(LowHalf(x) * LowHalf(y) + HighHalf(x) * HighHalf(y)))
  }

  /** `__SMLALD`, the instruction of the same name, with which alone the packed build is compiled: both products
      are added in 64 bits. */
  function Smlald(x: Word, y: Word, sum: nat): nat {
    U64(LowHalf(x) * LowHalf(y) + HighHalf(x) * HighHalf(y) + S64(sum))
  }

  /** `__SMLALD` as written in C for processors without the instruction: the two products are added in 32 bits
      before the 64-bit sum. */
  function SmlaldInC(x: Word, y: Word, sum: nat): nat {
    U64(S32(LowHalf(x) * LowHalf(y) + HighHalf(x) * HighHalf(y)) + S64(sum))
  }

  /** Reading a 32-bit value through an unsigned word keeps the value and its low half. */
  lemma SameWord(w: Q31)
    ensures S32(U32(w)) == w
    ensures U32(w) == if w < 0 then w + 0x1_0000_0000 else w
    ensures HighHalf(U32(w)) == w / 0x1_0000
  {
  }

  lemma SameLowHalf(w: Q31)
    ensures LowHalf(U32(w)) == S16(w)
  {
    SameWord(w);
    hide U32;
    if w < 0 {
      S16Congruent(w, 0x1_0000);
    }
  }

  lemma PackHalves(lo: Q15, hi: Q15)
    ensures LowHalf(U32(Pack(lo, hi))) == lo
    ensures HighHalf(U32(Pack(lo, hi))) == hi
  {
    var u := lo % 0x1_0000;
    assert u == if lo < 0 then lo + 0x1_0000 else lo;
    var w := Pack(lo, hi);
    SameWord(w);
    SameLowHalf(w);
    assert S16(u) == lo;
    S16Congruent(u, hi);
    assert w / 0x1_0000 == hi;
    hide LowHalf, HighHalf, S16, U32, S32;
  }

  /** A sign-extended operand has the high half 0 or -1. */
  lemma SignExtendedHalves(a: Q15)
    ensures LowHalf(U32(a)) == a
    ensures HighHalf(U32(a)) == if a < 0 then -1 else 0
  {
    SameWord(a);
    SameLowHalf(a);
    hide LowHalf, HighHalf, U32, S32;
  }

  lemma Unpacked(w: Q31)
    ensures -ONE15 <= HighHalf(U32(w)) < ONE15
    ensures Pack(LowHalf(U32(w)), HighHalf(U32(w))) == w
  {
    SameWord(w);
    SameLowHalf(w);
    assert S16(w) % 0x1_0000 == w % 0x1_0000;
    hide LowHalf, HighHalf, S16, U32, S32;
  }

  lemma Same64(x: Q63)
    ensures S64(U64(x)) == x
  {
  }

  /** The unit that two negative sign-extended operands add to their product. */
  function Carry(g: Gains, x: int): int { if g.a0 < 0 && x < 0 then 1 else 0 }

  function DspAccumulate(g: Gains, s: State, x: Q15): int
    requires Q15Gains(g)
  {
    var acc := S32(Smuad(U32(g.a0), U32(x)));
    S64(Smlald(U32(Pack(g.a1, g.a2)), U32(Pack(s.x1, s.x2)), U64(acc)))
  }

  function DspStep(g: Gains, s: State, x: Q15): State
    requires Q15Gains(g)
  {
    State(x, s.x1, Clamp15(S32((DspAccumulate(g, s, x) + s.y * ONE15) / ONE15)))
  }

  lemma ProductRange(a: int, b: int)
    requires -ONE15 <= a <= ONE15 && -ONE15 <= b <= ONE15
    ensures -0x4000_0000 <= a * b <= 0x4000_0000
    ensures a * b == 0x4000_0000 ==> (a == -ONE15 || a == ONE15) && (b == -ONE15 || b == ONE15)
  {
    MulLe(Abs(a), ONE15, Abs(b));
    MulLe(Abs(b), ONE15, ONE15);
    assert Abs(a * b) == Abs(a) * Abs(b);
    if Abs(a) < ONE15 {
      MulLe(Abs(a), ONE15 - 1, Abs(b));
    }
  }

  /** `__SMUAD` of two sign-extended operands: the product, and one more when both are negative. */
  lemma SmuadSignExtended(g: Gains, x: Q15)
    requires Q15Gains(g)
    ensures S32(Smuad(U32(g.a0), U32(x))) == g.a0 * x + Carry(g, x)
    ensures -0x4000_0000 <= g.a0 * x <= 0x4000_0000
  {
    hide LowHalf, HighHalf, S16, U32, S32;
    SignExtendedHalves(g.a0);
    SignExtendedHalves(x);
    ProductRange(g.a0, x);
    var v: int := g.a0 * x + Carry(g, x);
    S32Congruent(v, 0);
    SameWord(v);
  }

  /** Two products of 16-bit values fit a 32-bit sum unless all four are the minimum. */
  lemma PairOfProducts(a: int, x: int, b: int, y: int)
    requires -ONE15 <= a < ONE15 && -ONE15 <= x < ONE15 && -ONE15 <= b < ONE15 && -ONE15 <= y < ONE15
    ensures -0x8000_0000 <= a * x + b * y <= 0x8000_0000
    ensures a * x + b * y == 0x8000_0000 <==> a == -ONE15 && x == -ONE15 && b == -ONE15 && y == -ONE15
    ensures S32(a * x + b * y) == a * x + b * y - if a * x + b * y == 0x8000_0000 then 0x1_0000_0000 else 0
  {
    ProductRange(a, x);
    ProductRange(b, y);
  }

  /** Both halves of a word are the minimum in one word only. */
  lemma MinimalHalves(w: Word)
    ensures -ONE15 <= HighHalf(w) < ONE15
    ensures LowHalf(w) == -ONE15 && HighHalf(w) == -ONE15 <==> w == 0x8000_8000
  {
  }

  /** The C form is the instruction exactly unless both operands are 0x80008000, when it is 2^32 less. */
  lemma SmlaldInCIff(x: Word, y: Word, sum: nat)
    ensures SmlaldInC(x, y, sum) == Smlald(x, y, sum) <==> !(x == 0x8000_8000 && y == 0x8000_8000)
    ensures x == 0x8000_8000 && y == 0x8000_8000 ==>
      SmlaldInC(x, y, sum) == U64(Smlald(x, y, sum) - 0x1_0000_0000)
  {
    MinimalHalves(x);
    MinimalHalves(y);
    PairOfProducts(LowHalf(x), LowHalf(y), HighHalf(x), HighHalf(y));
    var pair: int := LowHalf(x) * LowHalf(y) + HighHalf(x) * HighHalf(y);
    hide LowHalf, HighHalf, S32;
    Lower64(pair + S64(sum), 0x1_0000_0000);
  }

  lemma Lower64(v: int, d: int)
    requires 0 < d < 0x1_0000_0000_0000_0000
    ensures U64(v - d) == U64(U64(v) - d) != U64(v)
  {
    if U64(v) >= d {
      DivModUnique(v - d, 0x1_0000_0000_0000_0000, v / 0x1_0000_0000_0000_0000, U64(v) - d);
    } else {
      DivModUnique(v - d, 0x1_0000_0000_0000_0000, v / 0x1_0000_0000_0000_0000 - 1,
                   U64(v) - d + 0x1_0000_0000_0000_0000);
    }
  }

  /** On any packed operands, `__SMUAD` is the sum of the two products as a word. */
  lemma SmuadPair(a: Q15, b: Q15, c: Q15, d: Q15)
    ensures Smuad(U32(Pack(a, b)), U32(Pack(c, d))) == U32(a * c + b * d)
  {
    PackHalves(a, b);
    PackHalves(c, d);
    hide LowHalf, HighHalf, Pack;
    WordOfSigned(a * c + b * d);
  }

  lemma WordOfSigned(x: int)
    ensures U32(S32(x)) == U32(x)
  {
  }

  /** And `__SMLALD` adds the two products to any 64-bit sum, modulo 2^64. */
  lemma SmlaldPair(a: Q15, b: Q15, c: Q15, d: Q15, sum: nat)
    ensures Smlald(U32(Pack(a, b)), U32(Pack(c, d)), sum) == U64(a * c + b * d + sum)
  {
    PackHalves(a, b);
    PackHalves(c, d);
    hide LowHalf, HighHalf, Pack;
    Offset64(a * c + b * d, sum);
  }

  lemma Offset64(x: int, sum: nat)
    ensures U64(x + S64(sum)) == U64(x + sum)
  {
    var m, h := 0x1_0000_0000_0000_0000, 0x8000_0000_0000_0000;
    var k := (sum + h) / m;
    assert S64(sum) == sum - k * m;
    DivModUnique(x + sum - k * m, m, (x + sum) / m - k, U64(x + sum));
  }

  lemma SmlaldPacked(g: Gains, s: State, acc: Q31)
    requires Q15Gains(g)
    ensures S64(Smlald(U32(Pack(g.a1, g.a2)), U32(Pack(s.x1, s.x2)), U64(acc))) == g.a1 * s.x1 + g.a2 * s.x2 + acc
    ensures -0x8000_0000 <= g.a1 * s.x1 + g.a2 * s.x2 <= 0x8000_0000
  {
    hide LowHalf, HighHalf, Pack, S16, S32, S64, U64, U32;
    PackHalves(g.a1, g.a2);
    PackHalves(s.x1, s.x2);
    PairOfProducts(g.a1, s.x1, g.a2, s.x2);
    Same64(acc);
    Same64(g.a1 * s.x1 + g.a2 * s.x2 + acc);
  }

  /** The packed accumulator is the exact sum plus the carry, for all gains and all memories. */
  lemma DspAccumulateExact(g: Gains, s: State, x: Q15)
    requires Q15Gains(g)
    ensures -0x1_0000_0000 <= DspAccumulate(g, s, x) <= 0x1_0000_0000
    ensures DspAccumulate(g, s, x) == Products(g, x, s.x1, s.x2) + Carry(g, x)
  {
    hide Smuad, Smlald, Pack, U64, U32, S64, S32;
    SmuadSignExtended(g, x);
    SmlaldPacked(g, s, g.a0 * x + Carry(g, x));
  }

  lemma DspAccumulateRange(g: Gains, s: State, x: Q15)
    requires Q15Gains(g)
    ensures -0x1_0000_0000 <= DspAccumulate(g, s, x) <= 0x1_0000_0000
  {
    DspAccumulateExact(g, s, x);
  }

  class PidPortable {
    var A0: Q15
    var A1: Q15
    var A2: Q15
    const state: array<Q15>

    ghost predicate Valid()
      reads this
    {
      state.Length == 3
    }

    ghost function Coefficients(): Gains
      reads this
    {
      Gains(A0, A1, A2)
    }

    ghost function Memory(): State
      requires Valid()
      reads this, state
    {
      State(state[0], state[1], state[2])
    }

    constructor (a0: Q15, a1: Q15, a2: Q15)
      ensures Valid() && fresh(state)
      ensures Coefficients() == Gains(a0, a1, a2) && Memory() == RESET
    {
      A0, A1, A2 := a0, a1, a2;
      state := new Q15[3](_ => 0);
    }

    /** `arm_pid_q15` without DSP instructions. The widths of the intermediate values are checked, not wrapped:
        there is no internal overflow. */
    method Process(inp: Q15) returns (out: Q15)
      requires Valid()
      modifies state
      ensures Valid() && Memory() == Step(Coefficients(), old(Memory()), inp)
      ensures out == Memory().y
    {
      hide Pow2;
      ProductRange(A0, inp);
      ProductRange(A1, state[0]);
      ProductRange(A2, state[1]);
      Pow2Literals();
      var product: Q31 := A0 * inp;
      var acc: Q63 := product;
      product := A1 * state[0];
      acc := acc + product;
      product := A2 * state[1];
      acc := acc + product;
      ghost var sum := acc;
      product := state[2] * ONE15;
      acc := acc + product;
      assert acc / ONE15 == state[2] + sum / ONE15;
      out := Ssat(acc / ONE15, 16);
      state[1] := state[0];
      state[0] := inp;
      state[2] := out;
    }
  }

  /** The DSP build keeps `A1` and `A2` packed in one word, and reads two samples of its memory as one. */
  class PidDsp {
    var A0: Q15
    var A1: Q31
    const state: array<Q15>

    ghost predicate Valid()
      reads this
    {
      state.Length == 3
    }

    ghost function Coefficients(): (g: Gains)
      reads this
      ensures Q15Gains(g)
    {
      Unpacked(A1);
      Gains(A0, LowHalf(U32(A1)), HighHalf(U32(A1)))
    }

    ghost function Memory(): State
      requires Valid()
      reads this, state
    {
      State(state[0], state[1], state[2])
    }

    constructor (a0: Q15, a1: Q15, a2: Q15)
      ensures Valid() && fresh(state)
      ensures Coefficients() == Gains(a0, a1, a2) && Memory() == RESET
    {
      hide LowHalf, HighHalf, Pack, U32;
      PackHalves(a1, a2);
      A0, A1 := a0, Pack(a1, a2);
      state := new Q15[3](_ => 0);
    }

    /** `arm_pid_q15` on packed operations. */
    method Process(inp: Q15) returns (out: Q15)
      requires Valid()
      modifies state
      ensures Valid() && Memory() == DspStep(Coefficients(), old(Memory()), inp)
      ensures out == Memory().y
    {
      hide Smuad, Smlald, Pack, LowHalf, HighHalf, S16, U32, U64, S32, S64, Pow2, Products;
      Unpacked(A1);
      Pow2Literals();
      ghost var g, s := Coefficients(), Memory();
      DspAccumulateRange(g, s, inp);
      var acc: Q63 := S32(Smuad(U32(A0), U32(inp)));
      var vstate: Q31 := Pack(state[0], state[1]);
      acc := S64(Smlald(U32(A1), U32(vstate), U64(acc)));
      acc := acc + state[2] * ONE15;
      out := Ssat(S32(acc / ONE15), 16);
      state[1] := state[0];
      state[0] := inp;
      state[2] := out;
    }
  }

  /** One step of the packed build: the exact sum with the carry, saturated. From the same memory it is at most the
      carry above the portable one. */
  lemma DspStepVersusStep(g: Gains, s: State, x: Q15)
    requires Q15Gains(g)
    ensures DspStep(g, s, x).y == Clamp15(s.y + (Products(g, x, s.x1, s.x2) + Carry(g, x)) / ONE15)
    ensures 0 <= DspStep(g, s, x).y - Step(g, s, x).y <= Carry(g, x)
  {
    hide DspAccumulate, S32, Products;
    DspAccumulateExact(g, s, x);
    var acc: int := DspAccumulate(g, s, x);
    assert (acc + s.y * ONE15) / ONE15 == acc / ONE15 + s.y;
    S32Congruent(acc / ONE15 + s.y, 0);
    ClampedGap(s.y, 0, Products(g, x, s.x1, s.x2), Carry(g, x));
    hide Clamp15;
  }

  // Whole runs

  function Run(g: Gains, s: State, xs: seq<Q15>): State {
    if xs == [] then s else Step(g, Run(g, s, xs[..|xs| - 1]), xs[|xs| - 1])
  }

  function DspRun(g: Gains, s: State, xs: seq<Q15>): State
    requires Q15Gains(g)
  {
    if xs == [] then s else DspStep(g, DspRun(g, s, xs[..|xs| - 1]), xs[|xs| - 1])
  }

  /** The number of steps in which the gain `A0` and the input are both negative. */
  function Carries(g: Gains, xs: seq<Q15>): int {
    if xs == [] then 0 else Carries(g, xs[..|xs| - 1]) + Carry(g, xs[|xs| - 1])
  }

  /** Rounding down and saturating: adding `c` in {0, 1} below the scale and `d` above it moves the
      saturated sum by at most `c + d`. */
  lemma ClampedGap(y: int, d: int, z: int, c: int)
    requires 0 <= d && 0 <= c <= 1
    ensures 0 <= Clamp15(y + d + (z + c) / ONE15) - Clamp15(y + z / ONE15) <= d + c
  {
  }

  /** Main result on the two builds: over any run from the same memory, the packed output is above the portable one
      by at most the number of steps with both `A0` and the input negative. */
  lemma {:induction false} BuildsStayClose(g: Gains, s: State, xs: seq<Q15>)
    requires Q15Gains(g)
    ensures DspRun(g, s, xs).x1 == Run(g, s, xs).x1 && DspRun(g, s, xs).x2 == Run(g, s, xs).x2
    ensures 0 <= DspRun(g, s, xs).y - Run(g, s, xs).y <= Carries(g, xs)
  {
    if xs == [] {
    } else {
      var prev, x := xs[..|xs| - 1], xs[|xs| - 1];
      BuildsStayClose(g, s, prev);
      var p, q := Run(g, s, prev), DspRun(g, s, prev);
      DspStepVersusStep(g, q, x);
      ClampedGap(p.y, q.y - p.y, Products(g, x, p.x1, p.x2), Carry(g, x));
      hide Products, DspStep, Clamp15;
    }
  }

  predicate AllEven(g: Gains) { g.a0 % 2 == 0 && g.a1 % 2 == 0 && g.a2 % 2 == 0 }

  /** Even gains make even product sums, which a carry never lifts over a multiple of the scale. */
  lemma EvenSum(g: Gains, x: int, x1: int, x2: int)
    requires AllEven(g)
    ensures (Products(g, x, x1, x2) + 1) / ONE15 == Products(g, x, x1, x2) / ONE15
  {
    var p, q, r := g.a0 / 2, g.a1 / 2, g.a2 / 2;
    assert g.a0 == 2 * p && g.a1 == 2 * q && g.a2 == 2 * r;
    Double(p, x);
    Double(q, x1);
    Double(r, x2);
    EvenQuotient(p * x + q * x1 + r * x2);
  }

  lemma EvenQuotient(h: int)
    ensures (2 * h + 1) / ONE15 == 2 * h / ONE15
  {
  }

  lemma {:induction false} AgreeOnRun(g: Gains, s: State, xs: seq<Q15>)
    requires Q15Gains(g) && (g.a0 >= 0 || AllEven(g))
    ensures DspRun(g, s, xs) == Run(g, s, xs)
  {
    if xs == [] {
    } else {
      var prev, x := xs[..|xs| - 1], xs[|xs| - 1];
      AgreeOnRun(g, s, prev);
      var p := Run(g, s, prev);
      DspStepVersusStep(g, p, x);
      if AllEven(g) {
        EvenSum(g, x, p.x1, p.x2);
      }
      hide Products, DspAccumulate, Clamp15, S32;
    }
  }

  /** An odd number has multiples in every residue class of a power of two. */
  lemma {:induction false} OddReaches(a: int, r: int, n: nat) returns (x: nat)
    requires a % 2 == 1
    ensures x < Pow2(n) && (a * x - r) % Pow2(n) == 0
  {
    if n == 0 {
      x := 0;
    } else {
      var low := OddReaches(a, r, n - 1);
      var p := Pow2(n - 1);
      var k := (a * low - r) / p;
      x := if k % 2 == 0 then low else low + p;
      assert Pow2(n) == 2 * p;
      hide *;
      OddStep(a, r, p, low, k);
    }
  }

  lemma OddStep(a: int, r: int, p: int, low: int, k: int)
    requires 0 < p && a % 2 == 1 && a * low - r == k * p
    ensures (a * (if k % 2 == 0 then low else low + p) - r) % (2 * p) == 0
  {
    if k % 2 == 0 {
      Double(k / 2, p);
      DivModUnique(a * low - r, 2 * p, k / 2, 0);
    } else {
      var h := (k + a) / 2;
      assert k + a == 2 * h;
      assert a * (low + p) - r == (k + a) * p;
      Double(h, p);
      DivModUnique(a * (low + p) - r, 2 * p, h, 0);
    }
  }

  /** An odd gain brings the product sum of a negative input just below a multiple of the scale. */
  lemma JustBelow(g: Gains) returns (x: Q15, x1: Q15, x2: Q15)
    requires Q15Gains(g) && g.a0 < 0 && !AllEven(g)
    ensures x < 0 && (Products(g, x, x1, x2) + 1) % ONE15 == 0
    ensures -0x4000_8000 <= Products(g, x, x1, x2) <= 0x4000_8000
  {
    hide Pow2;
    Pow2Literals();
    if g.a0 % 2 == 1 {
      var m := OddReaches(g.a0, g.a0 * ONE15 - 1, 15);
      x, x1, x2 := m - ONE15, 0, 0;
      assert g.a0 * (m - ONE15) + 1 == g.a0 * m - (g.a0 * ONE15 - 1);
      ProductRange(g.a0, x);
    } else if g.a1 % 2 == 1 {
      var m := OddReaches(g.a1, g.a0 + g.a1 * ONE15 - 1, 15);
      x, x1, x2 := -1, m - ONE15, 0;
      assert g.a1 * (m - ONE15) - g.a0 + 1 == g.a1 * m - (g.a0 + g.a1 * ONE15 - 1);
      ProductRange(g.a1, x1);
    } else {
      var m := OddReaches(g.a2, g.a0 + g.a2 * ONE15 - 1, 15);
      x, x1, x2 := -1, 0, m - ONE15;
      assert g.a2 * (m - ONE15) - g.a0 + 1 == g.a2 * m - (g.a0 + g.a2 * ONE15 - 1);
      ProductRange(g.a2, x2);
    }
  }

  /** Then the carry counts: a memory and an input at which the two builds differ at once. */
  lemma BuildsDiffer(g: Gains) returns (s: State, x: Q15)
    requires Q15Gains(g) && g.a0 < 0 && !AllEven(g)
    ensures DspStep(g, s, x).y != Step(g, s, x).y
  {
    var x1, x2;
    x, x1, x2 := JustBelow(g);
    var z: int := Products(g, x, x1, x2);
    s := State(x1, x2, if z >= 0 then -0x4000 else 0x4000);
    DspStepVersusStep(g, s, x);
    hide Products, DspStep, AllEven, Clamp15;
    CarryCounts(z, s.y);
  }

  lemma OneStepRun(g: Gains, s: State, x: Q15)
    requires Q15Gains(g)
    ensures DspRun(g, s, [x]) == DspStep(g, s, x) && Run(g, s, [x]) == Step(g, s, x)
  {
    hide Step, DspStep;
    assert [x][..0] == [];
  }

  /** The two builds have the same memory after every run from every memory exactly when `A0` is not negative or
      no gain is odd. */
  lemma BuildsAgreeIff(g: Gains)
    requires Q15Gains(g)
    ensures (forall s: State, xs: seq<Q15> :: DspRun(g, s, xs) == Run(g, s, xs)) <==> g.a0 >= 0 || AllEven(g)
  {
    hide Run, DspRun, Step, DspStep, AllEven;
    if g.a0 >= 0 || AllEven(g) {
      forall s: State, xs: seq<Q15>
        ensures DspRun(g, s, xs) == Run(g, s, xs)
      {
        AgreeOnRun(g, s, xs);
      }
    } else {
      var s, x := BuildsDiffer(g);
      OneStepRun(g, s, x);
      assert DspRun(g, s, [x]) != Run(g, s, [x]);
    }
  }

  lemma CarryCounts(z: int, y: int)
    requires (z + 1) % ONE15 == 0 && -0x4000_8000 <= z <= 0x4000_8000
    requires y == if z >= 0 then -0x4000 else 0x4000
    ensures Clamp15(y + (z + 1) / ONE15) != Clamp15(y + z / ONE15)
  {
  }

  /** Saturation never amplifies a difference: two runs on the same inputs that differ only in the output they
      start from keep its order, and their gap never grows along the run. */
  lemma {:induction false} GapNeverGrows(g: Gains, s: State, higher: Q15, xs: seq<Q15>, k: nat)
    requires s.y <= higher && k <= |xs|
    ensures var t := s.(y := higher);
            && Run(g, t, xs).x1 == Run(g, s, xs).x1 && Run(g, t, xs).x2 == Run(g, s, xs).x2
            && 0 <= Run(g, t, xs).y - Run(g, s, xs).y <= Run(g, t, xs[..k]).y - Run(g, s, xs[..k]).y
            && Run(g, t, xs[..k]).y - Run(g, s, xs[..k]).y <= higher - s.y
  {
    if k == |xs| {
      assert xs[..k] == xs;
    }
    if xs == [] {
    } else {
      var t := s.(y := higher);
      var prev, x := xs[..|xs| - 1], xs[|xs| - 1];
      if k < |xs| {
        assert prev[..k] == xs[..k];
        GapNeverGrows(g, s, higher, prev, k);
      } else {
        GapNeverGrows(g, s, higher, prev, |prev|);
        assert prev[..|prev|] == prev;
      }
      var p, q := Run(g, s, prev), Run(g, t, prev);
      ClampedGap(p.y, q.y - p.y, Products(g, x, p.x1, p.x2), 0);
    }
  }

  /** From reset, all outputs of a run are those of the unbounded velocity form exactly when that form always
      fits 1.15. */
  lemma {:induction false} ExactWhileInRange(g: Gains, xs: seq<Q15>)
    ensures (forall k :: 0 <= k <= |xs| ==> Run(g, RESET, xs[..k]).y == Velocity(g, ONE15, xs[..k]))
            <==> (forall k :: 0 <= k <= |xs| ==> -ONE15 <= Velocity(g, ONE15, xs[..k]) < ONE15)
  {
    forall k | 0 <= k <= |xs| && forall j :: 0 <= j <= |xs| ==> -ONE15 <= Velocity(g, ONE15, xs[..j]) < ONE15
      ensures Run(g, RESET, xs[..k]).y == Velocity(g, ONE15, xs[..k])
    {
      InRangeRun(g, xs, k);
    }
  }

  lemma {:induction false} InRangeRun(g: Gains, xs: seq<Q15>, k: nat)
    requires k <= |xs|
    requires forall j :: 0 <= j <= k ==> -ONE15 <= Velocity(g, ONE15, xs[..j]) < ONE15
    ensures Run(g, RESET, xs[..k]) == State(At(xs[..k], k - 1), At(xs[..k], k - 2), Velocity(g, ONE15, xs[..k]))
  {
    if k == 0 {
    } else {
      InRangeRun(g, xs, k - 1);
      var cur := xs[..k];
      assert cur[..k - 1] == xs[..k - 1];
      var s := Run(g, RESET, xs[..k - 1]);
      assert Products(g, cur[k - 1], s.x1, s.x2) == Increment(g, cur);
    }
  }

  /** A run whose unbounded form always fits follows the textbook law to less than one unit per sample. */
  lemma OutputIsPositional(g: Gains, kp: int, ki: int, kd: int, xs: seq<Q15>)
    requires Derived(g, kp, ki, kd)
    requires forall j :: 0 <= j <= |xs| ==> -ONE15 <= Velocity(g, ONE15, xs[..j]) < ONE15
    ensures 0 <= Positional(kp, ki, kd, xs) - ONE15 * Run(g, RESET, xs).y <= (ONE15 - 1) * |xs|
  {
    InRangeRun(g, xs, |xs|);
    assert xs[..|xs|] == xs;
    RoundingDrift(g, kp, ki, kd, ONE15, xs);
  }
}
