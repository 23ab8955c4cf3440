/** Table interpolation on a 12.20 input: `arm_linear_interp_q31`, `_q15` and `_q7`. */
module LinearInterp {
  import opened Bits
  import opened FixedPoint
  import opened IntegerFacts

  const STEP: int := 0x10_0000           // 2^20, the distance of two table points
  const INDEX_BITS: nat := 0xFFF0_0000
  const FRACT_BITS: nat := 0xF_FFFF
  const TABLE_BITS: nat := 0xFFF
  const FULL: int := 0xF_FFFF            // the largest fraction, which the code uses as one

  /** `(x & 0xFFF00000) >> 20` on a signed `x` */
  function IndexOf(x: Q31): int { S32(And(U32(x), INDEX_BITS)) / STEP }

  /** `x & 0x000FFFFF` */
  function FractOf(x: Q31): int { And(U32(x), FRACT_BITS) }

  lemma IndexMask(u: nat)
    requires u < 0x1_0000_0000
    ensures And(u, INDEX_BITS) == u - u % STEP
    ensures And(u, FRACT_BITS) == u % STEP
  {
    hide And, HighMask, Pow2;
    Pow2Literals();
    AndHighMask(u, 12, 20);
    AndMask(u, 20);
    HighMaskLiteral();
  }

  lemma HighMaskLiteral()
    ensures HighMask(12, 20) == INDEX_BITS
  {
    assert HighMask(12, 0) == 0xFFF;
    assert HighMask(12, 10) == 0xFFF * 0x400;
  }

  /** The two masks are the floor and the remainder, also for negative inputs. */
  lemma IndexIsFloor(x: Q31)
    ensures IndexOf(x) == x / STEP
    ensures FractOf(x) == x % STEP
  {
    hide And;
    IndexMask(U32(x));
    hide *;
    WordFloor(x);
  }

  /** Reading a signed value as a word adds a multiple of 2^32, which the two operations do not see. */
  lemma WordFloor(x: Q31)
    ensures S32(U32(x) - U32(x) % STEP) / STEP == x / STEP
    ensures U32(x) % STEP == x % STEP
  {
    var q: int, r: int := x / STEP, x % STEP;
    var k := if x < 0 then 1 else 0;
    assert U32(x) == (q + 0x1000 * k) * STEP + r;
    DivModUnique(U32(x), STEP, q + 0x1000 * k, r);
    S32Congruent(q * STEP, k);
    hide S32;
    DivModUnique(q * STEP, STEP, q, 0);
  }

  /** The value between two table points, scaled by `STEP`: the two weights add up to `FULL`, one short of `STEP`. */
  function Blend(y0: int, y1: int, f: int): int { y0 * (FULL - f) + y1 * f }

  function InterpQ15(y: seq<Q15>, x: Q31): Q15
    requires 1 <= |y| <= ONE31
  {
    S32Congruent(|y| - 1, 0);
    hide S32, IndexOf;
    var index := IndexOf(x);
    if index >= S32(|y| - 1) then y[|y| - 1]
    else if index < 0 then y[0]
    else S16(S64(Blend(y[index], y[index + 1], FractOf(x))) / STEP)
  }

  function InterpQ7(y: seq<Q7>, x: Q31): Q7
    requires 1 <= |y| <= ONE31
  {
    if x < 0 then y[0]
    else
      var index := And(U32(x / STEP), TABLE_BITS);
      if index >= |y| - 1 then y[|y| - 1]
      else S8(S32(Blend(y[index], y[index + 1], FractOf(x))) / STEP)
  }

  function InterpQ31(y: seq<Q31>, x: Q31): Q31
    requires 1 <= |y| <= ONE31
  {
    S32Congruent(|y| - 1, 0);
    hide S32, IndexOf;
    var index := IndexOf(x);
    if index >= S32(|y| - 1) then y[|y| - 1]
    else if index < 0 then y[0]
    else
      var fract := S32(FractOf(x) * 0x800);
      var r := S32(y[index] * (0x7FFF_FFFF - fract) / 0x1_0000_0000);
      S32(S32(r + S32(y[index + 1] * fract / 0x1_0000_0000)) * 2)
  }

  /** What the 1.15 and 1.7 versions compute, without widths. */
  function Plain(y: seq<int>, x: int): int
    requires 1 <= |y|
  {
    if x < 0 then y[0]
    else if x / STEP >= |y| - 1 then y[|y| - 1]
    else Blend(y[x / STEP], y[x / STEP + 1], x % STEP) / STEP
  }

  ghost predicate Within(y: seq<int>, bound: int) {
    forall k :: 0 <= k < |y| ==> -bound <= y[k] < bound
  }

  ghost predicate Nondecreasing(y: seq<int>) {
    forall i, j :: 0 <= i <= j < |y| ==> y[i] <= y[j]
  }

  lemma BlendBetween(y0: int, y1: int, f: int)
    requires 0 <= f <= FULL
    ensures Min(y0, y1) * FULL <= Blend(y0, y1, f) <= Max(y0, y1) * FULL
  {
    MulLe(Min(y0, y1), y0, FULL - f);
    MulLe(Min(y0, y1), y1, f);
    MulLe(y0, Max(y0, y1), FULL - f);
    MulLe(y1, Max(y0, y1), f);
  }

  /** A point between two table values is at most the larger, and at least the smaller, or one less
      when the smaller is positive. */
  lemma BlendRange(y0: int, y1: int, f: int)
    requires 0 <= f <= FULL && -STEP < y0 < STEP && -STEP < y1 < STEP
    ensures Min(y0, y1) - (if Min(y0, y1) > 0 then 1 else 0) <= Blend(y0, y1, f) / STEP <= Max(y0, y1)
  {
    BlendBetween(y0, y1, f);
    hide Blend;
  }

  lemma Q15IsPlain(y: seq<Q15>, x: Q31)
    requires 1 <= |y| <= ONE31
    ensures InterpQ15(y, x) == Plain(y, x)
  {
    hide IndexOf, FractOf, S32;
    IndexIsFloor(x);
    S32Congruent(|y| - 1, 0);
    if 0 <= x / STEP < |y| - 1 {
      var b := Blend(y[x / STEP], y[x / STEP + 1], x % STEP);
      BlendBetween(y[x / STEP], y[x / STEP + 1], x % STEP);
      BlendRange(y[x / STEP], y[x / STEP + 1], x % STEP);
      hide Blend;
      assert S64(b) == b;
    }
  }

  lemma Q7IsPlain(y: seq<Q7>, x: Q31)
    requires 1 <= |y| <= ONE31
    ensures InterpQ7(y, x) == Plain(y, x)
  {
    hide FractOf, And, U32, S32, S8;
    if x >= 0 {
      IndexIsFloor(x);
      TwelveBits(x / STEP);
      if x / STEP < |y| - 1 {
        BlendBetween(y[x / STEP], y[x / STEP + 1], x % STEP);
        BlendRange(y[x / STEP], y[x / STEP + 1], x % STEP);
        hide Blend;
        NarrowQ7(Blend(y[x / STEP], y[x / STEP + 1], x % STEP));
      }
    }
  }

  lemma NarrowQ7(b: int)
    requires -0x80 <= b / STEP < 0x80
    ensures S8(S32(b) / STEP) == b / STEP
  {
    S32Congruent(b, 0);
    hide S32;
  }

  lemma TwelveBits(i: int)
    requires 0 <= i < 0x1000
    ensures And(U32(i), TABLE_BITS) == i
  {
    hide And;
    assert Pow2(12) == 0x1000;
    AndMask(i, 12);
  }

  // 1.15 and 1.7

  /** A point of the table interior lies in [min - 1, max] of its two neighbours, and no narrowing wraps. */
  lemma PlainRange(y: seq<int>, x: int)
    requires Within(y, 0x8000) && 0 <= x && x / STEP < |y| - 1
    ensures var y0, y1 := y[x / STEP], y[x / STEP + 1];
            Min(y0, y1) - 1 <= Plain(y, x) <= Max(y0, y1)
  {
    BlendRange(y[x / STEP], y[x / STEP + 1], x % STEP);
    hide Blend;
  }

  /** The piecewise linear function through the table points, scaled by `STEP`, constant outside the table. */
  function Exact(y: seq<int>, x: int): int
    requires 1 <= |y|
  {
    if x < 0 then y[0] * STEP
    else if x / STEP >= |y| - 1 then y[|y| - 1] * STEP
    else y[x / STEP] * (STEP - x % STEP) + y[x / STEP + 1] * (x % STEP)
  }

  /** In the interior, the result is the exact value less a 2^-20 part of the left neighbour, rounded down;
      outside it is exact. */
  lemma PlainError(y: seq<int>, x: int)
    requires 1 <= |y|
    ensures 0 <= x && x / STEP < |y| - 1 ==>
      var e := Exact(y, x) - y[x / STEP];
      e - STEP < STEP * Plain(y, x) <= e
    ensures !(0 <= x && x / STEP < |y| - 1) ==> STEP * Plain(y, x) == Exact(y, x)
  {
    if 0 <= x && x / STEP < |y| - 1 {
      OneShort(y[x / STEP], x % STEP);
    }
  }

  lemma OneShort(y0: int, f: int)
    ensures y0 * (FULL - f) == y0 * (STEP - f) - y0
  {
  }

  /** The interpolation reproduces a table point exactly when its value is not positive or it is the last;
      a positive inner value comes out one less. */
  lemma TablePointReproduced(y: seq<int>, i: nat)
    requires Within(y, 0x8000) && i < |y|
    ensures Plain(y, i * STEP) == y[i] <==> y[i] <= 0 || i == |y| - 1
    ensures y[i] > 0 && i < |y| - 1 ==> Plain(y, i * STEP) == y[i] - 1
  {
    assert i * STEP / STEP == i && i * STEP % STEP == 0;
    if i < |y| - 1 {
      assert Blend(y[i], y[i + 1], 0) == y[i] * FULL;
    }
    hide Blend;
  }

  /** The last point of a segment equals the first point of the next. The last table point has no next segment: it
      is approached like the others, and reached exactly. */
  lemma SegmentsJoin(y: seq<int>, i: nat)
    requires 0 < i < |y|
    ensures Plain(y, i * STEP - 1) == y[i] * FULL / STEP
    ensures Plain(y, i * STEP) == if i < |y| - 1 then y[i] * FULL / STEP else y[i]
  {
    assert i * STEP / STEP == i && i * STEP % STEP == 0;
    DivModUnique(i * STEP - 1, STEP, i - 1, FULL);
    assert Blend(y[i - 1], y[i], FULL) == y[i] * FULL;
    if i < |y| - 1 {
      assert Blend(y[i], y[i + 1], 0) == y[i] * FULL;
    }
    hide Blend;
  }

  lemma BlendMonotone(y0: int, y1: int, f: int, g: int)
    requires y0 <= y1 && 0 <= f <= g <= FULL
    ensures y0 * FULL <= Blend(y0, y1, f) <= Blend(y0, y1, g) <= y1 * FULL
  {
    BlendSlope(y0, y1, f);
    BlendSlope(y0, y1, g);
    MulLe(0, f, y1 - y0);
    MulLe(f, g, y1 - y0);
    MulLe(g, FULL, y1 - y0);
  }

  lemma BlendSlope(y0: int, y1: int, f: int)
    ensures Blend(y0, y1, f) == y0 * FULL + f * (y1 - y0)
  {
  }

  /** From an inner point to any point not before it, a nondecreasing table gives a nondecreasing output. */
  lemma PlainMonotoneInside(y: seq<int>, x: int, z: int)
    requires Within(y, 0x8000) && Nondecreasing(y) && 0 <= x <= z && x / STEP < |y| - 1
    ensures Plain(y, x) <= Plain(y, z)
  {
    var i, k := x / STEP, z / STEP;
    assert y[i] <= y[i + 1];
    if i == k {
      BlendMonotone(y[i], y[i + 1], x % STEP, z % STEP);
    } else if k < |y| - 1 {
      assert y[i + 1] <= y[k] <= y[k + 1];
      BlendMonotone(y[i], y[i + 1], x % STEP, x % STEP);
      BlendMonotone(y[k], y[k + 1], z % STEP, z % STEP);
    } else {
      assert y[i + 1] <= y[|y| - 1];
      BlendRange(y[i], y[i + 1], x % STEP);
    }
    hide Blend;
  }

  /** For a nondecreasing table the output is nondecreasing over all inputs from 0 on. Over all inputs it is
      so exactly when the first value is not positive or is the only one: at 0 the output drops by one below
      a positive first value. */
  lemma PlainMonotone(y: seq<int>)
    requires Within(y, 0x8000) && Nondecreasing(y) && 1 <= |y|
    ensures forall x, z :: 0 <= x <= z ==> Plain(y, x) <= Plain(y, z)
    ensures (forall x, z :: x <= z ==> Plain(y, x) <= Plain(y, z)) <==> y[0] <= 0 || |y| == 1
  {
    forall x, z | 0 <= x <= z
      ensures Plain(y, x) <= Plain(y, z)
    {
      if x / STEP < |y| - 1 {
        PlainMonotoneInside(y, x, z);
      }
    }
    TablePointReproduced(y, 0);
    assert Plain(y, 0 * STEP) == Plain(y, 0);
    if y[0] <= 0 || |y| == 1 {
      forall x, z | x <= z
        ensures Plain(y, x) <= Plain(y, z)
      {
        if x < 0 <= z {
          assert Plain(y, x) == Plain(y, 0) <= Plain(y, z);
        }
      }
    } else {
      assert Plain(y, -1) == y[0] && Plain(y, 0) == y[0] - 1;
    }
  }

  // 1.31

  /** The two truncated products of the 1.31 version, with the fraction already shifted to `2^11 f`. */
  lemma HalvesRange(y0: Q31, y1: Q31, f: int)
    requires 0 <= f <= FULL
    ensures var r, s := y0 * (0x7FFF_FFFF - 0x800 * f) / 0x1_0000_0000, y1 * (0x800 * f) / 0x1_0000_0000;
            -0x4000_0000 <= r <= 0x3FFF_FFFF && -0x4000_0000 <= s <= 0x3FFF_FFFF
            && -0x4000_0000 <= r + s <= 0x3FFF_FFFF
  {
    var g := 0x800 * f;
    MulLe(-ONE31, y0, 0x7FFF_FFFF - g);
    MulLe(y0, ONE31, 0x7FFF_FFFF - g);
    MulLe(-ONE31, y1, g);
    MulLe(y1, ONE31, g);
    var p, q := y0 * (0x7FFF_FFFF - g), y1 * g;
    hide *;
    assert p / 0x1_0000_0000 >= -0x4000_0000 + 0x400 * f;
    assert q / 0x1_0000_0000 >= -0x400 * f;
  }

  /** In the interior nothing wraps, not even the final doubling, for any table down to -2^31. */
  lemma Q31NeverWraps(y: seq<Q31>, x: Q31)
    requires 1 <= |y| <= ONE31 && 0 <= x / STEP < |y| - 1
    ensures InterpQ31(y, x) == 2 * (y[x / STEP] * (0x7FFF_FFFF - 0x800 * (x % STEP)) / 0x1_0000_0000
                                    + y[x / STEP + 1] * (0x800 * (x % STEP)) / 0x1_0000_0000)
  {
    hide IndexOf, FractOf, S32;
    IndexIsFloor(x);
    S32Congruent(|y| - 1, 0);
    var f := x % STEP;
    var y0, y1 := y[x / STEP], y[x / STEP + 1];
    HalvesRange(y0, y1, f);
    var r: int, s: int := y0 * (0x7FFF_FFFF - 0x800 * f) / 0x1_0000_0000, y1 * (0x800 * f) / 0x1_0000_0000;
    S32Congruent(f * 0x800, 0);
    S32Congruent(r, 0);
    S32Congruent(s, 0);
    S32Congruent(r + s, 0);
    S32Congruent((r + s) * 2, 0);
  }

  /** Outside the table the first or the last point is returned. */
  lemma Q31Value(y: seq<Q31>, x: Q31)
    requires 1 <= |y| <= ONE31 && !(0 <= x / STEP < |y| - 1)
    ensures InterpQ31(y, x) == y[if x / STEP >= |y| - 1 then |y| - 1 else 0]
  {
    hide IndexOf, FractOf, S32;
    IndexIsFloor(x);
    S32Congruent(|y| - 1, 0);
  }

  /** The sum of the two 1.31 products, before they are rounded. */
  function Sum31(y0: int, y1: int, f: int): int { y0 * (0x7FFF_FFFF - 0x800 * f) + y1 * (0x800 * f) }

  /** An interior value is even, at most the unrounded sum and less than four units below it. */
  lemma Q31Interior(y: seq<Q31>, x: Q31)
    requires 1 <= |y| <= ONE31 && 0 <= x / STEP < |y| - 1
    ensures var sum := Sum31(y[x / STEP], y[x / STEP + 1], x % STEP);
            InterpQ31(y, x) % 2 == 0 && sum - 0x2_0000_0000 < 0x8000_0000 * InterpQ31(y, x) <= sum
  {
    Q31NeverWraps(y, x);
    hide InterpQ31;
    var y0, y1, f := y[x / STEP], y[x / STEP + 1], x % STEP;
    TwoFloors(y0 * (0x7FFF_FFFF - 0x800 * f), y1 * (0x800 * f));
  }

  lemma TwoFloors(p: int, q: int)
    ensures var v := 2 * (p / 0x1_0000_0000 + q / 0x1_0000_0000);
            v % 2 == 0 && p + q - 0x2_0000_0000 < 0x8000_0000 * v <= p + q
  {
  }

  lemma Sum31Exact(y0: int, y1: int, f: int)
    ensures Sum31(y0, y1, f) == 0x800 * (y0 * (STEP - f) + y1 * f) - y0
  {
  }

  /** The 1.31 result lies less than 5 units below and at most 1 unit above the exact interpolant. */
  lemma Q31Error(y: seq<Q31>, x: Q31)
    requires 1 <= |y| <= ONE31
    ensures Exact(y, x) - 5 * STEP < STEP * InterpQ31(y, x) <= Exact(y, x) + STEP
  {
    hide InterpQ31, Sum31;
    if 0 <= x / STEP < |y| - 1 {
      Q31Interior(y, x);
      Sum31Exact(y[x / STEP], y[x / STEP + 1], x % STEP);
    } else {
      Q31Value(y, x);
    }
  }

  lemma Sum31Slope(y0: int, y1: int, f: int)
    ensures Sum31(y0, y1, f) == y0 * 0x7FFF_FFFF + 0x800 * (f * (y1 - y0))
  {
  }

  /** It does not fall along a rising segment, nor from the end of one to the start of the next. */
  lemma Sum31Rises(y0: int, y1: int, f: int, g: int)
    requires y0 <= y1 && 0 <= f <= g <= FULL
    ensures y0 * 0x7FFF_FFFF <= Sum31(y0, y1, f) <= Sum31(y0, y1, g) <= y1 * 0x7FFF_FFFF
  {
    Sum31Slope(y0, y1, f);
    Sum31Slope(y0, y1, g);
    MulLe(0, f, y1 - y0);
    MulLe(f, g, y1 - y0);
    MulLe(g, FULL, y1 - y0);
  }

  lemma Sum31Monotone(y: seq<int>, x: int, z: int)
    requires Nondecreasing(y) && 0 <= x <= z && z / STEP < |y| - 1
    ensures Sum31(y[x / STEP], y[x / STEP + 1], x % STEP) <= Sum31(y[z / STEP], y[z / STEP + 1], z % STEP)
  {
    var i, k := x / STEP, z / STEP;
    assert y[i] <= y[i + 1] && y[k] <= y[k + 1];
    Sum31Rises(y[i], y[i + 1], x % STEP, if i == k then z % STEP else x % STEP);
    Sum31Rises(y[k], y[k + 1], z % STEP, z % STEP);
    hide Sum31;
    if i < k {
      assert y[i + 1] <= y[k];
    }
  }

  /** The 1.31 output of a nondecreasing table can dip, because its two products are rounded apart, but from 0 on
      by at most two units, and from a negative input, where it is exact, by at most four ... */
  lemma Q31AlmostMonotone(y: seq<Q31>, x: Q31, z: Q31)
    requires 1 <= |y| <= ONE31 && Nondecreasing(y) && x <= z
    ensures InterpQ31(y, x) <= InterpQ31(y, z) + if x < 0 then 4 else 2
  {
    hide InterpQ31, Sum31;
    var i, k, last := x / STEP, z / STEP, |y| - 1;
    var from: Q31 := if x < 0 then 0 else x;
    if i >= last {
      Q31Value(y, x);
      Q31Value(y, z);
    } else if k >= last {
      Q31Value(y, z);
      if x < 0 {
        Q31Value(y, x);
        assert y[0] <= y[last];
      } else {
        Q31Interior(y, x);
        assert y[i] <= y[i + 1] <= y[last];
        Sum31Rises(y[i], y[i + 1], x % STEP, x % STEP);
      }
    } else if z < 0 {
      Q31Value(y, x);
      Q31Value(y, z);
    } else {
      Q31Interior(y, z);
      Sum31Monotone(y, from, z);
      if x < 0 {
        Q31Value(y, x);
        assert y[0] <= y[1];
        Sum31Rises(y[0], y[1], 0, 0);
      } else {
        Q31Interior(y, x);
      }
    }
  }

  /** ... as two constant tables show: no smaller bounds hold. */
  lemma ConstantTablesDip()
    ensures InterpQ31([3, 3], 0) == 2 && InterpQ31([3, 3], 0x8_0000) == 0
    ensures InterpQ31([4098, 4098], -1) == 4098 && InterpQ31([4098, 4098], 0x7FF) == 4094
  {
    hide InterpQ31, IndexOf, FractOf, And, S32;
    Q31NeverWraps([3, 3], 0);
    Q31NeverWraps([3, 3], 0x8_0000);
    Q31Value([4098, 4098], -1);
    Q31NeverWraps([4098, 4098], 0x7FF);
  }

  /** The three statements about the 1.15 and 1.7 outputs, on the functions of the library. */
  lemma InterpMonotone(y15: seq<Q15>, y7: seq<Q7>)
    requires 1 <= |y15| <= ONE31 && 1 <= |y7| <= ONE31 && Nondecreasing(y15) && Nondecreasing(y7)
    ensures forall x: Q31, z: Q31 :: 0 <= x <= z ==> InterpQ15(y15, x) <= InterpQ15(y15, z)
    ensures forall x: Q31, z: Q31 :: 0 <= x <= z ==> InterpQ7(y7, x) <= InterpQ7(y7, z)
    ensures (forall x: Q31, z: Q31 :: x <= z ==> InterpQ15(y15, x) <= InterpQ15(y15, z))
            <==> y15[0] <= 0 || |y15| == 1
    ensures (forall x: Q31, z: Q31 :: x <= z ==> InterpQ7(y7, x) <= InterpQ7(y7, z))
            <==> y7[0] <= 0 || |y7| == 1
  {
    hide InterpQ15, InterpQ7;
    forall x: Q31
      ensures InterpQ15(y15, x) == Plain(y15, x)
      ensures InterpQ7(y7, x) == Plain(y7, x)
    {
      Q15IsPlain(y15, x);
      Q7IsPlain(y7, x);
    }
    PlainMonotone(y15);
    PlainMonotone(y7);
    StepAtZero(y15);
    StepAtZero(y7);
    var below: Q31 := -1;
    var zero: Q31 := 0;
    assert InterpQ15(y15, below) == Plain(y15, -1) && InterpQ15(y15, zero) == Plain(y15, 0);
    assert InterpQ7(y7, below) == Plain(y7, -1) && InterpQ7(y7, zero) == Plain(y7, 0);
    hide Plain;
  }

  /** Only a positive first value of a longer table makes the output fall between -1 and 0. */
  lemma StepAtZero(y: seq<int>)
    requires Within(y, 0x8000) && 1 <= |y|
    ensures Plain(y, -1) <= Plain(y, 0) <==> y[0] <= 0 || |y| == 1
  {
    TablePointReproduced(y, 0);
    assert Plain(y, 0 * STEP) == Plain(y, 0);
  }
}
