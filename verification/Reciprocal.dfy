/** Newton reciprocals in 1.31 and 1.15: `arm_recip_q31` and `arm_recip_q15`.

    An input is shifted left until its magnitude `I` lies in the top half of its width, a table of 64 seeds
    is indexed by the next six bits, and two truncating Newton steps follow. The reciprocal of `I` is held
    as `out` with `I * out` near 2^61 (2^29 in 1.15), so `2^61 - I * out` is the defect of `out`. */
module Reciprocal {
  import opened Bits
  import opened FixedPoint
  import opened IntegerFacts

  const UNIT31: int := 0x2000_0000_0000_0000  // 2^61
  const UNIT15: int := 0x2000_0000            // 2^29

  function Defect31(i: int, out: int): int { UNIT31 - i * out }

  function Defect15(i: int, out: int): int { UNIT15 - i * out }

  const INDEX_MASK: nat := 0x3F

  lemma IndexMask(u: nat)
    ensures And(u, INDEX_MASK) == u % 64
  {
    hide And;
    assert Pow2(6) == 64;
    AndMask(u, 6);
  }

  lemma WordRemainder(x: int)
    ensures U32(x) % 64 == x % 64
  {
    DivDiv(x, 64, 0x400_0000);
  }

  /** `(in >> 24) & INDEX_MASK` */
  function Index31(i: Q31): (k: nat)
    ensures k == i / 0x100_0000 % 64
  {
    IndexMask(U32(i / 0x100_0000));
    WordRemainder(i / 0x100_0000);
    hide *;
    And(U32(i / 0x100_0000), INDEX_MASK)
  }

  function Index15(i: Q15): (k: nat)
    ensures k == i / 0x100 % 64
  {
    IndexMask(U32(i / 0x100));
    WordRemainder(i / 0x100);
    hide *;
    And(U32(i / 0x100), INDEX_MASK)
  }

  /** The unsigned word by which a step scales its estimate, for `p = in * out`. */
  function Correction31(p: int): int { U32(0x7FFF_FFFF - U32(p / 0x8000_0000)) }

  function Correction15(p: int): int { U32(0x7FFF - U32(p / 0x8000)) }

  /** One step of `arm_recip_q31` */
  function Newton31(i: Q31, out: Q31): Q31 {
    ProductBound(out, Correction31(i * out), 0x8000_0000, 0xFFFF_FFFF);
    ClipQ63ToQ31(out * Correction31(i * out) / 0x4000_0000)
  }

  /** One step of `arm_recip_q15`: the product is taken in unsigned words and narrowed without saturation. */
  function Newton15(i: Q15, out: Q15): Q15 {
    S16(U32(out * Correction15(i * out)) / 0x4000)
  }

  /** The seeds lie between `h` and `2 h`, half and full scale, and are within 2^-7 of the reciprocal at both ends
      of their segment. */
  ghost predicate SeedTable(table: seq<int>, h: int) {
    && |table| == 64
    && forall k :: 0 <= k < 64 ==>
      && h <= table[k] < 2 * h
      && 0x80 * h - (64 + k) * table[k] <= h
      && (65 + k) * table[k] - 0x80 * h <= h
  }

  ghost predicate SeedTable31(table: seq<int>) { SeedTable(table, 0x4000_0000) }

  ghost predicate SeedTable15(table: seq<int>) { SeedTable(table, 0x4000) }

  /** The reciprocal of the middle of a segment. */
  function Midpoint(k: nat, h: nat): int { 0x100 * h / (129 + 2 * k) }

  function MidpointTable(h: nat): (table: seq<int>)
    ensures |table| == 64 && forall k :: 0 <= k < 64 ==> table[k] == Midpoint(k, h)
  {
    seq(64, k requires 0 <= k => Midpoint(k, h))
  }

  /** A quotient by 129 or more stays well below full scale. */
  lemma MidpointBelow(m: int, t: int, h: int)
    requires 129 <= m <= 255 && 0x4000 <= h && 0 <= m * t <= 0x100 * h
    ensures t + m <= 2 * h
  {
    var n := m - 128;
    MulLe(0x4000, h, 2 * n);
    MulLe(n, 127, n);
    assert (2 * h - m + 1) * m == 256 * h + h * (2 * n) - (n * n + 255 * n + 0x3F80);
    if t >= 2 * h - m + 1 {
      MulLe(2 * h - m + 1, t, m);
    }
  }

  lemma MidpointSeed(k: nat, h: nat)
    requires k < 64 && 0x4000 <= h
    ensures h <= Midpoint(k, h) < 2 * h
    ensures 0x80 * h - (64 + k) * Midpoint(k, h) <= h
    ensures (65 + k) * Midpoint(k, h) - 0x80 * h <= h
  {
    var m: int, t: int := 129 + 2 * k, Midpoint(k, h);
    MulLe(m, 0x100, h);
    DivLower(0x100 * h, m, h);
    QuotientOf(0x100 * h, m);
    hide *;
    MidpointBelow(m, t, h);
    assert 2 * ((64 + k) * t) == m * t - t && 2 * ((65 + k) * t) == m * t + t;
  }

  lemma QuotientOf(x: int, m: int)
    requires 0 < m
    ensures m * (x / m) <= x < m * (x / m) + m
  {
  }

  /** Tables that meet the seed requirements exist at both widths: the reciprocals of the segment midpoints. */
  lemma MidpointTablesAreSeeds()
    ensures SeedTable31(MidpointTable(0x4000_0000))
    ensures SeedTable15(MidpointTable(0x4000))
  {
    hide Midpoint;
    forall k: nat, h: nat | k < 64 && (h == 0x4000 || h == 0x4000_0000)
      ensures h <= Midpoint(k, h) < 2 * h
      ensures 0x80 * h - (64 + k) * Midpoint(k, h) <= h
      ensures (65 + k) * Midpoint(k, h) - 0x80 * h <= h
    {
      MidpointSeed(k, h);
    }
  }

  // What a step computes, on all inputs

  /** The inner conversion to a word drops out of a difference. */
  lemma WordDifference(a: int, x: int)
    ensures U32(a - U32(x)) == U32(a - x)
  {
    var k := (x - U32(x)) / 0x1_0000_0000;
    assert x == U32(x) + 0x1_0000_0000 * k;
    assert a - x == a - U32(x) + 0x1_0000_0000 * (0 - k);
    hide U32;
    U32Congruent(a - U32(x), 0 - k);
  }

  lemma WordProduct(out: int, c: int)
    ensures U32(out * U32(c)) == U32(out * c)
  {
    var k := (c - U32(c)) / 0x1_0000_0000;
    assert c == U32(c) + 0x1_0000_0000 * k;
    var w: int := U32(c);
    hide U32;
    assert out * (w + 0x1_0000_0000 * k) == out * w + 0x1_0000_0000 * (out * k);
    U32Congruent(out * w, out * k);
  }

  lemma WordQuotient(v: int)
    ensures S16(U32(v) / 0x4000) == S16(v / 0x4000)
  {
    var k := v / 0x1_0000_0000;
    assert v / 0x4000 == U32(v) / 0x4000 + 0x1_0000 * (4 * k);
  }

  /** For all inputs, of either sign, the unsigned words of a 1.15 step drop out: it is the plain Newton step
      rounded down twice, narrowed to 16 bits. */
  lemma Newton15Exact(i: Q15, out: Q15)
    ensures Newton15(i, out) == S16(out * (0x7FFF - i * out / 0x8000) / 0x4000)
  {
    hide U32, S16;
    var c: int := 0x7FFF - i * out / 0x8000;
    WordDifference(0x7FFF, i * out / 0x8000);
    WordProduct(out, c);
    WordQuotient(out * c);
  }

  /** A 1.31 step is the plain Newton step, saturated, exactly unless both factors are the minimum, when the
      correction wraps and the step saturates at the wrong end. */
  lemma Newton31Exact(i: Q31, out: Q31)
    ensures Newton31(i, out) == Clamp31(out * (0x7FFF_FFFF - i * out / 0x8000_0000) / 0x4000_0000)
            <==> !(i == -0x8000_0000 && out == -0x8000_0000)
    ensures Newton31(-0x8000_0000, -0x8000_0000) == -0x8000_0000
  {
    CorrectionValue(i, out);
    hide Correction31, ClipQ63ToQ31;
    StepSaturates(i, out);
    hide Newton31;
    StepSaturates(-0x8000_0000, -0x8000_0000);
    CorrectionValue(-0x8000_0000, -0x8000_0000);
  }

  lemma StepSaturates(i: Q31, out: Q31)
    ensures Newton31(i, out) == Clamp31(out * Correction31(i * out) / 0x4000_0000)
  {
    hide Correction31, ClipQ63ToQ31, Clamp;
    CorrectionIsWord(i * out);
    ProductBound(out, Correction31(i * out), 0x8000_0000, 0xFFFF_FFFF);
    ClipQ63IsSaturation(out * Correction31(i * out) / 0x4000_0000);
  }

  lemma CorrectionIsWord(p: int)
    ensures 0 <= Correction31(p) <= 0xFFFF_FFFF
  {
  }

  lemma CorrectionValue(i: Q31, out: Q31)
    ensures Correction31(i * out) == if i == -0x8000_0000 && out == -0x8000_0000 then 0xFFFF_FFFF
                                     else 0x7FFF_FFFF - i * out / 0x8000_0000
  {
    hide U32;
    FullScale(i, out);
    WordDifference(0x7FFF_FFFF, i * out / 0x8000_0000);
    CorrectionRange(0x7FFF_FFFF - i * out / 0x8000_0000);
  }

  lemma CorrectionRange(c: int)
    requires -1 <= c < 0x1_0000_0000
    ensures U32(c) == if c == -1 then 0xFFFF_FFFF else c
  {
  }

  lemma FullScale(x: Q31, y: Q31)
    ensures -0x8000_0000 <= x * y / 0x8000_0000 <= 0x8000_0000
    ensures x * y / 0x8000_0000 == 0x8000_0000 <==> x == -0x8000_0000 && y == -0x8000_0000
  {
    ProductBound(x, y, 0x8000_0000, 0x8000_0000);
    if x != -0x8000_0000 {
      ProductBound(x, y, 0x7FFF_FFFF, 0x8000_0000);
    } else if y != -0x8000_0000 {
      ProductBound(x, y, 0x8000_0000, 0x7FFF_FFFF);
    }
  }

  /** One step squares the defect, up to the two truncation errors `e1` and `e2`. */
  lemma NewtonIdentity(u: int, h: int, i: int, out: int, p: int, c: int, next: int, e1: int, e2: int)
    requires u == 2 * h * h && p == i * out
    requires 2 * h * c == 2 * u - p - e1
    requires h * next == out * c - e2
    ensures u * (u - i * next) == (u - p) * (u - p) + p * e1 + 2 * h * (i * e2)
  {
    calc {
      u * (i * next);
      2 * h * i * (h * next);
      2 * h * i * (out * c - e2);
      p * (2 * h * c) - 2 * h * (i * e2);
      p * (2 * u - p - e1) - 2 * h * (i * e2);
    }
  }

  /** A step from a positive seed, with first truncation `e1` and second truncation `e2`: the new defect,
      scaled by the unit `u`, exceeds the square of the old one by a positive amount, which is less than
      `6 h u`, or `4 h u` when the old defect was positive. */
  lemma NewtonBound(u: int, h: int, i: int, out: int, p: int, c: int, next: int, e1: int, e2: int)
    requires 0 < h && u == 2 * h * h && p == i * out
    requires 0 < i < 2 * h && 0 < p < 2 * u
    requires 2 * h * c == 2 * u - p - e1 && 0 < e1 <= 2 * h
    requires h * next == out * c - e2 && 0 <= e2 < h
    ensures 0 < u * (u - i * next) - (u - p) * (u - p) < 6 * (h * u)
    ensures p < u ==> u * (u - i * next) - (u - p) * (u - p) < 4 * (h * u)
  {
    NewtonIdentity(u, h, i, out, p, c, next, e1, e2);
    FirstError(u, h, p, e1);
    SecondError(u, h, i, e2);
  }

  lemma FirstError(u: int, h: int, p: int, e: int)
    requires 0 < h && 0 < p < 2 * u && 0 < e <= 2 * h
    ensures 0 < p * e < 4 * (h * u)
    ensures p < u ==> p * e < 2 * (h * u)
  {
    ProductBelow(p, e, 2 * u, 2 * h);
    MulLe(1, p, e);
    if p < u {
      ProductBelow(p, e, u, 2 * h);
    }
  }

  lemma SecondError(u: int, h: int, i: int, e: int)
    requires 0 < h && u == 2 * h * h && 0 < i < 2 * h && 0 <= e < h
    ensures 0 <= 2 * h * (i * e) < 2 * (h * u)
  {
    ProductBelow(e, i, h, 2 * h);
    ProductBelow(i * e, 2 * h, u, 2 * h);
  }

  const CUBE31: int := 0x1000_0000_0000_0000_0000_0000  // 2^92 = 2^31 * 2^61
  const CUBE15: int := 0x1000_0000_0000                 // 2^44 = 2^15 * 2^29

  /** A normalised value times an estimate is positive and below `m * m`. */
  lemma PositiveProduct(i: int, out: int, m: int)
    requires 0 < i < m && 0 < out < m
    ensures 0 < i * out < m * m
  {
    MulLe(1, i, out);
    ProductBelow(i, out, m, m);
  }

  /** An estimate with a positive defect fits its width when `i` is in the top half of it. */
  lemma EstimateFits(i: int, next: int, h: int)
    requires 0 < h <= i && i * next < 2 * h * h
    ensures next < 2 * h
  {
    if next >= 2 * h {
      ProductLower(i, next, h, 2 * h);
    }
  }

  lemma CorrectionPlain31(p: int)
    requires 0 <= p < 0x4000_0000_0000_0000
    ensures Correction31(p) == 0x7FFF_FFFF - p / 0x8000_0000
  {
  }

  /** The ranges of the quantities of a step: nothing in it wraps. */
  lemma Newton31Plain(i: Q31, out: Q31)
    requires 0x4000_0000 <= i && 0 < out
    ensures 0 < i * out < 0x4000_0000_0000_0000
    ensures Correction31(i * out) == 0x7FFF_FFFF - i * out / 0x8000_0000
    ensures 0 <= out * Correction31(i * out) < 0x4000_0000_0000_0000
  {
    PositiveProduct(i, out, 0x8000_0000);
    CorrectionPlain31(i * out);
    hide *;
    ProductBelow(out, Correction31(i * out), 0x8000_0000, 0x8000_0000);
  }

  lemma CorrectionPlain15(p: int)
    requires 0 <= p < 0x4000_0000
    ensures Correction15(p) == 0x7FFF - p / 0x8000
  {
  }

  lemma Newton15Plain(i: Q15, out: Q15)
    requires 0x4000 <= i && 0 < out
    ensures 0 < i * out < 0x4000_0000
    ensures Correction15(i * out) == 0x7FFF - i * out / 0x8000
    ensures 0 <= out * Correction15(i * out) < 0x4000_0000
  {
    PositiveProduct(i, out, 0x8000);
    CorrectionPlain15(i * out);
    hide *;
    ProductBelow(out, Correction15(i * out), 0x8000, 0x8000);
  }

  lemma Newton31Defect(i: Q31, out: Q31)
    requires 0x4000_0000 <= i && 0 < out
    ensures var d, d' := UNIT31 - i * out, UNIT31 - i * (out * Correction31(i * out) / 0x4000_0000);
            && 0 < d'
            && UNIT31 * d' < d * d + 3 * CUBE31
            && (0 < d ==> UNIT31 * d' < d * d + 2 * CUBE31)
  {
    Newton31Plain(i, out);
    var p: int, c: int := i * out, Correction31(i * out);
    var q: int := out * c;
    var next: int := q / 0x4000_0000;
    hide *;
    SquareNonnegative(UNIT31 - p);
    NewtonBound(UNIT31, 0x4000_0000, i, out, p, c, next, 2 * UNIT31 - p - 0x8000_0000 * c, q - 0x4000_0000 * next);
  }

  /** For any normalised positive `i` and any positive `out`, a 1.31 step converges quadratically from below,
      and neither the unsigned correction nor the saturation changes a value. */
  lemma Newton31Converges(i: Q31, out: Q31)
    requires 0x4000_0000 <= i && 0 < out
    ensures Newton31(i, out) == out * (0x7FFF_FFFF - i * out / 0x8000_0000) / 0x4000_0000
    ensures var d, d' := Defect31(i, out), Defect31(i, Newton31(i, out));
            && 0 < d'
            && UNIT31 * d' < d * d + 3 * CUBE31
            && (0 < d ==> UNIT31 * d' < d * d + 2 * CUBE31)
  {
    Newton31Plain(i, out);
    Newton31Defect(i, out);
    var next := out * Correction31(i * out) / 0x4000_0000;
    EstimateFits(i, next, 0x4000_0000);
    ClipQ63IsSaturation(next);
    assert Newton31(i, out) == next;
  }

  lemma Newton15Defect(i: Q15, out: Q15)
    requires 0x4000 <= i && 0 < out
    ensures var d, d' := UNIT15 - i * out, UNIT15 - i * (out * Correction15(i * out) / 0x4000);
            && 0 < d'
            && UNIT15 * d' < d * d + 3 * CUBE15
            && (0 < d ==> UNIT15 * d' < d * d + 2 * CUBE15)
  {
    Newton15Plain(i, out);
    var p: int, c: int := i * out, Correction15(i * out);
    var q: int := out * c;
    var next: int := q / 0x4000;
    hide *;
    SquareNonnegative(UNIT15 - p);
    NewtonBound(UNIT15, 0x4000, i, out, p, c, next, 2 * UNIT15 - p - 0x8000 * c, q - 0x4000 * next);
  }

  lemma Narrow15(q: int)
    requires 0 <= q < 0x4000_0000 && q / 0x4000 < 0x8000
    ensures S16(U32(q) / 0x4000) == q / 0x4000
  {
  }

  /** The 1.15 step behaves alike: its unsigned product does not wrap, its narrowing loses no bit, and the clip
      that the code has commented out would change nothing. */
  lemma Newton15Converges(i: Q15, out: Q15)
    requires 0x4000 <= i && 0 < out
    ensures var plain := out * (0x7FFF - i * out / 0x8000) / 0x4000;
            Newton15(i, out) == plain && 0 <= plain < 0x8000 && ClipQ31ToQ15(plain) == plain
    ensures var d, d' := Defect15(i, out), Defect15(i, Newton15(i, out));
            && 0 < d'
            && UNIT15 * d' < d * d + 3 * CUBE15
            && (0 < d ==> UNIT15 * d' < d * d + 2 * CUBE15)
  {
    Newton15Plain(i, out);
    Newton15Defect(i, out);
    var next := out * Correction15(i * out) / 0x4000;
    EstimateFits(i, next, 0x4000);
    Narrow15(out * Correction15(i * out));
    hide S16, U32, Correction15, ClipQ31ToQ15;
    ClipQ31IsSaturation(next);
  }

  /** Two steps from a seed with defect at most 2^54 end below 2^61 / i, by less than 13 units in the last place. */
  lemma TwoSteps31(i: Q31, seed: Q31)
    requires 0x4000_0000 <= i && 0 < seed
    requires -0x40_0000_0000_0000 <= Defect31(i, seed) <= 0x40_0000_0000_0000
    ensures 0 < Defect31(i, Newton31(i, Newton31(i, seed))) < 13 * i
  {
    var d0 := Defect31(i, seed);
    Newton31Converges(i, seed);
    ProductBound(d0, d0, 0x40_0000_0000_0000, 0x40_0000_0000_0000);
    var next := Newton31(i, seed);
    var d1 := Defect31(i, next);
    assert 0 < d1 < 0x8001_8000_0000;
    if next <= 0 {
      MulLe(next, 0, i);
    }
    Newton31Converges(i, next);
    ProductBound(d1, d1, 0x8001_8000_0000, 0x8001_8000_0000);
  }

  lemma TwoSteps15(i: Q15, seed: Q15)
    requires 0x4000 <= i && 0 < seed
    requires -0x40_0000 <= Defect15(i, seed) <= 0x40_0000
    ensures 0 < Defect15(i, Newton15(i, Newton15(i, seed))) < 5 * i
  {
    var d0 := Defect15(i, seed);
    Newton15Converges(i, seed);
    ProductBound(d0, d0, 0x40_0000, 0x40_0000);
    var next := Newton15(i, seed);
    var d1 := Defect15(i, next);
    assert 0 < d1 < 0x2_0000;
    if next <= 0 {
      MulLe(next, 0, i);
    }
    Newton15Converges(i, next);
    ProductBound(d1, d1, 0x1_FFFF, 0x1_FFFF);
  }

  /** For a negative `i` the correction has the wrong sign and the step saturates. */
  lemma Newton31Negative(i: Q31, out: Q31)
    requires i <= -0x4000_0000 && 0x4000_0000 <= out
    ensures Newton31(i, out) == 0x7FFF_FFFF
  {
    var q := i * out / 0x8000_0000;
    assert -0x8000_0000 <= q < 0 by {
      ProductBound(i, out, 0x8000_0000, 0x8000_0000);
      MulLe(i, -1, out);
    }
    assert Correction31(i * out) == 0x7FFF_FFFF - q;
    SaturatingStep(out, Correction31(i * out));
  }

  lemma SaturatingStep(out: Q31, c: int)
    requires 0x4000_0000 <= out && 0x8000_0000 <= c <= 0xFFFF_FFFF
    ensures 0 <= out * c < 0x8000_0000_0000_0000
    ensures ClipQ63ToQ31(out * c / 0x4000_0000) == 0x7FFF_FFFF
  {
    ProductLower(out, c, 0x4000_0000, 0x8000_0000);
    ProductBelow(out, c, 0x8000_0000, 0x1_0000_0000);
    ClipQ63IsSaturation(out * c / 0x4000_0000);
  }

  lemma Segment31(i: Q31)
    requires 0x4000_0000 <= i
    ensures 0 <= Index31(i) == i / 0x100_0000 - 64 < 64
    ensures (64 + Index31(i)) * 0x100_0000 <= i < (64 + Index31(i) + 1) * 0x100_0000
  {
    hide *;
    var q: int := i / 0x100_0000;
    assert 64 <= q < 128;
    assert q % 64 == q - 64;
  }

  lemma Segment15(i: Q15)
    requires 0x4000 <= i
    ensures 0 <= Index15(i) == i / 0x100 - 64 < 64
    ensures (64 + Index15(i)) * 0x100 <= i < (64 + Index15(i) + 1) * 0x100
  {
    hide *;
    var q: int := i / 0x100;
    assert 64 <= q < 128;
    assert q % 64 == q - 64;
  }

  lemma SeedBounds(table: seq<int>, k: nat, h: int)
    requires SeedTable(table, h) && k < 64
    ensures 0 < h ==> 0 < table[k]
    ensures 0x80 * h - (64 + k) * table[k] <= h && (64 + k + 1) * table[k] - 0x80 * h <= h
  {
  }

  /** A normalised positive input selects the segment it lies in, whose seed has a defect of at most 2^54. */
  lemma SeedDefect31(table: seq<int>, i: Q31)
    requires SeedTable31(table) && 0x4000_0000 <= i
    ensures Index31(i) == i / 0x100_0000 - 64
    ensures -0x40_0000_0000_0000 <= Defect31(i, table[Index31(i)]) <= 0x40_0000_0000_0000
  {
    Segment31(i);
    var k := Index31(i);
    var t: int := table[k];
    SeedBounds(table, k, 0x4000_0000);
    assert Defect31(i, t) == UNIT31 - i * t;
    hide *;
    SegmentDefect(i, t, 64 + k, 0x100_0000, 0x20_0000_0000, 0x4000_0000);
  }

  lemma SeedDefect15(table: seq<int>, i: Q15)
    requires SeedTable15(table) && 0x4000 <= i
    ensures Index15(i) == i / 0x100 - 64
    ensures -0x40_0000 <= Defect15(i, table[Index15(i)]) <= 0x40_0000
  {
    Segment15(i);
    var k := Index15(i);
    var t: int := table[k];
    SeedBounds(table, k, 0x4000);
    assert Defect15(i, t) == UNIT15 - i * t;
    hide *;
    SegmentDefect(i, t, 64 + k, 0x100, 0x20_0000, 0x4000);
  }

  /** A seed close to the reciprocal at both ends of a segment of width `w` is as close inside it. */
  lemma SegmentDefect(i: int, t: int, k: int, w: int, one: int, tolerance: int)
    requires 0 < w && 0 <= t && k * w <= i < (k + 1) * w
    requires one - k * t <= tolerance && (k + 1) * t - one <= tolerance
    ensures -(tolerance * w) <= one * w - i * t <= tolerance * w
  {
    MulLe(k * w, i, t);
    MulLe(i, (k + 1) * w, t);
    MulLe(one - k * t, tolerance, w);
    MulLe((k + 1) * t - one, tolerance, w);
    assert k * w * t == k * t * w;
    assert (k + 1) * w * t == (k + 1) * t * w;
  }

  lemma ScaleRange(x: int, lo: int, hi: int, p: int)
    requires lo <= x < hi && 0 < p
    ensures lo * p <= x * p < hi * p
  {
    MulLe(lo, x, p);
    MulLe(x + 1, hi, p);
  }

  lemma ShiftToTop(u: nat, c: nat, w: nat)
    requires c <= w && Pow2(w - c) <= u < 2 * Pow2(w - c)
    ensures Pow2(w) <= u * Pow2(c) < 2 * Pow2(w)
  {
    var a, p := Pow2(w - c), Pow2(c);
    assert Pow2(w) == a * p by {
      Pow2Add(w - c, c);
    }
    hide *;
    ScaleRange(u, a, 2 * a, p);
    Double(a, p);
  }

  /** The shift by one less than the count of leading zeros brings the magnitude into the top half. */
  lemma Normalised31(inp: Q31, lead: nat)
    requires inp != 0 && inp != -0x8000_0000 && lead <= 31
    requires Pow2(31 - lead) <= Abs(inp) < Pow2(32 - lead)
    ensures 1 <= lead
    ensures 0x4000_0000 <= Abs(inp * Pow2(lead - 1)) < 0x8000_0000
    ensures S32(inp * Pow2(lead - 1)) == inp * Pow2(lead - 1)
    ensures inp * Pow2(lead - 1) > 0 <==> inp > 0
  {
    Pow2Literals();
    assert Pow2(31) == 2 * Pow2(30);
    ShiftToTop(Abs(inp), lead - 1, 30);
    AbsScaled(inp, Pow2(lead - 1));
  }

  lemma Normalised15(inp: Q15, lead: nat)
    requires inp != 0 && inp != -0x8000 && lead <= 31
    requires Pow2(31 - lead) <= Abs(inp) < Pow2(32 - lead)
    ensures 17 <= lead
    ensures 0x4000 <= Abs(inp * Pow2(lead - 17)) < 0x8000
    ensures S16(inp * Pow2(lead - 17)) == inp * Pow2(lead - 17)
    ensures inp * Pow2(lead - 17) > 0 <==> inp > 0
  {
    Pow2Literals();
    assert Pow2(15) == 2 * Pow2(14);
    if lead < 17 {
      Pow2Mono(15, 31 - lead);
    }
    ShiftToTop(Abs(inp), lead - 17, 14);
    AbsScaled(inp, Pow2(lead - 17));
  }

  lemma AbsScaled(x: int, p: int)
    requires 0 < p
    ensures Abs(x * p) == Abs(x) * p
    ensures x * p > 0 <==> x > 0
  {
    if x > 0 {
      MulLe(1, x, p);
    } else {
      MulLe(x, 0, p);
    }
  }

  /** Accuracy of a 1.31 reciprocal: `out` is within 13 units in the last place of 2^61 / i. */
  predicate Accurate31(i: int, out: int) { Abs(Defect31(i, out)) < 13 * Abs(i) }

  predicate Accurate15(i: int, out: int) { Abs(Defect15(i, out)) < 5 * Abs(i) }

  /** With a sound seed table, the 1.31 reciprocal is accurate exactly for positive inputs; every negative
      input gives the most positive number. */
  lemma AccurateIffPositive31(table: seq<int>, i: Q31)
    requires SeedTable31(table) && 0x4000_0000 <= Abs(i)
    ensures var out := Newton31(i, Newton31(i, table[Index31(i)]));
            && (Accurate31(i, out) <==> i > 0)
            && (i > 0 ==> 0 < Defect31(i, out) < 13 * i)
            && (i < 0 ==> out == 0x7FFF_FFFF)
  {
    var seed := table[Index31(i)];
    if i > 0 {
      SeedDefect31(table, i);
      TwoSteps31(i, seed);
    } else {
      Newton31Negative(i, seed);
      Newton31Negative(i, 0x7FFF_FFFF);
      MulLe(i, -0x4000_0000, 0x7FFF_FFFF);
    }
  }

  lemma AccurateWhenPositive15(table: seq<int>, i: Q15)
    requires SeedTable15(table) && 0x4000 <= i
    ensures var out := Newton15(i, Newton15(i, table[Index15(i)]));
            Accurate15(i, out) && 0 < Defect15(i, out) < 5 * i
  {
    SeedDefect15(table, i);
    TwoSteps15(i, table[Index15(i)]);
  }

  lemma Evaluate15(i: Q15, out: Q15, p: int, c: int, w: int, next: Q15)
    requires p == i * out && c == Correction15(p) && w == U32(out * c) && next == S16(w / 0x4000)
    ensures Newton15(i, out) == next
  {
  }

  /** The seeds of the midpoint table for two negative inputs; the mask mirrors their segments. */
  lemma NegativeSeeds15()
    ensures MidpointTable(0x4000)[Index15(-0x4000)] == 32513 && MidpointTable(0x4000)[Index15(-31470)] == 30174
  {
    hide Index15;
    assert Index15(-0x4000) == 0 && Index15(-31470) == 5;
  }

  /** For negative inputs the 1.15 steps may end anywhere: from a sound seed they can miss the reciprocal ... */
  lemma NegativeInaccurate15()
    ensures var seed := MidpointTable(0x4000)[Index15(-0x4000)];
            seed < 0x8000 && -0x8000 <= seed && !Accurate15(-0x4000, Newton15(-0x4000, Newton15(-0x4000, seed)))
  {
    NegativeSeeds15();
    hide MidpointTable, Index15;
    Evaluate15(-0x4000, 32513, -532692992, 49024, 1593917312, 31748);
    Evaluate15(-0x4000, 31748, -520159232, 48641, 1544254468, 28717);
    hide Newton15;
  }

  /** ... and they can wrap into it, so no sign condition is both sound and exact. */
  lemma NegativeAccurate15()
    ensures var seed := MidpointTable(0x4000)[Index15(-31470)];
            seed < 0x8000 && -0x8000 <= seed && Accurate15(-31470, Newton15(-31470, Newton15(-31470, seed)))
  {
    NegativeSeeds15();
    hide MidpointTable, Index15;
    Evaluate15(-31470, 30174, -949575780, 61746, 1863123804, -17356);
    Evaluate15(-31470, -17356, 546193320, 16099, 4015553052, -17055);
    hide Newton15;
  }

  /** Both reciprocals count the leading zeros of the magnitude of their input. */
  method MagnitudeClz(inp: Q31) returns (lead: nat)
    requires inp != 0 && inp != -0x8000_0000
    ensures lead <= 31
    ensures Pow2(31 - lead) <= Abs(inp) < Pow2(32 - lead)
  {
    hide Pow2;
    if inp > 0 {
      lead := Clz(inp);
    } else {
      lead := Clz(0 - inp);
    }
  }

  /** `arm_recip_q31`. The result is `dst` and the shift that normalises the input, plus one. */
  method ArmRecipQ31(inp: Q31, table: seq<Q31>) returns (shift: nat, dst: Q31)
    requires inp != 0 && inp != -0x8000_0000 && |table| == 64
    ensures 1 <= shift <= 31
    ensures 0x4000_0000 <= Abs(inp * Pow2(shift - 1)) < 0x8000_0000
    ensures var i := inp * Pow2(shift - 1);
            dst == Newton31(i, Newton31(i, table[Index31(i)]))
    ensures SeedTable31(table) && inp > 0 ==>
      0 < Defect31(inp * Pow2(shift - 1), dst) < 13 * (inp * Pow2(shift - 1))
    ensures SeedTable31(table) && inp < 0 ==> dst == 0x7FFF_FFFF
  {
    var lead := MagnitudeClz(inp);
    Normalised31(inp, lead);
    hide *;
    var signBits := lead - 1;
    var i := S32(inp * Pow2(signBits));
    var index := Index31(i);
    var out: Q31 := table[index];
    var n := 0;
    while n < 2
      invariant 0 <= n <= 2
      invariant out == if n == 0 then table[index] else if n == 1 then Newton31(i, table[index])
                       else Newton31(i, Newton31(i, table[index]))
    {
      out := Newton31(i, out);
      n := n + 1;
    }
    ghost var sound := SeedTable31(table);
    if sound {
      AccurateIffPositive31(table, i);
    }
    return signBits + 1, out;
  }

  /** `arm_recip_q15` */
  method ArmRecipQ15(inp: Q15, table: seq<Q15>) returns (shift: nat, dst: Q15)
    requires inp != 0 && inp != -0x8000 && |table| == 64
    ensures 1 <= shift <= 15
    ensures 0x4000 <= Abs(inp * Pow2(shift - 1)) < 0x8000
    ensures var i := inp * Pow2(shift - 1);
            dst == Newton15(i, Newton15(i, table[Index15(i)]))
    ensures SeedTable15(table) && inp > 0 ==>
      0 < Defect15(inp * Pow2(shift - 1), dst) < 5 * (inp * Pow2(shift - 1))
  {
    var lead := MagnitudeClz(inp);
    Normalised15(inp, lead);
    hide *;
    var signBits := lead - 17;
    var i := S16(inp * Pow2(signBits));
    var index := Index15(i);
    var out: Q15 := table[index];
    var n := 0;
    while n < 2
      invariant 0 <= n <= 2
      invariant out == if n == 0 then table[index] else if n == 1 then Newton15(i, table[index])
                       else Newton15(i, Newton15(i, table[index]))
    {
      out := Newton15(i, out);
      n := n + 1;
    }
    ghost var sound := SeedTable15(table);
    if sound && inp > 0 {
      AccurateWhenPositive15(table, i);
    }
    return signBits + 1, out;
  }
}
