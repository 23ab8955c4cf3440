/** The Clarke transform of three-phase currents and its inverse, `arm_clarke_q31` and `arm_inv_clarke_q31`. */
module Clarke {
  import opened FixedPoint
  import opened IntegerFacts

  const K: int := 0x24F3_4E8B          // 2^30 / sqrt 3, rounded
  const LIMIT: int := 1859775393       // the largest Ib whose product fits 32 bits

  /** `Ialpha` and `Ibeta`; the constants of the code are K and 2 K. */
  function Forward(Ia: Q31, Ib: Q31): (Q31, Q31) {
    (Ia, Qadd(S32(Ia * 0x24F3_4E8B / 0x4000_0000), S32(Ib * 0x49E6_9D16 / 0x4000_0000)))
  }

  /** `Ia` and `Ib`; the second constant is 3 K. */
  function Inverse(Ialpha: Q31, Ibeta: Q31): (Q31, Q31) {
    (Ialpha, Qsub(S32(Ibeta * 0x6ED9_EBA1 / ONE31), S32(Ialpha * 0x4000_0000 / ONE31)))
  }

  /** The sum the transform is meant to saturate. */
  function BetaSum(Ia: Q31, Ib: Q31): int { Ia * K / 0x4000_0000 + Ib * (2 * K) / 0x4000_0000 }

  /** The code narrows the second product before the saturating addition, so its promise of no overflow
      holds exactly while that product fits; beyond that the sum is off by 2^32 and has the wrong sign. */
  lemma BetaSaturatesIff(Ia: Q31, Ib: Q31)
    ensures Forward(Ia, Ib).0 == Ia
    ensures Forward(Ia, Ib).1 == Clamp31(BetaSum(Ia, Ib)) <==> -LIMIT <= Ib <= LIMIT
    ensures Ib > LIMIT ==> Forward(Ia, Ib).1 < 0 < BetaSum(Ia, Ib)
    ensures Ib < -LIMIT ==> BetaSum(Ia, Ib) < 0 < Forward(Ia, Ib).1
    ensures Ib > LIMIT ==> Forward(Ia, Ib).1 == Clamp31(BetaSum(Ia, Ib) - 0x1_0000_0000)
    ensures Ib < -LIMIT ==> Forward(Ia, Ib).1 == Clamp31(BetaSum(Ia, Ib) + 0x1_0000_0000)
  {
    var p: int, q: int := Ia * K / 0x4000_0000, Ib * (2 * K) / 0x4000_0000;
    ProductRanges(Ia, Ib);
    ForwardValue(Ia, Ib, p, q);
    hide Forward, S32, Clamp;
    NarrowedSum(p, q);
  }

  lemma ForwardValue(Ia: Q31, Ib: Q31, p: int, q: int)
    requires p == Ia * K / 0x4000_0000 && q == Ib * (2 * K) / 0x4000_0000 && -ONE31 <= p < ONE31
    ensures Forward(Ia, Ib) == (Ia, Clamp31(p + S32(q)))
  {
    hide Qadd, Clamp, S32;
    S32Congruent(p, 0);
    QaddQsubSaturate(p, S32(q));
  }

  /** Narrowing the second summand before a saturating addition, as far as the second can reach here. */
  lemma NarrowedSum(p: int, q: int)
    requires -0x5000_0000 <= p <= 0x5000_0000 && -0xA000_0000 <= q <= 0xA000_0000
    ensures Clamp31(p + S32(q)) == Clamp31(p + q) <==> -ONE31 <= q < ONE31
    ensures q >= ONE31 ==> Clamp31(p + S32(q)) < 0 < p + q
    ensures q < -ONE31 ==> p + q < 0 < Clamp31(p + S32(q))
    ensures q >= ONE31 ==> S32(q) == q - 0x1_0000_0000
    ensures q < -ONE31 ==> S32(q) == q + 0x1_0000_0000
  {
    if q >= ONE31 {
      S32Congruent(q - 0x1_0000_0000, 1);
    } else if q < -ONE31 {
      S32Congruent(q + 0x1_0000_0000, -1);
    } else {
      S32Congruent(q, 0);
    }
    hide S32;
  }

  /** The first product always fits; the second is nowhere near twice the range. */
  lemma ProductRanges(Ia: Q31, Ib: Q31)
    ensures -0x5000_0000 <= Ia * K / 0x4000_0000 <= 0x5000_0000
    ensures -0xA000_0000 <= Ib * (2 * K) / 0x4000_0000 <= 0xA000_0000
    ensures Ib > LIMIT <==> Ib * (2 * K) / 0x4000_0000 >= ONE31
    ensures Ib < -LIMIT <==> Ib * (2 * K) / 0x4000_0000 < -ONE31
  {
  }

  /** Three times the square of K is just below 2^60, which is why the constants invert each other. */
  lemma RoundTripError(Ia: int, Ib: int, b: int, p: int, h: int)
    requires -ONE31 <= b < ONE31
    requires 0 <= K * (Ia + 2 * Ib) - 0x4000_0000 * b < 0x8000_0000
    requires 0 <= 3 * K * b - ONE31 * p < ONE31
    requires 0 <= Ia - 2 * h <= 1
    ensures -3 <= p - h - Ib <= 1
  {
  }

  /** Main result: whenever the forward transform neither narrows nor saturates, transforming back returns Ia
      exactly and Ib with an error between -3 and +1 units. The saturation of the inverse does no harm. */
  lemma RoundTrip(Ia: Q31, Ib: Q31)
    requires -LIMIT <= Ib <= LIMIT && -ONE31 <= BetaSum(Ia, Ib) < ONE31
    ensures var (alpha, beta) := Forward(Ia, Ib);
            var (ia, ib) := Inverse(alpha, beta);
            ia == Ia && -3 <= ib - Ib <= 1
  {
    var b: int := BetaSum(Ia, Ib);
    var p: int, h: int := b * 0x6ED9_EBA1 / ONE31, Ia * 0x4000_0000 / ONE31;
    RoundTripPieces(Ia, Ib, b, p, h);
    RoundTripError(Ia, Ib, b, p, h);
    hide Qsub, Clamp, S32, BetaSum, Qadd;
    BetaSaturatesIff(Ia, Ib);
    UnsaturatedInverse(Ia, Ib, b);
    InverseValue(Ia, b, p, h);
    ClampNear(p - h, Ib, 3, 1);
  }

  lemma RoundTripPieces(Ia: Q31, Ib: Q31, b: int, p: int, h: int)
    requires b == BetaSum(Ia, Ib) && p == b * 0x6ED9_EBA1 / ONE31 && h == Ia * 0x4000_0000 / ONE31
    ensures 0 <= K * (Ia + 2 * Ib) - 0x4000_0000 * b < 0x8000_0000
    ensures 0 <= 3 * K * b - ONE31 * p < ONE31 && 0 <= Ia - 2 * h <= 1
  {
  }

  lemma UnsaturatedInverse(Ia: Q31, Ib: Q31, b: int)
    requires Forward(Ia, Ib).1 == Clamp31(b) && -ONE31 <= b < ONE31
    ensures Forward(Ia, Ib).1 == b
  {
  }

  /** The inverse transform saturates the difference of its two products, which always fit. */
  lemma InverseValue(alpha: Q31, beta: Q31, p: int, h: int)
    requires p == beta * 0x6ED9_EBA1 / ONE31 && h == alpha * 0x4000_0000 / ONE31
    ensures -ONE31 <= p < ONE31 && -ONE31 <= h < ONE31
    ensures Inverse(alpha, beta) == (alpha, Clamp31(p - h))
  {
    hide Qsub, Clamp, S32;
    S32Congruent(p, 0);
    S32Congruent(h, 0);
    QaddQsubSaturate(p, h);
  }

  /** Saturation never moves a value away from one that is in range. */
  lemma ClampNear(x: int, y: Q31, below: int, above: int)
    requires 0 <= below && 0 <= above && -below <= x - y <= above
    ensures -below <= Clamp31(x) - y <= above
  {
  }

  /** The inverse transform does not amplify errors of its inputs by more than their own size and a half. */
  lemma InverseStable(alpha: Q31, beta: Q31, alpha': Q31, beta': Q31, a: nat, b: nat)
    requires Abs(alpha' - alpha) <= a && Abs(beta' - beta) <= b
    ensures Inverse(alpha', beta').0 == alpha'
    ensures Abs(Inverse(alpha', beta').1 - Inverse(alpha, beta).1) <= b + (a + 1) / 2
  {
    var p: int, h: int := beta * 0x6ED9_EBA1 / ONE31, alpha * 0x4000_0000 / ONE31;
    var p': int, h': int := beta' * 0x6ED9_EBA1 / ONE31, alpha' * 0x4000_0000 / ONE31;
    ScaledStable(beta, beta', b);
    HalfStable(alpha, alpha', a);
    InverseValue(alpha, beta, p, h);
    InverseValue(alpha', beta', p', h');
    hide *;
    DifferenceStable(p, h, p', h', a, b);
  }

  lemma DifferenceStable(p: int, h: int, p': int, h': int, a: nat, b: nat)
    requires Abs(p' - p) <= b && Abs(h' - h) <= (a + 1) / 2
    ensures Abs(Clamp31(p' - h') - Clamp31(p - h)) <= b + (a + 1) / 2
  {
    ClampContracts(p - h, p' - h');
    hide Clamp;
  }

  lemma ScaledStable(x: int, y: int, m: nat)
    requires Abs(y - x) <= m
    ensures Abs(y * 0x6ED9_EBA1 / ONE31 - x * 0x6ED9_EBA1 / ONE31) <= m
  {
  }

  lemma HalfStable(x: int, y: int, m: nat)
    requires Abs(y - x) <= m
    ensures Abs(y * 0x4000_0000 / ONE31 - x * 0x4000_0000 / ONE31) <= (m + 1) / 2
  {
    assert y * 0x4000_0000 / ONE31 == y / 2 && x * 0x4000_0000 / ONE31 == x / 2;
  }

  lemma ClampContracts(x: int, y: int)
    ensures Abs(Clamp31(y) - Clamp31(x)) <= Abs(y - x)
  {
  }
}
