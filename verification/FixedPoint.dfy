/** The integer widths of the library, its saturating kernels, and its count of leading zeros.

    Machine integers are mathematical integers. `S8` .. `S64` and `U32` are the conversions of C to a
    two's-complement or unsigned width, and `x >> k` on a signed value is `x / 2^k`, which rounds down. */
module FixedPoint {
  import opened Bits
  import opened IntegerFacts

  type Q7 = x: int | -0x80 <= x < 0x80
  type Q15 = x: int | -0x8000 <= x < 0x8000
  type Q31 = x: int | -0x8000_0000 <= x < 0x8000_0000
  type Q63 = x: int | -0x8000_0000_0000_0000 <= x < 0x8000_0000_0000_0000
  type Word = x: int | 0 <= x < 0x1_0000_0000

  /** The scales of the formats 1.15 and 1.31. */
  const ONE15: int := 0x8000

  const ONE31: int := 0x8000_0000

  function S8(x: int): Q7 { (x + 0x80) % 0x100 - 0x80 }

  function S16(x: int): Q15 { (x + 0x8000) % 0x1_0000 - 0x8000 }

  function S32(x: int): Q31 { (x + 0x8000_0000) % 0x1_0000_0000 - 0x8000_0000 }

  function S64(x: int): Q63 {
    (x + 0x8000_0000_0000_0000) % 0x1_0000_0000_0000_0000 - 0x8000_0000_0000_0000
  }

  function U32(x: int): Word { x % 0x1_0000_0000 }

  function Min(x: int, y: int): int { if x <= y then x else y }

  function Max(x: int, y: int): int { if x <= y then y else x }

  /** Saturation: the value of `[lo, hi]` nearest to `x`. */
  function Clamp(x: int, lo: int, hi: int): int { if x < lo then lo else if x > hi then hi else x }

  function Clamp15(x: int): Q15 { Clamp(x, -0x8000, 0x7FFF) }

  function Clamp31(x: int): Q31 { Clamp(x, -0x8000_0000, 0x7FFF_FFFF) }

  /** `m ^ s` for a sign word `s`, which is 0 or -1: exclusive or with -1 is the complement. */
  function XorSign(m: int, s: int): int { if s == 0 then m else -1 - m }

  function ClipQ63ToQ31(x: Q63): Q31 {
    if S32(x / 0x1_0000_0000) != S32(x) / 0x8000_0000
    then S32(XorSign(0x7FFF_FFFF, S32(x / 0x8000_0000_0000_0000)))
    else S32(x)
  }

  function ClipQ31ToQ15(x: Q31): Q15 {
    if x / 0x1_0000 != x / 0x8000 then S16(XorSign(0x7FFF, S16(x / 0x8000_0000))) else S16(x)
  }

  /** Comparing the high word with the sign of the low word detects exactly the values that do not fit. */
  lemma ClipQ63IsSaturation(x: Q63)
    ensures ClipQ63ToQ31(x) == Clamp31(x)
  {
    var hi: int, lo: int := x / 0x1_0000_0000, x % 0x1_0000_0000;
    var up := if lo < 0x8000_0000 then 0 else 1;
    var low := lo - 0x1_0000_0000 * up;
    S32Congruent(hi, 0);
    S32Congruent(low, 0);
    S32Congruent(low, hi + up);
    S32Congruent(x / 0x8000_0000_0000_0000, 0);
    S32Congruent(0x7FFF_FFFF, 0);
    S32Congruent(-0x8000_0000, 0);
    hide S32;
    assert x == low + 0x1_0000_0000 * (hi + up);
    assert low / 0x8000_0000 == -up;
  }

  lemma ClipQ31IsSaturation(x: Q31)
    ensures ClipQ31ToQ15(x) == Clamp15(x)
  {
    var q := x / 0x8000;
    assert x / 0x1_0000 == q / 2;
    assert q / 2 == q <==> q == 0 || q == -1;
  }

  /** A conversion loses only multiples of its modulus, and keeps every value of its range. */
  lemma S32Congruent(x: int, k: int)
    ensures S32(x + 0x1_0000_0000 * k) == S32(x)
    ensures -0x8000_0000 <= x < 0x8000_0000 ==> S32(x) == x
  {
  }

  lemma S8Congruent(x: int, k: int)
    ensures S8(x + 0x100 * k) == S8(x)
    ensures -0x80 <= x < 0x80 ==> S8(x) == x
  {
  }

  lemma S16Congruent(x: int, k: int)
    ensures S16(x + 0x1_0000 * k) == S16(x)
    ensures -0x8000 <= x < 0x8000 ==> S16(x) == x
  {
  }

  lemma S64Congruent(x: int, k: int)
    ensures S64(x + 0x1_0000_0000_0000_0000 * k) == S64(x)
    ensures -0x8000_0000_0000_0000 <= x < 0x8000_0000_0000_0000 ==> S64(x) == x
  {
  }

  lemma U32Congruent(x: int, k: int)
    ensures U32(x + 0x1_0000_0000 * k) == U32(x)
    ensures 0 <= x < 0x1_0000_0000 ==> U32(x) == x
  {
  }

  function Qadd(x: Q31, y: Q31): Q31 { ClipQ63ToQ31(x + y) }

  function Qsub(x: Q31, y: Q31): Q31 { ClipQ63ToQ31(x - y) }

  lemma QaddQsubSaturate(x: Q31, y: Q31)
    ensures Qadd(x, y) == Clamp31(x + y)
    ensures Qsub(x, y) == Clamp31(x - y)
  {
    ClipQ63IsSaturation(x + y);
    ClipQ63IsSaturation(x - y);
  }

  /** `__SSAT`. The 32-bit doubling wraps at width 32, where the instruction must leave `x` alone. */
  method Ssat(x: Q31, y: nat) returns (r: Q31)
    requires 1 <= y <= 32
    ensures r == Clamp(x, 0 - Pow2(y - 1), Pow2(y - 1) - 1)
  {
    hide Pow2;
    Pow2Literals();
    var posMax: Q31 := 1;
    var i := 0;
    DoublingRange(0);
    while i < y - 1
      invariant 0 <= i <= y - 1
      invariant posMax == if i < 31 then Pow2(i) else -0x8000_0000
      invariant if i < 31 then Pow2(i) <= 0x4000_0000 else Pow2(i) == 0x8000_0000
    {
      DoublingRange(i);
      DoublingRange(i + 1);
      posMax := S32(posMax * 2);
      i := i + 1;
    }
    if x > 0 {
      posMax := S32(posMax - 1);
      if x > posMax {
        return posMax;
      }
    } else {
      var negMin := S32(0 - posMax);
      if x < negMin {
        return negMin;
      }
    }
    r := x;
  }

  lemma DoublingRange(i: nat)
    requires i <= 31
    ensures if i < 31 then Pow2(i) <= 0x4000_0000 && Pow2(i + 1) == 2 * Pow2(i) else Pow2(i) == 0x8000_0000
    ensures Pow2(0) == 1
  {
    Pow2Literals();
    if i < 31 {
      Pow2Mono(i, 30);
      assert Pow2(31) == 2 * Pow2(30);
    }
  }

  /** `__CLZ`: the place of the highest one, found by walking a one-bit mask down. On 0 it does not end. */
  method Clz(data: Q31) returns (count: nat)
    requires data != 0
    ensures count <= 31
    ensures Pow2(31 - count) <= U32(data) < Pow2(32 - count)
  {
    Pow2Literals();
    var u: nat := U32(data);
    assert 0 < u < 2 * Pow2(31);
    count := 0;
    var mask: nat := 0x8000_0000;
    while And(u, mask) == 0
      invariant count <= 31
      invariant mask == Pow2(31 - count)
      invariant 0 < u < 2 * mask
      decreases 31 - count
    {
      MaskTest(u, 31 - count);
      count := count + 1;
      mask := mask / 2;
    }
    MaskTest(u, 31 - count);
  }

  /** Below `2^(m+1)`, testing bit `m` decides on which side of `2^m` a value lies. */
  lemma MaskTest(u: nat, m: nat)
    requires u < 2 * Pow2(m)
    ensures And(u, Pow2(m)) == 0 <==> u < Pow2(m)
  {
    OneBitMask(m);
    Pow2Add(1, m);
    AndHighMask(u, 1, m);
    if u < Pow2(m) {
      DivModUnique(u, Pow2(m), 0, u);
    }
  }

  lemma {:induction false} OneBitMask(m: nat)
    ensures HighMask(1, m) == Pow2(m)
  {
    if m == 0 {
    } else {
      OneBitMask(m - 1);
    }
  }
}
