/** Bitwise operators of C on natural numbers, bit by bit, and the arithmetic they amount to. */
module Bits {
  import opened IntegerFacts

  function Pow2(n: nat): (p: nat)
    ensures p > 0
  {
    if n == 0 then 1 else 2 * Pow2(n - 1)
  }

  /** `v >> k`, one place at a time. */
  function Shr(v: nat, k: nat): nat {
    if k == 0 then v else Shr(v / 2, k - 1)
  }

  /** Bit `i` of `v`, counting from the least significant. */
  function Bit(v: nat, i: nat): nat { Shr(v, i) % 2 }

  /** `a & b` */
  function And(a: nat, b: nat): nat {
    if a == 0 || b == 0 then 0
    else 2 * And(a / 2, b / 2) + (if a % 2 == 1 && b % 2 == 1 then 1 else 0)
  }

  /** `a | b` */
  function Or(a: nat, b: nat): nat {
    if a == 0 then b
    else if b == 0 then a
    else 2 * Or(a / 2, b / 2) + (if a % 2 == 1 || b % 2 == 1 then 1 else 0)
  }

  lemma {:induction false} Pow2Add(a: nat, b: nat)
    ensures Pow2(a + b) == Pow2(a) * Pow2(b)
  {
    if a == 0 {
    } else {
      Pow2Add(a - 1, b);
      assert Pow2(a + b) == 2 * Pow2(a - 1 + b) && Pow2(a) == 2 * Pow2(a - 1);
      hide Pow2;
      Double(Pow2(a - 1), Pow2(b));
    }
  }

  lemma {:induction false} Pow2Mono(a: nat, b: nat)
    requires a <= b
    ensures Pow2(a) <= Pow2(b)
  {
    if a == b {
    } else {
      Pow2Mono(a, b - 1);
    }
  }

  lemma Pow2Literals()
    ensures Pow2(8) == 0x100 && Pow2(15) == 0x8000 && Pow2(16) == 0x1_0000 && Pow2(20) == 0x10_0000
    ensures Pow2(24) == 0x100_0000 && Pow2(31) == 0x8000_0000 && Pow2(32) == 0x1_0000_0000
  {
    assert Pow2(8) == 0x100;
    Pow2Add(8, 8);
    Pow2Add(16, 16);
    Pow2Add(16, 4);
    Pow2Add(16, 8);
  }

  /** Halving first and cutting at `k - 1` is cutting at `k`. */
  lemma HalfStep(a: nat, k: nat)
    requires k > 0
    ensures a / 2 / Pow2(k - 1) == a / Pow2(k)
    ensures a % Pow2(k) == 2 * (a / 2 % Pow2(k - 1)) + a % 2
    ensures a % Pow2(k) / 2 == a / 2 % Pow2(k - 1)
    ensures a % Pow2(k) % 2 == a % 2
  {
    DivDiv(a, 2, Pow2(k - 1));
  }

  /** The low `k` bits of `v`. */
  function Low(v: nat, k: nat): (r: nat)
    ensures r < Pow2(k)
  {
    v % Pow2(k)
  }

  lemma LowOfSmall(v: nat, k: nat)
    requires v < Pow2(k)
    ensures Low(v, k) == v
  {
    DivModUnique(v, Pow2(k), 0, v);
  }

  lemma LowStep(v: nat, k: nat)
    ensures Low(v, 0) == 0
    ensures k > 0 ==> Low(v, k) == 2 * Low(v / 2, k - 1) + v % 2
  {
    if k > 0 {
      HalfStep(v, k);
    }
  }

  lemma {:induction false} ShrIsDivision(v: nat, k: nat)
    ensures Shr(v, k) == v / Pow2(k)
  {
    if k == 0 {
    } else {
      ShrIsDivision(v / 2, k - 1);
      HalfStep(v, k);
    }
  }

  lemma {:induction false} ShrNext(v: nat, k: nat)
    ensures Shr(v, k + 1) == Shr(v, k) / 2
  {
    if k == 0 {
    } else {
      ShrNext(v / 2, k - 1);
    }
  }

  /** A part above position `k` and a part below it. */
  function Joined(hi: nat, lo: nat, k: nat): nat { hi * Pow2(k) + lo }

  /** A joined value comes apart again. */
  lemma Apart(hi: nat, lo: nat, k: nat)
    requires lo < Pow2(k)
    ensures Low(Joined(hi, lo, k), k) == lo && Shr(Joined(hi, lo, k), k) == hi
  {
    ShrIsDivision(Joined(hi, lo, k), k);
    hide Pow2, Shr;
    DivModUnique(Joined(hi, lo, k), Pow2(k), hi, lo);
  }

  /** The low bits are the low part of the upper part, joined with the lower part. */
  lemma Together(v: nat, n: nat, k: nat)
    ensures Low(v, k + n) == Joined(Low(Shr(v, k), n), Low(v, k), k)
  {
    ShrIsDivision(v, k);
    Pow2Add(k, n);
    hide Pow2, Shr;
    DivDiv(v, Pow2(k), Pow2(n));
  }

  lemma JoinedFits(hi: nat, lo: nat, n: nat, k: nat)
    requires hi < Pow2(n) && lo < Pow2(k)
    ensures Joined(hi, lo, k) < Pow2(n + k)
  {
    Pow2Add(n, k);
    hide Pow2;
    MulLe(hi + 1, Pow2(n), Pow2(k));
  }

  /** Joined values are ordered first by their upper and then by their lower parts. */
  lemma JoinedOrder(hi: nat, lo: nat, hi': nat, lo': nat, k: nat)
    requires lo < Pow2(k) && lo' < Pow2(k)
    ensures Joined(hi, lo, k) < Joined(hi', lo', k) <==> hi < hi' || (hi == hi' && lo < lo')
  {
    hide Pow2;
    Lexicographic(hi, lo, hi', lo', Pow2(k));
  }

  lemma Lexicographic(x: int, y: int, x': int, y': int, b: int)
    requires 0 <= y < b && 0 <= y' < b
    ensures x * b + y < x' * b + y' <==> x < x' || (x == x' && y < y')
  {
    if x < x' {
      MulLe(x + 1, x', b);
    } else if x' < x {
      MulLe(x' + 1, x, b);
    }
  }

  lemma AndStep(a: nat, b: nat)
    ensures And(a, b) == 2 * And(a / 2, b / 2) + (if a % 2 == 1 && b % 2 == 1 then 1 else 0)
  {
  }

  /** A mask of `k` ones keeps the low `k` bits. */
  lemma {:induction false} AndMask(a: nat, k: nat)
    ensures And(a, Pow2(k) - 1) == Low(a, k)
  {
    hide Low;
    LowStep(a, k);
    if k == 0 {
    } else {
      AndMask(a / 2, k - 1);
      assert Pow2(k) - 1 == 2 * (Pow2(k - 1) - 1) + 1;
      hide And, Pow2;
      AndStep(a, Pow2(k) - 1);
    }
  }

  /** `|` of values that share no bit position is their sum. */
  lemma {:induction false} OrDisjoint(a: nat, k: nat, b: nat)
    requires b < Pow2(k)
    ensures Or(a * Pow2(k), b) == Joined(a, b, k)
  {
    if k == 0 {
    } else {
      var p := Pow2(k - 1);
      assert Pow2(k) == 2 * p;
      assert Joined(a, b / 2, k - 1) == a * p + b / 2 && Joined(a, b, k) == a * (2 * p) + b;
      hide *;
      OrDisjoint(a, k - 1, b / 2);
      OrEven(a * p, b);
      Double(a, p);
    }
  }

  lemma OrEven(m: nat, b: nat)
    ensures Or(2 * m, b) == 2 * Or(m, b / 2) + b % 2
  {
  }

  /** A mask of `n` ones above `k` zeros. */
  function HighMask(n: nat, k: nat): nat {
    if k == 0 then Pow2(n) - 1 else 2 * HighMask(n, k - 1)
  }

  /** Such a mask clears the low `k` bits of any value that fits in `n + k` bits. */
  lemma {:induction false} AndHighMask(a: nat, n: nat, k: nat)
    requires a < Pow2(n + k)
    ensures And(a, HighMask(n, k)) == a - Low(a, k)
  {
    hide Low;
    LowStep(a, k);
    if k == 0 {
      AndMask(a, n);
      LowOfSmall(a, n);
    } else {
      AndHighMask(a / 2, n, k - 1);
      assert HighMask(n, k) == 2 * HighMask(n, k - 1);
      hide And, Pow2, HighMask;
      AndStep(a, HighMask(n, k));
    }
  }
}
