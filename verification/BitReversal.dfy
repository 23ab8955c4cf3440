/** The software form of `__RBIT`, for any word width; the library uses it at 32. */
module BitReversal {
  import opened Bits
  import opened IntegerFacts

  /** The low `w` bits of `v` in reverse order. */
  function Reversed(v: nat, w: nat): nat {
    if w == 0 then 0 else v % 2 * Pow2(w - 1) + Reversed(v / 2, w - 1)
  }

  /** Seen from the other end, one more bit is appended below. */
  lemma {:induction false} ReversedAppend(v: nat, w: nat)
    ensures Reversed(v, w + 1) == 2 * Reversed(v, w) + Bit(v, w)
  {
    if w == 0 {
    } else {
      ReversedAppend(v / 2, w - 1);
      Double(v % 2, Pow2(w - 1));
    }
  }

  lemma {:induction false} ReversedFits(v: nat, w: nat)
    ensures Reversed(v, w) < Pow2(w)
  {
    if w == 0 {
    } else {
      ReversedFits(v, w - 1);
      ReversedAppend(v, w - 1);
    }
  }

  /** When only zeros are left, reversing more places only shifts. */
  lemma {:induction false} ReversedPad(v: nat, k: nat, s: nat)
    requires Shr(v, k) == 0
    ensures Reversed(v, k + s) == Reversed(v, k) * Pow2(s)
  {
    hide Reversed;
    if s == 0 {
    } else {
      ReversedPad(v, k, s - 1);
      ReversedAppend(v, k + s - 1);
      ShrStaysZero(v, k, s - 1);
      Double(Reversed(v, k), Pow2(s - 1));
    }
  }

  lemma {:induction false} ShrStaysZero(v: nat, k: nat, s: nat)
    requires Shr(v, k) == 0
    ensures Shr(v, k + s) == 0
  {
    if s == 0 {
    } else {
      ShrStaysZero(v, k, s - 1);
      ShrNext(v, k + s - 1);
    }
  }

  lemma {:induction false} ShrNonzero(v: nat, k: nat, n: nat)
    requires v < Pow2(n) && Shr(v, k) != 0
    ensures k < n
  {
    if k == 0 {
    } else {
      if n > 0 {
        ShrNonzero(v / 2, k - 1, n - 1);
      } else {
        ShrStaysZero(v, 0, k);
      }
    }
  }

  /** Doubling and appending a bit inside a word of even modulus. */
  lemma DoubleInWord(full: nat, W: nat, bit: nat)
    requires 0 < W && W % 2 == 0 && bit <= 1
    ensures full % W * 2 % W + bit == (2 * full + bit) % W
    ensures full % W * 2 % W % 2 == 0
  {
    DoubledRemainder(full / W, full % W, full, W, bit);
  }

  lemma DoubledRemainder(q: int, r: int, full: int, W: int, bit: int)
    requires 0 <= r < W && W % 2 == 0 && 0 <= bit <= 1 && full == q * W + r
    ensures r * 2 % W + bit == (2 * full + bit) % W
    ensures r * 2 % W % 2 == 0
  {
    Double(q, W);
    var c := if 2 * r < W then 0 else 1;
    var t := 2 * r - c * W;
    DivModUnique(r * 2, W, c, t);
    assert (2 * q + c) * W == 2 * q * W + c * W;
    DivModUnique(2 * full + bit, W, 2 * q + c, t + bit);
  }

  lemma AppendBit(r: nat, bit: nat)
    requires r % 2 == 0 && bit <= 1
    ensures Or(r, bit) == r + bit
  {
    OrDisjoint(r / 2, 1, bit);
    assert Pow2(1) == 2;
  }

  lemma LowBit(v: nat)
    ensures And(v, 1) == v % 2
  {
    AndMask(v, 1);
  }

  /** `__RBIT`. The loop stops as soon as only zeros are left; until the final shift the unreversed input
      still sits above the reversed bits. */
  method Rbit(value: nat, width: nat) returns (result: nat)
    requires 0 < width && value < Pow2(width)
    ensures result == Reversed(value, width)
  {
    hide Pow2, And, Or, Reversed;
    var W := Pow2(width);
    var s := width - 1;
    result := value;
    var v := value / 2;
    ghost var k := 0;
    StartOfWord(value, width);
    while v != 0
      invariant s == width - 1 - k && k <= width - 1
      invariant v == Shr(value / 2, k)
      invariant result == (value * Pow2(k) + Reversed(value / 2, k)) % W
      decreases v
    {
      StepInWord(value, width, k, result, v);
      result := result * 2 % W;
      result := Or(result, And(v, 1));
      s := s - 1;
      v := v / 2;
      k := k + 1;
    }
    FinishWord(value, width, k);
    result := result * Pow2(s) % W;
  }

  lemma StartOfWord(value: nat, width: nat)
    requires 0 < width && value < Pow2(width)
    ensures value == (value * Pow2(0) + Reversed(value / 2, 0)) % Pow2(width)
    ensures value / 2 < Pow2(width - 1)
  {
    DivModUnique(value, Pow2(width), 0, value);
  }

  lemma StepInWord(value: nat, width: nat, k: nat, result: nat, v: nat)
    requires 0 < width && value < Pow2(width)
    requires v == Shr(value / 2, k) && v != 0
    requires result == (value * Pow2(k) + Reversed(value / 2, k)) % Pow2(width)
    ensures k < width - 1
    ensures v / 2 == Shr(value / 2, k + 1)
    ensures Or(result * 2 % Pow2(width), And(v, 1))
            == (value * Pow2(k + 1) + Reversed(value / 2, k + 1)) % Pow2(width)
  {
    var full, bit := value * Pow2(k) + Reversed(value / 2, k), v % 2;
    StepPosition(value, width, k, v);
    StepFull(value, k, v);
    EvenWord(width);
    LowBit(v);
    hide *;
    DoubleInWord(full, Pow2(width), bit);
    AppendBit(result * 2 % Pow2(width), bit);
  }

  lemma StepPosition(value: nat, width: nat, k: nat, v: nat)
    requires 0 < width && value < Pow2(width)
    requires v == Shr(value / 2, k) && v != 0
    ensures k < width - 1 && v / 2 == Shr(value / 2, k + 1)
  {
    hide Shr;
    StartOfWord(value, width);
    ShrNonzero(value / 2, k, width - 1);
    ShrNext(value / 2, k);
  }

  /** One more bit read from below is one more bit appended to the reversal. */
  lemma StepFull(value: nat, k: nat, v: nat)
    requires v == Shr(value / 2, k)
    ensures value * Pow2(k + 1) + Reversed(value / 2, k + 1) == 2 * (value * Pow2(k) + Reversed(value / 2, k)) + v % 2
  {
    hide Reversed, Shr;
    ReversedAppend(value / 2, k);
    Double(value, Pow2(k));
  }

  lemma EvenWord(width: nat)
    requires 0 < width
    ensures Pow2(width) % 2 == 0
  {
    NextPower(width - 1);
    hide *;
    DivModUnique(Pow2(width), 2, Pow2(width - 1), 0);
  }

  lemma NextPower(n: nat)
    ensures Pow2(n + 1) == 2 * Pow2(n)
  {
  }

  lemma FinishWord(value: nat, width: nat, k: nat)
    requires k <= width - 1 && Shr(value / 2, k) == 0
    ensures (value * Pow2(k) + Reversed(value / 2, k)) % Pow2(width) * Pow2(width - 1 - k) % Pow2(width)
            == Reversed(value, width)
  {
    var s := width - 1 - k;
    var p, rev, W := Pow2(s), Reversed(value / 2, k), Pow2(width);
    Pow2Add(k, s);
    ReversedPad(value / 2, k, s);
    ReversedFits(value, width);
    assert Reversed(value, width) == value % 2 * Pow2(width - 1) + rev * p;
    hide *;
    FinishAlgebra(value, Pow2(k), p, rev, W, Reversed(value, width));
  }

  lemma FinishAlgebra(value: int, a: int, p: int, rev: int, W: int, r: int)
    requires 0 < W == 2 * (a * p) && 0 <= r < W && r == value % 2 * (a * p) + rev * p
    ensures (value * a + rev) % W * p % W == r
  {
    var full := value * a + rev;
    var q := full / W;
    var h := value / 2;
    assert full % W == full - q * W;
    assert value == 2 * h + value % 2;
    assert full * p == h * W + r by {
      assert value * a * p == (2 * h + value % 2) * (a * p);
    }
    assert (full - q * W) * p == full * p - (q * p) * W;
    DivModUnique((full - q * W) * p, W, h - q * p, r);
  }

  lemma AppendedBit(r: nat, bit: nat, i: nat)
    requires bit <= 1
    ensures Bit(2 * r + bit, i) == if i == 0 then bit else Bit(r, i - 1)
  {
    assert (2 * r + bit) / 2 == r;
  }

  /** Bit `i` of the result is bit `w - 1 - i` of the input. */
  lemma {:induction false} ReversedBit(v: nat, w: nat, i: nat)
    requires i < w
    ensures Bit(Reversed(v, w), i) == Bit(v, w - 1 - i)
  {
    hide Shr, Reversed;
    ReversedAppend(v, w - 1);
    AppendedBit(Reversed(v, w - 1), Bit(v, w - 1), i);
    if i == 0 {
    } else {
      ReversedBit(v, w - 1, i - 1);
    }
  }

  /** The top bit comes back on top of the reversal of the rest. */
  lemma ReversedAgain(v: nat, w: nat)
    requires w > 0
    ensures Reversed(Reversed(v, w), w) == Bit(v, w - 1) * Pow2(w - 1) + Reversed(Reversed(v, w - 1), w - 1)
  {
    hide Pow2, Shr;
    ReversedAppend(v, w - 1);
    var rest, bit := Reversed(v, w - 1), Bit(v, w - 1);
    assert Reversed(v, w) == 2 * rest + bit && 0 <= bit <= 1;
    assert (2 * rest + bit) % 2 == bit && (2 * rest + bit) / 2 == rest;
  }

  lemma TopBit(v: nat, w: nat)
    requires w > 0
    ensures v % Pow2(w) == Bit(v, w - 1) * Pow2(w - 1) + v % Pow2(w - 1)
  {
    ShrIsDivision(v, w - 1);
    hide Shr;
    DivDiv(v, Pow2(w - 1), 2);
  }

  /** Reversing twice gives back the low `w` bits. */
  lemma {:induction false} ReversedTwice(v: nat, w: nat)
    ensures Reversed(Reversed(v, w), w) == v % Pow2(w)
  {
    if w == 0 {
    } else {
      ReversedTwice(v, w - 1);
      ReversedAgain(v, w);
      TopBit(v, w);
      hide *;
    }
  }

  /** Reversal is an involution of the words of a width. */
  lemma ReversalIsInvolution(v: nat, w: nat)
    requires v < Pow2(w)
    ensures Reversed(v, w) < Pow2(w) && Reversed(Reversed(v, w), w) == v
  {
    ReversedFits(v, w);
    ReversedTwice(v, w);
    DivModUnique(v, Pow2(w), 0, v);
  }
}
