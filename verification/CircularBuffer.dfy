/** The circular delay line, `arm_circularWrite_*` and `arm_circularRead_*`. The f32, q15 and q7 versions differ
    only in their element type. */
module CircularBuffer {
  import opened FixedPoint
  import opened IntegerFacts

  /** One advance of an offset, in wrapping 32-bit arithmetic: only the upper end is tested. */
  function Advance(offset: int, inc: int, L: int): int {
    if S32(offset + inc) >= L then S32(S32(offset + inc) - L) else S32(offset + inc)
  }

  /** The offset of access `k`. */
  function OffsetAt(start: int, inc: int, L: int, k: nat): int {
    if k == 0 then start else Advance(OffsetAt(start, inc, L, k - 1), inc, L)
  }

  /** The destination index of access `k` of a read: it returns to the base only on meeting the end exactly. */
  function DestinationAt(start: int, base: int, end: int, inc: int, k: nat): int {
    if k == 0 then start
    else var d := DestinationAt(start, base, end, inc, k - 1) + inc;
      if d == end then base else d
  }

  function SourceAt(first: int, inc: int, k: nat): int { first + k * inc }

  lemma SourceSteps(first: int, inc: int, k: nat)
    ensures SourceAt(first, inc, 0) == first
    ensures SourceAt(first, inc, k + 1) == SourceAt(first, inc, k) + inc
  {
  }

  function Offsets(start: int, inc: int, L: int, n: nat): (s: seq<int>)
    ensures |s| == n && forall k :: 0 <= k < n ==> s[k] == OffsetAt(start, inc, L, k)
  {
    seq(n, k requires 0 <= k => OffsetAt(start, inc, L, k))
  }

  function Destinations(start: int, base: int, end: int, inc: int, n: nat): (s: seq<int>)
    ensures |s| == n && forall k :: 0 <= k < n ==> s[k] == DestinationAt(start, base, end, inc, k)
  {
    seq(n, k requires 0 <= k => DestinationAt(start, base, end, inc, k))
  }

  function Sources(first: int, inc: int, n: nat): (s: seq<int>)
    ensures |s| == n && forall k :: 0 <= k < n ==> s[k] == SourceAt(first, inc, k)
  {
    seq(n, k requires 0 <= k => SourceAt(first, inc, k))
  }

  ghost predicate InBounds(at: seq<int>, length: int) {
    forall k :: 0 <= k < |at| ==> 0 <= at[k] < length
  }

  /** The elements of `buf` at the given indices. */
  function Gathered<T>(buf: seq<T>, at: seq<int>): (s: seq<T>)
    requires InBounds(at, |buf|)
    ensures |s| == |at| && forall k :: 0 <= k < |at| ==> s[k] == buf[at[k]]
  {
    seq(|at|, k requires 0 <= k < |at| => buf[at[k]])
  }

  /** `buf` after the values have been stored at the given indices, one after the other. */
  function Placed<T>(buf: seq<T>, at: seq<int>, values: seq<T>): (s: seq<T>)
    requires |at| == |values| && InBounds(at, |buf|)
    ensures |s| == |buf|
  {
    if at == [] then buf
    else var n := |at| - 1;
      Placed(buf, at[..n], values[..n])[at[n] := values[n]]
  }

  lemma NothingPlaced<T>(buf: seq<T>)
    ensures Placed(buf, [], []) == buf
  {
  }

  /** `to` after the elements of `source` at the indices `from` have been copied to the indices `at`, one after the
      other. When the source is the very buffer written to, each copy sees the earlier ones. */
  function Copied<T>(to: seq<T>, at: seq<int>, source: seq<T>, from: seq<int>, shared: bool): (s: seq<T>)
    requires |at| == |from| && InBounds(at, |to|) && InBounds(from, |source|) && (shared ==> |source| == |to|)
    ensures |s| == |to|
  {
    if at == [] then to
    else
      var n := |at| - 1;
      var before := Copied(to, at[..n], source, from[..n], shared);
      before[at[n] := if shared then before[from[n]] else source[from[n]]]
  }

  lemma CopiedNext<T>(to: seq<T>, at: seq<int>, source: seq<T>, from: seq<int>, shared: bool, k: nat)
    requires |at| == |from| && InBounds(at, |to|) && InBounds(from, |source|) && (shared ==> |source| == |to|)
    requires k < |at|
    ensures var before := Copied(to, at[..k], source, from[..k], shared);
            Copied(to, at[..k + 1], source, from[..k + 1], shared)
            == before[at[k] := if shared then before[from[k]] else source[from[k]]]
  {
    assert at[..k + 1][..k] == at[..k] && from[..k + 1][..k] == from[..k];
  }

  /** From another buffer, or from cells of the same one that were not written before they are read, the copies
      store the elements the source began with. */
  lemma {:induction false} CopiedIsPlaced<T>(to: seq<T>, at: seq<int>, source: seq<T>, from: seq<int>, shared: bool)
    requires |at| == |from| && InBounds(at, |to|) && InBounds(from, |source|)
    requires shared ==> source == to && forall i, j :: 0 <= i < j < |at| ==> at[i] != from[j]
    ensures Copied(to, at, source, from, shared) == Placed(to, at, Gathered(source, from))
  {
    if at == [] {
    } else {
      var n := |at| - 1;
      CopiedIsPlaced(to, at[..n], source, from[..n], shared);
      assert Gathered(source, from)[..n] == Gathered(source, from[..n]);
      if shared {
        PlacedElsewhere(to, at[..n], Gathered(source, from[..n]), from[n]);
      }
    }
  }

  /** `arm_circularWrite_*`. The offset is stored back as 16 bits. */
  method CircularWrite<T>(circBuffer: array<T>, L: Q31, writeOffset: nat, bufferInc: Q31,
                          src: array<T>, first: nat, srcInc: int, blockSize: nat)
    returns (newOffset: nat)
    requires InBounds(Offsets(writeOffset, bufferInc, L, blockSize), circBuffer.Length)
    requires InBounds(Sources(first, srcInc, blockSize), src.Length)
    modifies circBuffer
    ensures circBuffer[..] == Copied(old(circBuffer[..]), Offsets(writeOffset, bufferInc, L, blockSize),
                                     old(src[..]), Sources(first, srcInc, blockSize), src == circBuffer)
    ensures src != circBuffer ==>
      circBuffer[..] == Placed(old(circBuffer[..]), Offsets(writeOffset, bufferInc, L, blockSize),
                               Gathered(src[..], Sources(first, srcInc, blockSize)))
    ensures newOffset == OffsetAt(writeOffset, bufferInc, L, blockSize) % 0x1_0000
  {
    hide S32, Copied, Placed, Gathered, Offsets, Sources, SourceAt;
    ghost var at := Offsets(writeOffset, bufferInc, L, blockSize);
    ghost var from := Sources(first, srcInc, blockSize);
    ghost var buf, source := circBuffer[..], src[..];
    var wOffset: int := writeOffset;
    var s: int := first;
    var i := blockSize;
    ghost var k := 0;
    CopiedNothing(buf, at, source, from, src == circBuffer);
    SourceSteps(first, srcInc, 0);
    while i > 0
      invariant k + i == blockSize
      invariant wOffset == OffsetAt(writeOffset, bufferInc, L, k)
      invariant s == SourceAt(first, srcInc, k)
      invariant src != circBuffer ==> src[..] == source
      invariant circBuffer[..] == Copied(buf, at[..k], source, from[..k], src == circBuffer)
    {
      assert at[k] == wOffset && from[k] == s;
      CopiedNext(buf, at, source, from, src == circBuffer, k);
      circBuffer[wOffset] := src[s];
      SourceSteps(first, srcInc, k);
      s := s + srcInc;
      wOffset := S32(wOffset + bufferInc);
      if wOffset >= L {
        wOffset := S32(wOffset - L);
      }
      i := i - 1;
      k := k + 1;
    }
    assert at[..k] == at && from[..k] == from;
    newOffset := wOffset % 0x1_0000;
    if src != circBuffer {
      CopiedIsPlaced(buf, at, source, from, false);
    }
  }

  lemma CopiedNothing<T>(to: seq<T>, at: seq<int>, source: seq<T>, from: seq<int>, shared: bool)
    requires |at| == |from| && (shared ==> |source| == |to|)
    ensures Copied(to, at[..0], source, from[..0], shared) == to
  {
  }

  /** `arm_circularRead_*` into a destination that is itself cycled through. */
  method CircularRead<T>(circBuffer: array<T>, L: Q31, readOffset: int, bufferInc: Q31,
                         dst: array<T>, dstStart: int, dstBase: int, dstLength: int, dstInc: int, blockSize: nat)
    returns (newOffset: int)
    requires InBounds(Offsets(readOffset, bufferInc, L, blockSize), circBuffer.Length)
    requires InBounds(Destinations(dstStart, dstBase, dstBase + dstLength, dstInc, blockSize), dst.Length)
    modifies dst
    ensures dst[..] == Copied(old(dst[..]), Destinations(dstStart, dstBase, dstBase + dstLength, dstInc, blockSize),
                              old(circBuffer[..]), Offsets(readOffset, bufferInc, L, blockSize), circBuffer == dst)
    ensures circBuffer != dst ==>
      dst[..] == Placed(old(dst[..]), Destinations(dstStart, dstBase, dstBase + dstLength, dstInc, blockSize),
                        Gathered(circBuffer[..], Offsets(readOffset, bufferInc, L, blockSize)))
    ensures newOffset == OffsetAt(readOffset, bufferInc, L, blockSize)
  {
    hide S32, Copied, Placed, Gathered, Offsets, Destinations;
    var dstEnd := dstBase + dstLength;
    ghost var at := Destinations(dstStart, dstBase, dstEnd, dstInc, blockSize);
    ghost var from := Offsets(readOffset, bufferInc, L, blockSize);
    ghost var was, source := dst[..], circBuffer[..];
    var rOffset, d := readOffset, dstStart;
    var i := blockSize;
    ghost var k := 0;
    CopiedNothing(was, at, source, from, circBuffer == dst);
    while i > 0
      invariant k + i == blockSize
      invariant rOffset == OffsetAt(readOffset, bufferInc, L, k)
      invariant d == DestinationAt(dstStart, dstBase, dstEnd, dstInc, k)
      invariant circBuffer != dst ==> circBuffer[..] == source
      invariant dst[..] == Copied(was, at[..k], source, from[..k], circBuffer == dst)
    {
      assert at[k] == d && from[k] == rOffset;
      CopiedNext(was, at, source, from, circBuffer == dst, k);
      dst[d] := circBuffer[rOffset];
      d := d + dstInc;
      if d == dstEnd {
        d := dstBase;
      }
      rOffset := S32(rOffset + bufferInc);
      if rOffset >= L {
        rOffset := S32(rOffset - L);
      }
      i := i - 1;
      k := k + 1;
    }
    assert at[..k] == at && from[..k] == from;
    newOffset := rOffset;
    if circBuffer != dst {
      CopiedIsPlaced(was, at, source, from, false);
    }
  }

  // What the two operations do to a buffer

  /** A stored value is read back at its index as long as no later store uses that index. */
  lemma {:induction false} PlacedAt<T>(buf: seq<T>, at: seq<int>, values: seq<T>, k: nat)
    requires |at| == |values| && InBounds(at, |buf|) && k < |at|
    requires forall i :: k < i < |at| ==> at[i] != at[k]
    ensures Placed(buf, at, values)[at[k]] == values[k]
  {
    var n := |at| - 1;
    if k == n {
    } else {
      PlacedAt(buf, at[..n], values[..n], k);
    }
  }

  lemma {:induction false} PlacedElsewhere<T>(buf: seq<T>, at: seq<int>, values: seq<T>, c: nat)
    requires |at| == |values| && InBounds(at, |buf|) && c < |buf| && c !in at
    ensures Placed(buf, at, values)[c] == buf[c]
  {
    if at == [] {
    } else {
      PlacedElsewhere(buf, at[..|at| - 1], values[..|at| - 1], c);
    }
  }

  lemma {:induction false} PlacedTwice<T>(buf: seq<T>, a: seq<int>, v: seq<T>, b: seq<int>, w: seq<T>)
    requires |a| == |v| && |b| == |w| && InBounds(a, |buf|) && InBounds(b, |buf|)
    ensures InBounds(a + b, |buf|)
    ensures Placed(Placed(buf, a, v), b, w) == Placed(buf, a + b, v + w)
  {
    if b == [] {
      assert a + b == a && v + w == v;
    } else {
      var n := |b| - 1;
      PlacedTwice(buf, a, v, b[..n], w[..n]);
      assert (a + b)[..|a| + n] == a + b[..n] && (v + w)[..|a| + n] == v + w[..n];
    }
  }

  // Offsets are residues

  /** The increments the ring can take: from 0 to its length, and so short that the largest sum of an offset and
      an increment still fits 32 bits. */
  predicate Stride(inc: int, L: int) {
    0 <= inc <= L && L - 1 + inc <= 0x7FFF_FFFF
  }

  /** Those increments keep every offset inside the ring, and no others do: a negative increment is never brought
      back, whatever the comment in the code says, and a sum beyond 32 bits wraps below zero. */
  lemma AdvanceStaysInRing(inc: Q31, L: Q31)
    requires 0 < L
    ensures (forall o :: 0 <= o < L ==> 0 <= Advance(o, inc, L) < L) <==> Stride(inc, L)
  {
    if inc < 0 {
      assert Advance(0, inc, L) < 0;
    } else if !Stride(inc, L) {
      AdvanceTooFar(inc, L);
    } else {
      forall o | 0 <= o < L
        ensures 0 <= Advance(o, inc, L) < L
      {
        AdvancePlain(o, inc, L);
      }
    }
    hide Advance;
  }

  lemma AdvancePlain(o: int, inc: int, L: int)
    requires 0 <= o < L <= 0x7FFF_FFFF && Stride(inc, L)
    ensures Advance(o, inc, L) == if o + inc >= L then o + inc - L else o + inc
  {
    S32Congruent(o + inc, 0);
    S32Congruent(o + inc - L, 0);
    hide S32;
  }

  lemma AdvanceTooFar(inc: Q31, L: Q31)
    requires 0 < L && 0 <= inc && !Stride(inc, L)
    ensures Advance(L - 1, inc, L) < 0 || Advance(L - 1, inc, L) >= L
  {
    var x: int := L - 1 + inc;
    S32Congruent(inc - 1, 0);
    S32Congruent(x, 0);
    S32Congruent(x - 0x1_0000_0000, 1);
    hide S32;
  }

  /** The slot of a ring of length `L` that position `a` of an unbounded stream falls in. */
  function Slot(a: int, L: int): (r: int)
    requires 0 < L
    ensures 0 <= r < L
  {
    a % L
  }

  lemma SmallSlot(a: int, L: int)
    requires 0 <= a < L
    ensures Slot(a, L) == a
  {
    DivModUnique(a, L, 0, a);
  }

  lemma ResidueStep(a: int, inc: int, L: int)
    requires 0 < L && 0 <= inc <= L
    ensures Slot(a + inc, L) == if Slot(a, L) + inc >= L then Slot(a, L) + inc - L else Slot(a, L) + inc
  {
    var q, r := a / L, a % L + inc;
    assert a + inc == q * L + r;
    if r >= L {
      assert (q + 1) * L == q * L + L;
      DivModUnique(a + inc, L, q + 1, r - L);
    } else {
      DivModUnique(a + inc, L, q, r);
    }
  }

  lemma ScaledStep(start: int, k: int, inc: int)
    ensures start + (k - 1) * inc + inc == start + k * inc
  {
  }

  lemma {:induction false} OffsetIsResidue(start: int, inc: int, L: int, k: nat)
    requires 0 <= start < L <= 0x7FFF_FFFF && Stride(inc, L)
    ensures OffsetAt(start, inc, L, k) == Slot(start + k * inc, L)
  {
    if k == 0 {
      SmallSlot(start, L);
    } else {
      hide Advance, S32, Slot;
      OffsetIsResidue(start, inc, L, k - 1);
      var a := start + (k - 1) * inc;
      ScaledStep(start, k, inc);
      AdvancePlain(Slot(a, L), inc, L);
      ResidueStep(a, inc, L);
    }
  }

  /** When the increment divides the length and the starting distance, the destination cycles through the
      `m` slots from the base. */
  lemma {:induction false} DestinationIsResidue(base: int, inc: int, a: nat, m: nat, k: nat)
    requires 0 < inc && a < m
    ensures DestinationAt(base + inc * a, base, base + inc * m, inc, k) == base + inc * Slot(a + k, m)
  {
    if k == 0 {
      SmallSlot(a, m);
    } else {
      DestinationIsResidue(base, inc, a, m, k - 1);
      ResidueStep(a + k - 1, 1, m);
      NextSlot(inc, Slot(a + k - 1, m), m);
    }
  }

  /** Until it meets the end, the destination moves straight on. */
  lemma {:induction false} StraightOn(start: int, base: int, end: int, inc: int, k: nat)
    requires forall j :: 0 < j <= k ==> SourceAt(start, inc, j) != end
    ensures DestinationAt(start, base, end, inc, k) == SourceAt(start, inc, k)
  {
    if k == 0 {
    } else {
      StraightOn(start, base, end, inc, k - 1);
      ScaledStep(start, k, inc);
    }
  }

  /** A destination whose distance to the end is no multiple of the stride passes the end. */
  lemma PassesEnd(start: int, base: int, end: int, inc: int) returns (k: nat)
    requires 0 < inc && start < end && (end - start) % inc != 0
    ensures DestinationAt(start, base, end, inc, k) > end
  {
    k := end - start;
    forall j: nat | j <= k
      ensures SourceAt(start, inc, j) != end
    {
      if end - start == j * inc {
        DivModUnique(end - start, inc, j, 0);
      }
    }
    StraightOn(start, base, end, inc, k);
    MulLe(1, inc, k);
  }

  /** One whose distance to the end is a multiple of the stride comes to the base. */
  lemma ReachesBase(start: int, base: int, end: int, inc: int) returns (k: nat)
    requires 0 < inc && start < end && (end - start) % inc == 0
    ensures DestinationAt(start, base, end, inc, k) == base
  {
    k := (end - start) / inc;
    forall j: nat | j <= k - 1
      ensures SourceAt(start, inc, j) != end
    {
      MulLe(j + 1, k, inc);
    }
    StraightOn(start, base, end, inc, k - 1);
    ScaledStep(start, k, inc);
  }

  lemma {:induction false} DestinationsContinue(start: int, base: int, end: int, inc: int, n: nat, k: nat)
    ensures DestinationAt(start, base, end, inc, n + k)
            == DestinationAt(DestinationAt(start, base, end, inc, n), base, end, inc, k)
  {
    if k == 0 {
    } else {
      DestinationsContinue(start, base, end, inc, n, k - 1);
    }
  }

  /** The destinations of a positive stride stay in their cycle exactly when the stride divides the length of the
      cycle and the distance from its base to the start. */
  lemma DestinationStaysInCycle(start: int, base: int, end: int, inc: int)
    requires 0 < inc && base <= start < end
    ensures (forall k: nat :: base <= DestinationAt(start, base, end, inc, k) < end)
            <==> (end - base) % inc == 0 && (start - base) % inc == 0
  {
    hide DestinationAt, Slot;
    DividesDifference(end - base, start - base, inc);
    if (end - start) % inc != 0 {
      var k := PassesEnd(start, base, end, inc);
    } else if (end - base) % inc != 0 {
      var n := ReachesBase(start, base, end, inc);
      var k := PassesEnd(base, base, end, inc);
      DestinationsContinue(start, base, end, inc, n, k);
    } else {
      var a, m := (start - base) / inc, (end - base) / inc;
      assert base + inc * a == start && base + inc * m == end;
      if a >= m {
        MulLe(m, a, inc);
      }
      MulLe(0, start - base, 1);
      forall k: nat
        ensures base <= DestinationAt(start, base, end, inc, k) < end
      {
        DestinationIsResidue(base, inc, a, m, k);
        MulLe(Slot(a + k, m) + 1, m, inc);
        MulLe(0, Slot(a + k, m), inc);
      }
    }
  }

  lemma DividesDifference(x: int, y: int, d: int)
    requires 0 < d
    ensures x % d == 0 && y % d == 0 ==> (x - y) % d == 0
    ensures x % d == 0 && (x - y) % d == 0 ==> y % d == 0
  {
    if x % d == 0 && y % d == 0 {
      DivModUnique(x - y, d, x / d - y / d, 0);
    }
    if x % d == 0 && (x - y) % d == 0 {
      DivModUnique(y, d, x / d - (x - y) / d, 0);
    }
  }

  lemma NextSlot(inc: int, r: int, m: int)
    requires 0 < inc && 0 <= r < m
    ensures inc * r + inc == inc * (r + 1)
    ensures inc * (r + 1) == inc * m <==> r + 1 == m
  {
    if r + 1 < m {
      MulLe(r + 2, m, inc);
    }
  }

  // Refinement of the unbounded stream

  /** One block write: `n` samples from `src[first]` on, `srcInc` apart. */
  datatype Block<T> = Block(src: seq<T>, first: nat, srcInc: int, n: nat)

  ghost predicate Readable<T>(b: Block<T>) {
    InBounds(Sources(b.first, b.srcInc, b.n), |b.src|)
  }

  function Samples<T>(b: Block<T>): (s: seq<T>)
    requires Readable(b)
    ensures |s| == b.n
  {
    Gathered(b.src, Sources(b.first, b.srcInc, b.n))
  }

  /** The samples of all blocks, in the order they were written. */
  function Stream<T>(blocks: seq<Block<T>>): (s: seq<T>)
    requires forall b :: b in blocks ==> Readable(b)
  {
    if blocks == [] then []
    else Stream(blocks[..|blocks| - 1]) + Samples(blocks[|blocks| - 1])
  }

  /** The buffer and the stored offset after unit-stride writes of all blocks, one `CircularWrite` each. */
  function AfterWrites<T>(buf: seq<T>, start: nat, L: Q31, blocks: seq<Block<T>>): (r: (seq<T>, nat))
    requires 0 < L <= 0x1_0000 && start < L <= |buf|
    requires forall b :: b in blocks ==> Readable(b)
    ensures |r.0| == |buf| && r.1 < L
  {
    if blocks == [] then (buf, start)
    else
      var before := AfterWrites(buf, start, L, blocks[..|blocks| - 1]);
      var b := blocks[|blocks| - 1];
      UnitOffsets(before.1, L, b.n);
      (Placed(before.0, Offsets(before.1, 1, L, b.n), Samples(b)), OffsetAt(before.1, 1, L, b.n) % 0x1_0000)
  }

  lemma UnitStride(L: Q31)
    requires 0 < L
    ensures Stride(1, L)
  {
  }

  /** From an offset inside the ring, unit steps stay inside, and 16 bits hold them when `L` is at most 2^16. */
  lemma UnitOffsets(start: nat, L: Q31, n: nat)
    requires 0 < L <= 0x1_0000 && start < L
    ensures InBounds(Offsets(start, 1, L, n), L)
    ensures OffsetAt(start, 1, L, n) == Slot(start + n, L) == OffsetAt(start, 1, L, n) % 0x1_0000
  {
    hide OffsetAt, Slot, Stride;
    UnitStride(L);
    forall k: nat | k <= n
      ensures OffsetAt(start, 1, L, k) == Slot(start + k, L)
    {
      OffsetIsResidue(start, 1, L, k);
    }
  }

  lemma ResidueSum(a: int, b: int, L: int)
    requires 0 < L
    ensures Slot(Slot(a, L) + b, L) == Slot(a + b, L)
  {
    var q, r := (a % L + b) / L, (a % L + b) % L;
    assert a + b == (a / L + q) * L + r;
    DivModUnique(a + b, L, a / L + q, r);
  }

  /** Continuing from the offset after `total` steps is continuing the walk. */
  lemma WalkOn(start: nat, L: Q31, total: nat, k: nat)
    requires 0 < L <= 0x1_0000 && start < L
    ensures OffsetAt(Slot(start + total, L), 1, L, k) == OffsetAt(start, 1, L, total + k)
            == Slot(start + (total + k), L)
  {
    hide *;
    UnitStride(L);
    OffsetIsResidue(Slot(start + total, L), 1, L, k);
    OffsetIsResidue(start, 1, L, total + k);
    ResidueSum(start + total, k, L);
  }

  lemma OffsetsConcatenate(start: nat, L: Q31, total: nat, n: nat)
    requires 0 < L <= 0x1_0000 && start < L
    ensures Offsets(start, 1, L, total) + Offsets(Slot(start + total, L), 1, L, n) == Offsets(start, 1, L, total + n)
  {
    hide OffsetAt, Offsets, Slot;
    var rest := Offsets(Slot(start + total, L), 1, L, n);
    forall k | 0 <= k < n
      ensures rest[k] == OffsetAt(start, 1, L, total + k)
    {
      WalkOn(start, L, total, k);
    }
  }

  /** Any sequence of block writes is one write of the whole stream. */
  lemma {:induction false} WritesConcatenate<T>(buf: seq<T>, start: nat, L: Q31, blocks: seq<Block<T>>)
    requires 0 < L <= 0x1_0000 && start < L <= |buf|
    requires forall b :: b in blocks ==> Readable(b)
    ensures InBounds(Offsets(start, 1, L, |Stream(blocks)|), |buf|)
    ensures AfterWrites(buf, start, L, blocks)
            == (Placed(buf, Offsets(start, 1, L, |Stream(blocks)|), Stream(blocks)),
                Slot(start + |Stream(blocks)|, L))
  {
    hide OffsetAt, Offsets, Placed, Samples, Slot;
    UnitOffsets(start, L, |Stream(blocks)|);
    if blocks == [] {
      SmallSlot(start, L);
      NothingPlaced(buf);
      assert Offsets(start, 1, L, 0) == [];
    } else {
      var prev, b := blocks[..|blocks| - 1], blocks[|blocks| - 1];
      WritesConcatenate(buf, start, L, prev);
      var total := |Stream(prev)|;
      OffsetsConcatenate(start, L, total, b.n);
      UnitOffsets(Slot(start + total, L), L, b.n);
      ResidueSum(start + total, b.n, L);
      PlacedTwice(buf, Offsets(start, 1, L, total), Stream(prev),
                  Offsets(Slot(start + total, L), 1, L, b.n), Samples(b));
    }
  }

  /** Fewer than `L` steps apart, two positions of the stream lie in different slots. */
  lemma DistinctSlots(a: int, b: int, L: int)
    requires 0 < L && a < b < a + L
    ensures Slot(a, L) != Slot(b, L)
  {
    if a % L == b % L {
      var q := b / L - a / L;
      assert b - a == q * L;
      if q >= 1 {
        MulLe(1, q, L);
      } else {
        MulLe(q, 0, L);
      }
    }
  }

  /** Main result on writing: after any sequence of unit-stride block writes, sample `j` of the stream is in slot
      `(start + j) mod L` for each of the last `L` samples, and the offset is the next slot. */
  lemma RingHoldsStream<T>(buf: seq<T>, start: nat, L: Q31, blocks: seq<Block<T>>, j: nat)
    requires 0 < L <= 0x1_0000 && start < L <= |buf|
    requires forall b :: b in blocks ==> Readable(b)
    requires |Stream(blocks)| - L <= j < |Stream(blocks)|
    ensures AfterWrites(buf, start, L, blocks).0[Slot(start + j, L)] == Stream(blocks)[j]
    ensures AfterWrites(buf, start, L, blocks).1 == Slot(start + |Stream(blocks)|, L)
  {
    hide OffsetAt, AfterWrites, Stream, Placed, Slot;
    var stream := Stream(blocks);
    var total := |stream|;
    WritesConcatenate(buf, start, L, blocks);
    var at := Offsets(start, 1, L, total);
    OffsetIsResidue(start, 1, L, j);
    forall i | j < i < total
      ensures at[i] != at[j]
    {
      OffsetIsResidue(start, 1, L, i);
      DistinctSlots(start + j, start + i, L);
    }
    PlacedAt(buf, at, stream, j);
  }

  /** Cells that no sample of the stream falls in keep their contents. */
  lemma OtherCellsKept<T>(buf: seq<T>, start: nat, L: Q31, blocks: seq<Block<T>>, c: nat)
    requires 0 < L <= 0x1_0000 && start < L <= |buf| && c < |buf|
    requires forall b :: b in blocks ==> Readable(b)
    requires forall p :: start <= p < start + |Stream(blocks)| ==> Slot(p, L) != c
    ensures AfterWrites(buf, start, L, blocks).0[c] == buf[c]
  {
    hide OffsetAt, AfterWrites, Stream, Placed, Slot;
    var stream := Stream(blocks);
    WritesConcatenate(buf, start, L, blocks);
    var at := Offsets(start, 1, L, |stream|);
    forall j | 0 <= j < |stream|
      ensures at[j] != c
    {
      OffsetIsResidue(start, 1, L, j);
      assert Slot(start + j, L) != c;
    }
    PlacedElsewhere(buf, at, stream, c);
  }

  /** Main result on reading: a unit-stride read that starts `d` samples back, `d` at most the total and at most
      `L`, gathers the stream from `d` samples back. */
  lemma ReadReturnsHistory<T>(buf: seq<T>, start: nat, L: Q31, blocks: seq<Block<T>>, d: nat, n: nat)
    requires 0 < L <= 0x1_0000 && start < L <= |buf|
    requires forall b :: b in blocks ==> Readable(b)
    requires n <= d <= |Stream(blocks)| && d <= L
    ensures var (ring, offset) := AfterWrites(buf, start, L, blocks);
            var from := Offsets(Slot(offset - d, L), 1, L, n);
            var total := |Stream(blocks)|;
            InBounds(from, |ring|) && Gathered(ring, from) == Stream(blocks)[total - d..total - d + n]
  {
    hide OffsetAt, Offsets, AfterWrites, Stream, Slot;
    var (ring, offset) := AfterWrites(buf, start, L, blocks);
    var total := |Stream(blocks)|;
    var first := Slot(offset - d, L);
    var from := Offsets(first, 1, L, n);
    UnitOffsets(first, L, n);
    WritesConcatenate(buf, start, L, blocks);
    forall k | 0 <= k < n
      ensures ring[from[k]] == Stream(blocks)[total - d + k]
    {
      RingHoldsStream(buf, start, L, blocks, total - d + k);
      OffsetBehind(start, total, d, L, k);
    }
  }

  /** A block of samples as a caller passes it: `n` elements of an array, from `first` on and `srcInc` apart. */
  datatype Source<T> = Source(src: array<T>, first: nat, srcInc: int, n: nat)

  ghost function BlocksOf<T>(sources: seq<Source<T>>): (blocks: seq<Block<T>>)
    reads set i | 0 <= i < |sources| :: sources[i].src
    ensures |blocks| == |sources|
    ensures forall i :: 0 <= i < |sources| ==>
      blocks[i] == Block(sources[i].src[..], sources[i].first, sources[i].srcInc, sources[i].n)
  {
    if sources == [] then []
    else
      var s := sources[|sources| - 1];
      BlocksOf(sources[..|sources| - 1]) + [Block(s.src[..], s.first, s.srcInc, s.n)]
  }

  lemma AfterNextWrite<T>(buf: seq<T>, start: nat, L: Q31, blocks: seq<Block<T>>, i: nat)
    requires 0 < L <= 0x1_0000 && start < L <= |buf| && i < |blocks|
    requires forall b :: b in blocks ==> Readable(b)
    ensures var (ring, offset) := AfterWrites(buf, start, L, blocks[..i]);
            && InBounds(Offsets(offset, 1, L, blocks[i].n), L)
            && AfterWrites(buf, start, L, blocks[..i + 1])
               == (Placed(ring, Offsets(offset, 1, L, blocks[i].n), Samples(blocks[i])),
                   OffsetAt(offset, 1, L, blocks[i].n) % 0x1_0000)
  {
    assert blocks[..i + 1][..i] == blocks[..i];
    var (ring, offset) := AfterWrites(buf, start, L, blocks[..i]);
    hide OffsetAt, Placed, Samples, Offsets, Readable;
    UnitOffsets(offset, L, blocks[i].n);
  }

  /** A caller's sequence of unit-stride block writes. */
  method WriteBlocks<T>(circBuffer: array<T>, L: Q31, writeOffset: nat, sources: seq<Source<T>>)
    returns (newOffset: nat)
    requires 0 < L <= 0x1_0000 && writeOffset < L <= circBuffer.Length
    requires forall i :: 0 <= i < |sources| ==> sources[i].src != circBuffer
    requires forall b :: b in BlocksOf(sources) ==> Readable(b)
    modifies circBuffer
    ensures BlocksOf(sources) == old(BlocksOf(sources))
    ensures (circBuffer[..], newOffset) == AfterWrites(old(circBuffer[..]), writeOffset, L, BlocksOf(sources))
  {
    hide AfterWrites, OffsetAt, Placed, Offsets, Sources, Copied, Gathered;
    ghost var buf, blocks := circBuffer[..], BlocksOf(sources);
    newOffset := writeOffset;
    assert AfterWrites(buf, writeOffset, L, blocks[..0]) == (buf, writeOffset) by {
      NothingWritten(buf, writeOffset, L);
    }
    for i := 0 to |sources|
      invariant BlocksOf(sources) == blocks
      invariant (circBuffer[..], newOffset) == AfterWrites(buf, writeOffset, L, blocks[..i])
    {
      AfterNextWrite(buf, writeOffset, L, blocks, i);
      var s := sources[i];
      assert blocks[i] == Block(s.src[..], s.first, s.srcInc, s.n) && blocks[i] in blocks;
      newOffset := CircularWrite(circBuffer, L, newOffset, 1, s.src, s.first, s.srcInc, s.n);
    }
    assert blocks[..|sources|] == blocks;
  }

  lemma NothingWritten<T>(buf: seq<T>, start: nat, L: Q31)
    requires 0 < L <= 0x1_0000 && start < L <= |buf|
    ensures AfterWrites(buf, start, L, []) == (buf, start)
  {
  }

  /** Any sequence of block writes and then a read that starts `d` samples back: the destinations receive the
      stream from `d` samples back. */
  method WriteThenRead<T>(circBuffer: array<T>, L: Q31, writeOffset: nat, sources: seq<Source<T>>, d: nat, n: nat,
                          dst: array<T>, dstStart: int, dstBase: int, dstLength: int, dstInc: int)
    returns (newWrite: nat, newRead: int)
    requires 0 < L <= 0x1_0000 && writeOffset < L <= circBuffer.Length
    requires forall i :: 0 <= i < |sources| ==> sources[i].src != circBuffer
    requires forall b :: b in BlocksOf(sources) ==> Readable(b)
    requires n <= d <= |Stream(BlocksOf(sources))| && d <= L && dst != circBuffer
    requires InBounds(Destinations(dstStart, dstBase, dstBase + dstLength, dstInc, n), dst.Length)
    modifies circBuffer, dst
    ensures (circBuffer[..], newWrite) == AfterWrites(old(circBuffer[..]), writeOffset, L, old(BlocksOf(sources)))
    ensures newRead == Slot(newWrite - d + n, L)
    ensures var stream := old(Stream(BlocksOf(sources)));
            dst[..] == Placed(old(dst[..]), Destinations(dstStart, dstBase, dstBase + dstLength, dstInc, n),
                              stream[|stream| - d..|stream| - d + n])
  {
    hide AfterWrites, OffsetAt, Placed, Offsets, Destinations, Copied, Gathered, Stream, Slot;
    ghost var buf, blocks := circBuffer[..], BlocksOf(sources);
    newWrite := WriteBlocks(circBuffer, L, writeOffset, sources);
    ReadReturnsHistory(buf, writeOffset, L, blocks, d, n);
    var readOffset := Slot(newWrite - d, L);
    UnitOffsets(readOffset, L, n);
    ResidueSum(newWrite - d, n, L);
    newRead := CircularRead(circBuffer, L, readOffset, 1, dst, dstStart, dstBase, dstLength, dstInc, n);
  }

  /** Offset `k` of a read that starts `d` behind the write offset. */
  lemma OffsetBehind(start: int, total: int, d: int, L: Q31, k: nat)
    requires 0 < L <= 0x1_0000
    ensures OffsetAt(Slot(Slot(start + total, L) - d, L), 1, L, k) == Slot(start + (total - d + k), L)
  {
    hide *;
    UnitStride(L);
    var first := Slot(Slot(start + total, L) - d, L);
    assert 0 <= first < L;
    OffsetIsResidue(first, 1, L, k);
    ResidueSum(start + total, 0 - d, L);
    ResidueSum(start + total - d, k, L);
  }

  /** The 16 bits that hold the offset between writes are enough for every walk exactly up to a length of 2^16. */
  lemma StoredOffsetIsExact(L: Q31)
    requires 0 < L
    ensures (forall start, inc, n: nat :: 0 <= start < L && Stride(inc, L) ==>
               OffsetAt(start, inc, L, n) % 0x1_0000 == OffsetAt(start, inc, L, n))
            <==> L <= 0x1_0000
  {
    hide OffsetAt, Slot;
    if L <= 0x1_0000 {
      forall start, inc, n: nat | 0 <= start < L && Stride(inc, L)
        ensures OffsetAt(start, inc, L, n) % 0x1_0000 == OffsetAt(start, inc, L, n)
      {
        OffsetIsResidue(start, inc, L, n);
      }
    } else {
      OffsetIsResidue(0, 1, L, 0x1_0000);
      SmallSlot(0x1_0000, L);
    }
  }

  /** The destination of a read whose stride fits its cycle holds, for each of the last `m` samples read, that
      sample in its slot. */
  lemma DestinationHoldsRead<T>(dst: seq<T>, base: int, inc: int, a: nat, m: nat, values: seq<T>, k: nat)
    requires 0 < inc && a < m && k < |values| <= k + m
    requires InBounds(Destinations(base + inc * a, base, base + inc * m, inc, |values|), |dst|)
    ensures DestinationAt(base + inc * a, base, base + inc * m, inc, k) == base + inc * Slot(a + k, m)
    ensures Placed(dst, Destinations(base + inc * a, base, base + inc * m, inc, |values|), values)
              [DestinationAt(base + inc * a, base, base + inc * m, inc, k)] == values[k]
  {
    var at := Destinations(base + inc * a, base, base + inc * m, inc, |values|);
    DestinationIsResidue(base, inc, a, m, k);
    forall i | k < i < |values|
      ensures at[i] != at[k]
    {
      DestinationIsResidue(base, inc, a, m, i);
      DistinctSlots(a + k, a + i, m);
      SlotInjective(inc, Slot(a + k, m), Slot(a + i, m));
    }
    PlacedAt(dst, at, values, k);
  }

  lemma SlotInjective(inc: int, x: int, y: int)
    requires 0 < inc && x != y
    ensures inc * x != inc * y
  {
    if x < y {
      MulLe(x + 1, y, inc);
    } else {
      MulLe(y + 1, x, inc);
    }
  }
}
