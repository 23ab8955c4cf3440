/** Interrupt priorities as pairs of a preemption and a sub-priority: `NVIC_EncodePriority` and
    `NVIC_DecodePriority`. `bits` is the number of implemented priority bits, `__NVIC_PRIO_BITS`. */
module NvicPriority {
  import opened Bits
  import opened FixedPoint
  import opened IntegerFacts

  const GROUP_MASK: nat := 0x07

  /** The unsigned subtractions from and of 7 wrap as words. */
  function PreemptBits(group: nat, bits: nat): nat {
    var g := And(group, GROUP_MASK);
    if U32(7 - g) > bits then bits else U32(7 - g)
  }

  function SubBits(group: nat, bits: nat): nat {
    var g := And(group, GROUP_MASK);
    if g + bits < 7 then 0 else U32(U32(g - 7) + bits)
  }

  function Encode(group: nat, bits: nat, preempt: nat, sub: nat): nat {
    var p, s := PreemptBits(group, bits), SubBits(group, bits);
    Or(And(preempt, Pow2(p) - 1) * Pow2(s), And(sub, Pow2(s) - 1))
  }

  function Decode(group: nat, bits: nat, priority: nat): (nat, nat) {
    var p, s := PreemptBits(group, bits), SubBits(group, bits);
    (And(Shr(priority, s), Pow2(p) - 1), And(priority, Pow2(s) - 1))
  }

  lemma GroupRange(group: nat)
    ensures And(group, GROUP_MASK) == group % 8
  {
    hide And;
    assert Pow2(3) == 8;
    AndMask(group, 3);
  }

  /** Of the byte's positions 7 down to `8 - bits` that are implemented, those above position `group` hold the
      preemption and the others the sub-priority; the two widths share out exactly the implemented bits. */
  lemma FieldWidths(group: nat, bits: nat)
    requires 1 <= bits <= 8
    ensures var point := Max(group % 8 + 1, 8 - bits);
            PreemptBits(group, bits) == 8 - point && SubBits(group, bits) == point - (8 - bits)
    ensures PreemptBits(group, bits) + SubBits(group, bits) == bits
  {
    hide And;
    GroupRange(group);
  }

  /** The code of a pair: the preemption field above the sub-priority field, each cut to its width. */
  lemma EncodeValue(group: nat, bits: nat, preempt: nat, sub: nat)
    ensures var p, s := PreemptBits(group, bits), SubBits(group, bits);
            Encode(group, bits, preempt, sub) == Joined(Low(preempt, p), Low(sub, s), s)
  {
    hide And, Or, Pow2, PreemptBits, SubBits, Low, Joined;
    var p, s := PreemptBits(group, bits), SubBits(group, bits);
    AndMask(preempt, p);
    AndMask(sub, s);
    OrDisjoint(Low(preempt, p), s, Low(sub, s));
  }

  lemma DecodeValue(group: nat, bits: nat, priority: nat)
    ensures var p, s := PreemptBits(group, bits), SubBits(group, bits);
            Decode(group, bits, priority) == (Low(Shr(priority, s), p), Low(priority, s))
  {
    hide And, Pow2, PreemptBits, SubBits, Shr, Low;
    var p, s := PreemptBits(group, bits), SubBits(group, bits);
    AndMask(Shr(priority, s), p);
    AndMask(priority, s);
  }

  /** Decoding an encoded pair gives the pair, each part cut to its width. */
  lemma DecodeEncode(group: nat, bits: nat, preempt: nat, sub: nat)
    ensures Decode(group, bits, Encode(group, bits, preempt, sub))
            == (Low(preempt, PreemptBits(group, bits)), Low(sub, SubBits(group, bits)))
  {
    hide *;
    var p, s := PreemptBits(group, bits), SubBits(group, bits);
    EncodeValue(group, bits, preempt, sub);
    DecodeValue(group, bits, Encode(group, bits, preempt, sub));
    var x, y := Low(preempt, p), Low(sub, s);
    Apart(x, y, s);
    LowOfSmall(x, p);
  }

  /** Encoding what was decoded gives back the implemented bits of the priority. */
  lemma EncodeDecode(group: nat, bits: nat, priority: nat)
    requires 1 <= bits <= 8
    ensures var (preempt, sub) := Decode(group, bits, priority);
            Encode(group, bits, preempt, sub) == Low(priority, bits)
  {
    hide *;
    FieldWidths(group, bits);
    var (preempt, sub) := Decode(group, bits, priority);
    var p, s := PreemptBits(group, bits), SubBits(group, bits);
    DecodeValue(group, bits, priority);
    EncodeValue(group, bits, preempt, sub);
    LowOfSmall(preempt, p);
    LowOfSmall(sub, s);
    Together(priority, p, s);
  }

  /** A code never exceeds the implemented bits. */
  lemma EncodeFits(group: nat, bits: nat, preempt: nat, sub: nat)
    requires 1 <= bits <= 8
    ensures Encode(group, bits, preempt, sub) < Pow2(bits)
  {
    hide *;
    FieldWidths(group, bits);
    EncodeValue(group, bits, preempt, sub);
    var p, s := PreemptBits(group, bits), SubBits(group, bits);
    JoinedFits(Low(preempt, p), Low(sub, s), p, s);
  }

  /** Codes are ordered as numbers the way the pairs are ordered: first by preemption, then by sub-priority. */
  lemma EncodeIsLexicographic(group: nat, bits: nat, preempt: nat, sub: nat, preempt': nat, sub': nat)
    ensures var p, s := PreemptBits(group, bits), SubBits(group, bits);
            Encode(group, bits, preempt, sub) < Encode(group, bits, preempt', sub')
            <==> Low(preempt, p) < Low(preempt', p)
                 || (Low(preempt, p) == Low(preempt', p) && Low(sub, s) < Low(sub', s))
  {
    hide *;
    var p, s := PreemptBits(group, bits), SubBits(group, bits);
    EncodeValue(group, bits, preempt, sub);
    EncodeValue(group, bits, preempt', sub');
    JoinedOrder(Low(preempt, p), Low(sub, s), Low(preempt', p), Low(sub', s), s);
  }

  // Through a register byte

  const BYTE_MASK: nat := 0xFF

  /** The byte `__NVIC_SetPriority` stores: the priority aligned to the implemented upper bits. */
  function StoredByte(bits: nat, priority: nat): nat
    requires bits <= 8
  {
    And(U32(priority * Pow2(8 - bits)), BYTE_MASK)
  }

  /** The priority `__NVIC_GetPriority` reads from a byte. */
  function LoadedPriority(bits: nat, byte: nat): nat
    requires bits <= 8
  {
    Shr(byte, 8 - bits)
  }

  /** The register keeps exactly the implemented low bits of a priority, above zeros in the other positions. */
  lemma RegisterKeepsLowBits(bits: nat, priority: nat)
    requires bits <= 8
    ensures LoadedPriority(bits, StoredByte(bits, priority)) == Low(priority, bits)
    ensures StoredByte(bits, priority) == Low(priority, bits) * Pow2(8 - bits) < 0x100
  {
    hide And, Shr, U32, Low;
    var k := 8 - bits;
    Pow2Literals();
    JoinedFits(Low(priority, bits), 0, bits, k);
    ByteOfWord(priority * Pow2(k));
    Apart(priority, 0, k);
    Together(Joined(priority, 0, k), bits, k);
    Apart(Low(priority, bits), 0, k);
  }

  /** Whatever a byte holds, its unimplemented low bits are dropped. */
  lemma LoadedDrops(bits: nat, byte: nat)
    requires bits <= 8
    ensures LoadedPriority(bits, byte) == byte / Pow2(8 - bits)
  {
    ShrIsDivision(byte, 8 - bits);
  }

  lemma ByteOfWord(x: nat)
    ensures And(U32(x), BYTE_MASK) == Low(x, 8)
  {
    hide And;
    Pow2Literals();
    AndMask(U32(x), 8);
    DivDiv(x, 0x100, 0x100_0000);
  }

  /** Main result: a pair encoded, stored, read back and decoded is the pair, each part cut to its width. */
  lemma PairThroughRegister(group: nat, bits: nat, preempt: nat, sub: nat)
    requires 1 <= bits <= 8
    ensures Decode(group, bits, LoadedPriority(bits, StoredByte(bits, Encode(group, bits, preempt, sub))))
            == (Low(preempt, PreemptBits(group, bits)), Low(sub, SubBits(group, bits)))
  {
    hide *;
    EncodeFits(group, bits, preempt, sub);
    RegisterKeepsLowBits(bits, Encode(group, bits, preempt, sub));
    LowOfSmall(Encode(group, bits, preempt, sub), bits);
    DecodeEncode(group, bits, preempt, sub);
  }
}
