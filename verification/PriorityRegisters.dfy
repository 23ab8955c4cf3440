/** The priority registers of a core that can only access them as words: `__NVIC_SetPriority` and
    `__NVIC_GetPriority` pack four byte-wide priorities into each word. */
module PriorityRegisters {
  import opened FixedPoint

  /** The interrupts and exceptions that have a priority: IRQ 0 to 31 and exceptions -8 to -1. */
  predicate Supported(irq: int) { -8 <= irq < 32 }

  /** `_BIT_SHIFT`: eight times the low two bits of the interrupt number read as a word. */
  function BitShift(irq: int): bv32 {
    var lane := U32(irq) % 4;
    if lane == 0 then 0 else if lane == 1 then 8 else if lane == 2 then 16 else 24
  }

  /** `_IP_IDX` */
  function IpIndex(irq: int): nat { U32(irq) / 4 }

  /** `_SHP_IDX`: the low four bits less eight, as a word, divided by four. */
  function ShpIndex(irq: int): nat { U32(U32(irq) % 16 - 8) / 4 }

  /** A word with the byte at `shift` replaced: read, clear, insert. */
  function Inserted(word: bv32, shift: bv32, value: bv32): bv32
    requires shift <= 24
  {
    (word & !(0xFF << shift)) | (value << shift)
  }

  function ByteOf(word: bv32, shift: bv32): bv32
    requires shift <= 24
  {
    (word >> shift) & 0xFF
  }

  predicate LaneShift(s: bv32) { s == 0 || s == 8 || s == 16 || s == 24 }

  lemma InsertedThere(word: bv32, s: bv32, value: bv32)
    requires LaneShift(s) && value <= 0xFF
    ensures ByteOf(Inserted(word, s, value), s) == value
  {
    if s == 0 {
    } else if s == 8 {
    } else if s == 16 {
    }
  }

  lemma InsertedElsewhere(word: bv32, s: bv32, value: bv32, t: bv32)
    requires LaneShift(s) && LaneShift(t) && s != t && value <= 0xFF
    ensures ByteOf(Inserted(word, s, value), t) == ByteOf(word, t)
  {
    if s == 0 {
    } else if s == 8 {
    } else if s == 16 {
    }
  }

  /** The byte a priority is stored as, and the priority a stored byte is read as. */
  function Stored(priority: bv32, bits: bv32): bv32
    requires 1 <= bits <= 8
  {
    (priority << (8 - bits)) & 0xFF
  }

  function Loaded(byte: bv32, bits: bv32): bv32
    requires 1 <= bits <= 8
  {
    byte >> (8 - bits)
  }

  /** The low bits of a priority that the core implements. */
  function Implemented(priority: bv32, bits: bv32): bv32
    requires 1 <= bits <= 8
  {
    priority & ((1 << bits) - 1)
  }

  /** A priority aligned to the implemented upper bits of a byte and read back. */
  lemma StoredAndLoaded(priority: bv32, bits: bv32)
    requires 1 <= bits <= 8
    ensures Loaded(Stored(priority, bits), bits) == Implemented(priority, bits)
  {
  }

  lemma ShiftIsLane(irq: int)
    ensures LaneShift(BitShift(irq))
  {
    hide U32;
  }

  /** An exception number as a word: the low two and four bits do not depend on the width. */
  lemma ExceptionWord(irq: int)
    requires -8 <= irq < 0
    ensures U32(irq) == irq + 0x1_0000_0000
    ensures U32(irq) % 4 == irq % 4 && U32(irq) % 16 == irq + 16
  {
  }

  lemma InterruptWord(irq: int)
    requires 0 <= irq < 32
    ensures U32(irq) == irq
  {
  }

  /** The stored byte is the implemented bits at the top and zeros below them. */
  lemma StoredAligned(priority: bv32, bits: bv32)
    requires 1 <= bits <= 8
    ensures Stored(priority, bits) == Implemented(priority, bits) << (8 - bits)
    ensures Stored(priority, bits) & ((1 << (8 - bits)) - 1) == 0 && Stored(priority, bits) <= 0xFF
  {
  }

  /** Loading a byte, whatever it holds, drops exactly its unimplemented low bits. */
  lemma LoadedDrops(byte: bv32, bits: bv32)
    requires 1 <= bits <= 8
    ensures (Loaded(byte, bits) << (8 - bits)) | (byte & ((1 << (8 - bits)) - 1)) == byte
  {
  }

  /** The word that holds the priority of an interrupt: `NVIC->IP` from 0 on, `SCB->SHP` below 0. */
  lemma WordExists(irq: int)
    requires Supported(irq)
    ensures LaneShift(BitShift(irq))
    ensures irq >= 0 ==> IpIndex(irq) == irq / 4 < 8 && U32(irq) % 4 == irq % 4
    ensures irq < 0 ==> ShpIndex(irq) == (irq + 8) / 4 < 2 && U32(irq) % 4 == irq % 4
  {
    hide U32, BitShift;
    ShiftIsLane(irq);
    if irq >= 0 {
      InterruptWord(irq);
    } else {
      ExceptionWord(irq);
      InterruptWord(irq + 8);
    }
  }

  /** Two different interrupts of the same sign share a word only at different shifts. */
  lemma LanesDiffer(i: int, j: int)
    requires Supported(i) && Supported(j) && i != j
    requires (i >= 0 && j >= 0 && IpIndex(i) == IpIndex(j)) || (i < 0 && j < 0 && ShpIndex(i) == ShpIndex(j))
    ensures BitShift(i) != BitShift(j)
  {
    WordExists(i);
    WordExists(j);
    hide IpIndex, ShpIndex, U32;
  }

  /** The byte of an interrupt in given register contents. */
  function ByteIn(ip: seq<bv32>, shp: seq<bv32>, irq: int): bv32
    requires |ip| == 8 && |shp| == 2 && Supported(irq)
  {
    WordExists(irq);
    ByteOf(if irq >= 0 then ip[IpIndex(irq)] else shp[ShpIndex(irq)], BitShift(irq))
  }

  /** Register contents as a map from interrupts to bytes. */
  function BytesIn(ip: seq<bv32>, shp: seq<bv32>): (m: map<int, bv32>)
    requires |ip| == 8 && |shp| == 2
    ensures forall irq :: irq in m <==> Supported(irq)
    ensures forall irq :: Supported(irq) ==> m[irq] == ByteIn(ip, shp, irq)
  {
    map irq | -8 <= irq < 32 :: ByteIn(ip, shp, irq)
  }

  /** Byte `lane` of a word, counted from the lowest. */
  function ByteNo(word: bv32, lane: int): bv32 {
    if lane == 0 then word & 0xFF
    else if lane == 1 then (word >> 8) & 0xFF
    else if lane == 2 then (word >> 16) & 0xFF
    else word >> 24
  }

  /** Word `k` of the two arrays, the exceptions' words counted from -2. */
  function WordAt(ip: seq<bv32>, shp: seq<bv32>, k: int): bv32
    requires |ip| == 8 && |shp| == 2 && -2 <= k < 8
  {
    if k >= 0 then ip[k] else shp[k + 2]
  }

  lemma ShiftedByte(word: bv32, irq: int)
    requires Supported(irq)
    ensures LaneShift(BitShift(irq)) && ByteOf(word, BitShift(irq)) == ByteNo(word, irq % 4)
  {
    WordExists(irq);
    hide U32;
    TopByte(word);
  }

  lemma TopByte(word: bv32)
    ensures (word >> 24) & 0xFF == word >> 24
    ensures (word >> 0) & 0xFF == word & 0xFF
  {
  }

  /** The byte of an interrupt is byte `irq mod 4` of word `irq / 4`, rounding down for the exceptions. */
  lemma ByteInWord(ip: seq<bv32>, shp: seq<bv32>, irq: int)
    requires |ip| == 8 && |shp| == 2 && Supported(irq)
    ensures BytesIn(ip, shp)[irq] == ByteNo(WordAt(ip, shp, irq / 4), irq % 4)
  {
    WordExists(irq);
    ShiftedByte(WordAt(ip, shp, irq / 4), irq);
    hide ByteNo, ByteOf, BitShift, IpIndex, ShpIndex, U32;
  }

  lemma ByteCases(word: bv32)
    ensures ByteNo(word, 0) == word & 0xFF && ByteNo(word, 1) == (word >> 8) & 0xFF
    ensures ByteNo(word, 2) == (word >> 16) & 0xFF && ByteNo(word, 3) == word >> 24
  {
  }

  /** The layout, register by register: interrupt 4 k is in the lowest byte of `IP[k]`, and the next three above. */
  lemma IpLayout(ip: seq<bv32>, shp: seq<bv32>, k: nat)
    requires |ip| == 8 && |shp| == 2 && k < 8
    ensures BytesIn(ip, shp)[4 * k] == ip[k] & 0xFF
    ensures BytesIn(ip, shp)[4 * k + 1] == (ip[k] >> 8) & 0xFF
    ensures BytesIn(ip, shp)[4 * k + 2] == (ip[k] >> 16) & 0xFF
    ensures BytesIn(ip, shp)[4 * k + 3] == ip[k] >> 24
  {
    hide BytesIn, ByteNo;
    WordBytes(ip, shp, k);
    ByteCases(ip[k]);
    assert WordAt(ip, shp, k) == ip[k];
    assert BytesIn(ip, shp)[4 * k + 0] == ByteNo(ip[k], 0);
  }

  /** Exception 4 k - 8 is in the lowest byte of `SHP[k]`. */
  lemma ShpLayout(ip: seq<bv32>, shp: seq<bv32>, k: nat)
    requires |ip| == 8 && |shp| == 2 && k < 2
    ensures BytesIn(ip, shp)[4 * k - 8] == shp[k] & 0xFF
    ensures BytesIn(ip, shp)[4 * k - 7] == (shp[k] >> 8) & 0xFF
    ensures BytesIn(ip, shp)[4 * k - 6] == (shp[k] >> 16) & 0xFF
    ensures BytesIn(ip, shp)[4 * k - 5] == shp[k] >> 24
  {
    hide BytesIn, ByteNo;
    WordBytes(ip, shp, k - 2);
    ByteCases(shp[k]);
    assert WordAt(ip, shp, k - 2) == shp[k];
    assert BytesIn(ip, shp)[4 * (k - 2) + 0] == ByteNo(shp[k], 0);
    assert BytesIn(ip, shp)[4 * (k - 2) + 1] == ByteNo(shp[k], 1);
    assert BytesIn(ip, shp)[4 * (k - 2) + 2] == ByteNo(shp[k], 2);
    assert BytesIn(ip, shp)[4 * (k - 2) + 3] == ByteNo(shp[k], 3);
  }

  /** The bytes make up the words: contents with the same byte map are the same. */
  lemma BytesDetermineWords(ip: seq<bv32>, shp: seq<bv32>, ip': seq<bv32>, shp': seq<bv32>)
    requires |ip| == 8 && |shp| == 2 && |ip'| == 8 && |shp'| == 2
    requires BytesIn(ip, shp) == BytesIn(ip', shp')
    ensures ip == ip' && shp == shp'
  {
    forall k | -2 <= k < 8
      ensures WordAt(ip, shp, k) == WordAt(ip', shp', k)
    {
      WordBytes(ip, shp, k);
      WordBytes(ip', shp', k);
      hide *;
      SameWord(WordAt(ip, shp, k), WordAt(ip', shp', k));
    }
    hide *;
    SameWords(ip, shp, ip', shp');
  }

  lemma WordBytes(ip: seq<bv32>, shp: seq<bv32>, k: int)
    requires |ip| == 8 && |shp| == 2 && -2 <= k < 8
    ensures forall lane :: 0 <= lane < 4 ==> BytesIn(ip, shp)[4 * k + lane] == ByteNo(WordAt(ip, shp, k), lane)
  {
    hide ByteNo, BytesIn, WordAt;
    forall lane | 0 <= lane < 4
      ensures BytesIn(ip, shp)[4 * k + lane] == ByteNo(WordAt(ip, shp, k), lane)
    {
      assert (4 * k + lane) / 4 == k && (4 * k + lane) % 4 == lane;
      ByteInWord(ip, shp, 4 * k + lane);
    }
  }

  lemma SameWords(ip: seq<bv32>, shp: seq<bv32>, ip': seq<bv32>, shp': seq<bv32>)
    requires |ip| == 8 && |shp| == 2 && |ip'| == 8 && |shp'| == 2
    requires forall k :: -2 <= k < 8 ==> WordAt(ip, shp, k) == WordAt(ip', shp', k)
    ensures ip == ip' && shp == shp'
  {
    forall k | 0 <= k < 8
      ensures ip[k] == ip'[k]
    {
      assert WordAt(ip, shp, k) == WordAt(ip', shp', k);
    }
    forall k | 0 <= k < 2
      ensures shp[k] == shp'[k]
    {
      assert WordAt(ip, shp, k - 2) == WordAt(ip', shp', k - 2);
    }
  }

  lemma SameWord(v: bv32, w: bv32)
    requires ByteNo(v, 0) == ByteNo(w, 0) && ByteNo(v, 1) == ByteNo(w, 1)
    requires ByteNo(v, 2) == ByteNo(w, 2) && ByteNo(v, 3) == ByteNo(w, 3)
    ensures v == w
  {
  }

  lemma SetIp(ip: seq<bv32>, shp: seq<bv32>, irq: int, value: bv32)
    requires |ip| == 8 && |shp| == 2 && 0 <= irq < 32 && value <= 0xFF
    ensures IpIndex(irq) < 8 && LaneShift(BitShift(irq))
    ensures BytesIn(ip[IpIndex(irq) := Inserted(ip[IpIndex(irq)], BitShift(irq), value)], shp)
            == BytesIn(ip, shp)[irq := value]
  {
    hide Inserted, ByteOf, BitShift, U32, IpIndex, ShpIndex;
    WordExists(irq);
    var i, s := IpIndex(irq), BitShift(irq);
    var ip' := ip[i := Inserted(ip[i], s, value)];
    InsertedThere(ip[i], s, value);
    forall j | Supported(j) && j != irq
      ensures ByteIn(ip', shp, j) == ByteIn(ip, shp, j)
    {
      WordExists(j);
      if j >= 0 && IpIndex(j) == i {
        LanesDiffer(irq, j);
        InsertedElsewhere(ip[i], s, value, BitShift(j));
      }
    }
  }

  lemma SetShp(ip: seq<bv32>, shp: seq<bv32>, irq: int, value: bv32)
    requires |ip| == 8 && |shp| == 2 && -8 <= irq < 0 && value <= 0xFF
    ensures ShpIndex(irq) < 2 && LaneShift(BitShift(irq))
    ensures BytesIn(ip, shp[ShpIndex(irq) := Inserted(shp[ShpIndex(irq)], BitShift(irq), value)])
            == BytesIn(ip, shp)[irq := value]
  {
    hide Inserted, ByteOf, BitShift, U32, IpIndex, ShpIndex;
    WordExists(irq);
    var i, s := ShpIndex(irq), BitShift(irq);
    var shp' := shp[i := Inserted(shp[i], s, value)];
    InsertedThere(shp[i], s, value);
    forall j | Supported(j) && j != irq
      ensures ByteIn(ip, shp', j) == ByteIn(ip, shp, j)
    {
      WordExists(j);
      if j < 0 && ShpIndex(j) == i {
        LanesDiffer(irq, j);
        InsertedElsewhere(shp[i], s, value, BitShift(j));
      }
    }
  }

  lemma StoredIsByte(priority: bv32, bits: bv32)
    requires 1 <= bits <= 8
    ensures Stored(priority, bits) <= 0xFF
  {
  }

  class Registers {
    const IP: array<bv32>
    const SHP: array<bv32>
    const prioBits: bv32

    ghost predicate Valid()
    {
      IP.Length == 8 && SHP.Length == 2 && IP != SHP && 1 <= prioBits <= 8
    }

    ghost function Bytes(): map<int, bv32>
      requires Valid()
      reads IP, SHP
    {
      BytesIn(IP[..], SHP[..])
    }

    /** The register words at reset, for a core that implements `bits` priority bits. */
    constructor (bits: bv32)
      requires 1 <= bits <= 8
      ensures Valid() && fresh(IP) && fresh(SHP) && prioBits == bits
      ensures IP[..] == seq(8, _ => 0) && SHP[..] == seq(2, _ => 0)
    {
      IP := new bv32[8](_ => 0);
      SHP := new bv32[2](_ => 0);
      prioBits := bits;
    }

    /** `__NVIC_SetPriority` replaces one byte and keeps every other. */
    method SetPriority(irq: int, priority: bv32)
      requires Valid() && Supported(irq)
      modifies IP, SHP
      ensures Bytes() == old(Bytes())[irq := Stored(priority, prioBits)]
    {
      hide Inserted, ByteOf, BitShift, U32, IpIndex, ShpIndex, Stored, BytesIn;
      var value := Stored(priority, prioBits);
      StoredIsByte(priority, prioBits);
      if irq >= 0 {
        SetIp(IP[..], SHP[..], irq, value);
        ghost var ip := IP[..];
        var i := IpIndex(irq);
        IP[i] := Inserted(IP[i], BitShift(irq), value);
        assert IP[..] == ip[i := Inserted(ip[i], BitShift(irq), value)];
        assert SHP[..] == old(SHP[..]);
      } else {
        SetShp(IP[..], SHP[..], irq, value);
        ghost var shp := SHP[..];
        var i := ShpIndex(irq);
        SHP[i] := Inserted(SHP[i], BitShift(irq), value);
        assert SHP[..] == shp[i := Inserted(shp[i], BitShift(irq), value)];
        assert IP[..] == old(IP[..]);
      }
    }

    /** `__NVIC_GetPriority` */
    method GetPriority(irq: int) returns (priority: bv32)
      requires Valid() && Supported(irq)
      ensures priority == Loaded(Bytes()[irq], prioBits)
    {
      WordExists(irq);
      hide BitShift, U32, IpIndex, ShpIndex, ByteOf;
      if irq >= 0 {
        priority := ByteOf(IP[IpIndex(irq)], BitShift(irq)) >> (8 - prioBits);
      } else {
        priority := ByteOf(SHP[ShpIndex(irq)], BitShift(irq)) >> (8 - prioBits);
      }
    }

    /** A caller's sequence of settings: afterwards every priority reads as the implemented low bits of the last one
        set for its number, or as before. */
    method SetAll(sets: seq<Setting>)
      requires Valid()
      requires forall i :: 0 <= i < |sets| ==> Supported(sets[i].irq)
      modifies IP, SHP
      ensures Bytes() == Apply(old(Bytes()), prioBits, sets)
      ensures forall irq :: Supported(irq) ==> Loaded(Bytes()[irq], prioBits) == Read(old(Bytes()), prioBits, sets, irq)
    {
      hide BytesIn, Stored, Loaded, Apply, Read;
      ghost var bytes := Bytes();
      ApplyNext(bytes, prioBits, sets, 0);
      for i := 0 to |sets|
        invariant Bytes() == Apply(bytes, prioBits, sets[..i])
      {
        SetPriority(sets[i].irq, sets[i].priority);
        ApplyNext(bytes, prioBits, sets, i);
      }
      assert sets[..|sets|] == sets;
      forall irq | Supported(irq)
        ensures Loaded(Bytes()[irq], prioBits) == Read(bytes, prioBits, sets, irq)
      {
        ReadsLastSet(bytes, prioBits, sets, irq);
      }
    }
  }

  // Sequences of settings

  datatype Setting = Setting(irq: int, priority: bv32)

  datatype Option<T> = None | Some(value: T)

  /** The byte map after a sequence of `SetPriority` calls. */
  function Apply(bytes: map<int, bv32>, bits: bv32, sets: seq<Setting>): map<int, bv32>
    requires 1 <= bits <= 8
  {
    if sets == [] then bytes
    else
      var last := sets[|sets| - 1];
      Apply(bytes, bits, sets[..|sets| - 1])[last.irq := Stored(last.priority, bits)]
  }

  /** The priority most recently set for an interrupt. */
  function LastSet(sets: seq<Setting>, irq: int): Option<bv32> {
    if sets == [] then None
    else if sets[|sets| - 1].irq == irq then Some(sets[|sets| - 1].priority)
    else LastSet(sets[..|sets| - 1], irq)
  }

  lemma ApplyNext(bytes: map<int, bv32>, bits: bv32, sets: seq<Setting>, i: nat)
    requires 1 <= bits <= 8
    ensures Apply(bytes, bits, sets[..0]) == bytes
    ensures i < |sets| ==>
      Apply(bytes, bits, sets[..i + 1]) == Apply(bytes, bits, sets[..i])[sets[i].irq := Stored(sets[i].priority, bits)]
  {
    if i < |sets| {
      assert sets[..i + 1][..i] == sets[..i];
    }
  }

  /** The priority to be read after the settings: the implemented bits of the last one set, or the former one. */
  function Read(bytes: map<int, bv32>, bits: bv32, sets: seq<Setting>, irq: int): bv32
    requires 1 <= bits <= 8 && irq in bytes
  {
    match LastSet(sets, irq)
    case None => Loaded(bytes[irq], bits)
    case Some(p) => Implemented(p, bits)
  }

  /** Main result: after any sequence of settings, the priority read for an interrupt is the implemented low bits of
      the last one set for it, or the one it had before. */
  lemma {:induction false} ReadsLastSet(bytes: map<int, bv32>, bits: bv32, sets: seq<Setting>, irq: int)
    requires 1 <= bits <= 8 && irq in bytes
    ensures irq in Apply(bytes, bits, sets)
    ensures Loaded(Apply(bytes, bits, sets)[irq], bits) == Read(bytes, bits, sets, irq)
  {
    hide Stored, Loaded, Implemented;
    if sets == [] {
    } else {
      var last := sets[|sets| - 1];
      ReadsLastSet(bytes, bits, sets[..|sets| - 1], irq);
      StoredAndLoaded(last.priority, bits);
    }
  }
}
