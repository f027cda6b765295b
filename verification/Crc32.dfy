/** The CRC-32 of the message checksum, in two forms: the bit-serial division that section 8 of
    RFC 1952 specifies, and the table-driven loop that both copies in the repository run. */
module Crc32 {
  import opened CrcTable
  import opened ShiftRegister

  // ---------- the bit-serial reference ----------

  function Xor(a: bv32, b: bv32): bv32 {
    a ^ b
  }

  predicate LowBit(c: bv32) {
    c & 1 == 1
  }

  function ShiftRight(c: bv32): bv32 {
    c >> 1
  }

  function Feedback(out: bool, shifted: bv32): bv32 {
    if out then shifted ^ POLYNOMIAL else shifted
  }

  /** The register of section 8 of RFC 1952. */
  const CRC: Machine<bv32> := Machine(Xor, LowBit, ShiftRight, Feedback)

  predicate TestBit(d: bv8, mask: bv8) {
    d & mask != 0
  }

  /** The eight bits of a byte, least significant first. */
  function ByteBits(d: bv8): (bits: Bits)
    ensures |bits| == 8
  {
    EightBits(TestBit(d, 0x01), TestBit(d, 0x02), TestBit(d, 0x04), TestBit(d, 0x08),
              TestBit(d, 0x10), TestBit(d, 0x20), TestBit(d, 0x40), TestBit(d, 0x80))
  }

  function EightBits(b0: bool, b1: bool, b2: bool, b3: bool, b4: bool, b5: bool, b6: bool, b7: bool): (bits: Bits)
    ensures |bits| == 8
  {
    [b0, b1, b2, b3, b4, b5, b6, b7]
  }

  function DataBits(data: seq<bv8>): (bits: Bits)
    ensures |bits| == 8 * |data|
  {
    if data == [] then [] else ByteBits(data[0]) + DataBits(data[1..])
  }

  /** The register before the final complement. */
  function Register(bits: Bits): bv32 {
    Feed(CRC, 0xFFFFFFFF, bits)
  }

  /** The checksum of section 8 of RFC 1952: all-ones start, final complement. */
  function Crc(data: seq<bv8>): bv32 {
    Complement(Register(DataBits(data)))
  }

  function Complement(c: bv32): bv32 {
    !c
  }

  // ---------- the register is linear and undoes itself ----------

  lemma FeedbackBoth(x: bv32, y: bv32)
    ensures Xor(Feedback(true, x), Feedback(true, y)) == Feedback(false, Xor(x, y))
  {}

  lemma FeedbackFirst(x: bv32, y: bv32)
    ensures Xor(Feedback(true, x), Feedback(false, y)) == Feedback(true, Xor(x, y))
  {}

  lemma FeedbackSecond(x: bv32, y: bv32)
    ensures Xor(Feedback(false, x), Feedback(true, y)) == Feedback(true, Xor(x, y))
  {
    assert x ^ (y ^ POLYNOMIAL) == (x ^ y) ^ POLYNOMIAL;
  }

  lemma FeedbackXor(p: bool, x: bv32, q: bool, y: bv32)
    ensures Xor(Feedback(p, x), Feedback(q, y)) == Feedback(p != q, Xor(x, y))
  {
    if p && q {
      FeedbackBoth(x, y);
    } else if p {
      FeedbackFirst(x, y);
    } else if q {
      FeedbackSecond(x, y);
    }
  }

  lemma ShiftRightXor(a: bv32, b: bv32)
    ensures ShiftRight(Xor(a, b)) == Xor(ShiftRight(a), ShiftRight(b))
  {
    assert (a ^ b) >> 1 == (a >> 1) ^ (b >> 1);
  }

  lemma LowBitXor(a: bv32, b: bv32)
    ensures LowBit(Xor(a, b)) == (LowBit(a) != LowBit(b))
  {
    assert ((a ^ b) & 1 == 1) == ((a & 1 == 1) != (b & 1 == 1));
  }

  lemma CrcLinear()
    ensures Linear(CRC)
  {
    forall a, b ensures ShiftLaw(CRC, a, b) { ShiftRightXor(a, b); }
    forall a, b ensures LowLaw(CRC, a, b) { LowBitXor(a, b); }
    forall p, a, q, b ensures FeedbackLaw(CRC, p, a, q, b) { FeedbackXor(p, a, q, b); }
  }

  /** The top bit of the polynomial is set, so the top bit tells whether feedback was applied. */
  lemma FeedbackTop(p: bool, a: bv32)
    ensures (Feedback(p, ShiftRight(a)) & 0x80000000 != 0) == p
  {}

  lemma FeedbackInjective(p: bool, x: bv32, y: bv32)
    requires Feedback(p, x) == Feedback(p, y)
    ensures x == y
  {}

  lemma ShiftRightInjective(a: bv32, b: bv32)
    requires ShiftRight(a) == ShiftRight(b) && LowBit(a) == LowBit(b)
    ensures a == b
  {}

  lemma StepInjective(a: bv32, b: bv32, x: bool)
    requires Feedback(LowBit(a) != x, ShiftRight(a)) == Feedback(LowBit(b) != x, ShiftRight(b))
    ensures a == b
  {
    FeedbackTop(LowBit(a) != x, a);
    FeedbackTop(LowBit(b) != x, b);
    FeedbackInjective(LowBit(a) != x, ShiftRight(a), ShiftRight(b));
    ShiftRightInjective(a, b);
  }

  lemma CrcInjective()
    ensures Injective(CRC)
  {
    forall a, b, x ensures InjectiveAt(CRC, a, b, x) {
      if CRC.Next(a, x) == CRC.Next(b, x) {
        StepInjective(a, b, x);
      }
    }
  }

  // ---------- a register that the next 32 bits cancel ----------

  function BitValue(b: bool): bv32 {
    if b then 1 else 0
  }

  function Push(b: bool, word: bv32): bv32 {
    (word << 1) | BitValue(b)
  }

  /** The bits as a word, first bit lowest. */
  function Pack(bits: Bits): bv32
    decreases |bits|
  {
    if bits == [] then 0 else Push(bits[0], Pack(bits[1..]))
  }

  function Widen(m: bv32): bv32 {
    (m << 1) | 1
  }

  /** The k lowest bits set. */
  function LowMask(k: nat): bv32 {
    if k == 0 then 0 else Widen(LowMask(k - 1))
  }

  predicate Fits(x: bv32, mask: bv32) {
    x & mask == x
  }

  predicate TopClear(x: bv32) {
    x & 0x80000000 == 0
  }

  lemma WidenFits(m: bv32, n: bv32)
    requires Fits(m, n)
    ensures Fits(Widen(m), Widen(n))
  {}

  lemma {:induction false} LowMaskGrows(k: nat)
    ensures Fits(LowMask(k), LowMask(k + 1))
  {
    if k != 0 {
      LowMaskGrows(k - 1);
      WidenFits(LowMask(k - 1), LowMask(k));
    }
  }

  lemma FitsTransitive(a: bv32, b: bv32, c: bv32)
    requires Fits(a, b) && Fits(b, c)
    ensures Fits(a, c)
  {}

  lemma LowMask31()
    ensures LowMask(31) == 0x7FFFFFFF
  {
    assert LowMask(8) == 0xFF;
    assert LowMask(16) == 0xFFFF;
    assert LowMask(24) == 0xFFFFFF;
  }

  lemma {:induction false} LowMaskFits(k: nat)
    requires k <= 31
    ensures Fits(LowMask(k), 0x7FFFFFFF)
    decreases 31 - k
  {
    if k == 31 {
      LowMask31();
    } else {
      LowMaskFits(k + 1);
      LowMaskGrows(k);
      FitsTransitive(LowMask(k), LowMask(k + 1), 0x7FFFFFFF);
    }
  }

  lemma PushTrueFits(x: bv32, m: bv32)
    requires Fits(x, m)
    ensures Fits(Push(true, x), Widen(m))
  {}

  lemma PushFalseFits(x: bv32, m: bv32)
    requires Fits(x, m)
    ensures Fits(Push(false, x), Widen(m))
  {}

  lemma {:induction false} PackFits(bits: Bits)
    ensures Fits(Pack(bits), LowMask(|bits|))
    decreases |bits|
  {
    if bits == [] {
    } else {
      PackFits(bits[1..]);
      if bits[0] {
        PushTrueFits(Pack(bits[1..]), LowMask(|bits| - 1));
      } else {
        PushFalseFits(Pack(bits[1..]), LowMask(|bits| - 1));
      }
    }
  }

  lemma FitsTopClear(x: bv32, m: bv32)
    requires Fits(x, m) && Fits(m, 0x7FFFFFFF)
    ensures TopClear(x)
  {}

  lemma PackTopClear(bits: Bits)
    requires |bits| <= 31
    ensures TopClear(Pack(bits))
  {
    PackFits(bits);
    LowMaskFits(|bits|);
    FitsTopClear(Pack(bits), LowMask(|bits|));
  }

  lemma PushTrue(x: bv32)
    requires TopClear(x)
    ensures LowBit(Push(true, x)) && ShiftRight(Push(true, x)) == x
  {}

  lemma PushFalse(x: bv32)
    requires TopClear(x)
    ensures !LowBit(Push(false, x)) && ShiftRight(Push(false, x)) == x
  {}

  lemma PushSplit(b: bool, x: bv32)
    requires TopClear(x)
    ensures LowBit(Push(b, x)) == b && ShiftRight(Push(b, x)) == x
  {
    if b {
      PushTrue(x);
    } else {
      PushFalse(x);
    }
  }

  lemma CancelBit(b: bool, x: bv32)
    requires TopClear(x)
    ensures CRC.Next(Push(b, x), b) == x
  {
    PushSplit(b, x);
  }

  /** A register holding the next bits themselves is brought to zero by them. */
  lemma PackCancels(bits: Bits)
    requires |bits| <= 32
    ensures Feed(CRC, Pack(bits), bits) == 0
  {
    var states := seq(|bits| + 1, i requires 0 <= i <= |bits| => Pack(bits[i..]));
    forall i | 0 <= i < |bits|
      ensures CRC.Next(states[i], bits[i]) == states[i + 1]
    {
      assert bits[i..][0] == bits[i] && bits[i..][1..] == bits[i + 1..];
      PackTopClear(bits[i + 1..]);
      CancelBit(bits[i], Pack(bits[i + 1..]));
    }
    FeedFollows(CRC, states, bits);
    assert bits[0..] == bits && bits[|bits|..] == [];
  }

  lemma PackZeroHead(b: bool, x: bv32)
    requires TopClear(x)
    requires Push(b, x) == 0
    ensures !b && x == 0
  {}

  lemma {:induction false} PackZero(bits: Bits)
    requires |bits| <= 32
    requires Pack(bits) == 0
    ensures forall i :: 0 <= i < |bits| ==> !bits[i]
    decreases |bits|
  {
    if bits != [] {
      PackTopClear(bits[1..]);
      PackZeroHead(bits[0], Pack(bits[1..]));
      PackZero(bits[1..]);
      assert forall i :: 1 <= i < |bits| ==> bits[i] == bits[1..][i - 1];
    }
  }

  // ---------- the table-driven loop ----------

  function Index(crc: bv32, d: bv8): bv8 {
    ((crc ^ (d as bv32)) & 0xFF) as bv8
  }

  /** The body of the loop both copies run. */
  function TableStep(crc: bv32, d: bv8): bv32 {
    (crc >> 8) ^ TableEntry(Index(crc, d))
  }

  const ZEROS: Bits := [false, false, false, false, false, false, false, false]

  lemma NextIsBitStep(c: bv32)
    ensures CRC.Next(c, false) == BitStep(c)
  {}

  lemma UnrollEight<T>(m: Machine<T>, c: T, s: seq<T>)
    requires |s| == 9 && s[0] == c
    requires forall i :: 0 <= i < 8 ==> m.Next(s[i], false) == s[i + 1]
    ensures Feed(m, c, ZEROS) == s[8]
  {
    FeedFollows(m, s, ZEROS);
  }

  lemma FeedZeros(c: bv32)
    ensures Feed(CRC, c, ZEROS) == ByteSteps(c)
  {
    var c1 := BitStep(c);
    var c2 := BitStep(c1);
    var c3 := BitStep(c2);
    var c4 := BitStep(c3);
    var c5 := BitStep(c4);
    var c6 := BitStep(c5);
    var c7 := BitStep(c6);
    NextIsBitStep(c);
    NextIsBitStep(c1);
    NextIsBitStep(c2);
    NextIsBitStep(c3);
    NextIsBitStep(c4);
    NextIsBitStep(c5);
    NextIsBitStep(c6);
    NextIsBitStep(c7);
    UnrollEight(CRC, c, [c, c1, c2, c3, c4, c5, c6, c7, BitStep(c7)]);
  }

  lemma PackFrom(bits: Bits, i: nat)
    requires i < |bits|
    ensures Pack(bits[i..]) == Push(bits[i], Pack(bits[i + 1..]))
  {
    assert bits[i..][1..] == bits[i + 1..];
  }

  lemma PackUnroll(bits: Bits)
    requires |bits| == 8
    ensures Pack(bits) == Push(bits[0], Push(bits[1], Push(bits[2], Push(bits[3],
                            Push(bits[4], Push(bits[5], Push(bits[6], Push(bits[7], 0))))))))
  {
    PackFrom(bits, 0);
    PackFrom(bits, 1);
    PackFrom(bits, 2);
    PackFrom(bits, 3);
    PackFrom(bits, 4);
    PackFrom(bits, 5);
    PackFrom(bits, 6);
    PackFrom(bits, 7);
    assert bits[0..] == bits && bits[8..] == [];
  }

  lemma PackByte(d: bv8)
    ensures Pack(ByteBits(d)) == d as bv32
  {
    PackUnroll(ByteBits(d));
  }

  lemma XorAgain(c: bv32, d: bv32)
    ensures Xor(Xor(c, d), d) == c
  {}

  lemma XorZero(x: bv32)
    ensures Xor(x, 0) == x
  {}

  lemma FeedWord(c: bv32, w: bv32, bits: Bits)
    requires |bits| == 8 && Pack(bits) == w
    ensures Feed(CRC, c, bits) == Feed(CRC, Xor(c, w), ZEROS)
  {
    CrcLinear();
    PackCancels(bits);
    XorZero(Feed(CRC, Xor(c, w), ZEROS));
    assert XorBits(ZEROS, bits) == bits;
    FeedCancels(CRC, Xor(c, w), w, bits, ZEROS, 0);
    XorAgain(c, w);
  }

  /** Taking in a byte's bits is XORing the byte in and taking in eight zeros. */
  lemma FeedByte(c: bv32, d: bv8)
    ensures Feed(CRC, c, ByteBits(d)) == Feed(CRC, Xor(c, d as bv32), ZEROS)
  {
    PackByte(d);
    FeedWord(c, d as bv32, ByteBits(d));
  }

  function HighBytes(x: bv32): bv32 {
    x & 0xFFFFFF00
  }

  function LowByte(x: bv32): bv32 {
    x & 0xFF
  }

  lemma SplitLowByte(x: bv32)
    ensures Xor(HighBytes(x), LowByte(x)) == x
  {}

  lemma HighBytesOnlyShift(x: bv32)
    ensures ByteSteps(HighBytes(x)) == x >> 8
  {}

  lemma StepSplits(x: bv32)
    ensures Feed(CRC, x, ZEROS) == Xor(x >> 8, ByteSteps(LowByte(x)))
  {
    CrcLinear();
    FeedLinear(CRC, HighBytes(x), ZEROS, LowByte(x), ZEROS);
    assert XorBits(ZEROS, ZEROS) == ZEROS;
    SplitLowByte(x);
    FeedZeros(HighBytes(x));
    FeedZeros(LowByte(x));
    HighBytesOnlyShift(x);
  }

  lemma IndexIsLowByte(c: bv32, d: bv8)
    ensures Index(c, d) as bv32 == LowByte(Xor(c, d as bv32))
  {}

  lemma HighPart(c: bv32, d: bv8)
    ensures c >> 8 == Xor(c, d as bv32) >> 8
  {}

  lemma EntryOf(i: bv8, w: bv32)
    requires i as bv32 == w
    ensures TableEntry(i) == ByteSteps(w)
  {}

  lemma TableStepSplits(c: bv32, d: bv8)
    ensures TableStep(c, d) == Xor(Xor(c, d as bv32) >> 8, ByteSteps(LowByte(Xor(c, d as bv32))))
  {
    IndexIsLowByte(c, d);
    EntryOf(Index(c, d), LowByte(Xor(c, d as bv32)));
    HighPart(c, d);
  }

  /** One turn of the table loop takes in the eight bits of one byte. */
  lemma TableStepIsFeed(c: bv32, d: bv8)
    ensures TableStep(c, d) == Feed(CRC, c, ByteBits(d))
  {
    FeedByte(c, d);
    StepSplits(Xor(c, d as bv32));
    TableStepSplits(c, d);
  }

  lemma {:induction false} DataBitsAppend(p: seq<bv8>, q: seq<bv8>)
    ensures DataBits(p + q) == DataBits(p) + DataBits(q)
    decreases |p|
  {
    if p == [] {
      assert p + q == q;
    } else {
      assert (p + q)[1..] == p[1..] + q;
      DataBitsAppend(p[1..], q);
    }
  }

  lemma RegisterNextByte(data: seq<bv8>, i: nat)
    requires i < |data|
    ensures Register(DataBits(data[..i + 1])) == TableStep(Register(DataBits(data[..i])), data[i])
  {
    assert data[..i + 1] == data[..i] + [data[i]];
    DataBitsAppend(data[..i], [data[i]]);
    assert DataBits([data[i]]) == ByteBits(data[i]);
    FeedAppend(CRC, 0xFFFFFFFF, DataBits(data[..i]), ByteBits(data[i]));
    TableStepIsFeed(Register(DataBits(data[..i])), data[i]);
  }

  /** `crc32` of hex_utils.c. */
  method Crc32OfData(data: seq<bv8>) returns (result: bv32)
    ensures result == Crc(data)
  {
    var crc: bv32 := 0xFFFFFFFF;
    for i := 0 to |data|
      invariant crc == Register(DataBits(data[..i]))
    {
      RegisterNextByte(data, i);
      crc := TableStep(crc, data[i]);
    }
    assert data[..|data|] == data;
    result := Complement(crc);
  }

  /** `calculate_checksum` of protocol.c: the same loop behind an early exit for the empty payload. */
  method CalculateChecksum(data: seq<bv8>) returns (result: bv32)
    ensures result == Crc(data)
  {
    if |data| == 0 {
      return 0;
    }
    var crc: bv32 := 0xFFFFFFFF;
    for i := 0 to |data|
      invariant crc == Register(DataBits(data[..i]))
    {
      RegisterNextByte(data, i);
      crc := TableStep(crc, data[i]);
    }
    assert data[..|data|] == data;
    result := Complement(crc);
  }
}
