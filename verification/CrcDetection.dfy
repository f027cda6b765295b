/** What the message checksum detects: which changes of a payload always change its CRC-32. */
module CrcDetection {
  import opened ShiftRegister
  import opened Crc32

  /** The payloads agree at every bit outside the 32 starting at bit a. */
  ghost predicate DifferOnlyWithin(p: seq<bv8>, q: seq<bv8>, a: nat, width: nat) {
    && |p| == |q|
    && forall i :: 0 <= i < 8 * |p| && !(a <= i < a + width) ==> DataBits(p)[i] == DataBits(q)[i]
  }

  ghost predicate DifferOnlyInBytes(p: seq<bv8>, q: seq<bv8>, k: nat) {
    && |p| == |q|
    && forall i :: 0 <= i < |p| && !(k <= i < k + 4) ==> p[i] == q[i]
  }

  // ---------- bits determine bytes ----------

  lemma ByteBitsInjective(d: bv8, e: bv8)
    requires ByteBits(d) == ByteBits(e)
    ensures d == e
  {
    PackByte(d);
    PackByte(e);
  }

  lemma {:induction false} DataBitsInjective(p: seq<bv8>, q: seq<bv8>)
    requires |p| == |q| && DataBits(p) == DataBits(q)
    ensures p == q
    decreases |p|
  {
    if p != [] {
      assert ByteBits(p[0]) == DataBits(p)[..8] == DataBits(q)[..8] == ByteBits(q[0]);
      ByteBitsInjective(p[0], q[0]);
      assert DataBits(p[1..]) == DataBits(p)[8..] == DataBits(q)[8..] == DataBits(q[1..]);
      DataBitsInjective(p[1..], q[1..]);
    }
  }

  lemma {:induction false} BitOfByte(p: seq<bv8>, k: nat, j: nat)
    requires k < |p| && j < 8
    ensures DataBits(p)[8 * k + j] == ByteBits(p[k])[j]
    decreases |p|
  {
    if k != 0 {
      var m := 8 * (k - 1) + j;
      BitOfByte(p[1..], k - 1, j);
      BitBehind(ByteBits(p[0]), DataBits(p[1..]), m);
      assert 8 * k + j == 8 + m;
    }
  }

  lemma BitBehind(front: Bits, rest: Bits, m: nat)
    requires |front| == 8 && m < |rest|
    ensures (front + rest)[8 + m] == rest[m]
  {}

  // ---------- windows ----------

  /** From one register value, two different windows of at most 32 bits lead to different values. */
  lemma WindowInjective(c: bv32, u: Bits, w: Bits)
    requires |u| == |w| <= 32
    requires Feed(CRC, c, u) == Feed(CRC, c, w)
    ensures u == w
  {
    var d := XorBits(u, w);
    CrcLinear();
    FeedLinear(CRC, c, u, c, w);
    XorSelf(c);
    XorSelf(Feed(CRC, c, u));
    PackCancels(d);
    CrcInjective();
    FeedInjective(CRC, 0, Pack(d), d);
    PackZero(d);
    assert forall i :: 0 <= i < |u| ==> d[i] == (u[i] != w[i]);
  }

  lemma XorSelf(x: bv32)
    ensures Xor(x, x) == 0
  {}

  lemma ComplementInjective(x: bv32, y: bv32)
    requires Complement(x) == Complement(y)
    ensures x == y
  {}

  lemma CrcDeterminesRegister(p: seq<bv8>, q: seq<bv8>)
    requires Crc(p) == Crc(q)
    ensures Register(DataBits(p)) == Register(DataBits(q))
  {
    ComplementInjective(Register(DataBits(p)), Register(DataBits(q)));
  }

  /** Two payloads of the same length that differ, but only within 32 consecutive bits, never have the
      same checksum. */
  lemma BurstDetected(p: seq<bv8>, q: seq<bv8>, a: nat)
    requires DifferOnlyWithin(p, q, a, 32)
    requires p != q
    ensures Crc(p) != Crc(q)
  {
    if Crc(p) == Crc(q) {
      CrcDeterminesRegister(p, q);
      BurstMovesRegister(p, q, a);
    }
  }

  lemma BurstMovesRegister(p: seq<bv8>, q: seq<bv8>, a: nat)
    requires DifferOnlyWithin(p, q, a, 32)
    requires Register(DataBits(p)) == Register(DataBits(q))
    ensures p == q
  {
    var x, y := DataBits(p), DataBits(q);
    var lo := if a <= |x| then a else |x|;
    var hi := if a + 32 <= |x| then a + 32 else |x|;
    SameOutsideWindow(x, y, lo, hi);
    DataBitsInjective(p, q);
  }

  lemma SameOutsideWindow(x: Bits, y: Bits, lo: nat, hi: nat)
    requires |x| == |y| && lo <= hi <= |x| && hi - lo <= 32
    requires forall i :: 0 <= i < |x| && !(lo <= i < hi) ==> x[i] == y[i]
    requires Register(x) == Register(y)
    ensures x == y
  {
    assert x[..lo] == y[..lo] && x[hi..] == y[hi..];
    var c := Register(x[..lo]);
    RegisterInParts(x, lo, hi);
    RegisterInParts(y, lo, hi);
    CrcInjective();
    FeedInjective(CRC, Feed(CRC, c, x[lo..hi]), Feed(CRC, c, y[lo..hi]), x[hi..]);
    WindowInjective(c, x[lo..hi], y[lo..hi]);
    assert x == x[..lo] + x[lo..hi] + x[hi..] && y == y[..lo] + y[lo..hi] + y[hi..];
  }

  lemma RegisterInParts(x: Bits, lo: nat, hi: nat)
    requires lo <= hi <= |x|
    ensures Register(x) == Feed(CRC, Feed(CRC, Register(x[..lo]), x[lo..hi]), x[hi..])
  {
    assert x == x[..hi] + x[hi..] && x[..hi] == x[..lo] + x[lo..hi];
    FeedAppend(CRC, 0xFFFFFFFF, x[..hi], x[hi..]);
    FeedAppend(CRC, 0xFFFFFFFF, x[..lo], x[lo..hi]);
  }

  /** In particular: any change confined to four consecutive bytes is detected. */
  lemma FourBytesDetected(p: seq<bv8>, q: seq<bv8>, k: nat)
    requires DifferOnlyInBytes(p, q, k)
    requires p != q
    ensures Crc(p) != Crc(q)
  {
    forall i | 0 <= i < 8 * |p| && !(8 * k <= i < 8 * k + 32)
      ensures DataBits(p)[i] == DataBits(q)[i]
    {
      BitOfByte(p, i / 8, i % 8);
      BitOfByte(q, i / 8, i % 8);
      assert i == 8 * (i / 8) + i % 8;
    }
    BurstDetected(p, q, 8 * k);
  }

  /** Which changes go undetected does not depend on the payload: only on the difference, fed by itself
      to a register of zeros. */
  lemma CollisionIffDifferenceVanishes(p: seq<bv8>, q: seq<bv8>)
    requires |p| == |q|
    ensures Crc(p) == Crc(q) <==> Feed(CRC, 0, XorBits(DataBits(p), DataBits(q))) == 0
  {
    if Crc(p) == Crc(q) {
      CollisionVanishes(p, q);
    } else if Feed(CRC, 0, XorBits(DataBits(p), DataBits(q))) == 0 {
      VanishingCollides(p, q);
    }
  }

  lemma CollisionVanishes(p: seq<bv8>, q: seq<bv8>)
    requires |p| == |q| && Crc(p) == Crc(q)
    ensures Feed(CRC, 0, XorBits(DataBits(p), DataBits(q))) == 0
  {
    CrcDeterminesRegister(p, q);
    DifferenceOfRegisters(DataBits(p), DataBits(q));
    XorSelf(Register(DataBits(p)));
  }

  lemma VanishingCollides(p: seq<bv8>, q: seq<bv8>)
    requires |p| == |q|
    requires Feed(CRC, 0, XorBits(DataBits(p), DataBits(q))) == 0
    ensures Crc(p) == Crc(q)
  {
    VanishingRegisters(DataBits(p), DataBits(q));
  }

  lemma VanishingRegisters(x: Bits, y: Bits)
    requires |x| == |y|
    requires Feed(CRC, 0, XorBits(x, y)) == 0
    ensures Register(x) == Register(y)
  {
    DifferenceOfRegisters(x, y);
    XorVanishes(Register(x), Register(y));
  }

  lemma DifferenceOfRegisters(x: Bits, y: Bits)
    requires |x| == |y|
    ensures Xor(Register(x), Register(y)) == Feed(CRC, 0, XorBits(x, y))
  {
    CrcLinear();
    FeedLinear(CRC, 0xFFFFFFFF, x, 0xFFFFFFFF, y);
    XorSelf(0xFFFFFFFF);
  }

  lemma XorVanishes(x: bv32, y: bv32)
    requires Xor(x, y) == 0
    ensures x == y
  {}

  // ---------- 33 bits are too many ----------

  function XorBytes(p: seq<bv8>, d: seq<bv8>): (q: seq<bv8>)
    requires |p| == |d|
    ensures |q| == |p|
  {
    seq(|p|, i requires 0 <= i < |p| => XorByte(p[i], d[i]))
  }

  function XorByte(x: bv8, d: bv8): bv8 {
    x ^ d
  }

  lemma XorTestBits(x: bv8, d: bv8)
    ensures (TestBit(x, 0x01) != TestBit(XorByte(x, d), 0x01)) == TestBit(d, 0x01)
    ensures (TestBit(x, 0x02) != TestBit(XorByte(x, d), 0x02)) == TestBit(d, 0x02)
    ensures (TestBit(x, 0x04) != TestBit(XorByte(x, d), 0x04)) == TestBit(d, 0x04)
    ensures (TestBit(x, 0x08) != TestBit(XorByte(x, d), 0x08)) == TestBit(d, 0x08)
    ensures (TestBit(x, 0x10) != TestBit(XorByte(x, d), 0x10)) == TestBit(d, 0x10)
    ensures (TestBit(x, 0x20) != TestBit(XorByte(x, d), 0x20)) == TestBit(d, 0x20)
    ensures (TestBit(x, 0x40) != TestBit(XorByte(x, d), 0x40)) == TestBit(d, 0x40)
    ensures (TestBit(x, 0x80) != TestBit(XorByte(x, d), 0x80)) == TestBit(d, 0x80)
  {}

  lemma XorOfEight(u: Bits, w: Bits, d: Bits)
    requires |u| == |w| == |d| == 8
    requires (u[0] != w[0]) == d[0] && (u[1] != w[1]) == d[1] && (u[2] != w[2]) == d[2] && (u[3] != w[3]) == d[3]
    requires (u[4] != w[4]) == d[4] && (u[5] != w[5]) == d[5] && (u[6] != w[6]) == d[6] && (u[7] != w[7]) == d[7]
    ensures XorBits(u, w) == d
  {
    forall i | 0 <= i < 8 ensures XorBits(u, w)[i] == d[i] {
      if i < 4 {
        assert i == 0 || i == 1 || i == 2 || i == 3;
      } else {
        assert i == 4 || i == 5 || i == 6 || i == 7;
      }
    }
  }

  lemma ByteBitsAt(d: bv8)
    ensures ByteBits(d)[0] == TestBit(d, 0x01)
    ensures ByteBits(d)[1] == TestBit(d, 0x02)
    ensures ByteBits(d)[2] == TestBit(d, 0x04)
    ensures ByteBits(d)[3] == TestBit(d, 0x08)
    ensures ByteBits(d)[4] == TestBit(d, 0x10)
    ensures ByteBits(d)[5] == TestBit(d, 0x20)
    ensures ByteBits(d)[6] == TestBit(d, 0x40)
    ensures ByteBits(d)[7] == TestBit(d, 0x80)
  {}

  lemma XorByteBits(x: bv8, d: bv8)
    ensures XorBits(ByteBits(x), ByteBits(XorByte(x, d))) == ByteBits(d)
  {
    XorTestBits(x, d);
    ByteBitsAt(x);
    ByteBitsAt(XorByte(x, d));
    ByteBitsAt(d);
    XorOfEight(ByteBits(x), ByteBits(XorByte(x, d)), ByteBits(d));
  }

  lemma {:induction false} XorDataBits(p: seq<bv8>, d: seq<bv8>)
    requires |p| == |d|
    ensures XorBits(DataBits(p), DataBits(XorBytes(p, d))) == DataBits(d)
    decreases |p|
  {
    if p != [] {
      XorByteBits(p[0], d[0]);
      XorDataBits(p[1..], d[1..]);
      assert XorBytes(p, d)[1..] == XorBytes(p[1..], d[1..]);
      XorBitsAppend(ByteBits(p[0]), DataBits(p[1..]),
                    ByteBits(XorByte(p[0], d[0])), DataBits(XorBytes(p[1..], d[1..])));
    }
  }

  lemma XorBitsAppend(u: Bits, v: Bits, x: Bits, y: Bits)
    requires |u| == |x| && |v| == |y|
    ensures XorBits(u + v, x + y) == XorBits(u, x) + XorBits(v, y)
  {}

  /** The generator itself, 33 bits long, followed by nothing but zeros. */
  function Generator(length: nat): (d: seq<bv8>)
    requires length >= 5
    ensures |d| == length
  {
    [0x41, 0x06, 0x71, 0xDB, 0x01] + seq(length - 5, _ => 0)
  }

  lemma {:induction false} ZerosStayZero(n: nat)
    ensures Feed(CRC, 0, DataBits(seq(n, _ => 0))) == 0
  {
    if n != 0 {
      var zeros: seq<bv8> := seq(n, _ => 0);
      var rest: seq<bv8> := seq(n - 1, _ => 0);
      assert zeros[1..] == rest;
      ZerosStayZero(n - 1);
      FeedAppend(CRC, 0, ByteBits(0), DataBits(rest));
      TableStepIsFeed(0, 0);
      ZeroEntry();
    }
  }

  lemma ZeroEntry()
    ensures TableStep(0, 0) == 0
  {}

  lemma GeneratorSteps()
    ensures TableStep(0, 0x41) == 0x01DB7106
    ensures TableStep(0x01DB7106, 0x06) == 0x0001DB71
    ensures TableStep(0x0001DB71, 0x71) == 0x000001DB
    ensures TableStep(0x000001DB, 0xDB) == 0x00000001
    ensures TableStep(0x00000001, 0x01) == 0
  {}

  lemma FeedFirstByte(c: bv32, data: seq<bv8>)
    requires data != []
    ensures Feed(CRC, c, DataBits(data)) == Feed(CRC, TableStep(c, data[0]), DataBits(data[1..]))
  {
    FeedAppend(CRC, c, ByteBits(data[0]), DataBits(data[1..]));
    TableStepIsFeed(c, data[0]);
  }

  lemma GeneratorVanishes(length: nat)
    requires length >= 5
    ensures Feed(CRC, 0, DataBits(Generator(length))) == 0
  {
    var g := Generator(length);
    GeneratorSteps();
    FeedFirstByte(0, g);
    FeedFirstByte(0x01DB7106, g[1..]);
    FeedFirstByte(0x0001DB71, g[2..]);
    FeedFirstByte(0x000001DB, g[3..]);
    FeedFirstByte(0x00000001, g[4..]);
    assert g[1..][1..] == g[2..] && g[2..][1..] == g[3..] && g[3..][1..] == g[4..] && g[4..][1..] == g[5..];
    assert g[5..] == seq(length - 5, _ => 0);
    ZerosStayZero(length - 5);
  }

  /** The bound of 32 is exact: XORing the 33 bits of the generator into the front of any payload of at
      least five bytes changes the payload, within 33 bits, and not its checksum. */
  lemma ThirtyThreeBitsUndetected(p: seq<bv8>)
    requires |p| >= 5
    ensures var q := XorBytes(p, Generator(|p|));
            DifferOnlyWithin(p, q, 0, 33) && q != p && Crc(q) == Crc(p)
  {
    var g := Generator(|p|);
    var q := XorBytes(p, g);
    XorDataBits(p, g);
    GeneratorVanishes(|p|);
    VanishingCollides(p, q);
    forall i | 33 <= i < 8 * |p|
      ensures DataBits(p)[i] == DataBits(q)[i]
    {
      BitOfByte(g, i / 8, i % 8);
      assert i == 8 * (i / 8) + i % 8;
      GeneratorTail();
      assert XorBits(DataBits(p), DataBits(q))[i] == DataBits(g)[i] == ByteBits(g[i / 8])[i % 8] == false;
    }
    OddByteChanges(p[0]);
  }

  lemma OddByteChanges(x: bv8)
    ensures x ^ 0x41 != x
  {}

  lemma GeneratorTail()
    ensures forall j :: 0 <= j < 8 ==> !ByteBits(0)[j]
    ensures forall j :: 1 <= j < 8 ==> !ByteBits(1)[j]
  {}

  // ---------- what the checksum is ----------

  /** One step of the bit-serial division, in shifts and XORs. */
  lemma BitStepIs(c: bv32, x: bool)
    ensures CRC.Next(c, x) == if (c & 1 == 1) != x then (c >> 1) ^ 0xEDB88320 else c >> 1
  {}

  /** The complement at the end inverts every bit of the register. */
  lemma CrcIsInverted(data: seq<bv8>)
    ensures Crc(data) == Register(DataBits(data)) ^ 0xFFFFFFFF
  {
    Inverted(Register(DataBits(data)));
  }

  lemma Inverted(c: bv32)
    ensures Complement(c) == c ^ 0xFFFFFFFF
  {}

  /** The digits 1 to 9 in ASCII. */
  const DIGITS: seq<bv8> := [0x31, 0x32, 0x33, 0x34, 0x35, 0x36, 0x37, 0x38, 0x39]

  lemma FirstThreeDigits()
    ensures TableStep(0xFFFFFFFF, 0x31) == 0x7C231048
    ensures TableStep(0x7C231048, 0x32) == 0xB0ACBB32
    ensures TableStep(0xB0ACBB32, 0x33) == 0x77B79C2D
  {}

  lemma NextThreeDigits()
    ensures TableStep(0x77B79C2D, 0x34) == 0x641C1F5C
    ensures TableStep(0x641C1F5C, 0x35) == 0x340AC5E3
    ensures TableStep(0x340AC5E3, 0x36) == 0xF68D2C9E
  {}

  lemma LastThreeDigits()
    ensures TableStep(0xF68D2C9E, 0x37) == 0xAFFC9660
    ensures TableStep(0xAFFC9660, 0x38) == 0x651F2550
    ensures TableStep(0x651F2550, 0x39) == 0x340BC6D9
  {}

  lemma ThreeBytes(c0: bv32, c1: bv32, c2: bv32, c3: bv32, data: seq<bv8>, rest: seq<bv8>)
    requires |data| == 3
    requires TableStep(c0, data[0]) == c1 && TableStep(c1, data[1]) == c2 && TableStep(c2, data[2]) == c3
    ensures Feed(CRC, c0, DataBits(data + rest)) == Feed(CRC, c3, DataBits(rest))
  {
    var all := data + rest;
    FeedFirstByte(c0, all);
    FeedFirstByte(c1, all[1..]);
    FeedFirstByte(c2, all[2..]);
    assert all[1..][1..] == all[2..] && all[2..][1..] == rest;
  }

  lemma DigitsTaken(a: seq<bv8>, b: seq<bv8>, c: seq<bv8>)
    requires a == [0x31, 0x32, 0x33] && b == [0x34, 0x35, 0x36] && c == [0x37, 0x38, 0x39]
    ensures Register(DataBits(a + (b + (c + [])))) == 0x340BC6D9
  {
    FirstThreeDigits();
    NextThreeDigits();
    LastThreeDigits();
    ThreeBytes(0xFFFFFFFF, 0x7C231048, 0xB0ACBB32, 0x77B79C2D, a, b + (c + []));
    ThreeBytes(0x77B79C2D, 0x641C1F5C, 0x340AC5E3, 0xF68D2C9E, b, c + []);
    ThreeBytes(0xF68D2C9E, 0xAFFC9660, 0x651F2550, 0x340BC6D9, c, []);
  }

  lemma LastXor(c: bv32)
    requires c == 0x340BC6D9
    ensures c ^ 0xFFFFFFFF == 0xCBF43926
  {}

  /** The check value that is published for this CRC. */
  lemma CheckValue()
    ensures Crc(DIGITS) == 0xCBF43926
  {
    DigitsTaken([0x31, 0x32, 0x33], [0x34, 0x35, 0x36], [0x37, 0x38, 0x39]);
    assert DIGITS == [0x31, 0x32, 0x33] + ([0x34, 0x35, 0x36] + ([0x37, 0x38, 0x39] + []));
    CrcIsInverted(DIGITS);
    LastXor(Register(DataBits(DIGITS)));
  }
}
