/** Bytes as numbers: unsigned integers in network order (`htonl`, `htobe64` and their inverses), and the
    bit patterns that the checksum works on. */
module Bytes {

  type Byte = x: int | 0 <= x < 256

  // how many values the unsigned types of those widths have
  const UINT32: nat := 0x1_0000_0000
  const UINT64: nat := 0x1_0000_0000_0000_0000

  function Pow256(k: nat): (p: nat)
    ensures p > 0
  {
    if k == 0 then 1 else 256 * Pow256(k - 1)
  }

  /** The k low bytes of n, most significant first. */
  function BigEndian(n: nat, k: nat): (bytes: seq<Byte>)
    ensures |bytes| == k
    decreases k
  {
    if k == 0 then [] else BigEndian(n / 256, k - 1) + [n % 256]
  }

  function Value(bytes: seq<Byte>): nat
    decreases |bytes|
  {
    if bytes == [] then 0 else 256 * Value(bytes[..|bytes| - 1]) + bytes[|bytes| - 1]
  }

  lemma {:induction false} ValueOfBigEndian(n: nat, k: nat)
    requires n < Pow256(k)
    ensures Value(BigEndian(n, k)) == n
    decreases k
  {
    if k != 0 {
      ValueOfBigEndian(n / 256, k - 1);
      assert BigEndian(n, k)[..k - 1] == BigEndian(n / 256, k - 1);
    }
  }

  lemma ValueNext(bytes: seq<Byte>, b: Byte)
    ensures Value(bytes + [b]) == 256 * Value(bytes) + b
  {
    assert (bytes + [b])[..|bytes|] == bytes;
  }

  /** The value of bytes is their sum, most significant byte first. */
  lemma FourBytes(a: Byte, b: Byte, c: Byte, d: Byte)
    ensures Value([a, b, c, d]) == a * 0x100_0000 + b * 0x1_0000 + c * 0x100 + d
  {
    ValueNext([], a);
    ValueNext([a], b);
    ValueNext([a, b], c);
    ValueNext([a, b, c], d);
    assert [] + [a] == [a] && [a] + [b] == [a, b] && [a, b] + [c] == [a, b, c] && [a, b, c] + [d] == [a, b, c, d];
  }

  lemma {:induction false} ValueAppend(high: seq<Byte>, low: seq<Byte>)
    ensures Value(high + low) == Value(high) * Pow256(|low|) + Value(low)
    decreases |low|
  {
    if low == [] {
      assert high + low == high;
    } else {
      var front, last := low[..|low| - 1], low[|low| - 1];
      assert high + low == (high + front) + [last];
      ValueNext(high + front, last);
      ValueAppend(high, front);
      Distributed(Value(high), Pow256(|front|), Value(front), last);
    }
  }

  lemma Distributed(x: int, p: int, y: int, b: int)
    ensures 256 * (x * p + y) + b == x * (256 * p) + (256 * y + b)
  {}

  lemma EightBytes(high: seq<Byte>, low: seq<Byte>)
    requires |high| == |low| == 4
    ensures Value(high + low) == Value(high) * 0x1_0000_0000 + Value(low)
  {
    Widths();
    ValueAppend(high, low);
  }

  lemma Widths()
    ensures Pow256(4) == UINT32 && Pow256(8) == UINT64
  {
    assert Pow256(2) == 0x1_0000;
    assert Pow256(5) == 0x100 * Pow256(4);
    assert Pow256(6) == 0x100 * Pow256(5);
  }

  // ---------- counters that wrap ----------

  lemma AtLeast(k: int, modulus: nat)
    requires k >= 1
    ensures k * modulus >= modulus
  {}

  /** Quotient and remainder are determined by their sum. */
  lemma RemainderIs(n: int, q: int, r: nat, modulus: nat)
    requires n == q * modulus + r && r < modulus
    ensures n % modulus == r
  {
    var d := q - n / modulus;
    assert d * modulus == n % modulus - r by {
      assert n == n / modulus * modulus + n % modulus;
    }
    if d >= 1 {
      AtLeast(d, modulus);
    } else if d <= -1 {
      AtLeast(-d, modulus);
    }
  }

  /** Adding to a counter that has wrapped is adding to the one that has not, and wrapping then. */
  lemma WrapsAlike(total: int, more: int, modulus: nat)
    requires modulus > 0
    ensures (total % modulus + more) % modulus == (total + more) % modulus
  {
    var q, kept := total / modulus, total % modulus + more;
    var p, r := kept / modulus, kept % modulus;
    assert total + more == (q + p) * modulus + r by {
      assert total == q * modulus + total % modulus && kept == p * modulus + r;
    }
    RemainderIs(total + more, q + p, r, modulus);
  }

  // ---------- bit patterns ----------

  predicate Odd(n: int) {
    n % 2 == 1
  }

  function Mask(b: bool, mask: bv8): bv8 {
    if b then mask else 0
  }

  function FromBits(b0: bool, b1: bool, b2: bool, b3: bool, b4: bool, b5: bool, b6: bool, b7: bool): bv8 {
    Mask(b0, 0x01) | Mask(b1, 0x02) | Mask(b2, 0x04) | Mask(b3, 0x08)
    | Mask(b4, 0x10) | Mask(b5, 0x20) | Mask(b6, 0x40) | Mask(b7, 0x80)
  }

  function Half(n: int): int {
    n / 2
  }

  function Halved(n: int, times: nat): int {
    if times == 0 then n else Half(Halved(n, times - 1))
  }

  /** The bit pattern of a byte. */
  function Pattern(n: Byte): bv8 {
    FromBits(Odd(Halved(n, 0)), Odd(Halved(n, 1)), Odd(Halved(n, 2)), Odd(Halved(n, 3)),
             Odd(Halved(n, 4)), Odd(Halved(n, 5)), Odd(Halved(n, 6)), Odd(Halved(n, 7)))
  }

  function Patterns(bytes: seq<Byte>): (patterns: seq<bv8>)
    ensures |patterns| == |bytes|
  {
    seq(|bytes|, i requires 0 <= i < |bytes| => Pattern(bytes[i]))
  }

  lemma {:induction false} HalvedShrinks(n: int, times: nat, bound: nat)
    requires 0 <= n < bound * Power2(times)
    ensures 0 <= Halved(n, times) < bound
    decreases times
  {
    if times != 0 {
      HalvedShrinks(n, times - 1, 2 * bound);
    }
  }

  function Power2(k: nat): nat {
    if k == 0 then 1 else 2 * Power2(k - 1)
  }

  lemma Vanishes(n: Byte)
    ensures Halved(n, 8) == 0
  {
    assert Power2(8) == 256;
    HalvedShrinks(n, 8, 1);
  }

  function Bit(b: bool, weight: nat): nat {
    if b then weight else 0
  }

  function Weighted(b: seq<bool>): nat
    requires |b| == 8
  {
    Bit(b[0], 1) + Bit(b[1], 2) + Bit(b[2], 4) + Bit(b[3], 8)
    + Bit(b[4], 16) + Bit(b[5], 32) + Bit(b[6], 64) + Bit(b[7], 128)
  }

  /** The bits of a byte, least significant first. */
  function BitsOf(n: Byte): (bits: seq<bool>)
    ensures |bits| == 8
  {
    seq(8, i requires 0 <= i < 8 => Odd(Halved(n, i)))
  }

  lemma FromBitsIsWeighted(b: seq<bool>)
    requires |b| == 8
    ensures FromBits(b[0], b[1], b[2], b[3], b[4], b[5], b[6], b[7]) as int == Weighted(b)
  {}

  lemma LastBit(n: int, t: nat)
    ensures Halved(n, t) == 2 * Halved(n, t + 1) + Bit(Odd(Halved(n, t)), 1)
  {}

  lemma SumOfHalves(h: seq<int>, b: seq<bool>)
    requires |h| == 9 && |b| == 8 && h[8] == 0
    requires forall i :: 0 <= i < 8 ==> h[i] == 2 * h[i + 1] + Bit(b[i], 1)
    ensures h[0] == Weighted(b)
  {
    assert h[7] == Bit(b[7], 1) && h[6] == 2 * h[7] + Bit(b[6], 1);
    assert h[5] == 2 * h[6] + Bit(b[5], 1) && h[4] == 2 * h[5] + Bit(b[4], 1);
    assert h[3] == 2 * h[4] + Bit(b[3], 1) && h[2] == 2 * h[3] + Bit(b[2], 1);
    assert h[1] == 2 * h[2] + Bit(b[1], 1) && h[0] == 2 * h[1] + Bit(b[0], 1);
  }

  lemma BitsMakeByte(n: Byte)
    ensures Weighted(BitsOf(n)) == n
  {
    var h := seq(9, t requires 0 <= t < 9 => Halved(n, t));
    forall i | 0 <= i < 8
      ensures h[i] == 2 * h[i + 1] + Bit(BitsOf(n)[i], 1)
    {
      LastBit(n, i);
    }
    Vanishes(n);
    SumOfHalves(h, BitsOf(n));
  }

  lemma PatternHasBits(n: Byte)
    ensures Pattern(n) as int == Weighted(BitsOf(n))
  {
    FromBitsIsWeighted(BitsOf(n));
  }

  /** The pattern of a byte, read as a number, is the byte. */
  lemma PatternIsNumber(n: Byte)
    ensures Pattern(n) as int == n
  {
    PatternHasBits(n);
    BitsMakeByte(n);
  }

  lemma PatternInjective(n: Byte, m: Byte)
    requires Pattern(n) == Pattern(m)
    ensures n == m
  {
    PatternIsNumber(n);
    PatternIsNumber(m);
  }

  lemma PatternsInjective(p: seq<Byte>, q: seq<Byte>)
    requires Patterns(p) == Patterns(q)
    ensures p == q
  {
    forall i | 0 <= i < |p|
      ensures p[i] == q[i]
    {
      assert Patterns(p)[i] == Patterns(q)[i];
      PatternInjective(p[i], q[i]);
    }
  }
}
