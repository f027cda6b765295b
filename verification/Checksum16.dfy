/** `simple_checksum`: bytes are added in 32 bits, the sum is folded to 16 bits and complemented. */
module Checksum16 {
  import opened Bytes

  const WORD: nat := 0x1_0000

  type Word = w: int | 0 <= w < 0x1_0000

  function Total(data: seq<Byte>): nat {
    if data == [] then 0 else Total(data[..|data| - 1]) + data[|data| - 1]
  }

  // ---------- section 4.1 of RFC 1071 ----------

  /** Addition of 16-bit numbers in ones' complement: the carry comes round. */
  function OnesAdd(x: Word, y: Word): Word {
    if x + y < WORD then x + y else x + y - (WORD - 1)
  }

  function OnesSum(data: seq<Byte>): Word {
    if data == [] then 0 else OnesAdd(OnesSum(data[..|data| - 1]), data[|data| - 1])
  }

  /** The number from 1 to 65535 that a positive sum is congruent to, and 0 for 0. */
  function Residue(sum: nat): Word {
    if sum == 0 then 0 else 1 + (sum - 1) % (WORD - 1)
  }

  lemma ResidueAdds(sum: nat, b: Byte)
    ensures Residue(sum + b) == OnesAdd(Residue(sum), b)
  {
    if sum > 0 {
      RemainderAdds(sum - 1, b);
    }
  }

  lemma RemainderAdds(n: nat, b: Byte)
    ensures (n + b) % 65535 == if n % 65535 + b < 65535 then n % 65535 + b else n % 65535 + b - 65535
  {
    var q := n / 65535;
    assert n + b == 65535 * q + (n % 65535 + b);
    assert n + b == 65535 * (q + 1) + (n % 65535 + b - 65535);
  }

  lemma {:induction false} OnesSumIsResidue(data: seq<Byte>)
    ensures OnesSum(data) == Residue(Total(data))
    decreases |data|
  {
    if data != [] {
      OnesSumIsResidue(data[..|data| - 1]);
      ResidueAdds(Total(data[..|data| - 1]), data[|data| - 1]);
    }
  }

  // ---------- folding ----------

  /** One turn of the loop: the low half and the high half are added. The sum gets smaller, and stays
      congruent and positive. */
  function FoldOnce(sum: nat): (next: nat)
    requires sum >= WORD
    ensures 0 < next < sum
  {
    sum % WORD + sum / WORD
  }

  lemma FoldOnceKeeps(sum: nat)
    requires sum >= WORD
    ensures Residue(FoldOnce(sum)) == Residue(sum)
  {
    var high := sum / WORD;
    assert sum == FoldOnce(sum) + 65535 * high;
    SameRemainder(FoldOnce(sum) - 1, high);
  }

  lemma SameRemainder(n: nat, q: nat)
    ensures (n + 65535 * q) % 65535 == n % 65535
  {
    var p := n / 65535;
    assert n + 65535 * q == 65535 * (p + q) + n % 65535;
  }

  function Fold(sum: nat): Word
    decreases sum
  {
    if sum < WORD then sum else Fold(FoldOnce(sum))
  }

  lemma {:induction false} FoldIsResidue(sum: nat)
    ensures Fold(sum) == Residue(sum)
    decreases sum
  {
    if sum >= WORD {
      FoldOnceKeeps(sum);
      FoldIsResidue(FoldOnce(sum));
    }
  }

  /** The folded sum of the bytes, added in 32 bits. */
  function Folded(data: seq<Byte>): Word {
    Fold(Total(data) % UINT32)
  }

  /** `simple_checksum`. */
  method SimpleChecksum(data: seq<Byte>) returns (checksum: Word)
    ensures checksum == 0xFFFF - Folded(data)
  {
    var sum := 0;
    for i := 0 to |data|
      invariant sum == Total(data[..i]) % UINT32
    {
      assert data[..i + 1][..i] == data[..i];
      WrapsAlike(Total(data[..i]), data[i], UINT32);
      sum := (sum + data[i]) % UINT32;
    }
    assert data[..|data|] == data;
    while sum / WORD != 0
      invariant 0 <= sum < UINT32 && Fold(sum) == Folded(data)
      decreases sum
    {
      sum := sum % WORD + sum / WORD;
    }
    checksum := 0xFFFF - sum;
  }

  // ---------- what the checksum is ----------

  /** The complement of the checksum is the ones' complement sum of the bytes exactly when the 32-bit sum
      has not wrapped to nothing and the number of times it has wrapped is a multiple of 65535; in
      particular when it has not wrapped at all. */
  lemma ChecksumIsOnesSumIff(data: seq<Byte>)
    ensures Folded(data) == OnesSum(data) <==>
              Total(data) == 0 || (Total(data) % UINT32 != 0 && Total(data) / UINT32 % (WORD - 1) == 0)
    ensures Total(data) < UINT32 ==> Folded(data) == OnesSum(data)
  {
    var total := Total(data);
    FoldIsResidue(total % UINT32);
    OnesSumIsResidue(data);
    if total % UINT32 != 0 {
      WrapsCount(total);
    }
  }

  lemma WrapsCount(total: nat)
    requires total % UINT32 != 0
    ensures Residue(total % UINT32) == Residue(total) <==> total / UINT32 % (WORD - 1) == 0
  {
    var q, r := total / UINT32, total % UINT32;
    // 2^32 is 65535 times 65537, and one more
    assert total - 1 == (r - 1 + q) + 65535 * (65537 * q);
    SameRemainder(r - 1 + q, 65537 * q);
    SameRemainderIff(r - 1, q);
  }

  lemma SameRemainderIff(n: nat, q: nat)
    ensures (n + q) % 65535 == n % 65535 <==> q % 65535 == 0
  {
    var a, b := n / 65535, q / 65535;
    assert n + q == 65535 * (a + b) + (n % 65535 + q % 65535);
    RemainderOf(a + b, n % 65535 + q % 65535);
  }

  lemma RemainderOf(p: nat, r: nat)
    requires r < 2 * 65535
    ensures (65535 * p + r) % 65535 == if r < 65535 then r else r - 65535
  {
    if r < 65535 {
      SameRemainder(r, p);
    } else {
      SameRemainder(r - 65535, p + 1);
    }
  }

  // ---------- what it detects ----------

  lemma {:induction false} TotalWithChange(data: seq<Byte>, i: nat, b: Byte)
    requires i < |data|
    ensures Total(data[i := b]) == Total(data) - data[i] + b
    decreases |data|
  {
    var n := |data| - 1;
    if i < n {
      assert data[i := b][..n] == data[..n][i := b];
      TotalWithChange(data[..n], i, b);
    } else {
      assert data[i := b][..n] == data[..n];
    }
  }

  lemma CloseResiduesDiffer(s: nat, t: nat)
    requires s < t < s + 256
    ensures Residue(s) != Residue(t)
  {
    if s > 0 {
      SameRemainderIff(s - 1, t - s);
    }
  }

  lemma FoldedIsResidue(data: seq<Byte>)
    requires Total(data) < UINT32
    ensures Folded(data) == Residue(Total(data))
  {
    UnwrappedIsResidue(Total(data));
  }

  lemma UnwrappedIsResidue(total: nat)
    requires total < UINT32
    ensures Fold(total % UINT32) == Residue(total)
  {
    RemainderIs(total, 0, total, UINT32);
    FoldIsResidue(total);
  }

  /** A change of a single byte changes the checksum, as long as the sum does not wrap. */
  lemma SingleByteDetected(data: seq<Byte>, i: nat, b: Byte)
    requires i < |data| && b != data[i]
    requires Total(data) < UINT32 && Total(data[i := b]) < UINT32
    ensures Folded(data) != Folded(data[i := b])
  {
    TotalWithChange(data, i, b);
    FoldedIsResidue(data);
    FoldedIsResidue(data[i := b]);
    if data[i] < b {
      CloseResiduesDiffer(Total(data), Total(data[i := b]));
    } else {
      CloseResiduesDiffer(Total(data[i := b]), Total(data));
    }
  }

  /** A change of two bytes may not: exchanging them never does. */
  lemma ExchangeUndetected(data: seq<Byte>, i: nat, j: nat)
    requires i < j < |data|
    ensures Folded(data[i := data[j]][j := data[i]]) == Folded(data)
  {
    TotalWithChange(data, i, data[j]);
    TotalWithChange(data[i := data[j]], j, data[i]);
  }
}
