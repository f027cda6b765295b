/** The base 64 encoding of section 4 of RFC 4648, and the two loops of hex_utils.c for it. Shifts and masks
    of unsigned numbers are written as multiplication, division and remainder; `Or` joins two parts that
    share no bit. */
module Base64 {
  import opened Bytes

  // ---------- the alphabet ----------

  type Digit = d: int | 0 <= d < 64

  /** `base64_chars`. */
  function Char(d: Digit): (c: char)
    ensures IndexOf(c) == d && c != '=' && c != '\0'
  {
    if d < 26 then 'A' + d as char
    else if d < 52 then 'a' + (d - 26) as char
    else if d < 62 then '0' + (d - 52) as char
    else if d == 62 then '+' else '/'
  }

  /** `base64_index`. */
  function IndexOf(c: char): (i: int)
    ensures -1 <= i < 64
  {
    if 'A' <= c <= 'Z' then (c - 'A') as int
    else if 'a' <= c <= 'z' then (c - 'a') as int + 26
    else if '0' <= c <= '9' then (c - '0') as int + 52
    else if c == '+' then 62
    else if c == '/' then 63
    else -1
  }

  // ---------- groups ----------

  function Or(high: nat, low: nat, unit: nat): nat
    requires unit > 0 && high % unit == 0 && low < unit
  {
    high + low
  }

  /** Three bytes are a number of 24 bits, and so are four digits: the number is the same. */
  function Bits24(a: Byte, b: Byte, c: Byte): nat {
    (a * 256 + b) * 256 + c
  }

  function Split(a: Byte, b: Byte, c: Byte): (Digit, Digit, Digit, Digit) {
    (a / 4, a % 4 * 16 + b / 16, b % 16 * 4 + c / 64, c % 64)
  }

  lemma SplitIsTheNumber(a: Byte, b: Byte, c: Byte)
    ensures var (p, q, r, s) := Split(a, b, c);
            ((p * 64 + q) * 64 + r) * 64 + s == Bits24(a, b, c)
  {}

  lemma DigitsOfNumber(n: nat, p: Digit, q: Digit, r: Digit, s: Digit)
    requires n == ((p * 64 + q) * 64 + r) * 64 + s
    ensures n / 0x40000 % 64 == p && n / 0x1000 % 64 == q && n / 0x40 % 64 == r && n % 64 == s
  {
    assert n / 0x40 == (p * 64 + q) * 64 + r;
    assert n / 0x1000 == p * 64 + q by { assert n == (p * 64 + q) * 0x1000 + (r * 64 + s); }
    assert n / 0x40000 == p by { assert n == p * 0x40000 + (q * 0x1000 + r * 64 + s); }
  }

  /** The digits of the number, from the top. */
  lemma SplitIsShifts(a: Byte, b: Byte, c: Byte)
    ensures var n := Bits24(a, b, c);
            Split(a, b, c) == (n / 0x40000 % 64, n / 0x1000 % 64, n / 0x40 % 64, n % 64)
  {
    var (p, q, r, s) := Split(a, b, c);
    SplitIsTheNumber(a, b, c);
    DigitsOfNumber(Bits24(a, b, c), p, q, r, s);
  }

  function First(p: Digit, q: Digit): Byte { p * 4 + q / 16 }

  function Second(q: Digit, r: Digit): Byte { q % 16 * 16 + r / 4 }

  function Third(r: Digit, s: Digit): Byte { r % 4 * 64 + s }

  /** What one digit leaves for the next byte: its low six, four or two bits, moved to the top. */
  function LowSix(d: Digit): Byte { d * 4 }

  function LowFour(d: Digit): Byte { d % 16 * 16 }

  function LowTwo(d: Digit): Byte { d % 4 * 64 }

  lemma JoinSplit(a: Byte, b: Byte, c: Byte)
    ensures var (p, q, r, s) := Split(a, b, c);
            First(p, q) == a && Second(q, r) == b && Third(r, s) == c
  {}

  /** How three bytes are cut into four digits. */
  type Grouping = (Byte, Byte, Byte) -> (Digit, Digit, Digit, Digit)

  function Splitting(): Grouping {
    (a: Byte, b: Byte, c: Byte) => Split(a, b, c)
  }

  // ---------- section 4 of RFC 4648 ----------

  /** The length of the text: four characters for every three bytes or part of them. */
  function Padded(len: nat): nat {
    if len == 0 then 0 else if len < 3 then 4 else 4 + Padded(len - 3)
  }

  /** How many equals signs fill the text up. */
  function Pad(len: nat): nat {
    if len == 0 then 0 else if len < 3 then 3 - len else Pad(len - 3)
  }

  lemma ThreeMore(len: nat)
    requires len >= 3
    ensures (len + 2) / 3 == (len - 3 + 2) / 3 + 1 && (3 - len % 3) % 3 == (3 - (len - 3) % 3) % 3
  {}

  /** Both as the program computes them. */
  lemma {:induction false} LengthsComputed(len: nat)
    ensures Padded(len) == 4 * ((len + 2) / 3) && Pad(len) == (3 - len % 3) % 3
    decreases len
  {
    if len >= 3 {
      ThreeMore(len);
      LengthsComputed(len - 3);
    }
  }

  /** What they say about the number of bytes. */
  lemma {:induction false} Lengths(len: nat) returns (groups: nat)
    ensures Padded(len) == 4 * groups && len == 3 * groups - Pad(len) && Pad(len) <= 2
    decreases len
  {
    if len >= 3 {
      var fewer := Lengths(len - 3);
      groups := fewer + 1;
    } else {
      groups := if len == 0 then 0 else 1;
    }
  }

  /** Groups of three bytes are four digits; at the end one byte is two digits and two bytes are three. */
  function Sextets(group: Grouping, bytes: seq<Byte>): (digits: seq<Digit>)
    ensures |digits| + Pad(|bytes|) == Padded(|bytes|)
    decreases |bytes|
  {
    if bytes == [] then []
    else if |bytes| == 1 then var (p, q, _, _) := group(bytes[0], 0, 0); [p, q]
    else if |bytes| == 2 then var (p, q, r, _) := group(bytes[0], bytes[1], 0); [p, q, r]
    else var (p, q, r, s) := group(bytes[0], bytes[1], bytes[2]); [p, q, r, s] + Sextets(group, bytes[3..])
  }

  function Text(digits: seq<Digit>): (text: string)
    ensures |text| == |digits|
    ensures forall i :: 0 <= i < |text| ==> text[i] == Char(digits[i])
  {
    seq(|digits|, i requires 0 <= i < |digits| => Char(digits[i]))
  }

  function Equals(n: nat): (text: string)
    ensures |text| == n
    ensures forall i :: 0 <= i < n ==> text[i] == '='
  {
    seq(n, _ => '=')
  }

  /** The digits, filled up with equals signs to a multiple of four characters. */
  function Encode(bytes: seq<Byte>): (text: string)
    ensures |text| == Padded(|bytes|)
  {
    Text(Sextets(Splitting(), bytes)) + Equals(Pad(|bytes|))
  }

  /** The digits in a text; every other character is skipped. */
  function Digits(text: string): (digits: seq<Digit>)
    ensures |digits| <= |text|
  {
    if text == [] then []
    else (if IndexOf(text[0]) == -1 then [] else [IndexOf(text[0])]) + Digits(text[1..])
  }

  /** The byte that a digit completes, with the one before it. */
  function Completed(place: nat, last: Digit, d: Digit): Byte {
    if place == 1 then First(last, d) else if place == 2 then Second(last, d) else Third(last, d)
  }

  /** The place of a digit in its group of four. */
  function Place(n: nat): (place: nat)
    ensures place < 4
  {
    if n < 4 then n else Place(n - 4)
  }

  lemma {:induction false} PlaceIs(n: nat)
    ensures Place(n) == n % 4
    decreases n
  {
    if n >= 4 {
      PlaceIs(n - 4);
    }
  }

  /** The whole bytes that the bits of the digits make: every digit completes one, except the first of each
      four. */
  function Join(digits: seq<Digit>): (bytes: seq<Byte>)
    decreases |digits|
  {
    if digits == [] then [] else
    var n := |digits| - 1;
    var before := Join(digits[..n]);
    if Place(n) == 0 then before else before + [Completed(Place(n), digits[n - 1], digits[n])]
  }

  lemma JoinNext(digits: seq<Digit>, d: Digit)
    ensures Join(digits + [d])
         == if Place(|digits|) == 0 then Join(digits)
            else Join(digits) + [Completed(Place(|digits|), digits[|digits| - 1], d)]
  {
    assert (digits + [d])[..|digits|] == digits;
  }

  lemma LengthStep(n: nat, bytes: nat)
    requires 4 * bytes <= 3 * n < 4 * bytes + 4
    ensures Place(n) == 0 ==> 4 * bytes <= 3 * (n + 1) < 4 * bytes + 4
    ensures Place(n) != 0 ==> 4 * (bytes + 1) <= 3 * (n + 1) < 4 * (bytes + 1) + 4
  {
    PlaceIs(n);
  }

  lemma {:induction false} JoinLength(digits: seq<Digit>)
    ensures 4 * |Join(digits)| <= 3 * |digits| < 4 * |Join(digits)| + 4
    decreases |digits|
  {
    if digits != [] {
      var n := |digits| - 1;
      JoinLength(digits[..n]);
      LengthStep(n, |Join(digits[..n])|);
    }
  }

  lemma {:induction false} SamePlace(groups: nat, n: nat)
    ensures Place(4 * groups + n) == Place(n)
    decreases groups
  {
    if groups > 0 {
      SamePlace(groups - 1, n);
    }
  }

  lemma {:induction false} JoinAppend(digits: seq<Digit>, more: seq<Digit>, groups: nat)
    requires |digits| == 4 * groups
    ensures Join(digits + more) == Join(digits) + Join(more)
    decreases |more|
  {
    if more == [] {
      assert digits + more == digits;
    } else {
      var n := |more| - 1;
      JoinAppend(digits, more[..n], groups);
      JoinAppendNext(digits, more[..n], more[n], groups);
      assert more == more[..n] + [more[n]] && digits + more == digits + (more[..n] + [more[n]]);
    }
  }

  lemma JoinAppendNext(digits: seq<Digit>, more: seq<Digit>, d: Digit, groups: nat)
    requires |digits| == 4 * groups && Join(digits + more) == Join(digits) + Join(more)
    ensures Join(digits + (more + [d])) == Join(digits) + Join(more + [d])
  {
    var all := digits + more;
    assert digits + (more + [d]) == all + [d];
    SamePlace(groups, |more|);
    JoinNext(all, d);
    JoinNext(more, d);
    if Place(|more|) != 0 {
      var byte := [Completed(Place(|more|), more[|more| - 1], d)];
      assert all[|all| - 1] == more[|more| - 1];
      assert Join(all + [d]) == (Join(digits) + Join(more)) + byte;
      assert Join(digits) + (Join(more) + byte) == (Join(digits) + Join(more)) + byte;
    }
  }

  lemma JoinOne(p: Digit)
    ensures Join([p]) == []
  {
    JoinNext([], p);
    assert [] + [p] == [p];
  }

  lemma JoinTwo(p: Digit, q: Digit)
    ensures Join([p, q]) == [First(p, q)]
  {
    JoinOne(p);
    JoinNext([p], q);
    assert Place(1) == 1;
    assert [p] + [q] == [p, q];
  }

  lemma JoinThree(p: Digit, q: Digit, r: Digit)
    ensures Join([p, q, r]) == [First(p, q), Second(q, r)]
  {
    JoinTwo(p, q);
    JoinNext([p, q], r);
    assert [p, q] + [r] == [p, q, r];
  }

  lemma JoinFour(p: Digit, q: Digit, r: Digit, s: Digit)
    ensures Join([p, q, r, s]) == [First(p, q), Second(q, r), Third(r, s)]
  {
    JoinThree(p, q, r);
    JoinNext([p, q, r], s);
    assert [p, q, r] + [s] == [p, q, r, s];
  }

  lemma {:induction false} TextDigits(digits: seq<Digit>, pad: nat)
    ensures Digits(Text(digits) + Equals(pad)) == digits
    decreases |digits| + pad
  {
    var text := Text(digits) + Equals(pad);
    if digits != [] {
      assert text[0] == Char(digits[0]);
      assert text[1..] == Text(digits[1..]) + Equals(pad);
      TextDigits(digits[1..], pad);
    } else if pad > 0 {
      assert text[0] == '=';
      assert text[1..] == Text([]) + Equals(pad - 1);
      TextDigits([], pad - 1);
    }
  }

  lemma SplitThenJoin(a: Byte, b: Byte, c: Byte)
    ensures var (p, q, r, s) := Split(a, b, c);
            Join([p, q]) == [a] && Join([p, q, r]) == [a, b] && Join([p, q, r, s]) == [a, b, c]
  {
    var (p, q, r, s) := Split(a, b, c);
    JoinSplit(a, b, c);
    JoinTwo(p, q);
    JoinThree(p, q, r);
    JoinFour(p, q, r, s);
  }

  lemma {:induction false} JoinSextets(group: Grouping, bytes: seq<Byte>)
    requires group == Splitting()
    ensures Join(Sextets(group, bytes)) == bytes
    decreases |bytes|
  {
    if |bytes| == 1 {
      SplitThenJoin(bytes[0], 0, 0);
    } else if |bytes| == 2 {
      SplitThenJoin(bytes[0], bytes[1], 0);
    } else if |bytes| > 2 {
      var (p, q, r, s) := Split(bytes[0], bytes[1], bytes[2]);
      SplitThenJoin(bytes[0], bytes[1], bytes[2]);
      JoinAppend([p, q, r, s], Sextets(group, bytes[3..]), 1);
      JoinSextets(group, bytes[3..]);
    }
  }

  /** Decoding undoes encoding, in all three cases of padding. */
  lemma RoundTrip(bytes: seq<Byte>)
    ensures Join(Digits(Encode(bytes))) == bytes
  {
    TextDigits(Sextets(Splitting(), bytes), Pad(|bytes|));
    JoinSextets(Splitting(), bytes);
  }

  // ---------- the encoder ----------

  /** The digits the loop writes: every group is filled up with zero bytes. */
  function Filled(group: Grouping, bytes: seq<Byte>): (digits: seq<Digit>)
    ensures |digits| == Padded(|bytes|)
    decreases |bytes|
  {
    if bytes == [] then [] else
    var b, c := if |bytes| > 1 then bytes[1] else 0, if |bytes| > 2 then bytes[2] else 0;
    var (p, q, r, s) := group(bytes[0], b, c);
    [p, q, r, s] + Filled(group, if |bytes| > 3 then bytes[3..] else [])
  }

  lemma FilledFirst(group: Grouping, a: Byte, b: Byte, c: Byte, rest: seq<Byte>)
    ensures var (p, q, r, s) := group(a, b, c);
            Filled(group, [a, b, c] + rest) == [p, q, r, s] + Filled(group, rest)
  {
    assert ([a, b, c] + rest)[3..] == rest;
  }

  lemma Associative<T>(a: seq<T>, b: seq<T>, c: seq<T>)
    ensures a + (b + c) == (a + b) + c
  {}

  lemma FilledAppendNext(group: Grouping, a: Byte, b: Byte, c: Byte, rest: seq<Byte>, more: seq<Byte>)
    requires Filled(group, rest + more) == Filled(group, rest) + Filled(group, more)
    ensures Filled(group, [a, b, c] + (rest + more)) == Filled(group, [a, b, c] + rest) + Filled(group, more)
  {
    FilledFirst(group, a, b, c, rest);
    FilledFirst(group, a, b, c, rest + more);
    var (p, q, r, s) := group(a, b, c);
    Associative([p, q, r, s], Filled(group, rest), Filled(group, more));
  }

  lemma CutThree(bytes: seq<Byte>, more: seq<Byte>)
    requires |bytes| >= 3
    ensures bytes == [bytes[0], bytes[1], bytes[2]] + bytes[3..]
    ensures bytes + more == [bytes[0], bytes[1], bytes[2]] + (bytes[3..] + more)
  {}

  lemma {:induction false} FilledAppend(group: Grouping, bytes: seq<Byte>, more: seq<Byte>, groups: nat)
    requires |bytes| == 3 * groups
    ensures Filled(group, bytes + more) == Filled(group, bytes) + Filled(group, more)
    decreases groups
  {
    if groups == 0 {
      assert bytes + more == more;
    } else {
      CutThree(bytes, more);
      FilledAppend(group, bytes[3..], more, groups - 1);
      FilledAppendNext(group, bytes[0], bytes[1], bytes[2], bytes[3..], more);
    }
  }

  lemma {:induction false} SextetsOfFilled(group: Grouping, bytes: seq<Byte>)
    ensures Sextets(group, bytes) == Filled(group, bytes)[..|Sextets(group, bytes)|]
    decreases |bytes|
  {
    if |bytes| > 3 {
      SextetsOfFilled(group, bytes[3..]);
    } else if |bytes| == 3 {
      assert bytes[3..] == [];
    }
  }

  lemma Shifted(a: Byte, b: Byte)
    ensures a * 0x10000 % 0x10000 == 0 && b * 0x100 < 0x10000
    ensures a * 0x10000 + b * 0x100 == (a * 0x100 + b) * 0x100
    ensures (a * 0x100 + b) * 0x100 % 0x100 == 0
  {}

  /** The three octets, shifted and joined, are the number of 24 bits. */
  function Triple(a: Byte, b: Byte, c: Byte): (triple: nat)
    ensures triple == Bits24(a, b, c)
  {
    Shifted(a, b);
    Or(Or(a * 0x10000, b * 0x100, 0x10000), c, 0x100)
  }

  method PutFour(base64: array<char>, j: nat, p: Digit, q: Digit, r: Digit, s: Digit)
    requires j + 4 <= base64.Length
    modifies base64
    ensures base64[..j + 4] == old(base64[..j]) + Text([p, q, r, s])
  {
    base64[j] := Char(p);
    base64[j + 1] := Char(q);
    base64[j + 2] := Char(r);
    base64[j + 3] := Char(s);
    assert base64[..j + 4] == base64[..j] + [Char(p), Char(q), Char(r), Char(s)];
  }

  method PutQuantum(base64: array<char>, j: nat, a: Byte, b: Byte, c: Byte)
    requires j + 4 <= base64.Length
    modifies base64
    ensures var (p, q, r, s) := Split(a, b, c);
            base64[..j + 4] == old(base64[..j]) + Text([p, q, r, s])
  {
    var triple := Triple(a, b, c);
    SplitIsShifts(a, b, c);
    PutFour(base64, j, triple / 0x40000 % 64, triple / 0x1000 % 64, triple / 0x40 % 64, triple % 64);
  }

  /** The bytes of the next group, with zero for each that is missing, and the index after them. */
  method TakeThree(ghost group: Grouping, data: seq<Byte>, start: nat, ghost groups: nat)
    returns (a: Byte, b: Byte, c: Byte, i: nat)
    requires start == 3 * groups < |data|
    ensures start < i <= |data| && (i == 3 * groups + 3 || i == |data|)
    ensures var (p, q, r, s) := group(a, b, c);
            Filled(group, data[..i]) == Filled(group, data[..start]) + [p, q, r, s]
  {
    a, b, c, i := data[start], 0, 0, start + 1;
    if i < |data| {
      b := data[i];
      i := i + 1;
    }
    if i < |data| {
      c := data[i];
      i := i + 1;
    }
    assert data[..i] == data[..start] + data[start..i];
    FilledAppend(group, data[..start], data[start..i], groups);
  }

  lemma TextAppend(a: seq<Digit>, b: seq<Digit>)
    ensures Text(a + b) == Text(a) + Text(b)
  {}

  /** The first loop of `bin_to_base64` as it is meant, while i < len. */
  method PutAll(base64: array<char>, data: seq<Byte>) returns (i: nat)
    requires base64.Length == Padded(|data|) + 1
    modifies base64
    ensures i == |data| && base64[..Padded(|data|)] == Text(Filled(Splitting(), data))
  {
    i := 0;
    var j := 0;
    ghost var group, groups := Splitting(), 0;
    while i < |data|
      invariant i <= |data| && (i == 3 * groups || i == |data|)
      invariant j == |Filled(group, data[..i])| <= Padded(|data|) && base64[..j] == Text(Filled(group, data[..i]))
    {
      ghost var start := i;
      FilledFits(group, data, start, groups);
      var a, b, c;
      a, b, c, i := TakeThree(group, data, i, groups);
      ghost var (p, q, r, s) := Split(a, b, c);
      TextAppend(Filled(group, data[..start]), [p, q, r, s]);
      PutQuantum(base64, j, a, b, c);
      j, groups := j + 4, groups + 1;
    }
    assert data[..i] == data;
  }

  lemma FilledFits(group: Grouping, data: seq<Byte>, start: nat, groups: nat)
    requires start == 3 * groups < |data|
    ensures |Filled(group, data[..start])| + 4 <= Padded(|data|)
  {
    assert data == data[..start] + data[start..];
    FilledAppend(group, data[..start], data[start..], groups);
  }

  lemma PrefixText(digits: seq<Digit>, first: seq<Digit>, n: nat)
    requires n <= |digits| && first == digits[..n]
    ensures Text(first) == Text(digits)[..n]
  {}

  lemma EncodeIsFilled(group: Grouping, data: seq<Byte>, text: string, n: nat)
    requires text == Text(Filled(group, data)) && n == |Sextets(group, data)|
    ensures n + Pad(|data|) == |text| && Text(Sextets(group, data)) == text[..n]
  {
    SextetsOfFilled(group, data);
    PrefixText(Filled(group, data), Sextets(group, data), n);
  }

  /** The padding loop, behind the characters that are kept. */
  method PutPadding(text: array<char>, outLen: nat, pad: nat, ghost kept: nat)
    requires kept + pad == outLen < text.Length
    modifies text
    ensures text[..outLen] == old(text[..outLen])[..kept] + Equals(pad)
  {
    for k := 0 to pad
      invariant text[..outLen - k] == old(text[..outLen - k])
      invariant forall m :: outLen - k <= m < outLen ==> text[m] == '='
    {
      text[outLen - 1 - k] := '=';
    }
    assert text[..kept] == old(text[..kept]);
    assert text[..outLen] == text[..kept] + Equals(pad);
  }

  /** `bin_to_base64`, with the loop that is meant. */
  method BinToBase64(data: seq<Byte>) returns (base64: array?<char>)
    ensures data == [] <==> base64 == null
    ensures base64 != null ==> base64.Length == Padded(|data|) + 1 && base64[..] == Encode(data) + "\0"
  {
    if |data| == 0 {
      return null;
    }
    LengthsComputed(|data|);
    var outLen := 4 * ((|data| + 2) / 3);
    var text := new char[outLen + 1];
    var i := PutAll(text, data);
    ghost var kept := |Sextets(Splitting(), data)|;
    EncodeIsFilled(Splitting(), data, text[..outLen], kept);
    PutPadding(text, outLen, (3 - i % 3) % 3, kept);
    text[outLen] := '\0';
    assert text[..] == text[..outLen] + ['\0'];
    base64 := text;
  }

  function NextByte(data: seq<Byte>, left: nat, i: nat): (Byte, nat)
    requires left <= |data|
  {
    if i < left then (data[i], i + 1) else (0, i)
  }

  /** The loop of `bin_to_base64` as it is written, while (len--): what it writes, and where i ends up. */
  function WrittenRounds(data: seq<Byte>, len: nat, i: nat): (r: (seq<Digit>, nat))
    requires len <= |data|
    ensures |r.0| == 4 * len
    decreases len
  {
    if len == 0 then ([], i) else
    var left := len - 1;
    var (a, i1) := NextByte(data, left, i);
    var (b, i2) := NextByte(data, left, i1);
    var (c, i3) := NextByte(data, left, i2);
    var (p, q, r, s) := Split(a, b, c);
    var (more, last) := WrittenRounds(data, left, i3);
    ([p, q, r, s] + more, last)
  }

  /** As it is written the function never does what it is for: for one byte it makes four digits A and no
      padding, and for more bytes it writes more characters than the buffer that it has asked for holds. */
  lemma WrittenLoopNeverEncodes(data: seq<Byte>)
    requires data != []
    ensures var (digits, i) := WrittenRounds(data, |data|, 0);
            && (|digits| > Padded(|data|) + 1 <==> |data| >= 2)
            && (|data| == 1 ==> i == 0 && Text(digits) == "AAAA" != Encode(data))
  {
    MoreThanTheBuffer(|data|);
    if |data| == 1 {
      OneByteRound(data);
      FourTimesA();
      OneByteText(data);
    }
  }

  lemma MoreThanTheBuffer(len: nat)
    requires len > 0
    ensures 4 * len > Padded(len) + 1 <==> len >= 2
  {
    LengthsComputed(len);
  }

  lemma OneByteText(data: seq<Byte>)
    requires |data| == 1
    ensures |Encode(data)| == 4 && Encode(data)[3] == '='
  {
    assert Pad(1) == 2;
  }

  lemma RoundIs(data: seq<Byte>, len: nat, i: nat, a: Byte, b: Byte, c: Byte, i1: nat, i2: nat, i3: nat)
    requires 0 < len <= |data|
    requires NextByte(data, len - 1, i) == (a, i1)
    requires NextByte(data, len - 1, i1) == (b, i2) && NextByte(data, len - 1, i2) == (c, i3)
    ensures var ((p, q, r, s), (more, last)) := (Split(a, b, c), WrittenRounds(data, len - 1, i3));
            WrittenRounds(data, len, i) == ([p, q, r, s] + more, last)
  {}

  lemma OneByteRound(data: seq<Byte>)
    requires |data| == 1
    ensures WrittenRounds(data, 1, 0) == ([0, 0, 0, 0], 0)
  {
    assert NextByte(data, 0, 0) == (0, 0) && Split(0, 0, 0) == (0, 0, 0, 0);
    RoundIs(data, 1, 0, 0, 0, 0, 0, 0, 0);
    assert WrittenRounds(data, 0, 0) == ([], 0);
    assert [0, 0, 0, 0] + [] == [0, 0, 0, 0];
  }

  lemma FourTimesA()
    ensures Text([0, 0, 0, 0]) == "AAAA"
  {
    assert Char(0) == 'A';
  }

  // ---------- the decoder ----------

  /** The equals signs at the end that `base64_to_bin` counts: at most two. */
  function Padding(text: string): (n: nat)
    ensures n <= 2 && n <= |text|
    ensures forall k :: |text| - n <= k < |text| ==> text[k] == '='
  {
    if |text| > 0 && text[|text| - 1] == '=' then
      if |text| > 1 && text[|text| - 2] == '=' then 2 else 1
    else 0
  }

  function BeforePadding(text: string): (front: string)
    ensures |front| + Padding(text) == |text|
  {
    text[..|text| - Padding(text)]
  }

  /** What `base64_to_bin` stores in *len. */
  function OutputLength(text: string): nat
    requires |text| % 4 == 0
  {
    |text| / 4 * 3 - Padding(text)
  }

  lemma OutputIs(text: string, groups: nat)
    requires |text| == 4 * groups
    ensures OutputLength(text) == 3 * groups - Padding(text)
  {}

  lemma DigitsFirst(c: char, rest: string)
    ensures Digits([c] + rest) == (if IndexOf(c) == -1 then [] else [IndexOf(c)]) + Digits(rest)
  {
    assert ([c] + rest)[1..] == rest;
  }

  lemma {:induction false} DigitsAppend(s: string, t: string)
    ensures Digits(s + t) == Digits(s) + Digits(t)
    decreases |s|
  {
    if s == [] {
      assert s + t == t;
    } else {
      var rest := s[1..];
      DigitsFirst(s[0], rest);
      DigitsFirst(s[0], rest + t);
      assert s == [s[0]] + rest && s + t == [s[0]] + (rest + t);
      DigitsAppend(rest, t);
      Associative(if IndexOf(s[0]) == -1 then [] else [IndexOf(s[0])], Digits(rest), Digits(t));
    }
  }

  lemma {:induction false} NoDigits(text: string)
    requires forall i :: 0 <= i < |text| ==> text[i] == '='
    ensures Digits(text) == []
    decreases |text|
  {
    if text != [] {
      NoDigits(text[1..]);
    }
  }

  lemma DigitsBefore(text: string)
    ensures Digits(text) == Digits(BeforePadding(text))
  {
    var n := |text| - Padding(text);
    assert text == text[..n] + text[n..];
    DigitsAppend(text[..n], text[n..]);
    NoDigits(text[n..]);
  }

  predicate InAlphabet(text: string) {
    forall i :: 0 <= i < |text| ==> IndexOf(text[i]) != -1
  }

  lemma {:induction false} AllDigitsIff(text: string)
    ensures |Digits(text)| == |text| <==> InAlphabet(text)
    decreases |text|
  {
    if text != [] {
      AllDigitsIff(text[1..]);
      assert forall i :: 1 <= i < |text| ==> text[i] == text[1..][i - 1];
      assert InAlphabet(text) <==> IndexOf(text[0]) != -1 && InAlphabet(text[1..]);
    }
  }

  lemma WholeBytes(digits: nat, bytes: nat, groups: nat, padding: nat)
    requires 4 * bytes <= 3 * digits < 4 * bytes + 4 && digits <= 4 * groups - padding && padding <= 2
    ensures bytes <= 3 * groups - padding
    ensures bytes == 3 * groups - padding <==> digits == 4 * groups - padding
  {}

  /** The bytes that are decoded are all the bytes that are promised exactly when every character before the
      padding is in the alphabet; otherwise there are fewer, and the rest of the buffer is never set. */
  lemma FullyDefinedIff(text: string)
    requires |text| % 4 == 0
    ensures |Join(Digits(text))| <= OutputLength(text)
    ensures |Join(Digits(text))| == OutputLength(text) <==> InAlphabet(BeforePadding(text))
  {
    DigitsBefore(text);
    AllDigitsIff(BeforePadding(text));
    JoinLength(Digits(text));
    OutputIs(text, |text| / 4);
    WholeBytes(|Digits(text)|, |Join(Digits(text))|, |text| / 4, Padding(text));
  }

  /** What the byte that is being put together holds already. */
  predicate Begun(digits: seq<Digit>, partial: Byte) {
    var n := |digits|;
    && (Place(n) == 1 ==> partial == LowSix(digits[n - 1]))
    && (Place(n) == 2 ==> partial == LowFour(digits[n - 1]))
    && (Place(n) == 3 ==> partial == LowTwo(digits[n - 1]))
  }

  lemma PlaceNext(n: nat)
    ensures Place(n + 1) == if Place(n) == 3 then 0 else Place(n) + 1
  {
    PlaceIs(n);
    PlaceIs(n + 1);
  }

  lemma BegunNext(digits: seq<Digit>, c: Digit, partial: Byte)
    requires Place(|digits|) == 0 ==> partial == LowSix(c)
    requires Place(|digits|) == 1 ==> partial == LowFour(c)
    requires Place(|digits|) == 2 ==> partial == LowTwo(c)
    ensures Begun(digits + [c], partial)
  {
    PlaceNext(|digits|);
  }

  /** The parts that the decoder joins share no bit, and make the byte. */
  lemma Parts(last: Digit, c: Digit)
    ensures LowSix(last) % 4 == 0 && c / 16 < 4 && Or(LowSix(last), c / 16, 4) == First(last, c)
    ensures LowFour(last) % 16 == 0 && c / 4 < 16 && Or(LowFour(last), c / 4, 16) == Second(last, c)
    ensures LowTwo(last) % 64 == 0 && Or(LowTwo(last), c, 64) == Third(last, c)
  {}

  /** The byte that is begun is completed by a part, and the next one begun with another. */
  method CompleteAndBegin(bin: array<Byte>, j: nat, value: Byte, begun: Byte) returns (next: nat)
    requires j + 1 < bin.Length
    modifies bin
    ensures next == j + 1 && bin[..next] == old(bin[..j]) + [value] && bin[next] == begun
    ensures forall k :: j + 2 <= k < bin.Length ==> bin[k] == old(bin[k])
  {
    bin[j] := value;
    next := j + 1;
    bin[next] := begun;
  }

  /** How many bytes from the start of the buffer the loop has written to: those that are complete, and the
      one that is begun. */
  function Reach(digits: seq<Digit>): nat {
    if Place(|digits|) == 0 then |Join(digits)| else |Join(digits)| + 1
  }

  lemma ReachNext(digits: seq<Digit>, c: Digit)
    ensures Reach(digits) <= Reach(digits + [c])
    ensures Reach(digits + [c]) == |Join(digits)| + if Place(|digits|) == 1 || Place(|digits|) == 2 then 2 else 1
  {
    JoinNext(digits, c);
    PlaceNext(|digits|);
  }

  /** One turn of the loop of `base64_to_bin`, for a character of the alphabet. */
  method PutDigit(bin: array<Byte>, ghost digits: seq<Digit>, i: nat, j: nat, c: Digit) returns (next: nat)
    requires i == |digits| && j == |Join(digits)| < bin.Length && Reach(digits + [c]) <= bin.Length
    requires bin[..j] == Join(digits) && Begun(digits, bin[j])
    modifies bin
    ensures next == |Join(digits + [c])| <= bin.Length && bin[..next] == Join(digits + [c])
    ensures next < bin.Length ==> Begun(digits + [c], bin[next])
    ensures forall k :: Reach(digits + [c]) <= k < bin.Length ==> bin[k] == old(bin[k])
  {
    JoinNext(digits, c);
    ReachNext(digits, c);
    PlaceIs(i);
    ghost var last := if i > 0 then digits[i - 1] else 0;
    Parts(last, c);
    match i % 4 {
      case 0 =>
        BegunNext(digits, c, c * 4);
        bin[j] := c * 4;
        next := j;
      case 1 =>
        BegunNext(digits, c, c % 16 * 16);
        next := CompleteAndBegin(bin, j, Or(bin[j], c / 16, 4), c % 16 * 16);
      case 2 =>
        BegunNext(digits, c, c % 4 * 64);
        next := CompleteAndBegin(bin, j, Or(bin[j], c / 4, 16), c % 4 * 64);
      case _ =>
        next := Complete(bin, j, Or(bin[j], c, 64));
        if next < bin.Length {
          BegunNext(digits, c, bin[next]);
        }
    }
  }

  /** The byte that is begun is completed by the last part. */
  method Complete(bin: array<Byte>, j: nat, value: Byte) returns (next: nat)
    requires j < bin.Length
    modifies bin
    ensures next == j + 1 && bin[..next] == old(bin[..j]) + [value]
    ensures forall k :: next <= k < bin.Length ==> bin[k] == old(bin[k])
  {
    bin[j] := value;
    next := j + 1;
  }

  lemma NextCharacter(text: string, pos: nat)
    requires pos < |text|
    ensures Digits(text[..pos + 1])
         == if IndexOf(text[pos]) == -1 then Digits(text[..pos]) else Digits(text[..pos]) + [IndexOf(text[pos])]
    ensures |Digits(text[..pos + 1])| <= |Digits(text)|
  {
    assert text[..pos + 1] == text[..pos] + [text[pos]];
    DigitsAppend(text[..pos], [text[pos]]);
    assert text == text[..pos + 1] + text[pos + 1..];
    DigitsAppend(text[..pos + 1], text[pos + 1..]);
  }

  lemma {:induction false} ReachGrows(digits: seq<Digit>, more: seq<Digit>)
    ensures Reach(digits) <= Reach(digits + more)
    decreases |more|
  {
    if more == [] {
      assert digits + more == digits;
    } else {
      var n := |more| - 1;
      ReachGrows(digits, more[..n]);
      ReachNext(digits + more[..n], more[n]);
      assert digits + more == (digits + more[..n]) + [more[n]];
    }
  }

  /** What holds of the buffer after some of the characters. */
  ghost predicate Decoded(buffer: array<Byte>, text: string, i: nat, j: nat)
    reads buffer
  {
    var digits := Digits(text);
    && i == |digits| && j == |Join(digits)| <= buffer.Length && buffer[..j] == Join(digits)
    && (j < buffer.Length ==> Begun(digits, buffer[j]))
  }

  lemma DigitsOfPrefix(text: string, pos: nat)
    requires pos <= |text|
    ensures Reach(Digits(text[..pos])) <= Reach(Digits(text))
  {
    assert text == text[..pos] + text[pos..];
    DigitsAppend(text[..pos], text[pos..]);
    ReachGrows(Digits(text[..pos]), Digits(text[pos..]));
  }

  /** One turn of the loop. */
  method TakeCharacter(buffer: array<Byte>, base64: string, pos: nat, i0: nat, j0: nat) returns (i: nat, j: nat)
    requires pos < |base64| && Decoded(buffer, base64[..pos], i0, j0)
    requires Reach(Digits(base64)) <= buffer.Length
    modifies buffer
    ensures Decoded(buffer, base64[..pos + 1], i, j)
    ensures forall k :: Reach(Digits(base64)) <= k < buffer.Length ==> buffer[k] == old(buffer[k])
  {
    ghost var digits := Digits(base64[..pos]);
    NextCharacter(base64, pos);
    i, j := i0, j0;
    var c := IndexOf(base64[pos]);
    if c == -1 {
      return;
    }
    DigitsOfPrefix(base64, pos + 1);
    ReachNext(digits, c);
    j := PutDigit(buffer, digits, i, j, c);
    i := i + 1;
  }

  /** The loop of `base64_to_bin`: it needs a buffer as long as its reach, and leaves what lies behind. */
  method DecodeInto(buffer: array<Byte>, base64: string)
    requires Reach(Digits(base64)) <= buffer.Length
    modifies buffer
    ensures Decoded(buffer, base64, |Digits(base64)|, |Join(Digits(base64))|)
    ensures forall k :: Reach(Digits(base64)) <= k < buffer.Length ==> buffer[k] == old(buffer[k])
  {
    var i, j := 0, 0;
    for pos := 0 to |base64|
      invariant Decoded(buffer, base64[..pos], i, j)
      invariant forall k :: Reach(Digits(base64)) <= k < buffer.Length ==> buffer[k] == old(buffer[k])
    {
      i, j := TakeCharacter(buffer, base64, pos, i, j);
    }
    assert base64[..|base64|] == base64;
  }

  /** The text is padded, and well formed before its padding. */
  predicate Overruns(text: string) {
    Padding(text) > 0 && InAlphabet(BeforePadding(text))
  }

  lemma PlaceBeforePadding(groups: nat, n: nat, padding: nat)
    requires n + padding == 4 * groups && padding <= 2
    ensures Place(n) != 0 <==> padding > 0
  {
    PlaceIs(n);
  }

  lemma OnePast(reach: nat, bytes: nat, out: nat, begun: bool, full: bool)
    requires reach == (if begun then bytes + 1 else bytes) && bytes <= out && (bytes == out <==> full)
    ensures reach <= out + 1 && (reach > out <==> full && begun)
  {}

  lemma ReachPast(digits: seq<Digit>, n: nat, padding: nat, groups: nat)
    requires n + padding == 4 * groups && padding <= 2 && |digits| <= n
    ensures Reach(digits) <= 3 * groups - padding + 1
    ensures Reach(digits) > 3 * groups - padding <==> |digits| == n && padding > 0
  {
    JoinLength(digits);
    WholeBytes(|digits|, |Join(digits)|, groups, padding);
    OnePast(Reach(digits), |Join(digits)|, 3 * groups - padding, Place(|digits|) != 0, |digits| == n);
    if |digits| == n {
      PlaceBeforePadding(groups, n, padding);
    }
  }

  /** The loop reaches one byte past the promised output exactly when the text is padded and well formed
      before its padding, and never further. */
  lemma OverrunsIff(text: string)
    requires |text| % 4 == 0
    ensures Reach(Digits(text)) > OutputLength(text) <==> Overruns(text)
    ensures Reach(Digits(text)) <= OutputLength(text) + 1
  {
    DigitsBefore(text);
    AllDigitsIff(BeforePadding(text));
    OutputIs(text, |text| / 4);
    ReachPast(Digits(text), |BeforePadding(text)|, Padding(text), |text| / 4);
  }

  /** `base64_to_bin`. The program asks for *len bytes; where its loop would begin a byte past them, the
      buffer here has that one byte more, and it is written. */
  method Base64ToBin(base64: string) returns (bin: array?<Byte>, len: nat)
    ensures bin == null <==> |base64| % 4 != 0
    ensures bin != null ==>
              && len == OutputLength(base64) && |Join(Digits(base64))| <= len
              && bin.Length == (if Overruns(base64) then len + 1 else len)
              && bin[..|Join(Digits(base64))|] == Join(Digits(base64))
              && (Overruns(base64) ==> |Join(Digits(base64))| == len && Begun(Digits(base64), bin[len]))
  {
    len := 0;
    if |base64| % 4 != 0 {
      return null, len;
    }
    var padding := CountPadding(base64);
    len := |base64| / 4 * 3 - padding;
    OverrunsIff(base64);
    FullyDefinedIff(base64);
    var buffer := new Byte[if Overruns(base64) then len + 1 else len];
    DecodeInto(buffer, base64);
    bin := buffer;
  }

  method CountPadding(base64: string) returns (padding: nat)
    ensures padding == Padding(base64)
  {
    padding := 0;
    if |base64| > 0 && base64[|base64| - 1] == '=' {
      padding := padding + 1;
      if |base64| > 1 && base64[|base64| - 2] == '=' {
        padding := padding + 1;
      }
    }
  }

  /** What the decoder makes of an encoded text: all of its bytes, with the right length. */
  lemma EncodedIsDecoded(bytes: seq<Byte>)
    ensures |Encode(bytes)| % 4 == 0
    ensures OutputLength(Encode(bytes)) == |bytes| && Join(Digits(Encode(bytes))) == bytes
  {
    RoundTrip(bytes);
    EncodedLength(bytes, Encode(bytes));
  }

  lemma EncodedLength(bytes: seq<Byte>, text: string)
    requires text == Encode(bytes)
    ensures |text| % 4 == 0 && OutputLength(text) == |bytes|
  {
    var groups := Lengths(|bytes|);
    PaddingOfEncoded(bytes);
    OutputIs(text, groups);
  }

  lemma PaddingCounts(text: string, n: nat)
    requires 0 < n <= |text| <= n + 2 && text[n - 1] != '='
    requires forall k :: n <= k < |text| ==> text[k] == '='
    ensures Padding(text) == |text| - n
  {}

  lemma PaddingOfEncoded(bytes: seq<Byte>)
    ensures Padding(Encode(bytes)) == Pad(|bytes|)
  {
    var groups := Lengths(|bytes|);
    if bytes != [] {
      var digits := Sextets(Splitting(), bytes);
      var n := |digits|;
      assert Encode(bytes)[n - 1] == Char(digits[n - 1]);
      PaddingCounts(Encode(bytes), n);
    }
  }

  lemma TextInAlphabet(digits: seq<Digit>)
    ensures InAlphabet(Text(digits))
  {
    forall i | 0 <= i < |digits|
      ensures IndexOf(Text(digits)[i]) != -1
    {
      assert Text(digits)[i] == Char(digits[i]);
    }
  }

  /** So decoding the encoding of a byte string runs past the output exactly when the number of bytes is no
      multiple of three. */
  lemma EncodedOverrunsIff(bytes: seq<Byte>)
    ensures Overruns(Encode(bytes)) <==> |bytes| % 3 != 0
  {
    LengthsComputed(|bytes|);
    PaddingOfEncoded(bytes);
    var digits := Sextets(Splitting(), bytes);
    TextInAlphabet(digits);
    assert BeforePadding(Encode(bytes)) == Text(digits);
  }

  // ---------- the table and the text, written out ----------

  const UPPER: string := "ABCDEFGHIJKLMNOPQRSTUVWXYZ"
  const LOWER: string := "abcdefghijklmnopqrstuvwxyz"
  const REST: string := "0123456789+/"

  /** The characters of section 4 of RFC 4648, in their order. */
  const ALPHABET: string := UPPER + LOWER + REST

  lemma UpperIs(d: nat)
    requires d < 26
    ensures |UPPER| == 26 && UPPER[d] == 'A' + d as char
  {}

  lemma LowerIs(d: nat)
    requires d < 26
    ensures |LOWER| == 26 && LOWER[d] == 'a' + d as char
  {}

  lemma RestIs(d: nat)
    requires d < 12
    ensures |REST| == 12 && REST[d] == if d < 10 then '0' + d as char else if d == 10 then '+' else '/'
  {}

  lemma InThree(a: string, b: string, c: string, d: nat)
    requires d < |a| + |b| + |c|
    ensures (a + b + c)[d]
         == if d < |a| then a[d] else if d < |a| + |b| then b[d - |a|] else c[d - |a| - |b|]
  {}

  lemma TableLengths()
    ensures |UPPER| == 26 && |LOWER| == 26 && |REST| == 12 && |ALPHABET| == 64
  {}

  /** A digit is written as the character at its place in the table. */
  lemma CharIs(d: Digit)
    ensures |ALPHABET| == 64 && Char(d) == ALPHABET[d]
  {
    TableLengths();
    InThree(UPPER, LOWER, REST, d);
    if d < 26 {
      UpperIs(d);
    } else if d < 52 {
      LowerIs(d - 26);
    } else {
      RestIs(d - 52);
    }
  }

  /** And only those characters are read as digits. */
  lemma IndexIs(c: char)
    ensures IndexOf(c) == -1 <==> c !in ALPHABET
    ensures IndexOf(c) != -1 ==> |ALPHABET| == 64 && ALPHABET[IndexOf(c)] == c
  {
    TableLengths();
    if c in ALPHABET {
      var d :| 0 <= d < |ALPHABET| && ALPHABET[d] == c;
      CharIs(d);
    }
    if IndexOf(c) != -1 {
      CharIs(IndexOf(c));
      assert Char(IndexOf(c)) == c;
    }
  }

  /** Three bytes are four characters: the top six bits first. */
  lemma EncodedGroup(a: Byte, b: Byte, c: Byte, rest: seq<Byte>)
    ensures Encode([a, b, c] + rest)
         == [Char(a / 4), Char(a % 4 * 16 + b / 16), Char(b % 16 * 4 + c / 64), Char(c % 64)] + Encode(rest)
  {
    var bytes := [a, b, c] + rest;
    assert bytes[3..] == rest && bytes[0] == a && bytes[1] == b && bytes[2] == c;
    var (p, q, r, s) := Split(a, b, c);
    TextAppend([p, q, r, s], Sextets(Splitting(), rest));
    assert Text([p, q, r, s]) == [Char(p), Char(q), Char(r), Char(s)];
    Associative([Char(p), Char(q), Char(r), Char(s)], Text(Sextets(Splitting(), rest)), Equals(Pad(|rest|)));
  }

  /** What is left at the end is filled up with one or two equals signs. */
  lemma EncodedEnd(a: Byte, b: Byte)
    ensures Encode([]) == []
    ensures Encode([a]) == [Char(a / 4), Char(a % 4 * 16), '=', '=']
    ensures Encode([a, b]) == [Char(a / 4), Char(a % 4 * 16 + b / 16), Char(b % 16 * 4), '=']
  {
    assert Text(Sextets(Splitting(), [a])) == [Char(a / 4), Char(a % 4 * 16)];
    assert Text(Sextets(Splitting(), [a, b])) == [Char(a / 4), Char(a % 4 * 16 + b / 16), Char(b % 16 * 4)];
  }

  /** A round of the loop as it is written takes the next three bytes, as long as there are enough. */
  lemma WrittenRound(data: seq<Byte>, len: nat, i: nat)
    requires i + 3 < len <= |data|
    ensures var (more, last) := WrittenRounds(data, len - 1, i + 3);
            var digits := [data[i] / 4, data[i] % 4 * 16 + data[i + 1] / 16,
                           data[i + 1] % 16 * 4 + data[i + 2] / 64, data[i + 2] % 64];
            WrittenRounds(data, len, i) == (digits + more, last)
  {
    assert NextByte(data, len - 1, i) == (data[i], i + 1);
    assert NextByte(data, len - 1, i + 1) == (data[i + 1], i + 2);
    assert NextByte(data, len - 1, i + 2) == (data[i + 2], i + 3);
    RoundIs(data, len, i, data[i], data[i + 1], data[i + 2], i + 1, i + 2, i + 3);
  }
}
