/** The file-start message of file_transfer.c: `name|size|hex digest`, as `start_file_send` prints it and
    `start_file_receive` takes it apart. */
module FileHeader {
  import opened Wrappers
  import opened Bytes
  import opened Tokens
  import opened TextBuffers

  const MAX_FILENAME_LEN: nat := 512
  const DIGEST_LENGTH: nat := 32

  datatype Info = Info(name: string, size: nat, digest: seq<Byte>)

  // ---------- numbers as text ----------

  function Digit(n: nat): (c: char)
    requires n < 10
    ensures IsDigit(c) && c as int == 48 + n
  {
    (48 + n) as char
  }

  /** `%lu`. */
  function Decimal(n: nat): (s: string)
    ensures s != [] && forall c :: c in s ==> IsDigit(c)
  {
    if n < 10 then [Digit(n)] else Decimal(n / 10) + [Digit(n % 10)]
  }

  function DigitValue(c: char): (n: nat)
    requires IsDigit(c)
    ensures n < 10
  {
    c as int - 48
  }

  function DecimalValue(s: string): nat
    requires forall c :: c in s ==> IsDigit(c)
    decreases |s|
  {
    if s == [] then 0 else 10 * DecimalValue(s[..|s| - 1]) + DigitValue(s[|s| - 1])
  }

  function LeadingDigits(s: string): (d: string)
    ensures |d| <= |s| && d == s[..|d|]
    ensures forall c :: c in d ==> IsDigit(c)
    decreases |s|
  {
    if s == [] || !IsDigit(s[0]) then [] else [s[0]] + LeadingDigits(s[1..])
  }

  /** `strtoull` to base ten: leading blanks, an optional sign, digits; the largest value on overflow. */
  function Strtoull(s: string): (n: nat)
    ensures n < UINT64
  {
    SignedValue(SkipBlanks(s))
  }

  function SignedValue(t: string): (n: nat)
    ensures n < UINT64
  {
    if t != [] && (t[0] == '-' || t[0] == '+') then Clamped(t[0] == '-', DecimalValue(LeadingDigits(t[1..])))
    else Clamped(false, DecimalValue(LeadingDigits(t)))
  }

  function Clamped(minus: bool, v: nat): (n: nat)
    ensures n < UINT64
  {
    if v >= UINT64 then UINT64 - 1 else if minus then (UINT64 - v) % UINT64 else v
  }

  function HexChar(v: nat): (c: char)
    requires v < 16
    ensures c != '|' && c != '\0'
  {
    if v < 10 then (48 + v) as char else (87 + v) as char
  }

  /** `%02x`, byte after byte. */
  function Hex(bytes: seq<Byte>): (s: string)
    ensures |s| == 2 * |bytes|
    ensures forall c :: c in s ==> c != '|' && c != '\0'
  {
    if bytes == [] then []
    else Hex(bytes[..|bytes| - 1]) + [HexChar(bytes[|bytes| - 1] / 16), HexChar(bytes[|bytes| - 1] % 16)]
  }

  function HexValue(c: char): int {
    if '0' <= c <= '9' then c as int - 48
    else if 'a' <= c <= 'f' then c as int - 87
    else if 'A' <= c <= 'F' then c as int - 55
    else -1
  }

  /** `strtol` to base sixteen on two characters, cut to a byte. */
  function HexPair(a: char, b: char): Byte {
    var x, y := HexValue(a), HexValue(b);
    if x >= 0 then (if y >= 0 then 16 * x + y else x)
    else if y < 0 then 0
    else if IsSpace(a) || a == '+' then y
    else if a == '-' then (256 - y) % 256
    else 0
  }

  function FromHex(s: string): (bytes: seq<Byte>)
    requires |s| % 2 == 0
    ensures |bytes| == |s| / 2
  {
    seq(|s| / 2, i requires 0 <= i < |s| / 2 => HexPair(s[2 * i], s[2 * i + 1]))
  }

  // ---------- the message ----------

  function Format(info: Info): string {
    info.name + "|" + Decimal(info.size) + "|" + Hex(info.digest)
  }

  /** What `start_file_receive` reads out of the message, or nothing where it gives up. */
  function Parse(message: string): Option<Info> {
    if message == [] || |message| >= MAX_FILENAME_LEN + 100 then None else
    var name := NextToken(CString(message), "|");
    var size := NextToken(name.1, "|");
    var digest := NextToken(size.1, "|");
    if name.0 == None || size.0 == None || digest.0 == None then None
    else FromFields(name.0.value, size.0.value, digest.0.value)
  }

  function FromFields(name: string, size: string, digest: string): Option<Info> {
    if Strtoull(size) == 0 || |digest| != 2 * DIGEST_LENGTH then None
    else Some(Info(name, Strtoull(size), FromHex(digest)))
  }

  /** What a file to be sent has: a C string for a name, a 64-bit size and a digest. */
  ghost predicate Sendable(info: Info) {
    '\0' !in info.name && 0 < info.size < UINT64 && |info.digest| == DIGEST_LENGTH
  }

  const BUFFER_SIZE: nat := MAX_FILENAME_LEN + 20

  ghost predicate Printable(info: Info) {
    Sendable(info) && |Format(info)| < BUFFER_SIZE
  }

  // ---------- printing into the buffer ----------

  /** How much of a text stands in the buffer. */
  function Kept(text: string): (n: nat)
    ensures n <= |text|
  {
    if |text| < BUFFER_SIZE then |text| else BUFFER_SIZE - 1
  }

  /** The buffer holds the text, cut to what fits, and a NUL. */
  ghost predicate Holds(buffer: array<char>, text: string)
    requires buffer.Length == BUFFER_SIZE
    reads buffer
  {
    buffer[..Kept(text)] == text[..Kept(text)] && buffer[Kept(text)] == '\0'
  }

  /** `snprintf(start_data + at, sizeof(start_data) - at, ...)`. The size is a difference of unsigned numbers:
      once `at` has passed the end it is huge, and the call would write outside the buffer; then nothing is
      written here, and the call says so. */
  method PrintAt(buffer: array<char>, at: nat, text: string, ghost front: string) returns (inside: bool)
    requires buffer.Length == BUFFER_SIZE && at == |front| < 0x8000_0000 && 0 < |text| < 0x8000_0000
    requires front != [] ==> Holds(buffer, front)
    modifies buffer
    ensures inside <==> at <= BUFFER_SIZE
    ensures inside ==> Holds(buffer, front + text)
  {
    var size := (buffer.Length - at) % UINT64;
    var n := if |text| < size then |text| else if size > 0 then size - 1 else 0;
    if size > 0 && at + n >= buffer.Length {
      return false;
    }
    if size > 0 {
      var end := CopyInto(buffer, at, text[..n]);
      buffer[end] := '\0';
      PrintedOn(front, text, n);
    } else {
      PrintedBehind(front, text);
    }
    inside := true;
  }

  lemma PrintedOn(front: string, text: string, n: nat)
    requires n <= |text| && |front| + n == Kept(front + text)
    ensures (front + text)[..Kept(front + text)] == front + text[..n]
  {}

  lemma PrintedBehind(front: string, text: string)
    requires |front| >= BUFFER_SIZE
    ensures Kept(front + text) == Kept(front)
    ensures (front + text)[..Kept(front + text)] == front[..Kept(front)]
  {}

  /** The printing of `start_file_send`, up to the first call that would write outside the buffer. */
  method PrintHeader(info: Info, buffer: array<char>) returns (written: nat, inside: bool)
    requires |info.digest| == DIGEST_LENGTH && |Format(info)| < 0x8000_0000
    requires buffer.Length == BUFFER_SIZE
    modifies buffer
    ensures inside <==> |Format(info)| <= 534
    ensures inside ==> written == |Format(info)|
    ensures inside && |Format(info)| <= 531 ==>
              buffer[..|Format(info)|] == Format(info) && buffer[|Format(info)|] == '\0'
    ensures inside && |Format(info)| > 531 ==> buffer[..531] == Format(info)[..531] && buffer[531] == '\0'
  {
    inside := PrintAt(buffer, 0, Front(info), []);
    written := |Front(info)|;
    Printed(info, 0);
    for i := 0 to DIGEST_LENGTH
      invariant written == |Front(info)| + 2 * i
      invariant Holds(buffer, UpTo(info, i))
      invariant i > 0 ==> |Front(info)| + 2 * (i - 1) <= BUFFER_SIZE
    {
      var pair := [HexChar(info.digest[i] / 16), HexChar(info.digest[i] % 16)];
      Printed(info, i);
      inside := PrintAt(buffer, written, pair, UpTo(info, i));
      if !inside {
        return;
      }
      written := written + 2;
    }
    Printed(info, DIGEST_LENGTH);
    assert Kept(Format(info)) == |Format(info)| ==> Format(info)[..|Format(info)|] == Format(info);
    inside := true;
  }

  function Front(info: Info): (front: string)
    ensures front != []
  {
    info.name + "|" + Decimal(info.size) + "|"
  }

  /** The text after so many bytes of the digest. */
  function UpTo(info: Info, i: nat): (text: string)
    requires i <= |info.digest|
    ensures |text| == |Front(info)| + 2 * i
  {
    Front(info) + Hex(info.digest[..i])
  }

  lemma Printed(info: Info, i: nat)
    requires i <= |info.digest| == DIGEST_LENGTH
    ensures |Format(info)| == |Front(info)| + 2 * DIGEST_LENGTH
    ensures i == 0 ==> UpTo(info, i) == [] + Front(info)
    ensures i == DIGEST_LENGTH ==> UpTo(info, i) == Format(info)
    ensures i < DIGEST_LENGTH ==>
              UpTo(info, i + 1) == UpTo(info, i) + [HexChar(info.digest[i] / 16), HexChar(info.digest[i] % 16)]
  {
    var d := info.digest;
    if i == DIGEST_LENGTH {
      assert d[..i] == d;
    } else {
      assert d[..i + 1][..i] == d[..i];
    }
  }

  /** What may be sent: as many characters as were printed, from a buffer that holds the text. */
  ghost predicate Sent(info: Info, message: string) {
    var text := Format(info);
    && |message| == |text|
    && (if |text| <= 531 then message == text else message[..531] == text[..531] && message[531] == '\0')
  }

  // ---------- it undoes itself ----------

  lemma {:induction false} DecimalRoundTrip(n: nat)
    ensures DecimalValue(Decimal(n)) == n
    decreases n
  {
    if n >= 10 {
      DecimalRoundTrip(n / 10);
      assert Decimal(n)[..|Decimal(n)| - 1] == Decimal(n / 10);
    } else {
      assert Decimal(n)[..0] == [];
    }
  }

  lemma {:induction false} AllLeadingDigits(s: string)
    requires forall c :: c in s ==> IsDigit(c)
    ensures LeadingDigits(s) == s
    decreases |s|
  {
    if s != [] {
      AllLeadingDigits(s[1..]);
    }
  }

  lemma StrtoullOfDecimal(n: nat)
    requires n < UINT64
    ensures Strtoull(Decimal(n)) == n
  {
    var s := Decimal(n);
    assert s[0] in s;
    assert SkipBlanks(s) == s;
    AllLeadingDigits(s);
    DecimalRoundTrip(n);
  }

  lemma HexPairRoundTrip(b: Byte)
    ensures HexPair(HexChar(b / 16), HexChar(b % 16)) == b
  {}

  lemma {:induction false} HexAt(bytes: seq<Byte>, i: nat)
    requires i < |bytes|
    ensures Hex(bytes)[2 * i] == HexChar(bytes[i] / 16) && Hex(bytes)[2 * i + 1] == HexChar(bytes[i] % 16)
    decreases |bytes|
  {
    if i < |bytes| - 1 {
      HexAt(bytes[..|bytes| - 1], i);
    }
  }

  lemma HexRoundTrip(bytes: seq<Byte>)
    ensures FromHex(Hex(bytes)) == bytes
  {
    forall i | 0 <= i < |bytes|
      ensures FromHex(Hex(bytes))[i] == bytes[i]
    {
      HexAt(bytes, i);
      HexPairRoundTrip(bytes[i]);
    }
  }

  lemma ThreeTokens(message: string, name: string, size: string, digest: string)
    requires name != [] && size != [] && digest != []
    requires Free(name, "|") && Free(size, "|") && Free(digest, "|")
    requires message == name + ['|'] + (size + ['|'] + digest)
    ensures NextToken(message, "|") == (Some(name), size + ['|'] + digest)
    ensures NextToken(size + ['|'] + digest, "|") == (Some(size), digest)
    ensures NextToken(digest, "|") == (Some(digest), [])
  {
    NextTokenUpTo(name, '|', size + ['|'] + digest, "|");
    NextTokenUpTo(size, '|', digest, "|");
    NextTokenWhole(digest, "|");
  }

  /** Any three fields without separators are read as they stand, if the size is not zero and the digest has
      sixty-four characters; otherwise nothing is. */
  lemma ParseOfParts(message: string, name: string, size: string, digest: string)
    requires name != [] && size != [] && digest != []
    requires Free(name, "|") && Free(size, "|") && Free(digest, "|")
    requires message == name + ['|'] + (size + ['|'] + digest)
    requires '\0' !in message && |message| < 612
    ensures Parse(message)
         == if Strtoull(size) != 0 && |digest| == 64 then Some(Info(name, Strtoull(size), FromHex(digest))) else None
  {
    CStringOfText(message);
    ThreeTokens(message, name, size, digest);
  }

  /** A message that is empty, or too long for the buffer it is copied to, is not read; nor is one without
      three fields. */
  lemma ParseRefuses(message: string)
    ensures |message| == 0 || |message| >= 612 ==> Parse(message) == None
    ensures '|' !in message ==> Parse(message) == None
  {
    var text := CString(message);
    if '|' !in message && text != [] {
      assert Free(text, "|");
      NextTokenWhole(text, "|");
    }
  }

  /** The number that digits stand for: the largest 64-bit number if it is too large. */
  function Saturated(digits: string): nat
    requires forall c :: c in digits ==> IsDigit(c)
  {
    if DecimalValue(digits) > 0xFFFF_FFFF_FFFF_FFFF then 0xFFFF_FFFF_FFFF_FFFF else DecimalValue(digits)
  }

  /** Blanks are skipped, and the number ends before the first character that is no digit. */
  lemma UnsignedRead(blanks: string, digits: string, rest: string)
    requires forall c :: c in blanks ==> IsSpace(c)
    requires digits != [] && forall c :: c in digits ==> IsDigit(c)
    requires rest != [] ==> !IsDigit(rest[0])
    ensures Strtoull(blanks + (digits + rest)) == Saturated(digits)
  {
    assert (digits + rest)[0] in digits;
    BlanksSkipped(blanks, digits + rest);
    DigitsRead(digits, rest);
  }

  /** A plus sign changes nothing; a minus sign gives the negative modulo 2^64 of a number that is not too
      large. */
  lemma SignedRead(blanks: string, sign: char, digits: string, rest: string)
    requires forall c :: c in blanks ==> IsSpace(c)
    requires (sign == '+' || sign == '-') && forall c :: c in digits ==> IsDigit(c)
    requires rest != [] ==> !IsDigit(rest[0])
    ensures Strtoull(blanks + ([sign] + (digits + rest)))
         == if sign == '-' && 0 < DecimalValue(digits) <= 0xFFFF_FFFF_FFFF_FFFF
            then 0x1_0000_0000_0000_0000 - DecimalValue(digits) else Saturated(digits)
  {
    DigitsRead(digits, rest);
    SignFirst(blanks, sign, digits + rest);
    ClampedIs(sign == '-', DecimalValue(digits));
  }

  lemma SignFirst(blanks: string, sign: char, t: string)
    requires forall c :: c in blanks ==> IsSpace(c)
    requires sign == '+' || sign == '-'
    ensures Strtoull(blanks + ([sign] + t)) == Clamped(sign == '-', DecimalValue(LeadingDigits(t)))
  {
    assert ([sign] + t)[1..] == t;
    BlanksSkipped(blanks, [sign] + t);
  }

  lemma ClampedIs(minus: bool, v: nat)
    ensures Clamped(minus, v)
         == if v > 0xFFFF_FFFF_FFFF_FFFF then 0xFFFF_FFFF_FFFF_FFFF
            else if minus && v > 0 then 0x1_0000_0000_0000_0000 - v
            else v
  {}

  lemma {:induction false} BlanksSkipped(blanks: string, text: string)
    requires forall c :: c in blanks ==> IsSpace(c)
    requires text != [] && !IsSpace(text[0])
    ensures SkipBlanks(blanks + text) == text
    decreases |blanks|
  {
    if blanks == [] {
      assert blanks + text == text;
    } else {
      assert blanks[0] in blanks && (blanks + text)[1..] == blanks[1..] + text;
      BlanksSkipped(blanks[1..], text);
    }
  }

  lemma {:induction false} DigitsRead(digits: string, rest: string)
    requires forall c :: c in digits ==> IsDigit(c)
    requires rest != [] ==> !IsDigit(rest[0])
    ensures LeadingDigits(digits + rest) == digits
    decreases |digits|
  {
    if digits == [] {
      assert digits + rest == rest;
    } else {
      assert digits[0] in digits && (digits + rest)[1..] == digits[1..] + rest;
      DigitsRead(digits[1..], rest);
    }
  }

  /** What a number looks like: its last digit, behind those of the rest. */
  lemma DecimalIs(n: nat)
    ensures |Decimal(n)| > 0 && Decimal(n)[|Decimal(n)| - 1] as int == 48 + n % 10
    ensures n < 10 ==> |Decimal(n)| == 1
    ensures n >= 10 ==> Decimal(n)[..|Decimal(n)| - 1] == Decimal(n / 10)
  {}

  /** The sixteen hexadecimal digits, in both cases. */
  lemma HexDigitsAre(v: nat)
    requires v < 16
    ensures HexChar(v) == "0123456789abcdef"[v]
    ensures HexValue("0123456789abcdef"[v]) == v && HexValue("0123456789ABCDEF"[v]) == v
  {}

  /** A pair of characters is read as a byte; what is no digit ends the number, a blank or a sign may lead. */
  lemma HexPairIs(a: char, b: char)
    ensures var x, y := HexValue(a), HexValue(b);
            && (x >= 0 && y >= 0 ==> HexPair(a, b) == 16 * x + y)
            && (x >= 0 && y < 0 ==> HexPair(a, b) == x)
            && (x < 0 && y < 0 ==> HexPair(a, b) == 0)
            && (x < 0 && y >= 0 && (IsSpace(a) || a == '+') ==> HexPair(a, b) == y)
            && (x < 0 && y > 0 && a == '-' ==> HexPair(a, b) == 256 - y)
            && (x < 0 && y >= 0 && !IsSpace(a) && a != '+' && a != '-' ==> HexPair(a, b) == 0)
  {}

  /** Only the ten digits and the letters A to F, in both cases, are hexadecimal digits. */
  lemma OnlyHexDigits(c: char)
    ensures HexValue(c) >= 0 <==> c in "0123456789abcdefABCDEF"
  {
    assert forall v: nat :: v < 16 ==> "0123456789abcdef"[v] in "0123456789abcdefABCDEF";
  }

  lemma WholeHeaderRoundTripIff(info: Info)
    requires Printable(info)
    ensures Parse(Format(info)) == Some(info) <==> info.name != [] && '|' !in info.name
  {
    if info.name != [] && '|' !in info.name {
      var size, digest := Decimal(info.size), Hex(info.digest);
      StrtoullOfDecimal(info.size);
      HexRoundTrip(info.digest);
      assert Format(info) == info.name + ['|'] + (size + ['|'] + digest);
      ParseOfParts(Format(info), info.name, size, digest);
    }
  }

  /** A message that was cut has too few digest characters. */
  lemma CutHeaderIsRefused(info: Info, message: string)
    requires Sendable(info) && Sent(info, message)
    requires BUFFER_SIZE <= |Format(info)| <= BUFFER_SIZE + 2
    requires info.name != [] && '|' !in info.name
    ensures Parse(message) == None
  {
    var size, digest := Decimal(info.size), Hex(info.digest);
    var front := info.name + ['|'] + (size + ['|']);
    var k := Kept(Format(info)) - |front|;
    assert Format(info) == front + digest;
    assert message[..Kept(Format(info))] == front + digest[..k];
    forall c | c in digest[..k]
      ensures c in digest && c != '|' && c != '\0'
    {}
    CStringEnds(message, Kept(Format(info)));
    assert front + digest[..k] == info.name + ['|'] + (size + ['|'] + digest[..k]);
    ThreeTokens(CString(message), info.name, size, digest[..k]);
  }

  /** As long as the printing stays inside the buffer, the message that is sent gives back the same name,
      size and digest exactly when it was printed whole and the name is not empty and holds no separator. */
  lemma HeaderRoundTripIff(info: Info, message: string)
    requires Sendable(info) && |Format(info)| <= 534
    requires Sent(info, message)
    ensures Parse(message) == Some(info) <==>
              |Format(info)| < 532 && info.name != [] && '|' !in info.name
  {
    if |Format(info)| < BUFFER_SIZE {
      assert message == Format(info);
      WholeHeaderRoundTripIff(info);
    } else if info.name != [] && '|' !in info.name {
      CutHeaderIsRefused(info, message);
    }
  }
}
