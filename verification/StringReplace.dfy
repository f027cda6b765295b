/** `str_replace` and `str_join`: texts in pieces, and the buffers that hold them. */
module StringReplace {
  import opened Wrappers
  import opened Bytes
  import opened TextBuffers

  // ---------- pieces ----------

  /** The pieces with a separator between any two. */
  function JoinWith(pieces: seq<string>, separator: string): string {
    if pieces == [] then []
    else if |pieces| == 1 then pieces[0]
    else pieces[0] + separator + JoinWith(pieces[1..], separator)
  }

  predicate OccursAt(s: string, what: string, i: nat) {
    i + |what| <= |s| && s[i..i + |what|] == what
  }

  /** `strstr`: the first place where a text occurs, or one past the end. */
  function FindText(s: string, what: string): (i: nat)
    ensures i <= |s| + 1
    ensures i <= |s| ==> OccursAt(s, what, i)
    ensures forall j :: 0 <= j < i ==> !OccursAt(s, what, j)
  {
    FindFrom(s, what, 0)
  }

  function FindFrom(s: string, what: string, from: nat): (i: nat)
    requires from <= |s| + 1
    ensures from <= i <= |s| + 1
    ensures i <= |s| ==> OccursAt(s, what, i)
    ensures forall j :: from <= j < i ==> !OccursAt(s, what, j)
    decreases |s| + 1 - from
  {
    if from > |s| || OccursAt(s, what, from) then from else FindFrom(s, what, from + 1)
  }

  /** What is left between the leftmost occurrences that do not overlap. */
  function Segments(s: string, what: string): (segments: seq<string>)
    requires what != []
    ensures segments != []
    decreases |s|
  {
    var i := FindText(s, what);
    if i > |s| then [s] else [s[..i]] + Segments(s[i + |what|..], what)
  }

  function Replace(s: string, what: string, other: string): string
    requires what != []
  {
    JoinWith(Segments(s, what), other)
  }

  // ---------- what the segments are ----------

  lemma JoinFirst(piece: string, rest: seq<string>, separator: string)
    requires rest != []
    ensures JoinWith([piece] + rest, separator) == piece + separator + JoinWith(rest, separator)
  {
    assert ([piece] + rest)[1..] == rest;
  }

  /** The input is the segments joined by what is searched for. */
  lemma {:induction false} SegmentsMakeInput(s: string, what: string)
    requires what != []
    ensures JoinWith(Segments(s, what), what) == s
    decreases |s|
  {
    var i := FindText(s, what);
    if i <= |s| {
      var rest := s[i + |what|..];
      SegmentsMakeInput(rest, what);
      JoinFirst(s[..i], Segments(rest, what), what);
      assert s == s[..i] + s[i..i + |what|] + rest;
    }
  }

  /** Every piece but the last ends where the text that is searched for occurs first; it does not occur in
      the last. */
  ghost predicate Leftmost(pieces: seq<string>, what: string)
    decreases |pieces|
  {
    pieces != [] ==>
      var s := JoinWith(pieces, what);
      if |pieces| == 1 then FindText(s, what) > |s|
      else FindText(s, what) == |pieces[0]| && Leftmost(pieces[1..], what)
  }

  lemma {:induction false} SegmentsAreLeftmost(s: string, what: string)
    requires what != []
    ensures Leftmost(Segments(s, what), what)
    decreases |s|
  {
    SegmentsMakeInput(s, what);
    var i := FindText(s, what);
    if i <= |s| {
      SegmentsAreLeftmost(s[i + |what|..], what);
      assert Segments(s, what)[1..] == Segments(s[i + |what|..], what);
    }
  }

  lemma FirstSegment(s: string, what: string)
    requires what != []
    ensures if FindText(s, what) > |s| then Segments(s, what) == [s]
            else Segments(s, what) == [s[..FindText(s, what)]] + Segments(s[FindText(s, what) + |what|..], what)
  {}

  lemma SegmentsFrom(first: string, what: string, tail: string)
    requires what != [] && FindText(first + what + tail, what) == |first|
    ensures Segments(first + what + tail, what) == [first] + Segments(tail, what)
  {
    var s := first + what + tail;
    assert s[..|first|] == first && s[|first| + |what|..] == tail;
  }

  /** No other pieces of the input are. */
  lemma {:induction false} LeftmostIsUnique(pieces: seq<string>, s: string, what: string)
    requires what != [] && pieces != [] && JoinWith(pieces, what) == s && Leftmost(pieces, what)
    ensures pieces == Segments(s, what)
    decreases |pieces|
  {
    if |pieces| > 1 {
      var tail := JoinWith(pieces[1..], what);
      LeftmostIsUnique(pieces[1..], tail, what);
      SegmentsFrom(pieces[0], what, tail);
      assert pieces == [pieces[0]] + pieces[1..];
    }
  }

  // ---------- lengths ----------

  lemma {:induction false} JoinLengths(pieces: seq<string>, a: string, b: string)
    requires pieces != []
    ensures |JoinWith(pieces, b)| == |JoinWith(pieces, a)| + (|pieces| - 1) * (|b| - |a|)
    decreases |pieces|
  {
    if |pieces| > 1 {
      JoinLengths(pieces[1..], a, b);
      assert (|pieces| - 1) * (|b| - |a|) == (|pieces| - 2) * (|b| - |a|) + (|b| - |a|);
    }
  }

  lemma ReplaceLength(s: string, what: string, other: string)
    requires what != []
    ensures |Replace(s, what, other)| == |s| + (|Segments(s, what)| - 1) * (|other| - |what|)
  {
    SegmentsMakeInput(s, what);
    JoinLengths(Segments(s, what), what, other);
  }

  /** The size as the program computes it, in unsigned 64-bit arithmetic. */
  function Size(strLen: nat, count: nat, newLen: nat, oldLen: nat): (size: nat)
    ensures size < UINT64
  {
    var difference := (newLen - oldLen) % UINT64;
    var product := count * difference % UINT64;
    (strLen + product + 1) % UINT64
  }

  lemma ProductWraps(count: nat, d: int, modulus: nat)
    requires modulus > 0
    ensures count * (d % modulus) % modulus == count * d % modulus
  {
    var difference, turns := d % modulus, d / modulus;
    var n := count * difference;
    CountTimes(count, d, difference, turns, modulus);
    var q, r := n / modulus, n % modulus;
    assert count * d == (q + count * turns) * modulus + r by {
      assert n == q * modulus + r;
    }
    RemainderIs(count * d, q + count * turns, r, modulus);
  }

  lemma CountTimes(count: int, d: int, difference: int, turns: int, modulus: int)
    requires d == difference + turns * modulus
    ensures count * d == count * difference + (count * turns) * modulus
  {}

  /** The size is exact even where the difference is negative and the product wraps. */
  lemma SizeIsExact(strLen: nat, count: nat, newLen: nat, oldLen: nat)
    requires 0 <= strLen + count * (newLen - oldLen) < UINT64 - 1
    ensures Size(strLen, count, newLen, oldLen) == strLen + count * (newLen - oldLen) + 1
  {
    var d := newLen - oldLen;
    var added := count * d;
    ProductWraps(count, d, UINT64);
    WrapsAlike(added, strLen + 1, UINT64);
    RemainderIs(added + strLen + 1, 0, added + strLen + 1, UINT64);
  }

  // ---------- the program ----------

  function Plus(n: nat, count: Option<nat>): Option<nat> {
    if count == None then None else Some(n + count.value)
  }

  /** The counting pass cut off after so many turns: None when the turns do not suffice. */
  function CountWithin(tmp: string, what: string, turns: nat): Option<nat>
    decreases turns
  {
    if turns == 0 then None else
    var found := FindText(tmp, what);
    if found > |tmp| then Some(0) else
    Plus(1, CountWithin(tmp[found + |what|..], what, turns - 1))
  }

  lemma {:induction false} EmptyTextIsFoundForEver(str: string, turns: nat)
    ensures CountWithin(str, "", turns) == None
    decreases turns
  {
    if turns > 0 {
      assert OccursAt(str, "", 0) && FindText(str, "") == 0;
      EmptyTextIsFoundForEver(str[0..], turns - 1);
    }
  }

  /** The pass needs a turn for every segment, and counts the places between them. */
  lemma {:induction false} TurnsNeeded(str: string, what: string, turns: nat)
    requires what != []
    ensures CountWithin(str, what, turns)
         == if turns >= |Segments(str, what)| then Some(|Segments(str, what)| - 1) else None
    decreases turns
  {
    var found := FindText(str, what);
    if turns > 0 && found <= |str| {
      var rest := str[found + |what|..];
      FirstSegment(str, what);
      TurnsNeeded(rest, what, turns - 1);
    }
  }

  /** The counting pass ends exactly when the text that is searched for is not empty. */
  lemma CountEndsIff(str: string, what: string)
    ensures (exists turns :: CountWithin(str, what, turns).Some?) <==> what != []
  {
    if what != [] {
      TurnsNeeded(str, what, |Segments(str, what)|);
    } else {
      forall turns ensures CountWithin(str, what, turns) == None {
        EmptyTextIsFoundForEver(str, turns);
      }
    }
  }

  lemma CountNext(tmp: string, what: string, left: nat, n: nat)
    requires left > 0
    ensures Plus(n, CountWithin(tmp, what, left))
         == if FindText(tmp, what) > |tmp| then Some(n)
            else Plus(n + 1, CountWithin(tmp[FindText(tmp, what) + |what|..], what, left - 1))
  {}

  /** The counting pass, cut off after so many turns. A pointer into the text is what is left of the text
      from there. */
  method CountOccurrences(str: string, what: string, turns: nat) returns (count: Option<nat>)
    ensures count == CountWithin(str, what, turns)
  {
    var n, tmp, left := 0, str, turns;
    while left > 0
      invariant CountWithin(str, what, turns) == Plus(n, CountWithin(tmp, what, left))
    {
      var found := FindText(tmp, what);
      CountNext(tmp, what, left, n);
      if found > |tmp| {
        return Some(n);
      }
      n := n + 1;
      tmp := tmp[found + |what|..];
      left := left - 1;
    }
    count := None;
  }

  lemma NextReplaced(s: string, what: string, other: string)
    requires what != [] && |Segments(s, what)| > 1
    ensures var i := FindText(s, what);
            && i + |what| <= |s|
            && |Segments(s, what)| == 1 + |Segments(s[i + |what|..], what)|
            && Replace(s, what, other) == s[..i] + other + Replace(s[i + |what|..], what, other)
  {
    FirstSegment(s, what);
    var i := FindText(s, what);
    JoinFirst(s[..i], Segments(s[i + |what|..], what), other);
  }

  /** What is written so far and what is still to be written make the result, which fits the buffer. */
  ghost predicate Written(buffer: array<char>, current: nat, rest: string, all: string)
    reads buffer
  {
    buffer.Length == |all| + 1 && current + |rest| == |all| && buffer[..current] + rest == all
  }

  /** One turn of the building loop. */
  method PutSegment(result: array<char>, at: nat, segment: string, other: string, ghost rest: string, ghost all: string)
    returns (current: nat)
    requires Written(result, at, segment + other + rest, all)
    modifies result
    ensures Written(result, current, rest, all)
  {
    current := CopyInto(result, at, segment);
    current := CopyInto(result, current, other);
    assert result[..current] + rest == old(result[..at]) + (segment + other + rest);
  }

  /** `strcpy` of the rest. */
  method PutRest(result: array<char>, at: nat, rest: string, ghost all: string)
    requires Written(result, at, rest, all)
    modifies result
    ensures result[..] == all + ['\0']
  {
    var current := CopyInto(result, at, rest);
    result[current] := '\0';
    assert result[..] == result[..current] + ['\0'];
  }

  /** The building pass, into a buffer that is just large enough. */
  method Build(result: array<char>, str: string, what: string, other: string, occurrences: nat, ghost all: string)
    requires what != [] && occurrences == |Segments(str, what)| - 1
    requires all == Replace(str, what, other) && result.Length == |all| + 1
    modifies result
    ensures result[..] == all + ['\0']
  {
    var current, start, count := 0, str, occurrences;
    StartsWritten(result, all);
    while count > 0
      invariant count == |Segments(start, what)| - 1
      invariant Written(result, current, Replace(start, what, other), all)
      decreases count
    {
      NextReplaced(start, what, other);
      var found := FindText(start, what);
      var next := start[found + |what|..];
      current := PutSegment(result, current, start[..found], other, Replace(next, what, other), all);
      start := next;
      count := count - 1;
    }
    PutRest(result, current, start, all);
  }

  lemma StartsWritten(buffer: array<char>, all: string)
    requires buffer.Length == |all| + 1
    ensures Written(buffer, 0, all, all)
  {
    assert buffer[..0] + all == all;
  }

  /** `str_replace`, for texts so short that neither the number of occurrences nor the length overflows, with
      the counting pass cut off after so many turns: null when they do not suffice. */
  method StrReplace(str: string, what: string, other: string, turns: nat) returns (result: array?<char>)
    requires |str| < 0x8000_0000
    requires what != [] ==> |Replace(str, what, other)| < UINT64 - 1
    ensures result != null <==> what != [] && turns >= |Segments(str, what)|
    ensures result != null ==> fresh(result) && result[..] == Replace(str, what, other) + ['\0']
  {
    var count := CountOccurrences(str, what, turns);
    if what == [] {
      EmptyTextIsFoundForEver(str, turns);
    } else {
      TurnsNeeded(str, what, turns);
    }
    if count == None {
      return null;
    }
    ReplaceLength(str, what, other);
    SizeIsExact(|str|, count.value, |other|, |what|);
    var newSize := Size(|str|, count.value, |other|, |what|);
    var buffer := new char[newSize];
    Build(buffer, str, what, other, count.value, Replace(str, what, other));
    result := buffer;
  }
}
