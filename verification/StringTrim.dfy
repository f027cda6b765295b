/** `str_trim`, in place: the trim that takes blanks off both ends. */
module StringTrim {
  import opened TextBuffers
  import opened Tokens

  // ---------- what the trim is ----------

  ghost predicate Blank(s: string) {
    forall i :: 0 <= i < |s| ==> IsSpace(s[i])
  }

  lemma {:induction false} LeadIsBlank(s: string) returns (lead: string)
    ensures s == lead + SkipBlanks(s) && Blank(lead)
    decreases |s|
  {
    if s != [] && IsSpace(s[0]) {
      var more := LeadIsBlank(s[1..]);
      lead := [s[0]] + more;
    } else {
      lead := [];
    }
  }

  lemma {:induction false} TailIsBlank(s: string) returns (tail: string)
    ensures s == TrimEnd(s) + tail && Blank(tail)
    decreases |s|
  {
    if s != [] && IsSpace(s[|s| - 1]) {
      var more := TailIsBlank(s[..|s| - 1]);
      tail := more + [s[|s| - 1]];
    } else {
      tail := [];
    }
  }

  /** The trimmed text has no blank at either end, and only blanks were taken off. */
  lemma TrimTakesBlanks(s: string) returns (lead: string, tail: string)
    ensures NoOuterBlanks(Stripped(s))
    ensures s == lead + Stripped(s) + tail && Blank(lead) && Blank(tail)
  {
    lead := LeadIsBlank(s);
    var t := SkipBlanks(s);
    tail := TailIsBlank(t);
    if t != [] {
      SkipBlanksHead(s);
      TrimEndHead(t);
    }
    assert lead + (TrimEnd(t) + tail) == lead + TrimEnd(t) + tail;
  }

  // ---------- str_ltrim, str_rtrim, str_trim ----------

  /** `memmove` of a text and its NUL to the front of the buffer. */
  method MoveDown(buffer: array<char>, p: nat, count: nat)
    requires p + count <= buffer.Length
    modifies buffer
    ensures buffer[..count] == old(buffer[p..p + count])
  {
    for i := 0 to count
      invariant forall k :: 0 <= k < i ==> buffer[k] == old(buffer[p + k])
      invariant forall k :: p + i <= k < buffer.Length ==> buffer[k] == old(buffer[k])
    {
      buffer[i] := buffer[p + i];
    }
  }

  lemma MovedText(before: seq<char>, after: seq<char>, p: nat, text: string)
    requires p <= |before| == |after| && text == TextAt(before, p) && p + |text| < |before|
    requires after[..|text| + 1] == before[p..p + |text| + 1]
    ensures TextAt(after, 0) == text
  {
    TextIn(before, p);
    assert before[p..][..|text|] == text;
    assert after[..|text|] == before[p..][..|text|];
    assert after[|text|] == before[p..p + |text| + 1][|text|];
    CStringEnds(after, |text|);
    assert after[0..] == after;
  }

  method StrLtrim(buffer: array<char>)
    requires |TextAt(buffer[..], 0)| < buffer.Length
    modifies buffer
    ensures TextAt(buffer[..], 0) == SkipBlanks(old(TextAt(buffer[..], 0)))
    ensures |TextAt(buffer[..], 0)| < buffer.Length
  {
    var p := SkipSpaces(buffer, 0);
    if p != 0 {
      ghost var before := buffer[..];
      var length := StringLength(buffer, p);
      MoveDown(buffer, p, length + 1);
      MovedText(before, buffer[..], p, TextAt(before, p));
    }
  }

  method StrRtrim(buffer: array<char>)
    requires |TextAt(buffer[..], 0)| < buffer.Length
    modifies buffer
    ensures TextAt(buffer[..], 0) == TrimEnd(old(TextAt(buffer[..], 0)))
  {
    ghost var text := TextAt(buffer[..], 0);
    TextIn(buffer[..], 0);
    var length := StringLength(buffer, 0);
    var p := length as int - 1;
    while p >= 0 && IsSpace(buffer[p])
      invariant -1 <= p < length
      invariant forall i :: p < i < length ==> IsSpace(text[i])
    {
      p := p - 1;
    }
    TrimEndBefore(text, p + 1);
    assert p >= 0 ==> text[..p + 1][p] == text[p];
    buffer[p + 1] := '\0';
    CutAt(buffer[..][0..], text, p + 1);
  }

  /** `str_trim`. */
  method StrTrim(buffer: array<char>)
    requires |TextAt(buffer[..], 0)| < buffer.Length
    modifies buffer
    ensures TextAt(buffer[..], 0) == Stripped(old(TextAt(buffer[..], 0)))
  {
    StrLtrim(buffer);
    StrRtrim(buffer);
  }
}
