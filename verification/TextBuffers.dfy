/** Texts in character buffers, their blanks, and the loops over them that several files have. */
module TextBuffers {
  import opened Tokens

  // ---------- the text of a buffer ----------

  /** The text that starts there in a buffer. */
  function TextAt(buffer: seq<char>, start: nat): string
    requires start <= |buffer|
  {
    CString(buffer[start..])
  }

  lemma {:induction false} CStringEnds(buffer: string, n: nat)
    requires n < |buffer| && '\0' !in buffer[..n] && buffer[n] == '\0'
    ensures CString(buffer) == buffer[..n]
    decreases n
  {
    if n > 0 {
      assert buffer[0] in buffer[..n];
      assert buffer[1..][..n - 1] == buffer[1..n];
      forall c | c in buffer[1..n]
        ensures c in buffer[..n]
      {
        var i :| 0 <= i < n - 1 && buffer[1..n][i] == c;
        assert buffer[..n][i + 1] == c;
      }
      CStringEnds(buffer[1..], n - 1);
      assert buffer[..n] == [buffer[0]] + buffer[1..n];
    }
  }

  lemma TextIn(buffer: seq<char>, start: nat)
    requires start <= |buffer| && start + |TextAt(buffer, start)| < |buffer|
    ensures var text := TextAt(buffer, start);
            && buffer[start..][..|text|] == text && buffer[start + |text|] == '\0' && '\0' !in text
            && forall i :: 0 <= i < |text| ==> text[i] == buffer[start + i] && text[i] != '\0'
  {}

  lemma CutAt(rest: seq<char>, text: string, n: nat)
    requires n <= |text| < |rest| && rest[..n] == text[..n] && rest[n] == '\0' && '\0' !in text
    ensures CString(rest) == text[..n]
  {
    assert forall c :: c in text[..n] ==> c in text;
    CStringEnds(rest, n);
  }

  /** The text from a place further on. */
  lemma TextBehind(buffer: seq<char>, start: nat, k: nat)
    requires start <= |buffer| && start + |TextAt(buffer, start)| < |buffer|
    requires k <= |TextAt(buffer, start)|
    ensures TextAt(buffer, start + k) == TextAt(buffer, start)[k..]
  {
    var text := TextAt(buffer, start);
    TextIn(buffer, start);
    assert buffer[start..][k..] == buffer[start + k..];
    TailOfText(buffer[start..], text, k);
  }

  lemma TailOfText(rest: seq<char>, text: string, k: nat)
    requires k <= |text| < |rest| && rest[..|text|] == text && rest[|text|] == '\0' && '\0' !in text
    ensures CString(rest[k..]) == text[k..]
  {
    var n := |text| - k;
    assert rest[k..][..n] == rest[..|text|][k..];
    assert rest[k..][n] == rest[|text|];
    assert forall c :: c in text[k..] ==> c in text;
    CStringEnds(rest[k..], n);
  }

  /** `strlen`. */
  method StringLength(buffer: array<char>, str: nat) returns (n: nat)
    requires str <= buffer.Length && str + |TextAt(buffer[..], str)| < buffer.Length
    ensures n == |TextAt(buffer[..], str)|
  {
    ghost var text := TextAt(buffer[..], str);
    TextIn(buffer[..], str);
    n := 0;
    while buffer[str + n] != '\0'
      invariant n <= |text|
      decreases |text| - n
    {
      n := n + 1;
    }
  }

  /** `memcpy` of a text to a place in the buffer. */
  method CopyInto(buffer: array<char>, at: nat, text: string) returns (end: nat)
    requires at + |text| <= buffer.Length
    modifies buffer
    ensures end == at + |text| && buffer[..end] == old(buffer[..at]) + text
  {
    for i := 0 to |text|
      invariant buffer[..at] == old(buffer[..at]) && buffer[at..at + i] == text[..i]
    {
      buffer[at + i] := text[i];
      assert text[..i + 1] == text[..i] + [text[i]];
    }
    end := at + |text|;
    assert buffer[..end] == buffer[..at] + buffer[at..end] && text[..|text|] == text;
  }

  // ---------- blanks at the ends ----------

  function TrimEnd(s: string): (t: string)
    ensures |t| <= |s|
  {
    if s != [] && IsSpace(s[|s| - 1]) then TrimEnd(s[..|s| - 1]) else s
  }

  /** The text without the blanks at both ends. */
  function Stripped(s: string): (t: string)
    ensures |t| <= |s|
  {
    TrimEnd(SkipBlanks(s))
  }

  predicate NoOuterBlanks(s: string) {
    s != [] ==> !IsSpace(s[0]) && !IsSpace(s[|s| - 1])
  }

  lemma {:induction false} SkipBlanksHead(s: string)
    requires SkipBlanks(s) != []
    ensures !IsSpace(SkipBlanks(s)[0])
    decreases |s|
  {
    if IsSpace(s[0]) {
      SkipBlanksHead(s[1..]);
    }
  }

  lemma {:induction false} TrimEndHead(s: string)
    requires s != [] && !IsSpace(s[0])
    ensures TrimEnd(s) != [] && TrimEnd(s)[0] == s[0] && !IsSpace(TrimEnd(s)[|TrimEnd(s)| - 1])
    decreases |s|
  {
    if IsSpace(s[|s| - 1]) {
      TrimEndHead(s[..|s| - 1]);
    }
  }

  lemma {:induction false} SkipBlanksAfter(s: string, k: nat)
    requires k <= |s| && forall i :: 0 <= i < k ==> IsSpace(s[i])
    ensures SkipBlanks(s) == SkipBlanks(s[k..])
    decreases k
  {
    if k > 0 {
      SkipBlanksAfter(s[1..], k - 1);
      assert s[1..][k - 1..] == s[k..];
    } else {
      assert s[0..] == s;
    }
  }

  lemma {:induction false} TrimEndBefore(s: string, k: nat)
    requires k <= |s| && forall i :: k <= i < |s| ==> IsSpace(s[i])
    ensures TrimEnd(s) == TrimEnd(s[..k])
    decreases |s| - k
  {
    if k < |s| {
      TrimEndBefore(s[..|s| - 1], k);
      assert s[..|s| - 1][..k] == s[..k];
    } else {
      assert s[..k] == s;
    }
  }

  /** Where the leading blanks end. */
  method SkipSpaces(buffer: array<char>, start: nat) returns (str: nat)
    requires start <= buffer.Length && start + |TextAt(buffer[..], start)| < buffer.Length
    ensures start <= str <= start + |TextAt(buffer[..], start)|
    ensures TextAt(buffer[..], str) == TextAt(buffer[..], start)[str - start..]
    ensures TextAt(buffer[..], str) == SkipBlanks(TextAt(buffer[..], start))
  {
    ghost var text := TextAt(buffer[..], start);
    TextIn(buffer[..], start);
    str := start;
    while IsSpace(buffer[str])
      invariant start <= str <= start + |text|
      invariant forall i :: 0 <= i < str - start ==> IsSpace(text[i])
      decreases start + |text| - str
    {
      str := str + 1;
    }
    SkipBlanksAfter(text, str - start);
    TextBehind(buffer[..], start, str - start);
  }
}
