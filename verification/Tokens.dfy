/** C strings, character classes and the tokenizer of the C library, as far as the program uses them. */
module Tokens {
  import opened Wrappers

  /** The text of a buffer: what comes before the first NUL. */
  function CString(buffer: string): (text: string)
    ensures |text| <= |buffer| && text == buffer[..|text|] && '\0' !in text
    ensures |text| < |buffer| ==> buffer[|text|] == '\0'
  {
    if buffer == [] || buffer[0] == '\0' then [] else [buffer[0]] + CString(buffer[1..])
  }

  lemma {:induction false} CStringOfText(text: string)
    requires '\0' !in text
    ensures CString(text) == text
    decreases |text|
  {
    if text != [] {
      CStringOfText(text[1..]);
    }
  }

  /** `isspace` in the C locale. */
  predicate IsSpace(c: char) {
    c == ' ' || '\t' <= c <= '\r'
  }

  /** The six blanks of the C locale, in ASCII: tabulators, line ends, form feed and space. */
  lemma BlanksAre(c: char)
    ensures IsSpace(c) <==> c as int in {9, 10, 11, 12, 13, 32}
  {}

  function SkipBlanks(s: string): (t: string)
    ensures |t| <= |s|
    decreases |s|
  {
    if s != [] && IsSpace(s[0]) then SkipBlanks(s[1..]) else s
  }

  predicate IsDigit(c: char) {
    '0' <= c <= '9'
  }

  // ---------- strtok ----------

  function SkipDelims(s: string, delims: string): (t: string)
    ensures |t| <= |s| && t == s[|s| - |t|..]
    ensures t != [] ==> t[0] !in delims
    ensures forall i :: 0 <= i < |s| - |t| ==> s[i] in delims
    decreases |s|
  {
    if s != [] && s[0] in delims then SkipDelims(s[1..], delims) else s
  }

  function Word(s: string, delims: string): (w: string)
    ensures |w| <= |s| && w == s[..|w|]
    ensures forall c :: c in w ==> c !in delims
    ensures |w| < |s| ==> s[|w|] in delims
    decreases |s|
  {
    if s == [] || s[0] in delims then [] else [s[0]] + Word(s[1..], delims)
  }

  /** One call of `strtok`: the next token, and what the call after it starts from. */
  function NextToken(s: string, delims: string): (r: (Option<string>, string))
    ensures r.0.Some? ==> r.0.value != [] && (forall c :: c in r.0.value ==> c !in delims) && |r.1| < |s|
    ensures r.0 == None ==> r.1 == []
  {
    TokenFrom(SkipDelims(s, delims), delims)
  }

  /** The same, from where the token starts. */
  function TokenFrom(t: string, delims: string): (r: (Option<string>, string))
    requires t != [] ==> t[0] !in delims
    ensures r.0.Some? ==> r.0.value != [] && (forall c :: c in r.0.value ==> c !in delims) && |r.1| < |t|
    ensures r.0 == None ==> r.1 == []
  {
    if t == [] then (None, []) else
    var w := Word(t, delims);
    (Some(w), if |w| < |t| then t[|w| + 1..] else [])
  }

  ghost predicate Free(w: string, delims: string) {
    forall c :: c in w ==> c !in delims
  }

  lemma {:induction false} WordUpTo(w: string, c: char, rest: string, delims: string)
    requires Free(w, delims) && c in delims
    ensures Word(w + [c] + rest, delims) == w
    decreases |w|
  {
    if w != [] {
      assert (w + [c] + rest)[1..] == w[1..] + [c] + rest;
      WordUpTo(w[1..], c, rest, delims);
    } else {
      assert w + [c] + rest == [c] + rest;
    }
  }

  lemma {:induction false} WordWhole(w: string, delims: string)
    requires Free(w, delims)
    ensures Word(w, delims) == w
    decreases |w|
  {
    if w != [] {
      WordWhole(w[1..], delims);
    }
  }

  /** A token before a delimiter, or at the end, is found whole. */
  lemma NextTokenUpTo(w: string, c: char, rest: string, delims: string)
    requires w != [] && Free(w, delims) && c in delims
    ensures NextToken(w + [c] + rest, delims) == (Some(w), rest)
  {
    var s := w + [c] + rest;
    assert s[0] == w[0] && w[0] in w;
    assert SkipDelims(s, delims) == s;
    WordUpTo(w, c, rest, delims);
    assert s[|w| + 1..] == rest;
  }

  lemma NextTokenWhole(w: string, delims: string)
    requires w != [] && Free(w, delims)
    ensures NextToken(w, delims) == (Some(w), [])
  {
    assert w[0] in w;
    assert SkipDelims(w, delims) == w;
    WordWhole(w, delims);
  }
}
