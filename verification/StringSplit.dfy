/** `str_split` and `str_join`. */
module StringSplit {
  import opened Wrappers
  import opened Tokens
  import opened StringReplace

  // ---------- splitting ----------

  /** What repeated calls of `strtok` find. */
  function AllTokens(s: string, delims: string): (tokens: seq<string>)
    decreases |s|
  {
    var (token, rest) := NextToken(s, delims);
    if token == None then [] else [token.value] + AllTokens(rest, delims)
  }

  /** `str_split`: one pass counts the tokens, another copies them. A call of `strtok` is a step from what is
      left of the text to what is left after a token. */
  method StrSplit(str: string, delim: string) returns (tokens: array<string>)
    ensures fresh(tokens) && tokens[..] == AllTokens(str, delim)
  {
    var count := CountTokens(str, delim);
    tokens := new string[count];
    CopyTokens(tokens, str, delim);
  }

  method CountTokens(str: string, delim: string) returns (count: nat)
    ensures count == |AllTokens(str, delim)|
  {
    count := 0;
    var (token, rest) := NextToken(str, delim);
    ghost var start := str;
    while token != None
      invariant (token, rest) == NextToken(start, delim)
      invariant count + |AllTokens(start, delim)| == |AllTokens(str, delim)|
      decreases |start|
    {
      count := count + 1;
      start := rest;
      var next := NextToken(rest, delim);
      token, rest := next.0, next.1;
    }
  }

  /** The tokens copied so far, and those that are still to be found. */
  ghost predicate Copied(tokens: array<string>, i: nat, rest: seq<string>, all: seq<string>)
    reads tokens
  {
    tokens.Length == |all| && i + |rest| == |all| && tokens[..i] + rest == all
  }

  method PutToken(tokens: array<string>, i: nat, token: string, ghost rest: seq<string>, ghost all: seq<string>)
    requires Copied(tokens, i, [token] + rest, all)
    modifies tokens
    ensures Copied(tokens, i + 1, rest, all)
  {
    tokens[i] := token;
    assert tokens[..i + 1] == tokens[..i] + [token];
    assert tokens[..i + 1] + rest == tokens[..i] + ([token] + rest);
  }

  lemma AllCopied(tokens: array<string>, i: nat, all: seq<string>)
    requires Copied(tokens, i, [], all)
    ensures tokens[..] == all
  {}

  lemma NoneCopied(tokens: array<string>, all: seq<string>)
    requires tokens.Length == |all|
    ensures Copied(tokens, 0, all, all)
  {}

  method CopyTokens(tokens: array<string>, str: string, delim: string)
    requires tokens.Length == |AllTokens(str, delim)|
    modifies tokens
    ensures tokens[..] == AllTokens(str, delim)
  {
    ghost var all := AllTokens(str, delim);
    NoneCopied(tokens, all);
    var i := 0;
    var (token, rest) := NextToken(str, delim);
    ghost var start := str;
    while token != None
      invariant (token, rest) == NextToken(start, delim)
      invariant Copied(tokens, i, AllTokens(start, delim), all)
      decreases |start|
    {
      PutToken(tokens, i, token.value, AllTokens(rest, delim), all);
      i := i + 1;
      start := rest;
      var next := NextToken(rest, delim);
      token, rest := next.0, next.1;
    }
    AllCopied(tokens, i, all);
  }

  // ---------- joining ----------

  /** An entry that is null adds nothing, but the delimiters around it stay. */
  function Text(entry: Option<string>): string {
    if entry.Some? then entry.value else []
  }

  function Texts(entries: seq<Option<string>>): (texts: seq<string>)
    ensures |texts| == |entries|
  {
    seq(|entries|, i requires 0 <= i < |entries| => Text(entries[i]))
  }

  lemma NullAddsNothing(a: string, b: string, delim: string)
    ensures JoinWith(Texts([None]), delim) == []
    ensures JoinWith(Texts([Some(a), None, Some(b)]), delim) == a + delim + (delim + b)
  {
    assert Texts([None]) == [[]];
    var texts := Texts([Some(a), None, Some(b)]);
    assert texts == [a, [], b] && texts[1..] == [[], b] && texts[1..][1..] == [b];
    assert JoinWith([[], b], delim) == [] + delim + b == delim + b;
  }

  function TotalLength(strings: seq<string>): nat {
    if strings == [] then 0 else |strings[0]| + TotalLength(strings[1..])
  }

  /** The length as `str_join` computes it, without the NUL. */
  lemma {:induction false} JoinedLength(strings: seq<string>, delim: string)
    requires strings != []
    ensures |JoinWith(strings, delim)| == TotalLength(strings) + (|strings| - 1) * |delim|
    decreases |strings|
  {
    if |strings| > 1 {
      JoinedLength(strings[1..], delim);
      assert (|strings| - 1) * |delim| == (|strings| - 2) * |delim| + |delim|;
    } else {
      assert strings[1..] == [];
    }
  }

  /** `str_join`: the buffer is just large enough. */
  method StrJoin(entries: seq<Option<string>>, delim: string) returns (result: array?<char>)
    ensures entries == [] <==> result == null
    ensures result != null ==> fresh(result) && result[..] == JoinWith(Texts(entries), delim) + ['\0']
  {
    if |entries| == 0 {
      return null;
    }
    var totalLen := SumLengths(entries);
    JoinedLength(Texts(entries), delim);
    totalLen := totalLen + (|entries| - 1) * |delim| + 1;
    var buffer := new char[totalLen];
    Concatenate(buffer, entries, delim);
    result := buffer;
  }

  method SumLengths(entries: seq<Option<string>>) returns (total: nat)
    ensures total == TotalLength(Texts(entries))
  {
    ghost var strings := Texts(entries);
    total := 0;
    for i := 0 to |entries|
      invariant total + TotalLength(strings[i..]) == TotalLength(strings)
    {
      assert strings[i..][1..] == strings[i + 1..];
      if entries[i].Some? {
        total := total + |entries[i].value|;
      }
    }
  }

  /** What is behind the strings before i, the delimiter after each included. */
  function Behind(strings: seq<string>, i: nat, delim: string): string
    requires i <= |strings|
  {
    JoinWith(strings[i..], delim)
  }

  lemma NextBehind(strings: seq<string>, i: nat, delim: string)
    requires i < |strings|
    ensures Behind(strings, i, delim)
         == strings[i] + (if i < |strings| - 1 then delim else []) + Behind(strings, i + 1, delim)
  {
    assert strings[i..][1..] == strings[i + 1..];
    if i == |strings| - 1 {
      assert strings[i + 1..] == [];
      assert strings[i] + [] + [] == strings[i];
    }
  }

  method Concatenate(buffer: array<char>, entries: seq<Option<string>>, delim: string)
    requires buffer.Length == |JoinWith(Texts(entries), delim)| + 1
    modifies buffer
    ensures buffer[..] == JoinWith(Texts(entries), delim) + ['\0']
  {
    ghost var strings := Texts(entries);
    ghost var all := JoinWith(strings, delim);
    var end := 0;
    assert strings[0..] == strings;
    StartsWritten(buffer, all);
    for i := 0 to |entries|
      invariant Written(buffer, end, Behind(strings, i, delim), all)
    {
      NextBehind(strings, i, delim);
      end := PutSegment(buffer, end, Text(entries[i]), if i < |entries| - 1 then delim else [],
                        Behind(strings, i + 1, delim), all);
    }
    PutRest(buffer, end, [], all);
  }

  // ---------- splitting and joining ----------

  predicate IsToken(t: string, c: char) {
    t != [] && c !in t
  }

  /** The text with every run of delimiters collapsed to one and both ends stripped: a delimiter stays when
      there is something else before it and something else right behind it. */
  function Collapse(s: string, c: char, seen: bool): string
    decreases |s|
  {
    if s == [] then []
    else if s[0] != c then [s[0]] + Collapse(s[1..], c, true)
    else if seen && |s| > 1 && s[1] != c then [c] + Collapse(s[1..], c, seen)
    else Collapse(s[1..], c, seen)
  }

  lemma {:induction false} CollapseSkips(s: string, c: char)
    ensures Collapse(s, c, false) == Collapse(SkipDelims(s, [c]), c, false)
    decreases |s|
  {
    if s != [] && s[0] == c {
      CollapseSkips(s[1..], c);
    }
  }

  lemma {:induction false} CollapseBehind(s: string, c: char)
    ensures Collapse([c] + s, c, true)
         == if SkipDelims(s, [c]) == [] then [] else [c] + Collapse(SkipDelims(s, [c]), c, true)
    decreases |s|
  {
    assert ([c] + s)[1..] == s;
    if s != [] && s[0] == c {
      assert s == [c] + s[1..];
      CollapseBehind(s[1..], c);
    }
  }

  lemma {:induction false} CollapseWord(s: string, c: char, seen: bool)
    ensures var w := Word(s, [c]);
            w != [] ==> Collapse(s, c, seen) == w + Collapse(s[|w|..], c, true)
    decreases |s|
  {
    if s != [] && s[0] != c {
      var w := Word(s[1..], [c]);
      CollapseWord(s[1..], c, true);
      assert Word(s, [c]) == [s[0]] + w;
      assert s[|w| + 1..] == s[1..][|w|..];
    }
  }

  lemma SkipTwice(s: string, delims: string)
    ensures SkipDelims(SkipDelims(s, delims), delims) == SkipDelims(s, delims)
  {}

  lemma NextTokenSkips(s: string, delims: string)
    ensures NextToken(SkipDelims(s, delims), delims) == NextToken(s, delims)
  {
    SkipTwice(s, delims);
  }

  lemma SkippedTokens(s: string, c: char)
    ensures AllTokens(s, [c]) == AllTokens(SkipDelims(s, [c]), [c])
  {
    NextTokenSkips(s, [c]);
    var next := NextToken(s, [c]);
    assert AllTokens(s, [c]) == if next.0 == None then [] else [next.0.value] + AllTokens(next.1, [c]);
  }

  /** A token at the very end. */
  lemma LastToken(w: string, c: char)
    requires IsToken(w, c)
    ensures AllTokens(w, [c]) == [w] && Collapse(w, c, false) == w
  {
    NextTokenWhole(w, [c]);
    assert AllTokens([], [c]) == [];
    WordWhole(w, [c]);
    CollapseWord(w, c, false);
    assert w[|w|..] == [];
  }

  /** A token with a delimiter and something else behind it. */
  lemma FirstToken(w: string, c: char, rest: string)
    requires IsToken(w, c)
    ensures AllTokens(w + [c] + rest, [c]) == [w] + AllTokens(rest, [c])
    ensures Collapse(w + [c] + rest, c, false) == w + Collapse([c] + rest, c, true)
  {
    var s := w + [c] + rest;
    NextTokenUpTo(w, c, rest, [c]);
    WordUpTo(w, c, rest, [c]);
    CollapseWord(s, c, false);
    assert s[|w|..] == [c] + rest;
  }

  lemma SeenMattersNot(s: string, c: char)
    requires s == [] || s[0] != c
    ensures Collapse(s, c, true) == Collapse(s, c, false)
  {}

  /** What comes behind a delimiter: nothing if there is no token, and else the delimiter and the rest. */
  lemma BehindDelimiter(rest: string, c: char)
    ensures Collapse([c] + rest, c, true)
         == if SkipDelims(rest, [c]) == [] then [] else [c] + Collapse(rest, c, false)
  {
    CollapseBehind(rest, c);
    CollapseSkips(rest, c);
    SeenMattersNot(SkipDelims(rest, [c]), c);
  }

  lemma TokensLeft(s: string, c: char)
    ensures AllTokens(s, [c]) == [] <==> SkipDelims(s, [c]) == []
  {}

  datatype Peeled = Nothing | Whole(last: string) | First(token: string, rest: string)

  /** A text that begins with a token is a token, or a token, a delimiter and the rest. */
  lemma Cut(t: string, c: char) returns (peeled: Peeled)
    requires t == [] || t[0] != c
    ensures match peeled
            case Nothing => t == []
            case Whole(w) => IsToken(w, c) && t == w
            case First(w, rest) => IsToken(w, c) && t == w + [c] + rest
  {
    if t == [] {
      return Nothing;
    }
    var w := Word(t, [c]);
    assert w != [];
    if |w| == |t| {
      return Whole(w);
    }
    peeled := First(w, t[|w| + 1..]);
  }

  /** The first token of a text, and what splitting and collapsing make of the text with it. */
  lemma Peel(s: string, c: char) returns (peeled: Peeled)
    ensures match peeled
            case Nothing => AllTokens(s, [c]) == [] && Collapse(s, c, false) == []
            case Whole(w) => AllTokens(s, [c]) == [w] && Collapse(s, c, false) == w
            case First(w, rest) =>
              && |rest| < |s|
              && AllTokens(s, [c]) == [w] + AllTokens(rest, [c])
              && Collapse(s, c, false) == w + Collapse([c] + rest, c, true)
  {
    CollapseSkips(s, c);
    SkippedTokens(s, c);
    peeled := Cut(SkipDelims(s, [c]), c);
    match peeled {
      case Nothing => NoToken(c);
      case Whole(w) => LastToken(w, c);
      case First(w, rest) => FirstToken(w, c, rest);
    }
  }

  lemma NoToken(c: char)
    ensures AllTokens([], [c]) == [] && Collapse([], c, false) == []
  {}

  lemma JoinTail(w: string, tail: seq<string>, c: char, joined: string, behind: string)
    requires JoinWith(tail, [c]) == joined && behind == if tail == [] then [] else [c] + joined
    ensures JoinWith([w] + tail, [c]) == w + behind
  {
    if tail == [] {
      assert [w] + tail == [w] && w + [] == w;
    } else {
      JoinFirst(w, tail, [c]);
      assert w + ([c] + joined) == w + [c] + joined;
    }
  }

  /** Joining a split collapses the delimiters. */
  lemma {:induction false} JoinOfSplit(s: string, c: char)
    ensures JoinWith(AllTokens(s, [c]), [c]) == Collapse(s, c, false)
    decreases |s|
  {
    var peeled := Peel(s, c);
    match peeled {
      case Nothing =>
      case Whole(w) =>
      case First(w, rest) =>
        JoinOfSplit(rest, c);
        BehindDelimiter(rest, c);
        TokensLeft(rest, c);
        JoinTail(w, AllTokens(rest, [c]), c, Collapse(rest, c, false), Collapse([c] + rest, c, true));
    }
  }

  /** Splitting a join of tokens brings the tokens back. */
  lemma {:induction false} SplitOfJoin(tokens: seq<string>, c: char)
    requires forall i :: 0 <= i < |tokens| ==> IsToken(tokens[i], c)
    ensures AllTokens(JoinWith(tokens, [c]), [c]) == tokens
    decreases |tokens|
  {
    if tokens == [] {
      NoToken(c);
    } else if |tokens| == 1 {
      LastToken(tokens[0], c);
    } else {
      SplitOfJoin(tokens[1..], c);
      FirstToken(tokens[0], c, JoinWith(tokens[1..], [c]));
    }
  }
}
