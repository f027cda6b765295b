/** `str_escape` and `str_unescape`. */
module StringEscape {
  import opened StringReplace
  import opened Tokens

  function Count(s: string, special: string): (n: nat)
    ensures n <= |s|
  {
    if s == [] then 0 else (if s[0] in special then 1 else 0) + Count(s[1..], special)
  }

  /** Every special character gets an escape character in front. */
  function Escape(s: string, special: string, e: char): (t: string)
    ensures |t| == |s| + Count(s, special)
  {
    if s == [] then []
    else (if s[0] in special then [e, s[0]] else [s[0]]) + Escape(s[1..], special, e)
  }

  /** An escape character that is not escaped itself is dropped, and what follows it is taken as it is. */
  function Unescape(t: string, e: char, escapeNext: bool): (s: string)
    ensures |s| <= |t|
  {
    if t == [] then []
    else if !escapeNext && t[0] == e then Unescape(t[1..], e, true)
    else [t[0]] + Unescape(t[1..], e, false)
  }

  // ---------- the program ----------

  method CountSpecial(str: string, special: string) returns (count: nat)
    ensures count == Count(str, special)
  {
    count := 0;
    var p := str;
    while p != []
      invariant count + Count(p, special) == Count(str, special)
      decreases |p|
    {
      if p[0] in special {
        count := count + 1;
      }
      p := p[1..];
    }
  }

  lemma EscapeFirst(src: string, special: string, e: char)
    requires src != []
    ensures Escape(src, special, e)
         == (if src[0] in special then [e] else []) + [src[0]] + Escape(src[1..], special, e)
  {
    assert [e] + [src[0]] == [e, src[0]] && [] + [src[0]] == [src[0]];
  }

  /** `str_escape`: the buffer has room for exactly the escaped text. A pointer into the text is what is left
      of the text from there. */
  method StrEscape(str: string, special: string, e: char) returns (escaped: array<char>)
    ensures fresh(escaped) && escaped[..] == Escape(str, special, e) + ['\0']
  {
    var specialCount := CountSpecial(str, special);
    escaped := new char[|str| + specialCount + 1];
    ghost var all := Escape(str, special, e);
    StartsWritten(escaped, all);
    var dst, src := 0, str;
    while src != []
      invariant Written(escaped, dst, Escape(src, special, e), all)
      decreases |src|
    {
      EscapeFirst(src, special, e);
      var lead := if src[0] in special then [e] else [];
      dst := PutSegment(escaped, dst, lead, [src[0]], Escape(src[1..], special, e), all);
      src := src[1..];
    }
    PutRest(escaped, dst, [], all);
  }

  /** `str_unescape`: what is written up to the NUL. */
  method StrUnescape(str: string, e: char) returns (unescaped: array<char>, length: nat)
    ensures fresh(unescaped) && unescaped.Length == |str| + 1
    ensures length <= |str| && unescaped[..length] == Unescape(str, e, false) && unescaped[length] == '\0'
  {
    unescaped := new char[|str| + 1];
    var dst, src, escapeNext := 0, str, false;
    while src != []
      invariant dst + |src| <= |str|
      invariant unescaped[..dst] + Unescape(src, e, escapeNext) == Unescape(str, e, false)
      decreases |src|
    {
      if !escapeNext && src[0] == e {
        escapeNext := true;
      } else {
        unescaped[dst] := src[0];
        assert unescaped[..dst + 1] == unescaped[..dst] + [src[0]];
        dst := dst + 1;
        escapeNext := false;
      }
      src := src[1..];
    }
    assert unescaped[..dst] + [] == unescaped[..dst];
    unescaped[dst] := '\0';
    length := dst;
  }

  // ---------- the round trip ----------

  /** Every escape character of the text is followed by a special character. */
  predicate EscapesFollowed(s: string, special: string, e: char) {
    forall i :: 0 <= i < |s| && s[i] == e ==> i + 1 < |s| && s[i + 1] in special
  }

  lemma EscapesFollowedBehind(s: string, special: string, e: char)
    requires s != []
    ensures EscapesFollowed(s, special, e) <==>
              (s[0] == e ==> |s| > 1 && s[1] in special) && EscapesFollowed(s[1..], special, e)
  {
    forall i | 1 <= i < |s|
      ensures s[i] == s[1..][i - 1] && (i + 1 < |s| ==> s[i + 1] == s[1..][i])
    {}
    if EscapesFollowed(s, special, e) {
      forall i | 0 <= i < |s| - 1 && s[1..][i] == e
        ensures i + 1 < |s| - 1 && s[1..][i + 1] in special
      {
        assert s[i + 1] == e;
      }
    }
  }

  /** If the escape character is special itself, unescaping undoes escaping. */
  lemma {:induction false} SpecialEscapeUndone(s: string, special: string, e: char)
    requires e in special
    ensures Unescape(Escape(s, special, e), e, false) == s
    decreases |s|
  {
    if s != [] {
      SpecialEscapeUndone(s[1..], special, e);
      UnescapeFirst(s[0], Escape(s[1..], special, e), special, e);
    }
  }

  lemma UnescapeFirst(c: char, rest: string, special: string, e: char)
    ensures c in special ==> Unescape([e, c] + rest, e, false) == [c] + Unescape(rest, e, false)
    ensures c !in special && c != e ==> Unescape([c] + rest, e, false) == [c] + Unescape(rest, e, false)
  {
    assert ([e, c] + rest)[1..] == [c] + rest;
    assert ([c] + rest)[1..] == rest;
  }

  lemma UnescapeBare(c: char, rest: string, e: char)
    ensures Unescape([e, c] + rest, e, false) == [c] + Unescape(rest, e, false)
    ensures c != e ==> Unescape([e, e, c] + rest, e, false) == [e, c] + Unescape(rest, e, false)
  {
    assert ([e, c] + rest)[1..] == [c] + rest && ([c] + rest)[1..] == rest;
    assert ([e, e, c] + rest)[1..] == [e, c] + rest;
    if c != e {
      assert Unescape([c] + rest, e, false) == [c] + Unescape(rest, e, false);
      assert Unescape([e, c] + rest, e, true) == [e] + Unescape([c] + rest, e, false);
      assert [e, c] + Unescape(rest, e, false) == [e] + ([c] + Unescape(rest, e, false));
    }
  }

  lemma EscapeTwo(s: string, special: string, e: char)
    requires |s| > 1 && s[0] == e && e !in special
    ensures Escape(s, special, e)
         == (if s[1] in special then [e, e, s[1]] else [e, s[1]]) + Escape(s[2..], special, e)
  {
    assert s[1..][1..] == s[2..];
  }

  /** What a bare escape character does: it drops out, and the character of the text behind it is kept, or,
      where that one is special, its own escape character is kept. */
  lemma BareEscape(s: string, special: string, e: char)
    requires s != [] && s[0] == e && e !in special
    ensures var u := Unescape(Escape(s, special, e), e, false);
            if |s| == 1 then u == []
            else if s[1] in special then u == [e, s[1]] + Unescape(Escape(s[2..], special, e), e, false)
            else u == [s[1]] + Unescape(Escape(s[2..], special, e), e, false)
  {
    if |s| > 1 {
      UnescapeBare(s[1], Escape(s[2..], special, e), e);
      EscapeTwo(s, special, e);
    }
  }

  /** Nothing gets longer. */
  lemma {:induction false} UndoneIsNoLonger(s: string, special: string, e: char)
    ensures |Unescape(Escape(s, special, e), e, false)| <= |s|
    decreases |s|
  {
    if s != [] {
      if s[0] in special || s[0] != e {
        UndoneIsNoLonger(s[1..], special, e);
        UnescapeFirst(s[0], Escape(s[1..], special, e), special, e);
      } else {
        BareEscape(s, special, e);
        if |s| > 1 {
          UndoneIsNoLonger(s[2..], special, e);
        }
      }
    }
  }

  /** If the escape character is not special, unescaping undoes escaping exactly of the texts in which every
      escape character is followed by a special character. */
  lemma {:induction false} BareEscapeUndoneIff(s: string, special: string, e: char)
    requires e !in special
    ensures Unescape(Escape(s, special, e), e, false) == s <==> EscapesFollowed(s, special, e)
    decreases |s|
  {
    if s == [] {
    } else if s[0] != e {
      BareEscapeUndoneIff(s[1..], special, e);
      UnescapeFirst(s[0], Escape(s[1..], special, e), special, e);
      EscapesFollowedBehind(s, special, e);
      SameBehind(s, [s[0]], s[1..], Unescape(Escape(s[1..], special, e), e, false));
    } else if |s| > 1 && s[1] in special {
      BareEscapeUndoneIff(s[2..], special, e);
      BareEscape(s, special, e);
      EscapesFollowedBehind(s, special, e);
      EscapesFollowedBehind(s[1..], special, e);
      assert s[1..][1..] == s[2..];
      SameBehind(s, [e, s[1]], s[2..], Unescape(Escape(s[2..], special, e), e, false));
    } else {
      BareEscape(s, special, e);
      if |s| > 1 {
        UndoneIsNoLonger(s[2..], special, e);
      }
      EscapesFollowedBehind(s, special, e);
    }
  }

  lemma SameBehind(s: string, front: string, rest: string, other: string)
    requires s == front + rest
    ensures front + other == s <==> other == rest
  {
    if front + other == s {
      assert (front + other)[|front|..] == other;
      assert s[|front|..] == rest;
    }
  }

  /** What is written comes back exactly when the escape character is special itself or every escape
      character of the text is followed by a special character. */
  lemma WrittenEscapeUndoneIff(s: string, special: string, e: char)
    ensures Unescape(Escape(s, special, e), e, false) == s <==> e in special || EscapesFollowed(s, special, e)
  {
    if e in special {
      SpecialEscapeUndone(s, special, e);
    } else {
      BareEscapeUndoneIff(s, special, e);
    }
  }

  // ---------- the round trip through a C string ----------

  lemma {:induction false} EscapedHas(s: string, special: string, e: char)
    ensures forall c :: c in Escape(s, special, e) ==> c == e || c in s
    decreases |s|
  {
    if s != [] {
      EscapedHas(s[1..], special, e);
    }
  }

  lemma {:induction false} NothingToUnescape(t: string, e: char)
    requires e !in t
    ensures Unescape(t, e, false) == t
    decreases |t|
  {
    if t != [] {
      NothingToUnescape(t[1..], e);
    }
  }

  /** An escape character that is NUL ends the text where the first special character stands. */
  lemma {:induction false} NulEnds(s: string, special: string)
    requires '\0' !in s
    ensures CString(Escape(s, special, '\0')) <= s
    ensures CString(Escape(s, special, '\0')) == s <==> Count(s, special) == 0
    decreases |s|
  {
    if s != [] && s[0] !in special {
      NulEnds(s[1..], special);
      var rest := CString(Escape(s[1..], special, '\0'));
      assert s[0] in s && CString(Escape(s, special, '\0')) == [s[0]] + rest;
      assert s == [s[0]] + s[1..];
      SameBehind(s, [s[0]], s[1..], rest);
    }
  }

  /** Unescaping what `str_escape` has left gives the text back, when the escape character is not NUL, exactly
      when it is special itself or every one in the text is followed by a special character; and when it is
      NUL, exactly when the text has no special character. */
  lemma EscapeUndoneIff(s: string, special: string, e: char)
    requires '\0' !in s
    ensures Unescape(CString(Escape(s, special, e)), e, false) == s <==>
              if e == '\0' then Count(s, special) == 0 else e in special || EscapesFollowed(s, special, e)
  {
    var t := Escape(s, special, e);
    if e == '\0' {
      NulEnds(s, special);
      NothingToUnescape(CString(t), e);
    } else {
      EscapedHas(s, special, e);
      CStringOfText(t);
      WrittenEscapeUndoneIff(s, special, e);
    }
  }

  /** A text that is cut: the NUL before the semicolon ends it. */
  lemma NulEscapeCuts()
    ensures Escape("a;b", ";", '\0') == ['a', '\0', ';', 'b']
    ensures Unescape(CString(Escape("a;b", ";", '\0')), '\0', false) == "a"
  {
    var s := "a;b";
    assert s[1..] == ";b" && s[1..][1..] == "b" && s[1..][1..][1..] == [];
    var t := Escape(s, ";", '\0');
    assert t[1..] == ['\0', ';', 'b'];
    assert CString(t[1..]) == [] && CString(t) == "a";
    assert CString(t)[1..] == [];
  }
}
