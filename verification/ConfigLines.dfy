/** What each kind of line does when a configuration is loaded, up to what `config_load` makes of a whole
    file, and what the saved file looks like. */
module ConfigLines {
  import opened TextBuffers
  import opened Tokens
  import opened ConfigModel
  import opened ConfigText
  import opened ConfigTextProofs

  // ---------- trimming ----------

  lemma {:induction false} TrimEndIs(s: string)
    ensures var t := TrimEnd(s);
            && t == s[..|t|] && (t != [] ==> !IsSpace(t[|t| - 1]))
            && forall i :: |t| <= i < |s| ==> IsSpace(s[i])
    decreases |s|
  {
    if s != [] && IsSpace(s[|s| - 1]) {
      TrimEndIs(s[..|s| - 1]);
    }
  }

  lemma {:induction false} SkipBlanksIs(s: string)
    ensures var t := SkipBlanks(s);
            && t == s[|s| - |t|..] && (t != [] ==> !IsSpace(t[0]))
            && forall i :: 0 <= i < |s| - |t| ==> IsSpace(s[i])
    decreases |s|
  {
    if s != [] && IsSpace(s[0]) {
      SkipBlanksIs(s[1..]);
    }
  }

  /** The trim that is written leaves a text that is all blank as it is, and takes the blanks off the end of
      any other. */
  lemma WrittenTrimIs(s: string)
    ensures var t := Trim(Written, s);
            if forall i :: 0 <= i < |s| ==> IsSpace(s[i]) then t == s
            else && t != [] && t == s[..|t|] && !IsSpace(t[|t| - 1])
                 && forall i :: |t| <= i < |s| ==> IsSpace(s[i])
  {
    SkipBlanksIs(s);
    TrimEndIs(s);
  }

  // ---------- values in quotes ----------

  function Quoted(v: string): string {
    "\"" + v + "\""
  }

  lemma UnquoteQuoted(v: string)
    ensures Unquote(Quoted(v)) == v
  {}

  /** The two parts of an entry line, before they are trimmed and cut. */
  lemma ParseEntry(how: Trimming, key: string, rest: string)
    requires '=' !in key && (key != [] ==> !IsSpace(key[0]) && key[0] != '[')
    ensures ParseLine(how, key + ['='] + rest)
         == Parsed([], Cut(Trim(how, key), CONFIG_MAX_KEY_LEN), Cut(Unquote(Trim(how, rest)), CONFIG_MAX_VALUE_LEN))
  {
    var line := key + ['='] + rest;
    assert line[0] == if key == [] then '=' else key[0];
    WordUpTo(key, '=', rest, "=");
    assert line[|key| + 1..] == rest;
  }

  /** A value right behind the equals sign loses its quotes; it is cut to 1023 characters after that. */
  lemma QuotedValue(how: Trimming, key: string, v: string)
    requires CleanKey(key)
    ensures ParseLine(how, key + ['='] + Quoted(v))
         == Parsed([], key, if |v| < 1024 then v else v[..1023])
  {
    ParseEntry(how, key, Quoted(v));
    TrimKeeps(how, key);
    TrimKeeps(how, Quoted(v));
    UnquoteQuoted(v);
  }

  lemma IndentTrimmed(how: Trimming, rest: string)
    requires rest != [] && NoOuterBlanks(rest)
    ensures Trim(how, " " + rest) == if how == BothEnds then rest else " " + rest
    ensures SkipBlanks(" " + rest) == rest
  {
    var line := " " + rest;
    assert IsSpace(line[0]) && line[1..] == rest && line[|line| - 1] == rest[|rest| - 1];
    assert SkipBlanks(line) == SkipBlanks(rest) == rest;
    assert rest + [] == rest && line + [] == line;
    TrimEndKeeps(rest, []);
    TrimEndKeeps(line, []);
  }

  lemma UnquoteIndented(v: string)
    ensures Unquote(" " + Quoted(v)) == " " + Quoted(v)
  {}

  /** Behind a blank, it does so only with the trim that is meant: the one that is written leaves the blank,
      and the quotes. */
  lemma QuotedBehindBlank(how: Trimming, key: string, v: string)
    requires CleanKey(key) && |v| < 1021
    ensures ParseLine(how, key + ['='] + (" " + Quoted(v)))
         == Parsed([], key, if how == BothEnds then v else " " + Quoted(v))
  {
    ParseEntry(how, key, " " + Quoted(v));
    TrimKeeps(how, key);
    IndentTrimmed(how, Quoted(v));
    UnquoteQuoted(v);
    UnquoteIndented(v);
  }

  // ---------- single lines ----------

  /** A line ends at a newline, a carriage return or a NUL; what follows in the buffer is not looked at. */
  lemma LineEnds(how: Trimming, reading: Reading, line: string, end: char, rest: string)
    requires OneLine(line) && (end == '\n' || end == '\r' || end == '\0')
    ensures TakeLine(how, reading, line + [end] + rest) == TakeLine(how, reading, line + "\n")
    ensures TakeLine(how, reading, line) == TakeLine(how, reading, line + "\n")
  {
    BufferLine(line);
    WordUpTo(line, end, rest, "\n\r\0");
    WordWhole(line, "\n\r\0");
  }

  /** A line that stays as it is when it is trimmed, and is no comment, is parsed. */
  lemma PlainLine(how: Trimming, reading: Reading, line: string)
    requires OneLine(line) && line != [] && NoOuterBlanks(line) && line[0] != ';' && line[0] != '#'
    ensures TakeLine(how, reading, line + "\n") == TakeParsed(reading, ParseLine(how, line))
  {
    BufferLine(line);
    TrimKeeps(how, line);
    LineParsed(how, reading, line + "\n", line, line);
  }

  /** An entry goes into the section the reading is in; before the first section it is dropped. */
  lemma QuotedEntryLine(how: Trimming, reading: Reading, key: string, v: string)
    requires CleanKey(key) && OneLine(v) && |v| < 1024
    ensures TakeLine(how, reading, key + ['='] + Quoted(v) + "\n")
         == if reading.section == [] then reading
            else Reading(Set(reading.store, reading.section, key, v), reading.section)
  {
    var line := key + ['='] + Quoted(v);
    assert line[0] == key[0] && line[|line| - 1] == '"';
    PlainLine(how, reading, line);
    QuotedValue(how, key, v);
  }

  /** A line that starts with a semicolon or a number sign changes nothing, whatever follows. */
  lemma CommentLine(how: Trimming, reading: Reading, buffer: string)
    requires buffer != [] && (buffer[0] == ';' || buffer[0] == '#')
    ensures TakeLine(how, reading, buffer) == reading
  {
    var cut := Word(buffer, "\n\r\0");
    assert cut != [] && cut[0] == buffer[0];
    assert SkipBlanks(cut) == cut;
    TrimEndHead(cut);
  }

  /** Behind a blank, only with the trim that is meant: with the one that is written it is an entry like any
      other, its key with the number sign. */
  lemma IndentedComment(how: Trimming, reading: Reading, v: string)
    requires OneLine(v) && |v| < 1024 && reading.section != []
    ensures TakeLine(how, reading, " " + ("#k" + ['='] + Quoted(v)) + "\n")
         == if how == BothEnds then reading
            else Reading(Set(reading.store, reading.section, "#k", v), reading.section)
  {
    var rest := "#k" + ['='] + Quoted(v);
    var line := " " + rest;
    BufferLine(line);
    IndentTrimmed(how, rest);
    if how == Written {
      LineParsed(how, reading, line + "\n", line, line);
      ParseIndented(v);
    }
  }

  lemma ParseIndented(v: string)
    requires |v| < 1024
    ensures ParseLine(Written, " " + ("#k" + ['='] + Quoted(v))) == Parsed([], "#k", v)
  {
    var rest := "#k" + ['='] + Quoted(v);
    IndentTrimmed(Written, rest);
    WordUpTo("#k", '=', Quoted(v), "=");
    assert rest[3..] == Quoted(v);
    TrimKeeps(Written, "#k");
    TrimKeeps(Written, Quoted(v));
    UnquoteQuoted(v);
  }

  lemma NoSign(line: string, c: char)
    requires c !in line
    ensures Word(line, [c]) == line
  {
    WordWhole(line, [c]);
  }

  /** A line without an equals sign that opens no section, and one that opens a section and does not close
      it, change nothing. */
  lemma InvalidLine(how: Trimming, reading: Reading, line: string)
    requires OneLine(line) && line != [] && NoOuterBlanks(line) && line[0] != ';' && line[0] != '#'
    requires if line[0] == '[' then ']' !in line else '=' !in line
    ensures TakeLine(how, reading, line + "\n") == reading
  {
    PlainLine(how, reading, line);
    assert SkipBlanks(line) == line;
    if line[0] == '[' {
      NoSign(line[1..], ']');
    } else {
      NoSign(line, '=');
    }
  }

  lemma ParseNamedSection(how: Trimming, name: string, rest: string)
    requires name == [] || CleanSection(name)
    ensures ParseLine(how, "[" + name + "]" + rest) == Parsed(name, [], [])
  {
    var line := "[" + name + "]" + rest;
    assert line[0] == '[';
    assert SkipBlanks(line) == line;
    assert line[1..] == name + [']'] + rest;
    WordUpTo(name, ']', rest, "]");
    TrimKeeps(how, name);
  }

  /** A section line makes the name between the brackets the current section, whatever follows it; with
      nothing between them it changes nothing. */
  lemma NamedSectionLine(how: Trimming, reading: Reading, name: string, rest: string)
    requires (name == [] || CleanSection(name)) && OneLine(rest) && NoOuterBlanks("]" + rest)
    ensures TakeLine(how, reading, "[" + name + "]" + rest + "\n")
         == if name == [] then reading else Reading(reading.store, name)
  {
    var line := "[" + name + "]" + rest;
    assert line[0] == '[' && line[|line| - 1] == ("]" + rest)[|rest|];
    PlainLine(how, reading, line);
    ParseNamedSection(how, name, rest);
  }

  /** A line without a key changes nothing. */
  lemma NoKeyLine(how: Trimming, reading: Reading, rest: string)
    requires OneLine(rest) && NoOuterBlanks("=" + rest)
    ensures TakeLine(how, reading, "=" + rest + "\n") == reading
  {
    PlainLine(how, reading, "=" + rest);
    assert "=" + rest == [] + ['='] + rest;
    ParseEntry(how, [], rest);
    TrimKeeps(how, []);
  }

  // ---------- whole files ----------

  /** `fgets` reads up to a newline, and 2047 characters at most. */
  lemma LineLengthIs(text: string)
    requires text != []
    ensures var n := LineLength(text);
            && n <= 2047
            && (forall i :: 0 <= i < n - 1 ==> text[i] != '\n')
            && (n == |text| || n == 2047 || text[n - 1] == '\n')
  {
    assert forall i :: 0 <= i < |Word(text, "\n")| ==> text[i] in Word(text, "\n");
  }

  /** What loading makes of a file of lines that fit the buffer: each line is taken where it stands. */
  lemma LoadedLine(how: Trimming, before: seq<string>, line: string, after: seq<string>)
    requires forall l :: l in before + [line] + after ==> FitsBuffer(l)
    ensures Load(how, Join(before + [line] + after))
         == Fold(Taking(how), TakeLine(how, Fold(Taking(how), Reading([], []), before), line + "\n"), after).store
  {
    var step, none := Taking(how), Reading([], []);
    LinesTaken(step, none, before + [line] + after);
    assert before + [line] + after == before + ([line] + after);
    FoldAppend(step, none, before, [line] + after);
    assert ([line] + after)[1..] == after;
  }

  lemma TwoLines(how: Trimming, first: string, second: string)
    requires FitsBuffer(first) && FitsBuffer(second)
    ensures Load(how, Join([first, second]))
         == TakeLine(how, TakeLine(how, Reading([], []), first + "\n"), second + "\n").store
  {
    assert [first] + [second] + [] == [first, second];
    LoadedLine(how, [first], second, []);
    assert [first][1..] == [];
  }

  lemma FirstEntry(section: string, key: string, v: string)
    requires |section| < 256 && |key| < 256 && |v| < 1024
    ensures Set([], section, key, v) == [Cell(section, [Cell(key, v)])]
  {
    assert SetEntry([], key, v) == [Cell(key, v)];
  }

  lemma BareSectionLine(how: Trimming, reading: Reading, name: string)
    requires CleanSection(name)
    ensures TakeLine(how, reading, "[" + name + "]" + "\n") == Reading(reading.store, name)
  {
    assert "[" + name + "]" + [] == "[" + name + "]";
    NamedSectionLine(how, reading, name, []);
  }

  /** A file with one section and one entry in quotes: the entry is stored without them. */
  lemma QuotedValueLoaded(how: Trimming, section: string, key: string, v: string)
    requires CleanSection(section) && CleanKey(key) && OneLine(v) && |v| < 1024
    ensures Load(how, Join(["[" + section + "]", key + ['='] + Quoted(v)])) == [Cell(section, [Cell(key, v)])]
  {
    TwoLines(how, "[" + section + "]", key + ['='] + Quoted(v));
    BareSectionLine(how, Reading([], []), section);
    QuotedEntryLine(how, Reading([], section), key, v);
    FirstEntry(section, key, v);
  }

  /** An entry before the first section is lost. */
  lemma EntryBeforeSectionLost(how: Trimming, section: string, key: string, v: string)
    requires CleanSection(section) && CleanKey(key) && OneLine(v) && |v| < 1024
    ensures Load(how, Join([key + ['='] + Quoted(v), "[" + section + "]"])) == []
  {
    TwoLines(how, key + ['='] + Quoted(v), "[" + section + "]");
    QuotedEntryLine(how, Reading([], []), key, v);
    BareSectionLine(how, Reading([], []), section);
  }

  // ---------- the saved file ----------

  /** What is saved: two comment lines and a blank one, and the sections, most recent first. */
  lemma SavedText(date: string, store: Store)
    ensures Print(date, store)
         == "; Cryptcat Configuration\n" + ("; Generated on " + date + "\n" + ("\n" + Join(SectionLines(store))))
  {
    var lines := SectionLines(store);
    OneLineText("; Cryptcat Configuration", [DATED + date, []] + lines);
    OneLineText(DATED + date, [[]] + lines);
    OneLineText([], lines);
    assert HeaderLines(date) + lines == [TITLE] + ([DATED + date, []] + lines);
    assert [DATED + date, []] + lines == [DATED + date] + ([[]] + lines);
    assert [] + "\n" == "\n" && TITLE + "\n" == "; Cryptcat Configuration\n";
  }

  lemma OneLineText(line: string, rest: seq<string>)
    ensures Join([line] + rest) == line + "\n" + Join(rest)
  {
    assert ([line] + rest)[1..] == rest;
  }

  /** For each section, its name in brackets, its entries, and a blank line. */
  lemma SavedSection(store: Store)
    requires store != []
    ensures Join(SectionLines(store))
         == "[" + store[0].name + "]" + "\n"
            + (Join(EntryLines(store[0].content)) + ("\n" + Join(SectionLines(store[1..]))))
  {
    var head, entries, rest := SectionText(store[0].name), EntryLines(store[0].content), SectionLines(store[1..]);
    assert [head] + entries + [[]] + rest == [head] + (entries + ([[]] + rest));
    OneLineText(head, entries + ([[]] + rest));
    JoinAppend(entries, [[]] + rest);
    OneLineText([], rest);
    assert [] + "\n" == "\n";
  }

  /** For each entry its key, ` = `, and its value. */
  lemma SavedEntry(entries: Entries)
    requires entries != []
    ensures Join(EntryLines(entries))
         == entries[0].name + " = " + entries[0].content + "\n" + Join(EntryLines(entries[1..]))
  {}
}
