/** Loading what was saved: what comes back of a store whose names and values the text form can hold, with
    the trimming that is written and with the one that is meant. */
module ConfigTextProofs {
  import opened TextBuffers
  import opened Tokens
  import opened ConfigModel
  import opened ConfigText

  // ---------- what the text form can hold ----------

  predicate OneLine(s: string) {
    '\n' !in s && '\r' !in s && '\0' !in s
  }

  predicate CleanSection(name: string) {
    name != [] && |name| < CONFIG_MAX_SECTION_LEN && OneLine(name) && NoOuterBlanks(name) && ']' !in name
  }

  predicate CleanKey(key: string) {
    && key != [] && |key| < CONFIG_MAX_KEY_LEN && OneLine(key) && NoOuterBlanks(key) && '=' !in key
    && key[0] != '[' && key[0] != ';' && key[0] != '#'
  }

  predicate CleanValue(value: string) {
    && |value| < CONFIG_MAX_VALUE_LEN && OneLine(value) && NoOuterBlanks(value)
    && (value != [] ==> !(value[0] == '"' && value[|value| - 1] == '"'))
  }

  ghost predicate CleanEntries(entries: Entries) {
    forall i :: 0 <= i < |entries| ==> CleanKey(entries[i].name) && CleanValue(entries[i].content)
  }

  ghost predicate Clean(store: Store) {
    forall i :: 0 <= i < |store| ==> CleanSection(store[i].name) && CleanEntries(store[i].content)
  }

  /** What becomes of a value: the trimming that is written leaves the blank after the equals sign, if there
      is anything behind it. */
  function Reloaded(how: Trimming, value: string): (v: string)
    ensures |value| < CONFIG_MAX_VALUE_LEN ==> |v| < CONFIG_MAX_VALUE_LEN
  {
    if how == BothEnds || value == [] then value else Cut(" " + value, CONFIG_MAX_VALUE_LEN)
  }

  function ReloadedEntries(how: Trimming, m: map<string, string>): map<string, string> {
    map key | key in m :: Reloaded(how, m[key])
  }

  /** What becomes of a map of maps: sections without entries are lost. */
  function ReloadedMaps(how: Trimming, m: Maps): Maps {
    map section | section in m && m[section] != map[] :: ReloadedEntries(how, m[section])
  }

  // ---------- single lines ----------

  lemma {:induction false} TrimEndKeeps(s: string, blanks: string)
    requires s != [] && !IsSpace(s[|s| - 1])
    requires forall c :: c in blanks ==> IsSpace(c)
    ensures TrimEnd(s + blanks) == s
    decreases |blanks|
  {
    if blanks == [] {
      assert s + blanks == s;
    } else {
      var last := |blanks| - 1;
      assert (s + blanks)[..|s + blanks| - 1] == s + blanks[..last];
      assert blanks[last] in blanks;
      TrimEndKeeps(s, blanks[..last]);
    }
  }

  lemma TrimKeeps(how: Trimming, s: string)
    requires NoOuterBlanks(s)
    ensures Trim(how, s) == s
  {
    if s != [] {
      TrimEndKeeps(s, []);
      assert s + [] == s;
    }
  }

  lemma BufferLine(line: string)
    requires OneLine(line)
    ensures Word(line + "\n", "\n\r\0") == line
  {
    assert line + ['\n'] + [] == line + "\n";
    WordUpTo(line, '\n', [], "\n\r\0");
  }

  /** A line that, trimmed, is neither empty nor a comment is parsed. */
  lemma LineParsed(how: Trimming, reading: Reading, buffer: string, cut: string, line: string)
    requires Word(buffer, "\n\r\0") == cut && Trim(how, cut) == line
    requires line != [] && line[0] != ';' && line[0] != '#'
    ensures TakeLine(how, reading, buffer) == TakeParsed(reading, ParseLine(how, line))
  {}

  /** The lines at the top and the blank lines change nothing. */
  lemma SkippedLine(how: Trimming, reading: Reading, line: string)
    requires '\n' !in line && (line == [] || line[0] == ';')
    ensures TakeLine(how, reading, line + "\n") == reading
  {
    var buffer := line + "\n";
    var cut := Word(buffer, "\n\r\0");
    if line != [] {
      assert buffer[0] == ';' && cut != [] && cut[0] == ';';
      assert SkipBlanks(cut) == cut;
      TrimEndHead(cut);
    }
  }

  lemma ParseSectionLine(how: Trimming, name: string)
    requires CleanSection(name)
    ensures ParseLine(how, SectionText(name)) == Parsed(name, [], [])
  {
    var line := SectionText(name);
    assert line[0] == '[';
    assert SkipBlanks(line) == line;
    assert line[1..] == name + [']'] + [];
    WordUpTo(name, ']', [], "]");
    TrimKeeps(how, name);
  }

  lemma SectionLine(how: Trimming, reading: Reading, name: string)
    requires CleanSection(name)
    ensures TakeLine(how, reading, SectionText(name) + "\n") == reading.(section := name)
  {
    var line := SectionText(name);
    BufferLine(line);
    TrimKeeps(how, line);
    LineParsed(how, reading, line + "\n", line, line);
    ParseSectionLine(how, name);
  }

  /** The line of an entry, once its end is trimmed. */
  function Shortened(key: string, value: string): string {
    key + " " + "=" + (if value == [] then [] else " " + value)
  }

  lemma EntryLineTrimmed(how: Trimming, key: string, value: string)
    requires CleanKey(key) && CleanValue(value)
    ensures Trim(how, key + " = " + value) == Shortened(key, value)
  {
    var line, short := key + " = " + value, Shortened(key, value);
    assert line[0] == key[0];
    assert SkipBlanks(line) == line;
    if value == [] {
      assert line == short + " ";
      TrimEndKeeps(short, " ");
    } else {
      assert line == short;
      TrimKeeps(how, short);
    }
  }

  lemma ValuePart(how: Trimming, value: string)
    requires CleanValue(value)
    ensures Unquote(Trim(how, if value == [] then [] else " " + value))
         == if how == BothEnds || value == [] then value else " " + value
  {
    if value != [] {
      var rest := " " + value;
      assert rest[1..] == value && IsSpace(rest[0]);
      assert SkipBlanks(rest) == SkipBlanks(value) == value;
      TrimKeeps(BothEnds, value);
      TrimEndKeeps(rest, []);
      assert rest + [] == rest;
    }
  }

  lemma KeyPart(how: Trimming, key: string)
    requires CleanKey(key)
    ensures Trim(how, key + " ") == key
  {
    assert (key + " ")[0] == key[0];
    assert SkipBlanks(key + " ") == key + " ";
    TrimEndKeeps(key, " ");
  }

  lemma ParseEntryLine(how: Trimming, key: string, value: string)
    requires CleanKey(key) && CleanValue(value)
    ensures ParseLine(how, Shortened(key, value)) == Parsed([], key, Reloaded(how, value))
  {
    var line := Shortened(key, value);
    assert line[0] == key[0];
    assert SkipBlanks(line) == line;
    var rest := if value == [] then [] else " " + value;
    assert line == (key + " ") + ['='] + rest;
    WordUpTo(key + " ", '=', rest, "=");
    assert line[|key + " "| + 1..] == rest;
    KeyPart(how, key);
    ValuePart(how, value);
  }

  lemma EntryLine(how: Trimming, reading: Reading, entry: Cell<string>)
    requires CleanKey(entry.name) && CleanValue(entry.content) && reading.section != []
    ensures TakeLine(how, reading, EntryText(entry) + "\n") == reading.(store := PutReloaded(how, reading, entry))
  {
    var line, short := EntryText(entry), Shortened(entry.name, entry.content);
    BufferLine(line);
    EntryLineTrimmed(how, entry.name, entry.content);
    assert short[0] == entry.name[0];
    LineParsed(how, reading, line + "\n", line, short);
    ParseEntryLine(how, entry.name, entry.content);
  }

  // ---------- the whole text ----------

  function Fold<R>(step: (R, string) -> R, reading: R, lines: seq<string>): R
    decreases |lines|
  {
    if lines == [] then reading else Fold(step, step(reading, lines[0] + "\n"), lines[1..])
  }

  lemma {:induction false} FoldAppend<R>(step: (R, string) -> R, reading: R, first: seq<string>, second: seq<string>)
    ensures Fold(step, reading, first + second) == Fold(step, Fold(step, reading, first), second)
    decreases |first|
  {
    if first == [] {
      assert first + second == second;
    } else {
      assert (first + second)[1..] == first[1..] + second;
      FoldAppend(step, step(reading, first[0] + "\n"), first[1..], second);
    }
  }

  /** A line that `fgets` reads whole. */
  predicate FitsBuffer(line: string) {
    '\n' !in line && |line| < CONFIG_MAX_LINE_LEN - 1
  }

  lemma NextLine(line: string, rest: string)
    requires FitsBuffer(line)
    ensures var text := line + "\n" + rest;
            LineLength(text) == |line| + 1 && text[..|line| + 1] == line + "\n" && text[|line| + 1..] == rest
  {
    assert line + "\n" + rest == line + ['\n'] + rest;
    WordUpTo(line, '\n', rest, "\n");
  }

  /** The loop around `fgets` takes a text line by line. */
  lemma {:induction false} LinesTaken<R>(step: (R, string) -> R, reading: R, lines: seq<string>)
    requires forall line :: line in lines ==> FitsBuffer(line)
    ensures TakeLines(step, reading, Join(lines)) == Fold(step, reading, lines)
    decreases |lines|
  {
    if lines != [] {
      assert lines[0] in lines;
      NextLine(lines[0], Join(lines[1..]));
      LinesTaken(step, step(reading, lines[0] + "\n"), lines[1..]);
    }
  }

  lemma {:induction false} EntryLinesFit(entries: Entries)
    requires CleanEntries(entries)
    ensures forall line :: line in EntryLines(entries) ==> FitsBuffer(line)
    decreases |entries|
  {
    if entries != [] {
      assert CleanKey(entries[0].name) && CleanValue(entries[0].content);
      assert FitsBuffer(EntryText(entries[0]));
      EntryLinesFit(entries[1..]);
    }
  }

  lemma {:induction false} SectionLinesFit(store: Store)
    requires Clean(store)
    ensures forall line :: line in SectionLines(store) ==> FitsBuffer(line)
    decreases |store|
  {
    if store != [] {
      assert CleanSection(store[0].name);
      assert FitsBuffer(SectionText(store[0].name)) && FitsBuffer([]);
      EntryLinesFit(store[0].content);
      SectionLinesFit(store[1..]);
    }
  }

  // ---------- what the lines of a store do ----------

  function PutReloaded(how: Trimming, reading: Reading, entry: Cell<string>): Store {
    Set(reading.store, reading.section, entry.name, Reloaded(how, entry.content))
  }

  ghost predicate Skips(step: (Reading, string) -> Reading, line: string) {
    forall r: Reading :: step(r, line + "\n") == r
  }

  ghost predicate Enters(step: (Reading, string) -> Reading, name: string) {
    forall r: Reading :: step(r, SectionText(name) + "\n") == r.(section := name)
  }

  ghost predicate Puts(how: Trimming, step: (Reading, string) -> Reading, entry: Cell<string>) {
    forall r: Reading :: r.section != [] ==>
      step(r, EntryText(entry) + "\n") == r.(store := PutReloaded(how, r, entry))
  }

  function SetAll(how: Trimming, reading: Reading, entries: Entries): Store
    decreases |entries|
  {
    if entries == [] then reading.store
    else SetAll(how, reading.(store := PutReloaded(how, reading, entries[0])), entries[1..])
  }

  function SetStore(how: Trimming, store: Store, saved: Store): Store
    decreases |saved|
  {
    if saved == [] then store
    else SetStore(how, SetAll(how, Reading(store, saved[0].name), saved[0].content), saved[1..])
  }

  lemma {:induction false} EntriesTaken(
      how: Trimming, step: (Reading, string) -> Reading, reading: Reading, entries: Entries)
    requires forall i :: 0 <= i < |entries| ==> Puts(how, step, entries[i])
    requires reading.section != []
    ensures Fold(step, reading, EntryLines(entries)) == reading.(store := SetAll(how, reading, entries))
    decreases |entries|
  {
    if entries != [] {
      assert Puts(how, step, entries[0]);
      EntriesTaken(how, step, reading.(store := PutReloaded(how, reading, entries[0])), entries[1..]);
    }
  }

  lemma {:induction false} SectionsTaken(
      how: Trimming, step: (Reading, string) -> Reading, reading: Reading, saved: Store)
    requires Skips(step, [])
    requires forall i :: 0 <= i < |saved| ==> saved[i].name != [] && Enters(step, saved[i].name)
    requires forall i, j :: 0 <= i < |saved| && 0 <= j < |saved[i].content| ==> Puts(how, step, saved[i].content[j])
    ensures Fold(step, reading, SectionLines(saved)).store == SetStore(how, reading.store, saved)
    decreases |saved|
  {
    if saved != [] {
      var name, entries := saved[0].name, saved[0].content;
      var head, others := [SectionText(name)] + EntryLines(entries), SectionLines(saved[1..]);
      assert SectionLines(saved) == head + ([[]] + others);
      FoldAppend(step, reading, head, [[]] + others);
      assert head[0] == SectionText(name) && head[1..] == EntryLines(entries);
      assert Enters(step, name);
      var inside := reading.(section := name);
      EntriesTaken(how, step, inside, entries);
      var after := inside.(store := SetAll(how, inside, entries));
      assert ([[]] + others)[1..] == others;
      assert inside == Reading(reading.store, name);
      SectionsTaken(how, step, after, saved[1..]);
    }
  }

  lemma TakingSkips(how: Trimming, line: string)
    requires '\n' !in line && (line == [] || line[0] == ';')
    ensures Skips(Taking(how), line)
  {
    forall r: Reading
      ensures Taking(how)(r, line + "\n") == r
    {
      SkippedLine(how, r, line);
    }
  }

  lemma TakingEnters(how: Trimming, name: string)
    requires CleanSection(name)
    ensures Enters(Taking(how), name)
  {
    forall r: Reading
      ensures Taking(how)(r, SectionText(name) + "\n") == r.(section := name)
    {
      SectionLine(how, r, name);
    }
  }

  lemma TakingPuts(how: Trimming, entry: Cell<string>)
    requires CleanKey(entry.name) && CleanValue(entry.content)
    ensures Puts(how, Taking(how), entry)
  {
    forall r: Reading | r.section != []
      ensures Taking(how)(r, EntryText(entry) + "\n") == r.(store := PutReloaded(how, r, entry))
    {
      EntryLine(how, r, entry);
    }
  }

  /** The lines at the top of a file: comments and blank lines. */
  ghost predicate Comments(lines: seq<string>) {
    forall line :: line in lines ==> FitsBuffer(line) && (line == [] || line[0] == ';')
  }

  lemma {:induction false} CommentsTaken(how: Trimming, reading: Reading, lines: seq<string>)
    requires Comments(lines)
    ensures Fold(Taking(how), reading, lines) == reading
    decreases |lines|
  {
    if lines != [] {
      assert lines[0] in lines;
      TakingSkips(how, lines[0]);
      CommentsTaken(how, reading, lines[1..]);
    }
  }

  lemma HeaderIsComments(date: string)
    requires |date| == 11 && '\n' !in date
    ensures Comments(HeaderLines(date))
  {
    assert |TITLE| == 24 && |DATED| == 15 && TITLE[0] == ';' && DATED[0] == ';';
    assert FitsBuffer(TITLE) && FitsBuffer(DATED + date);
  }

  lemma PrintedTaken(how: Trimming, header: seq<string>, saved: Store)
    requires Clean(saved) && Comments(header)
    ensures Load(how, Join(header + SectionLines(saved))) == SetStore(how, [], saved)
  {
    var step, none := Taking(how), Reading([], []);
    SectionLinesFit(saved);
    LinesTaken(step, none, header + SectionLines(saved));
    FoldAppend(step, none, header, SectionLines(saved));
    CommentsTaken(how, none, header);
    TakingSkips(how, []);
    forall i | 0 <= i < |saved|
      ensures saved[i].name != [] && Enters(step, saved[i].name)
    {
      TakingEnters(how, saved[i].name);
    }
    forall i, j | 0 <= i < |saved| && 0 <= j < |saved[i].content|
      ensures Puts(how, step, saved[i].content[j])
    {
      assert CleanEntries(saved[i].content);
      TakingPuts(how, saved[i].content[j]);
    }
    SectionsTaken(how, step, none, saved);
  }

  // ---------- the map of maps that is set ----------

  lemma ReloadedAdds(how: Trimming, m: map<string, string>, key: string, value: string)
    ensures ReloadedEntries(how, m[key := value]) == ReloadedEntries(how, m)[key := Reloaded(how, value)]
  {}

  lemma {:induction false} SetAllMaps(how: Trimming, reading: Reading, entries: Entries)
    requires Unique(reading.store) && Short(reading.store)
    requires CleanSection(reading.section) && CleanEntries(entries) && Distinct(entries)
    ensures var after, m := SetAll(how, reading, entries), AsMaps(reading.store);
            && Unique(after) && Short(after)
            && AsMaps(after) == AddEntries(m, reading.section, ReloadedEntries(how, AsMap(entries)))
    decreases |entries|
  {
    if entries != [] {
      var section, entry, rest := reading.section, entries[0], entries[1..];
      assert CleanKey(entry.name) && CleanValue(entry.content);
      var value := Reloaded(how, entry.content);
      ApplyAgrees(reading.store, OpSet(section, entry.name, value));
      SetAllMaps(how, reading.(store := PutReloaded(how, reading, entry)), rest);
      LookUp(rest, entry.name);
      ReloadedAdds(how, AsMap(rest), entry.name, entry.content);
      AddEntriesAfterSet(AsMaps(reading.store), section, entry.name, value, ReloadedEntries(how, AsMap(rest)));
    }
  }

  function AddEntries(m: Maps, section: string, entries: map<string, string>): Maps {
    if entries == map[] then m else m[section := SectionOf(m, section) + entries]
  }

  lemma AddEntriesAfterSet(m: Maps, section: string, key: string, value: string, more: map<string, string>)
    requires key !in more
    ensures AddEntries(MapSet(m, section, key, value), section, more) == AddEntries(m, section, more[key := value])
  {
    var before := SectionOf(m, section);
    AddedLast(before, more, key, value);
    assert key in more[key := value];
    if more == map[] {
      assert before[key := value] + more == before[key := value];
    }
  }

  lemma AddedLast<V>(before: map<string, V>, more: map<string, V>, key: string, value: V)
    requires key !in more
    ensures before[key := value] + more == before + more[key := value]
  {}

  lemma {:induction false} SetStoreMaps(how: Trimming, store: Store, saved: Store)
    requires Unique(store) && Short(store) && Unique(saved) && Clean(saved)
    requires forall i :: 0 <= i < |saved| ==> saved[i].name !in AsMaps(store)
    ensures AsMaps(SetStore(how, store, saved)) == AsMaps(store) + ReloadedMaps(how, AsMaps(saved))
    decreases |saved|
  {
    if saved != [] {
      var name, entries, rest := saved[0].name, saved[0].content, saved[1..];
      assert CleanSection(name) && CleanEntries(entries) && Distinct(entries);
      SetAllMaps(how, Reading(store, name), entries);
      SetStoreMaps(how, SetAll(how, Reading(store, name), entries), rest);
      SectionLookUp(rest, name);
      NextSection(how, AsMaps(store), AsMaps(rest), name, AsMap(entries));
      FirstSection(saved);
    }
  }

  lemma FirstSection(saved: Store)
    requires saved != []
    ensures AsMaps(saved) == AsMaps(saved[1..])[saved[0].name := AsMap(saved[0].content)]
  {}

  lemma SectionReloaded(how: Trimming, rest: Maps, name: string, entries: map<string, string>)
    requires name !in rest
    ensures ReloadedMaps(how, rest[name := entries])
         == if entries == map[] then ReloadedMaps(how, rest)
            else ReloadedMaps(how, rest)[name := ReloadedEntries(how, entries)]
  {
    var all := rest[name := entries];
    assert forall s :: s in rest ==> all[s] == rest[s];
  }

  lemma NextSection(how: Trimming, m: Maps, rest: Maps, name: string, entries: map<string, string>)
    requires name !in m && name !in rest
    ensures AddEntries(m, name, ReloadedEntries(how, entries)) + ReloadedMaps(how, rest)
         == m + ReloadedMaps(how, rest[name := entries])
  {
    SectionReloaded(how, rest, name, entries);
    var one := ReloadedEntries(how, entries);
    assert map[] + one == one;
    assert forall key :: key in entries <==> key in one;
    assert one == map[] <==> entries == map[];
    AddedLast(m, ReloadedMaps(how, rest), name, one);
  }

  lemma NothingPlus(m: Maps)
    ensures map[] + m == m
  {}

  lemma SetFromNothing(how: Trimming, saved: Store)
    requires Unique(saved) && Clean(saved)
    ensures AsMaps(SetStore(how, [], saved)) == ReloadedMaps(how, AsMaps(saved))
  {
    assert AsMaps([]) == map[];
    SetStoreMaps(how, [], saved);
    NothingPlus(ReloadedMaps(how, AsMaps(saved)));
  }

  /** Loading a file that was saved brings the same map of maps back, without the sections that have no
      entries, and with a blank before each value that is not empty if the trim is the one that is written. */
  lemma SaveThenLoad(how: Trimming, header: seq<string>, store: Store)
    requires Unique(store) && Clean(store) && Comments(header)
    ensures AsMaps(Load(how, Join(header + SectionLines(store)))) == ReloadedMaps(how, AsMaps(store))
  {
    PrintedTaken(how, header, store);
    SetFromNothing(how, store);
  }

  /** The sections that have entries. */
  function Filled(m: Maps): Maps {
    map section | section in m && m[section] != map[] :: m[section]
  }

  /** With the trim that is meant, what comes back is what was saved. */
  lemma MeantTrimRoundTrip(date: string, store: Store)
    requires Unique(store) && Clean(store) && |date| == 11 && '\n' !in date
    ensures AsMaps(Load(BothEnds, Print(date, store))) == Filled(AsMaps(store))
  {
    HeaderIsComments(date);
    SaveThenLoad(BothEnds, HeaderLines(date), store);
    MeantKeeps(AsMaps(store));
  }

  lemma MeantKeeps(m: Maps)
    ensures ReloadedMaps(BothEnds, m) == Filled(m)
  {
    assert forall s :: s in m ==> ReloadedEntries(BothEnds, m[s]) == m[s];
  }

  lemma EntryInMaps(store: Store, i: nat, j: nat)
    requires Unique(store) && i < |store| && j < |store[i].content|
    ensures store[i].name in AsMaps(store) && store[i].content[j].name in AsMaps(store)[store[i].name]
    ensures AsMaps(store)[store[i].name][store[i].content[j].name] == store[i].content[j].content
  {
    assert Find(store, store[i].name) == i;
    SectionLookUp(store, store[i].name);
    assert Find(store[i].content, store[i].content[j].name) == j;
    LookUp(store[i].content, store[i].content[j].name);
  }

  lemma MapsInStore(store: Store, section: string, key: string) returns (i: nat, j: nat)
    requires section in AsMaps(store) && key in AsMaps(store)[section]
    ensures i < |store| && j < |store[i].content|
    ensures AsMaps(store)[section][key] == store[i].content[j].content
  {
    SectionLookUp(store, section);
    i := Find(store, section);
    LookUp(store[i].content, key);
    j := Find(store[i].content, key);
  }

  ghost predicate AllEmpty(store: Store) {
    forall i, j :: 0 <= i < |store| && 0 <= j < |store[i].content| ==> store[i].content[j].content == []
  }

  lemma WrittenKeepsOnlyEmpty(store: Store, i: nat, j: nat)
    requires Unique(store) && Clean(store) && i < |store| && j < |store[i].content|
    requires ReloadedMaps(Written, AsMaps(store)) == Filled(AsMaps(store))
    ensures store[i].content[j].content == []
  {
    var m := AsMaps(store);
    EntryInMaps(store, i, j);
    var section, key := store[i].name, store[i].content[j].name;
    assert ReloadedMaps(Written, m)[section] == Filled(m)[section];
    assert ReloadedEntries(Written, m[section])[key] == Reloaded(Written, m[section][key]);
    assert CleanSection(section) && CleanEntries(store[i].content);
    assert CleanValue(store[i].content[j].content);
  }

  ghost predicate NoValues(m: Maps) {
    forall section | section in m :: forall key | key in m[section] :: m[section][key] == []
  }

  lemma AllEmptyMaps(store: Store)
    requires AllEmpty(store)
    ensures NoValues(AsMaps(store))
  {
    var m := AsMaps(store);
    forall section, key | section in m && key in m[section]
      ensures m[section][key] == []
    {
      var i, j := MapsInStore(store, section, key);
    }
  }

  lemma WrittenKeepsEmpty(m: Maps)
    requires NoValues(m)
    ensures ReloadedMaps(Written, m) == Filled(m)
  {
    assert forall section :: section in m ==> ReloadedEntries(Written, m[section]) == m[section];
  }

  /** With the trim that is written, that holds exactly when every value is empty. */
  lemma WrittenTrimRoundTripIff(date: string, store: Store)
    requires Unique(store) && Clean(store) && |date| == 11 && '\n' !in date
    ensures AsMaps(Load(Written, Print(date, store))) == Filled(AsMaps(store)) <==> AllEmpty(store)
  {
    HeaderIsComments(date);
    SaveThenLoad(Written, HeaderLines(date), store);
    if ReloadedMaps(Written, AsMaps(store)) == Filled(AsMaps(store)) {
      forall i, j | 0 <= i < |store| && 0 <= j < |store[i].content|
        ensures store[i].content[j].content == []
      {
        WrittenKeepsOnlyEmpty(store, i, j);
      }
    }
    if AllEmpty(store) {
      AllEmptyMaps(store);
      WrittenKeepsEmpty(AsMaps(store));
    }
  }
}
