/** Saving and loading the linked lists, and the trim of a line buffer in place. */
module ConfigFile {
  import opened TextBuffers
  import opened Tokens
  import opened ConfigModel
  import opened ConfigText
  import opened ConfigStore

  // ---------- trim_string ----------

  /** From the last character of the text back over blanks, but not past its first. */
  method StepBack(buffer: array<char>, str: nat, length: nat) returns (end: int)
    requires str + length < buffer.Length
    ensures str - 1 <= end < str + length && (length > 0 ==> str <= end)
    ensures forall i :: end < i < str + length ==> IsSpace(buffer[i])
    ensures end > str ==> !IsSpace(buffer[end])
  {
    end := str + length - 1;
    while end > str && IsSpace(buffer[end])
      invariant str - 1 <= end < str + length && (length > 0 ==> str <= end)
      invariant forall i :: end < i < str + length ==> IsSpace(buffer[i])
    {
      end := end - 1;
    }
  }

  /** `trim_string`, with the two pointers as indices; `end` may start out just before the text. */
  method TrimString(buffer: array<char>, start: nat)
    requires start <= buffer.Length && start + |TextAt(buffer[..], start)| < buffer.Length
    modifies buffer
    ensures TextAt(buffer[..], start) == Trim(Written, old(TextAt(buffer[..], start)))
    ensures forall i :: 0 <= i < buffer.Length && !(start <= i <= start + |old(TextAt(buffer[..], start))|) ==>
              buffer[i] == old(buffer[i])
  {
    ghost var before := buffer[..];
    ghost var text := TextAt(before, start);
    TextIn(before, start);
    var str := SkipSpaces(buffer, start);
    var length := StringLength(buffer, str);
    var end := StepBack(buffer, str, length);
    TrimmedAt(text, str - start, end + 1 - start, before, start);
    buffer[end + 1] := '\0';
    CutAt(buffer[..][start..], text, end + 1 - start);
  }

  lemma TrimmedAt(text: string, lead: nat, n: nat, buffer: seq<char>, start: nat)
    requires lead <= n <= |text| && SkipBlanks(text) == text[lead..] && (lead < |text| ==> lead < n)
    requires start + |text| <= |buffer| && forall i :: 0 <= i < |text| ==> text[i] == buffer[start + i]
    requires forall i :: start + n <= i < start + |text| ==> IsSpace(buffer[i])
    requires lead + 1 < n ==> !IsSpace(buffer[start + n - 1])
    ensures Trim(Written, text) == text[..n]
  {
    forall i | n <= i < |text|
      ensures IsSpace(text[i])
    {
      assert text[i] == buffer[start + i];
    }
    TrimmedText(text, lead, n);
  }

  lemma TrimmedText(text: string, lead: nat, n: nat)
    requires lead <= n <= |text| && SkipBlanks(text) == text[lead..] && (lead < |text| ==> lead < n)
    requires forall i :: n <= i < |text| ==> IsSpace(text[i])
    requires lead + 1 < n ==> !IsSpace(text[n - 1])
    ensures Trim(Written, text) == text[..n]
  {
    TrimEndBefore(text, n);
    if lead < |text| {
      SkipBlanksHead(text);
      assert text[lead..][0] == text[lead];
      assert text[..n][n - 1] == text[n - 1];
    } else {
      assert text[..n] == text;
    }
  }

  // ---------- save_config_to_file ----------

  lemma NextEntryText(list: Entries, j: nat)
    requires j < |list|
    ensures Join(EntryLines(list[j..])) == EntryText(list[j]) + "\n" + Join(EntryLines(list[j + 1..]))
  {
    assert list[j..][1..] == list[j + 1..];
  }

  lemma NextSectionText(store: Store, i: nat)
    requires i < |store|
    ensures Join(SectionLines(store[i..]))
         == SectionText(store[i].name) + "\n" + Join(EntryLines(store[i].content)) + "\n"
            + Join(SectionLines(store[i + 1..]))
  {
    assert store[i..][1..] == store[i + 1..];
    var head, tail := [SectionText(store[i].name)] + EntryLines(store[i].content), [[]] + SectionLines(store[i + 1..]);
    assert SectionLines(store[i..]) == head + tail;
    JoinAppend(head, tail);
    assert head[1..] == EntryLines(store[i].content) && tail[1..] == SectionLines(store[i + 1..]);
  }

  method SaveEntries(sect: SectionNode) returns (text: string)
    requires sect.Linked()
    ensures text == Join(EntryLines(sect.list))
  {
    sect.FromIsNodes(0);
    text := "";
    var entry := sect.entries;
    ghost var j := 0;
    assert sect.list[0..] == sect.list;
    while entry != null
      invariant j <= |sect.nodes| && entry == EntryAt(sect.nodes, j)
      invariant text + Join(EntryLines(sect.list[j..])) == Join(EntryLines(sect.list))
      decreases |sect.nodes| - j
    {
      assert Cell(sect.nodes[j].key, sect.nodes[j].value) == sect.list[j];
      NextEntryText(sect.list, j);
      text := text + (entry.key + " = " + entry.value + "\n");
      entry, j := entry.next, j + 1;
    }
  }

  method SaveSections(config: Config) returns (text: string)
    requires config.Valid()
    ensures text == Join(SectionLines(config.Contents()))
  {
    config.ChainedIff(0);
    ghost var store := config.Contents();
    text := "";
    var sect := config.first;
    ghost var i := 0;
    assert store[0..] == store;
    while sect != null
      invariant i <= |config.sections| && sect == SectionAt(config.sections, i)
      invariant text + Join(SectionLines(store[i..])) == Join(SectionLines(store))
      decreases |config.sections| - i
    {
      NextSectionText(store, i);
      assert config.sections[i].Linked();
      var entries := SaveEntries(sect);
      text := text + (SectionText(sect.name) + "\n" + entries + "\n");
      sect, i := sect.next, i + 1;
    }
  }

  /** `save_config_to_file`. */
  method Save(config: Config, date: string) returns (text: string)
    requires config.Valid()
    ensures text == Print(date, config.Contents())
  {
    var sections := SaveSections(config);
    text := Join(HeaderLines(date)) + sections;
    JoinAppend(HeaderLines(date), SectionLines(config.Contents()));
  }

  // ---------- config_load ----------

  /** What one line does to the lists and to the current section. */
  method LoadLine(config: Config, how: Trimming, current: string, buffer: string) returns (section: string)
    requires config.Valid()
    modifies config, config.repr
    ensures config.Valid() && fresh(config.repr - old(config.repr))
    ensures Reading(config.Contents(), section) == TakeLine(how, Reading(old(config.Contents()), current), buffer)
  {
    var line := Trim(how, Word(buffer, "\n\r\0"));
    if line == [] || line[0] == ';' || line[0] == '#' {
      return current;
    }
    section := current;
    match ParseLine(how, line) {
      case Invalid =>
      case Parsed(name, key, value) =>
        if name != [] {
          section := name;
        } else if key != [] && current != [] {
          config.SetString(current, key, value);
        }
    }
  }

  /** The loop of `config_load`. */
  method LoadText(config: Config, how: Trimming, text: string)
    requires config.Valid()
    modifies config, config.repr
    ensures config.Valid() && config.Contents() == Load(how, text)
  {
    config.Clear();
    var section, rest := [], text;
    while rest != []
      invariant config.Valid() && fresh(config.repr)
      invariant TakeLines(Taking(how), Reading(config.Contents(), section), rest).store == Load(how, text)
      decreases |rest|
    {
      var n := LineLength(rest);
      ghost var before := Reading(config.Contents(), section);
      section := LoadLine(config, how, section, rest[..n]);
      assert Reading(config.Contents(), section) == Taking(how)(before, rest[..n]);
      rest := rest[n..];
    }
  }
}
