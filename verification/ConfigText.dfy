/** The text form of a configuration: what `save_config_to_file` writes, and what `config_load` makes of a
    text, line by line. */
module ConfigText {
  import opened TextBuffers
  import opened Tokens
  import opened ConfigModel

  // the size of the line buffer; `fgets` reads one character less
  const CONFIG_MAX_LINE_LEN: nat := 2048

  // ---------- trimming ----------

  /** `trim_string` as it is written moves only its own copy of the pointer over leading blanks, so it cuts
      trailing blanks off, of a text that is not all blank. The trim that is meant takes both ends. */
  datatype Trimming = Written | BothEnds

  function Trim(how: Trimming, s: string): (t: string)
    ensures |t| <= |s|
  {
    if how == BothEnds then Stripped(s)
    else if SkipBlanks(s) == [] then s else TrimEnd(s)
  }

  // ---------- printing ----------

  const TITLE := "; Cryptcat Configuration"
  const DATED := "; Generated on "

  function EntryText(entry: Cell<string>): string {
    entry.name + " = " + entry.content
  }

  function SectionText(name: string): string {
    "[" + name + "]"
  }

  function EntryLines(entries: Entries): seq<string> {
    if entries == [] then [] else [EntryText(entries[0])] + EntryLines(entries[1..])
  }

  function SectionLines(store: Store): seq<string> {
    if store == [] then []
    else [SectionText(store[0].name)] + EntryLines(store[0].content) + [[]] + SectionLines(store[1..])
  }

  function HeaderLines(date: string): seq<string> {
    [TITLE, DATED + date, []]
  }

  /** Lines as a text, each with its newline. */
  function Join(lines: seq<string>): string {
    if lines == [] then [] else lines[0] + "\n" + Join(lines[1..])
  }

  lemma {:induction false} JoinAppend(a: seq<string>, b: seq<string>)
    ensures Join(a + b) == Join(a) + Join(b)
    decreases |a|
  {
    if a == [] {
      assert a + b == b;
    } else {
      assert (a + b)[1..] == a[1..] + b;
      JoinAppend(a[1..], b);
    }
  }

  /** The file `save_config_to_file` writes, given the date of compilation. */
  function Print(date: string, store: Store): string {
    Join(HeaderLines(date) + SectionLines(store))
  }

  // ---------- parsing ----------

  datatype Parsed = Invalid | Parsed(section: string, key: string, value: string)

  function Unquote(value: string): string {
    if value != [] && value[0] == '"' && value[|value| - 1] == '"' then
      if |value| == 1 then [] else value[1..|value| - 1]
    else value
  }

  /** `parse_line`. */
  function ParseLine(how: Trimming, line: string): Parsed {
    var p := SkipBlanks(line);
    if p == [] then Invalid
    else if p[0] == '[' then
      var name := Word(p[1..], "]");
      if name == p[1..] then Invalid else Parsed(Cut(Trim(how, name), CONFIG_MAX_SECTION_LEN), [], [])
    else
      var key := Word(p, "=");
      if key == p then Invalid
      else Parsed([], Cut(Trim(how, key), CONFIG_MAX_KEY_LEN),
                  Cut(Unquote(Trim(how, p[|key| + 1..])), CONFIG_MAX_VALUE_LEN))
  }

  /** What `config_load` has read so far: the entries, and the section it is in. */
  datatype Reading = Reading(store: Store, section: string)

  function TakeParsed(reading: Reading, parsed: Parsed): Reading {
    match parsed
    case Invalid => reading
    case Parsed(section, key, value) =>
      if section != [] then reading.(section := section)
      else if key != [] && reading.section != [] then
        reading.(store := Set(reading.store, reading.section, key, value))
      else reading
  }

  /** One turn of the loop of `config_load`, from the buffer that `fgets` filled. */
  function TakeLine(how: Trimming, reading: Reading, buffer: string): Reading {
    var line := Trim(how, Word(buffer, "\n\r\0"));
    if line == [] || line[0] == ';' || line[0] == '#' then reading else TakeParsed(reading, ParseLine(how, line))
  }

  /** How many characters `fgets` takes: to the end of the line, or as many as the buffer holds. */
  function LineLength(text: string): (n: nat)
    requires text != []
    ensures 0 < n <= |text| && n < CONFIG_MAX_LINE_LEN
  {
    var n := |Word(text, "\n")|;
    var line := if n < |text| then n + 1 else n;
    if line < CONFIG_MAX_LINE_LEN then line else CONFIG_MAX_LINE_LEN - 1
  }

  function TakeLines<R>(step: (R, string) -> R, reading: R, text: string): R
    decreases |text|
  {
    if text == [] then reading else
    var n := LineLength(text);
    TakeLines(step, step(reading, text[..n]), text[n..])
  }

  function Taking(how: Trimming): (Reading, string) -> Reading {
    (reading, buffer) => TakeLine(how, reading, buffer)
  }

  /** `config_load` clears the store and takes the lines of the file. */
  function Load(how: Trimming, text: string): Store {
    TakeLines(Taking(how), Reading([], []), text).store
  }
}
