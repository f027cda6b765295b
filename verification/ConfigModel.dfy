/** The configuration of config_parser.c as two levels of association lists, most recent first, and the
    map of maps it stands for. */
module ConfigModel {
  const CONFIG_MAX_KEY_LEN: nat := 256
  const CONFIG_MAX_VALUE_LEN: nat := 1024
  const CONFIG_MAX_SECTION_LEN: nat := 256

  datatype Code = Success | NotFound

  // ---------- association lists ----------

  datatype Cell<+V> = Cell(name: string, content: V)

  /** The index of the first cell of that name, or the length if there is none. */
  function Find<V>(cells: seq<Cell<V>>, name: string): (i: nat)
    ensures i <= |cells|
    ensures i < |cells| ==> cells[i].name == name
    ensures forall j :: 0 <= j < i ==> cells[j].name != name
  {
    if cells == [] || cells[0].name == name then 0 else 1 + Find(cells[1..], name)
  }

  predicate Has<V>(cells: seq<Cell<V>>, name: string) {
    Find(cells, name) < |cells|
  }

  function AsMap<V>(cells: seq<Cell<V>>): map<string, V> {
    if cells == [] then map[] else AsMap(cells[1..])[cells[0].name := cells[0].content]
  }

  ghost predicate Distinct<V>(cells: seq<Cell<V>>) {
    forall i, j :: 0 <= i < j < |cells| ==> cells[i].name != cells[j].name
  }

  lemma {:induction false} LookUp<V>(cells: seq<Cell<V>>, name: string)
    ensures Has(cells, name) <==> name in AsMap(cells)
    ensures Has(cells, name) ==> AsMap(cells)[name] == cells[Find(cells, name)].content
    decreases |cells|
  {
    if cells != [] && cells[0].name != name {
      LookUp(cells[1..], name);
    }
  }

  lemma {:induction false} UpdateCell<V>(cells: seq<Cell<V>>, name: string, content: V)
    requires Has(cells, name)
    ensures AsMap(cells[Find(cells, name) := Cell(name, content)]) == AsMap(cells)[name := content]
    decreases |cells|
  {
    var i := Find(cells, name);
    var updated := cells[i := Cell(name, content)];
    if i == 0 {
      assert updated[1..] == cells[1..];
    } else {
      assert updated[1..] == cells[1..][i - 1 := Cell(name, content)];
      UpdateCell(cells[1..], name, content);
    }
  }

  function Without<V>(cells: seq<Cell<V>>, i: nat): seq<Cell<V>>
    requires i < |cells|
  {
    cells[..i] + cells[i + 1..]
  }

  lemma RemoveAdded<V>(m: map<string, V>, name: string, content: V)
    requires name !in m
    ensures m[name := content] - {name} == m
  {}

  lemma RemovePastAdded<V>(m: map<string, V>, other: string, content: V, name: string)
    requires other != name
    ensures m[other := content] - {name} == (m - {name})[other := content]
  {}

  lemma {:induction false} RemoveCell<V>(cells: seq<Cell<V>>, name: string)
    requires Distinct(cells) && Has(cells, name)
    ensures AsMap(Without(cells, Find(cells, name))) == AsMap(cells) - {name}
    decreases |cells|
  {
    var i := Find(cells, name);
    var rest := Without(cells, i);
    if i == 0 {
      assert rest == cells[1..];
      LookUp(rest, name);
      RemoveAdded(AsMap(rest), name, cells[0].content);
    } else {
      assert rest[0] == cells[0] && rest[1..] == Without(cells[1..], i - 1);
      RemoveCell(cells[1..], name);
      RemovePastAdded(AsMap(cells[1..]), cells[0].name, cells[0].content, name);
    }
  }

  // ---------- the store ----------

  type Entries = seq<Cell<string>>
  type Store = seq<Cell<Entries>>

  /** What `strncpy` leaves of a text in a zeroed field of that size. */
  function Cut(text: string, size: nat): (cut: string)
    requires size > 0
    ensures |cut| < size
    ensures cut == text <==> |text| < size
  {
    if |text| < size then text else text[..size - 1]
  }

  /** `config_set_string`'s second half: find the entry, or put a new one in front. */
  function SetEntry(entries: Entries, key: string, value: string): Entries {
    var v := Cut(value, CONFIG_MAX_VALUE_LEN);
    var i := Find(entries, key);
    if i < |entries| then entries[i := Cell(entries[i].name, v)]
    else [Cell(Cut(key, CONFIG_MAX_KEY_LEN), v)] + entries
  }

  /** `config_set_string`. */
  function Set(store: Store, section: string, key: string, value: string): Store {
    var i := Find(store, section);
    if i < |store| then store[i := Cell(store[i].name, SetEntry(store[i].content, key, value))]
    else [Cell(Cut(section, CONFIG_MAX_SECTION_LEN), SetEntry([], key, value))] + store
  }

  /** `config_get_string`. */
  function Get(store: Store, section: string, key: string, default: string): string {
    var i := Find(store, section);
    if i == |store| then default else
    var entries := store[i].content;
    var j := Find(entries, key);
    if j == |entries| then default else entries[j].content
  }

  /** `config_delete_key`. */
  function DeleteKey(store: Store, section: string, key: string): (Code, Store) {
    var i := Find(store, section);
    if i == |store| then (NotFound, store) else
    var entries := store[i].content;
    var j := Find(entries, key);
    if j == |entries| then (NotFound, store)
    else (Success, store[i := Cell(store[i].name, Without(entries, j))])
  }

  /** `config_delete_section`. */
  function DeleteSection(store: Store, section: string): (Code, Store) {
    var i := Find(store, section);
    if i == |store| then (NotFound, store) else (Success, Without(store, i))
  }

  // ---------- the map of maps ----------

  type Maps = map<string, map<string, string>>

  function AsMaps(store: Store): Maps {
    var m := AsMap(store);
    map s | s in m :: AsMap(m[s])
  }

  function SectionOf(m: Maps, section: string): map<string, string> {
    if section in m then m[section] else map[]
  }

  function MapSet(m: Maps, section: string, key: string, value: string): Maps {
    m[section := SectionOf(m, section)[key := value]]
  }

  function MapGet(m: Maps, section: string, key: string, default: string): string {
    if key in SectionOf(m, section) then m[section][key] else default
  }

  function MapDeleteKey(m: Maps, section: string, key: string): (Code, Maps) {
    if key in SectionOf(m, section) then (Success, m[section := m[section] - {key}]) else (NotFound, m)
  }

  function MapDeleteSection(m: Maps, section: string): (Code, Maps) {
    if section in m then (Success, m - {section}) else (NotFound, m)
  }

  // ---------- every operation agrees with the map of maps ----------

  /** Section names are unique, and so are the keys of each section. */
  ghost predicate Unique(store: Store) {
    Distinct(store) && forall i :: 0 <= i < |store| ==> Distinct(store[i].content)
  }

  /** Names fit their fields. */
  ghost predicate Short(store: Store) {
    forall i :: 0 <= i < |store| ==>
      && |store[i].name| < CONFIG_MAX_SECTION_LEN
      && forall j :: 0 <= j < |store[i].content| ==> |store[i].content[j].name| < CONFIG_MAX_KEY_LEN
  }

  predicate Fits(section: string, key: string, value: string) {
    |section| < CONFIG_MAX_SECTION_LEN && |key| < CONFIG_MAX_KEY_LEN && |value| < CONFIG_MAX_VALUE_LEN
  }

  lemma SectionLookUp(store: Store, section: string)
    ensures Has(store, section) <==> section in AsMaps(store)
    ensures Has(store, section) ==> AsMaps(store)[section] == AsMap(store[Find(store, section)].content)
  {
    LookUp(store, section);
  }

  lemma GetAgrees(store: Store, section: string, key: string, default: string)
    ensures Get(store, section, key, default) == MapGet(AsMaps(store), section, key, default)
  {
    SectionLookUp(store, section);
    if Has(store, section) {
      LookUp(store[Find(store, section)].content, key);
    }
  }

  lemma SetEntryMap(entries: Entries, key: string, value: string)
    ensures AsMap(SetEntry(entries, key, value))
         == AsMap(entries)[(if Has(entries, key) then key else Cut(key, CONFIG_MAX_KEY_LEN))
                           := Cut(value, CONFIG_MAX_VALUE_LEN)]
  {
    var v := Cut(value, CONFIG_MAX_VALUE_LEN);
    if Has(entries, key) {
      UpdateCell(entries, key, v);
    } else {
      var cell := Cell(Cut(key, CONFIG_MAX_KEY_LEN), v);
      assert ([cell] + entries)[1..] == entries;
    }
  }

  lemma SetMap(store: Store, section: string, key: string, value: string)
    ensures var name := if Has(store, section) then section else Cut(section, CONFIG_MAX_SECTION_LEN);
            var entries := if Has(store, section) then store[Find(store, section)].content else [];
            AsMaps(Set(store, section, key, value)) == AsMaps(store)[name := AsMap(SetEntry(entries, key, value))]
  {
    if Has(store, section) {
      UpdateCell(store, section, SetEntry(store[Find(store, section)].content, key, value));
    } else {
      var cell := Cell(Cut(section, CONFIG_MAX_SECTION_LEN), SetEntry([], key, value));
      assert ([cell] + store)[1..] == store;
    }
  }

  lemma ShortNamesOnly(store: Store, section: string, key: string)
    requires Short(store)
    ensures Has(store, section) ==> |section| < CONFIG_MAX_SECTION_LEN
    ensures Has(store, section) && Has(store[Find(store, section)].content, key) ==> |key| < CONFIG_MAX_KEY_LEN
  {}

  /** Setting an entry is setting it in the map of maps exactly when nothing has to be cut. */
  lemma SetAgreesIff(store: Store, section: string, key: string, value: string)
    requires Short(store)
    ensures AsMaps(Set(store, section, key, value)) == MapSet(AsMaps(store), section, key, value)
       <==> Fits(section, key, value)
  {
    SetMap(store, section, key, value);
    SectionLookUp(store, section);
    ShortNamesOnly(store, section, key);
    var entries := if Has(store, section) then store[Find(store, section)].content else [];
    SetEntryMap(entries, key, value);
    LookUp(entries, key);
    var m, wanted := AsMaps(Set(store, section, key, value)), MapSet(AsMaps(store), section, key, value);
    assert wanted[section][key] == value;
    if |section| >= CONFIG_MAX_SECTION_LEN {
      assert section !in m;
    } else {
      assert m[section] == AsMap(SetEntry(entries, key, value));
      assert SectionOf(AsMaps(store), section) == AsMap(entries);
      if |key| >= CONFIG_MAX_KEY_LEN {
        assert key !in m[section];
      } else {
        assert m[section][key] == Cut(value, CONFIG_MAX_VALUE_LEN);
      }
    }
  }

  lemma DeleteKeyAgrees(store: Store, section: string, key: string)
    requires Unique(store)
    ensures var (code, after) := DeleteKey(store, section, key);
            (code, AsMaps(after)) == MapDeleteKey(AsMaps(store), section, key)
  {
    SectionLookUp(store, section);
    if Has(store, section) {
      var entries := store[Find(store, section)].content;
      LookUp(entries, key);
      if Has(entries, key) {
        RemoveCell(entries, key);
        UpdateCell(store, section, Without(entries, Find(entries, key)));
        assert AsMaps(DeleteKey(store, section, key).1) == AsMaps(store)[section := AsMap(entries) - {key}];
      }
    }
  }

  lemma DeleteSectionAgrees(store: Store, section: string)
    requires Unique(store)
    ensures var (code, after) := DeleteSection(store, section);
            (code, AsMaps(after)) == MapDeleteSection(AsMaps(store), section)
  {
    SectionLookUp(store, section);
    if Has(store, section) {
      RemoveCell(store, section);
      assert AsMaps(DeleteSection(store, section).1) == AsMaps(store) - {section};
    }
  }

  // ---------- uniqueness ----------

  lemma WithoutDistinct<V>(cells: seq<Cell<V>>, i: nat)
    requires Distinct(cells) && i < |cells|
    ensures Distinct(Without(cells, i))
  {}

  /** Setting an entry keeps names unique exactly when no name is cut, or what is left of it is new. */
  lemma SetKeepsUniqueIff(store: Store, section: string, key: string, value: string)
    requires Unique(store) && Short(store)
    ensures Unique(Set(store, section, key, value)) <==>
              && (|section| < CONFIG_MAX_SECTION_LEN || !Has(store, Cut(section, CONFIG_MAX_SECTION_LEN)))
              && (|key| < CONFIG_MAX_KEY_LEN || !Has(store, section)
                  || !Has(store[Find(store, section)].content, Cut(key, CONFIG_MAX_KEY_LEN)))
    ensures Short(Set(store, section, key, value))
  {
    if Has(store, section) {
      SetInPlaceUniqueIff(store, section, key, value);
    } else {
      var after := Set(store, section, key, value);
      FrontDistinctIff(store, after[0]);
      assert forall j :: 1 <= j < |after| ==> after[j] == store[j - 1];
      assert Distinct(after[0].content);
    }
  }

  lemma SetInPlaceUniqueIff(store: Store, section: string, key: string, value: string)
    requires Unique(store) && Short(store) && Has(store, section)
    ensures Unique(Set(store, section, key, value)) <==>
              |key| < CONFIG_MAX_KEY_LEN || !Has(store[Find(store, section)].content, Cut(key, CONFIG_MAX_KEY_LEN))
    ensures Short(Set(store, section, key, value))
  {
    var i, after := Find(store, section), Set(store, section, key, value);
    SetEntryUniqueIff(store[i].content, key, value);
    assert after[i].content == SetEntry(store[i].content, key, value);
    assert forall j :: 0 <= j < |store| && j != i ==> after[j] == store[j];
    assert forall j :: 0 <= j < |store| ==> after[j].name == store[j].name;
  }

  lemma FrontDistinctIff<V>(cells: seq<Cell<V>>, cell: Cell<V>)
    requires Distinct(cells)
    ensures Distinct([cell] + cells) <==> !Has(cells, cell.name)
  {
    var more := [cell] + cells;
    if Has(cells, cell.name) {
      assert more[0].name == more[1 + Find(cells, cell.name)].name;
    }
  }

  lemma SetEntryUniqueIff(entries: Entries, key: string, value: string)
    requires Distinct(entries)
    requires forall j :: 0 <= j < |entries| ==> |entries[j].name| < CONFIG_MAX_KEY_LEN
    ensures Distinct(SetEntry(entries, key, value)) <==>
              |key| < CONFIG_MAX_KEY_LEN || !Has(entries, Cut(key, CONFIG_MAX_KEY_LEN))
    ensures forall j :: 0 <= j < |SetEntry(entries, key, value)| ==>
              |SetEntry(entries, key, value)[j].name| < CONFIG_MAX_KEY_LEN
  {
    var v := Cut(value, CONFIG_MAX_VALUE_LEN);
    if !Has(entries, key) {
      FrontDistinctIff(entries, Cell(Cut(key, CONFIG_MAX_KEY_LEN), v));
    }
  }

  // ---------- whole runs ----------

  datatype Op =
    | OpSet(section: string, key: string, value: string)
    | OpGet(section: string, key: string, default: string)
    | OpDeleteKey(section: string, key: string)
    | OpDeleteSection(section: string)
    | OpClear

  datatype Answer = Text(value: string) | Return(code: Code)

  function Apply(store: Store, op: Op): (Answer, Store) {
    match op
    case OpSet(s, k, v) => (Return(Success), Set(store, s, k, v))
    case OpGet(s, k, d) => (Text(Get(store, s, k, d)), store)
    case OpDeleteKey(s, k) => var r := DeleteKey(store, s, k); (Return(r.0), r.1)
    case OpDeleteSection(s) => var r := DeleteSection(store, s); (Return(r.0), r.1)
    case OpClear => (Return(Success), [])
  }

  function MapApply(m: Maps, op: Op): (Answer, Maps) {
    match op
    case OpSet(s, k, v) => (Return(Success), MapSet(m, s, k, v))
    case OpGet(s, k, d) => (Text(MapGet(m, s, k, d)), m)
    case OpDeleteKey(s, k) => var r := MapDeleteKey(m, s, k); (Return(r.0), r.1)
    case OpDeleteSection(s) => var r := MapDeleteSection(m, s); (Return(r.0), r.1)
    case OpClear => (Return(Success), map[])
  }

  predicate WithinLimits(op: Op) {
    op.OpSet? ==> Fits(op.section, op.key, op.value)
  }

  lemma ApplyAgrees(store: Store, op: Op)
    requires Unique(store) && Short(store) && WithinLimits(op)
    ensures var (answer, after) := Apply(store, op);
            && (answer, AsMaps(after)) == MapApply(AsMaps(store), op)
            && Unique(after) && Short(after)
  {
    match op
    case OpSet(s, k, v) =>
      SetAgreesIff(store, s, k, v);
      SetKeepsUniqueIff(store, s, k, v);
    case OpGet(s, k, d) => GetAgrees(store, s, k, d);
    case OpDeleteKey(s, k) =>
      DeleteKeyAgrees(store, s, k);
      DeleteKeyKeeps(store, s, k);
    case OpDeleteSection(s) =>
      DeleteSectionAgrees(store, s);
      DeleteSectionKeeps(store, s);
    case OpClear =>
  }

  lemma DeleteKeyKeeps(store: Store, section: string, key: string)
    requires Unique(store) && Short(store)
    ensures Unique(DeleteKey(store, section, key).1) && Short(DeleteKey(store, section, key).1)
  {
    if Has(store, section) && Has(store[Find(store, section)].content, key) {
      var i := Find(store, section);
      var after := DeleteKey(store, section, key).1;
      WithoutDistinct(store[i].content, Find(store[i].content, key));
      assert forall j :: 0 <= j < |store| ==> after[j].name == store[j].name;
      assert forall j :: 0 <= j < |store| && j != i ==> after[j] == store[j];
    }
  }

  lemma DeleteSectionKeeps(store: Store, section: string)
    requires Unique(store) && Short(store)
    ensures Unique(DeleteSection(store, section).1) && Short(DeleteSection(store, section).1)
  {
    if Has(store, section) {
      var i := Find(store, section);
      WithoutDistinct(store, i);
      var after := Without(store, i);
      assert forall j :: 0 <= j < |after| ==> after[j] == store[if j < i then j else j + 1];
    }
  }

  function ApplyAll(store: Store, ops: seq<Op>): (seq<Answer>, Store)
    decreases |ops|
  {
    if ops == [] then ([], store) else
    var (answer, next) := Apply(store, ops[0]);
    var (answers, last) := ApplyAll(next, ops[1..]);
    ([answer] + answers, last)
  }

  function MapApplyAll(m: Maps, ops: seq<Op>): (seq<Answer>, Maps)
    decreases |ops|
  {
    if ops == [] then ([], m) else
    var (answer, next) := MapApply(m, ops[0]);
    var (answers, last) := MapApplyAll(next, ops[1..]);
    ([answer] + answers, last)
  }

  /** Any run of sets, gets, deletions and clears within the length limits gives the answers a map of maps
      gives, ends in the lists that stand for that map of maps, and keeps every name unique. */
  lemma {:induction false} RunsAgree(store: Store, ops: seq<Op>)
    requires Unique(store) && Short(store)
    requires forall i :: 0 <= i < |ops| ==> WithinLimits(ops[i])
    ensures var (answers, last) := ApplyAll(store, ops);
            && (answers, AsMaps(last)) == MapApplyAll(AsMaps(store), ops)
            && Unique(last) && Short(last)
    decreases |ops|
  {
    if ops != [] {
      ApplyAgrees(store, ops[0]);
      RunsAgree(Apply(store, ops[0]).1, ops[1..]);
    }
  }

  /** A get after a delete finds nothing left. */
  lemma GetAfterDelete(store: Store, section: string, key: string, default: string)
    requires Unique(store)
    ensures Get(DeleteKey(store, section, key).1, section, key, default) == default
  {
    DeleteKeyAgrees(store, section, key);
    GetAgrees(DeleteKey(store, section, key).1, section, key, default);
  }

  /** Past the length limit this fails: a key that is cut is never found again, so setting it twice leaves
      two entries of the same name, and deleting one uncovers the other. */
  lemma CutKeyIsShadowed(key: string)
    requires |key| >= CONFIG_MAX_KEY_LEN
    ensures var store := Set(Set([], "s", key, "old"), "s", key, "new");
            var cut := Cut(key, CONFIG_MAX_KEY_LEN);
            && !Unique(store)
            && Get(store, "s", cut, "none") == "new"
            && DeleteKey(store, "s", cut).0 == Success
            && Get(DeleteKey(store, "s", cut).1, "s", cut, "none") == "old"
  {
    var cut := Cut(key, CONFIG_MAX_KEY_LEN);
    var one := [Cell(cut, "old")];
    var two := [Cell(cut, "new")] + one;
    assert |"s"| == 1 && |"old"| == 3 && |"new"| == 3;
    assert SetEntry([], key, "old") == one;
    assert Set([], "s", key, "old") == [Cell("s", one)];
    assert Find(one, key) == 1;
    assert SetEntry(one, key, "new") == two;
    var store := Set(Set([], "s", key, "old"), "s", key, "new");
    assert store == [Cell("s", two)];
    assert store[0].content[0].name == store[0].content[1].name;
    assert Without(two, 0) == one;
  }

  // ---------- what each operation does to the lists ----------

  /** That is the place of the first cell of that name, or the end where there is none. */
  ghost predicate FirstAt<V>(cells: seq<Cell<V>>, name: string, i: nat) {
    && i <= |cells| && (i < |cells| ==> cells[i].name == name)
    && forall j :: 0 <= j < i ==> cells[j].name != name
  }

  lemma FoundAt<V>(cells: seq<Cell<V>>, name: string, i: nat)
    requires FirstAt(cells, name, i)
    ensures Find(cells, name) == i
  {}

  /** The fields hold 255 characters of a name, and 1023 of a value. */
  function CutName(name: string): string {
    if |name| <= 255 then name else name[..255]
  }

  function CutValue(value: string): string {
    if |value| <= 1023 then value else value[..1023]
  }

  /** An entry that is there keeps its place; a new one comes first. */
  lemma SetEntryAt(entries: Entries, key: string, value: string, j: nat)
    requires FirstAt(entries, key, j)
    ensures SetEntry(entries, key, value)
         == if j < |entries| then entries[j := Cell(key, CutValue(value))]
            else [Cell(CutName(key), CutValue(value))] + entries
  {
    FoundAt(entries, key, j);
  }

  /** A section that is there keeps its place; a new one comes first. */
  lemma SetAt(store: Store, section: string, key: string, value: string, i: nat, j: nat)
    requires FirstAt(store, section, i)
    requires if i < |store| then FirstAt(store[i].content, key, j) else j == 0
    ensures Set(store, section, key, value)
         == if i == |store| then [Cell(CutName(section), [Cell(CutName(key), CutValue(value))])] + store
            else if j == |store[i].content|
            then store[i := Cell(section, [Cell(CutName(key), CutValue(value))] + store[i].content)]
            else store[i := Cell(section, store[i].content[j := Cell(key, CutValue(value))])]
  {
    FoundAt(store, section, i);
    SetEntryAt(if i < |store| then store[i].content else [], key, value, j);
    assert [Cell(CutName(key), CutValue(value))] + [] == [Cell(CutName(key), CutValue(value))];
  }

  /** A get gives the first entry of the key in the first section of the name, and the default if there is no
      such section or no such entry. */
  lemma GetAt(store: Store, section: string, key: string, default: string, i: nat, j: nat)
    requires FirstAt(store, section, i)
    requires if i < |store| then FirstAt(store[i].content, key, j) else j == 0
    ensures Get(store, section, key, default)
         == if i < |store| && j < |store[i].content| then store[i].content[j].content else default
  {
    FoundAt(store, section, i);
    if i < |store| {
      FoundAt(store[i].content, key, j);
    }
  }

  /** A deletion takes that entry out and says SUCCESS, or says NOT FOUND and changes nothing. */
  lemma DeleteKeyAt(store: Store, section: string, key: string, i: nat, j: nat)
    requires FirstAt(store, section, i)
    requires if i < |store| then FirstAt(store[i].content, key, j) else j == 0
    ensures DeleteKey(store, section, key)
         == if i < |store| && j < |store[i].content|
            then (Success, store[i := Cell(section, store[i].content[..j] + store[i].content[j + 1..])])
            else (NotFound, store)
  {
    FoundAt(store, section, i);
    if i < |store| {
      FoundAt(store[i].content, key, j);
    }
  }

  lemma DeleteSectionAt(store: Store, section: string, i: nat)
    requires FirstAt(store, section, i)
    ensures DeleteSection(store, section)
         == if i < |store| then (Success, store[..i] + store[i + 1..]) else (NotFound, store)
  {
    FoundAt(store, section, i);
  }
}
