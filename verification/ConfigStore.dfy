/** The linked lists of config_parser.c, changed in place: sections that hold entries, both prepended to
    and unlinked from. Memory that the program frees simply becomes unreachable here. */
module ConfigStore {
  import opened ConfigModel

  class EntryNode {
    var key: string
    var value: string
    var next: EntryNode?
    // the section that the entry was made for
    ghost const owner: SectionNode

    constructor (key: string, value: string, next: EntryNode?, ghost owner: SectionNode)
      ensures this.key == key && this.value == value && this.next == next && this.owner == owner
    {
      this.key, this.value, this.next, this.owner := key, value, next, owner;
    }
  }

  function EntryAt(nodes: seq<EntryNode>, i: nat): EntryNode? {
    if i < |nodes| then nodes[i] else null
  }

  ghost predicate AllDistinct(nodes: seq<EntryNode>) {
    forall i, j :: 0 <= i < j < |nodes| ==> nodes[i] != nodes[j]
  }

  lemma DistinctIff(entry: EntryNode, nodes: seq<EntryNode>)
    ensures AllDistinct([entry] + nodes) <==> entry !in nodes && AllDistinct(nodes)
  {
    var all := [entry] + nodes;
    assert forall i :: 0 <= i < |nodes| ==> all[i + 1] == nodes[i];
    if AllDistinct(all) {
      forall i, j | 0 <= i < j < |nodes|
        ensures nodes[i] != nodes[j]
      {
        assert all[i + 1] != all[j + 1];
      }
      forall i | 0 <= i < |nodes|
        ensures nodes[i] != entry
      {
        assert all[0] != all[i + 1];
      }
    }
  }

  ghost function WithoutNode(nodes: seq<EntryNode>, j: nat): seq<EntryNode>
    requires j < |nodes|
  {
    nodes[..j] + nodes[j + 1..]
  }

  lemma WithoutNodeFacts(nodes: seq<EntryNode>, j: nat)
    requires j < |nodes| && AllDistinct(nodes)
    ensures AllDistinct(WithoutNode(nodes, j))
    ensures forall n :: n in WithoutNode(nodes, j) ==> n in nodes
  {}

  /** What follows a node once the node at j is left out. */
  lemma WithoutNodeNext(nodes: seq<EntryNode>, j: nat, i: nat)
    requires j < |nodes| && i < |nodes| - 1
    ensures var k := if i < j then i else i + 1;
            && WithoutNode(nodes, j)[i] == nodes[k]
            && EntryAt(WithoutNode(nodes, j), i + 1) == EntryAt(nodes, if i + 1 == j then j + 1 else k + 1)
  {}

  class SectionNode {
    var name: string
    var entries: EntryNode?
    var next: SectionNode?

    // the nodes of the entry list, in order, and what they hold
    ghost var nodes: seq<EntryNode>
    ghost var list: Entries
    // every entry node the section ever had
    ghost var own: set<EntryNode>

    /** From node j on, the entry list is linked as the sequence says, ends in null, repeats no node and
        holds what the list says. */
    ghost predicate LinkedFrom(j: nat)
      requires j <= |nodes| == |list|
      reads this`entries, this`nodes, this`list, this`own, own
      decreases |nodes| - j
    {
      if j == |nodes| then forall n :: n in own ==> n.owner == this
      else
        && nodes[j] in own
        && nodes[j].next == EntryAt(nodes, j + 1)
        && Cell(nodes[j].key, nodes[j].value) == list[j]
        && nodes[j] !in nodes[j + 1..]
        && LinkedFrom(j + 1)
    }

    ghost predicate Linked()
      reads this`entries, this`nodes, this`list, this`own, own
    {
      |nodes| == |list| && entries == EntryAt(nodes, 0) && LinkedFrom(0)
    }

    /** The same, node by node. */
    ghost predicate Nodes(j: nat)
      requires |nodes| == |list|
      reads this`entries, this`nodes, this`list, this`own, own
    {
      && (forall n :: n in own ==> n.owner == this)
      && (forall i :: j <= i < |nodes| ==> nodes[i] in own)
      && (forall i {:trigger nodes[i].next} :: j <= i < |nodes| ==> nodes[i].next == EntryAt(nodes, i + 1))
      && (forall i :: j <= i < |nodes| ==> Cell(nodes[i].key, nodes[i].value) == list[i])
      && (j <= |nodes| ==> AllDistinct(nodes[j..]))
    }

    lemma {:induction false} FromIsNodes(j: nat)
      requires j <= |nodes| == |list|
      ensures LinkedFrom(j) <==> Nodes(j)
      decreases |nodes| - j
    {
      if j < |nodes| {
        FromIsNodes(j + 1);
        assert nodes[j..] == [nodes[j]] + nodes[j + 1..];
        DistinctIff(nodes[j], nodes[j + 1..]);
      }
    }

    constructor (name: string, next: SectionNode?)
      ensures Linked() && nodes == [] && list == [] && own == {}
      ensures this.name == name && this.next == next
    {
      this.name, this.entries, this.next := name, null, next;
      nodes, list, own := [], [], {};
    }

    /** `find_entry`. */
    method FindEntry(key: string) returns (entry: EntryNode?, ghost j: nat)
      requires Linked()
      ensures entry == EntryAt(nodes, Find(list, key)) && j == Find(list, key)
    {
      FromIsNodes(0);
      entry, j := entries, 0;
      while entry != null
        invariant j <= |nodes| && entry == EntryAt(nodes, j)
        invariant forall k :: 0 <= k < j ==> list[k].name != key
        decreases |nodes| - j
      {
        assert Cell(nodes[j].key, nodes[j].value) == list[j];
        if entry.key == key {
          return;
        }
        entry, j := entry.next, j + 1;
      }
    }

    method Prepend(key: string, value: string)
      requires Linked()
      modifies this`entries, this`nodes, this`list, this`own
      ensures Linked() && list == [Cell(key, value)] + old(list)
      ensures fresh(own - old(own))
    {
      var entry := new EntryNode(key, value, entries, this);
      PushFront(entry);
    }

    method PushFront(entry: EntryNode)
      requires Linked() && entry !in own && entry.next == entries && entry.owner == this
      modifies this`entries, this`nodes, this`list, this`own
      ensures Linked() && list == [Cell(entry.key, entry.value)] + old(list) && own == old(own) + {entry}
    {
      FromIsNodes(0);
      own := own + {entry};
      entries := entry;
      nodes := [entry] + nodes;
      list := [Cell(entry.key, entry.value)] + list;
      forall i | 1 <= i < |nodes|
        ensures nodes[i] in own && nodes[i].next == EntryAt(nodes, i + 1)
        ensures Cell(nodes[i].key, nodes[i].value) == list[i]
      {
        assert nodes[i] == old(nodes)[i - 1] && list[i] == old(list)[i - 1];
        assert EntryAt(nodes, i + 1) == EntryAt(old(nodes), i);
      }
      DistinctIff(entry, old(nodes));
      assert nodes[0..] == nodes && old(nodes)[0..] == old(nodes);
      FromIsNodes(0);
    }

    method Overwrite(entry: EntryNode, ghost j: nat, value: string)
      requires Linked() && j < |nodes| && entry == nodes[j]
      modifies this`list, entry`value
      ensures Linked() && list == old(list)[j := Cell(old(list)[j].name, value)]
    {
      FromIsNodes(0);
      entry.value := value;
      list := list[j := Cell(list[j].name, value)];
      assert Nodes(0);
      FromIsNodes(0);
    }

    /** The second half of `config_set_string`. */
    method Put(key: string, value: string)
      requires Linked()
      modifies this`entries, this`nodes, this`list, this`own, own
      ensures Linked() && list == SetEntry(old(list), key, value)
      ensures fresh(own - old(own))
    {
      FromIsNodes(0);
      var entry, j := FindEntry(key);
      if entry == null {
        Prepend(Cut(key, CONFIG_MAX_KEY_LEN), Cut(value, CONFIG_MAX_VALUE_LEN));
      } else {
        Overwrite(entry, j, Cut(value, CONFIG_MAX_VALUE_LEN));
      }
    }

    method UnlinkFirst()
      requires Linked() && nodes != []
      modifies this`entries, this`nodes, this`list
      ensures Linked() && list == Without(old(list), 0) && nodes == old(nodes)[1..]
    {
      FromIsNodes(0);
      entries := entries.next;
      nodes := nodes[1..];
      list := list[1..];
      assert Nodes(0);
      FromIsNodes(0);
    }

    method UnlinkAfter(prev: EntryNode, ghost j: nat)
      requires Linked() && 0 < j < |nodes| && prev == nodes[j - 1]
      modifies this`nodes, this`list, prev`next
      ensures Linked() && list == Without(old(list), j)
    {
      ghost var before, cells := nodes, list;
      FromIsNodes(0);
      WithoutNodeFacts(before, j);
      prev.next := prev.next.next;
      nodes := WithoutNode(before, j);
      list := Without(cells, j);
      forall i | 0 <= i < |nodes|
        ensures nodes[i].next == EntryAt(nodes, i + 1) && Cell(nodes[i].key, nodes[i].value) == list[i]
      {
        WithoutNodeNext(before, j, i);
        assert list[i] == cells[if i < j then i else i + 1];
        assert old(before[j].next) == EntryAt(before, j + 1);
      }
      assert Nodes(0);
      FromIsNodes(0);
    }

    /** The second half of `config_delete_key`: the link that leads to the entry, from the section or from
        the entry before, is made to lead past it. */
    method Remove(key: string) returns (code: Code)
      requires Linked()
      modifies this`entries, this`nodes, this`list, own
      ensures Linked()
      ensures var j := Find(old(list), key);
              if j == |old(list)| then code == NotFound && list == old(list)
              else code == Success && list == Without(old(list), j)
    {
      FromIsNodes(0);
      var prev: EntryNode? := null;
      var current := entries;
      ghost var j := 0;
      while current != null && current.key != key
        invariant j <= |nodes| && current == EntryAt(nodes, j)
        invariant if j == 0 then prev == null else prev == nodes[j - 1]
        invariant forall k :: 0 <= k < j ==> list[k].name != key
        decreases |nodes| - j
      {
        assert Cell(nodes[j].key, nodes[j].value) == list[j];
        prev, current, j := current, current.next, j + 1;
      }
      if current == null {
        return NotFound;
      }
      assert Cell(nodes[j].key, nodes[j].value) == list[j];
      if prev == null {
        UnlinkFirst();
      } else {
        UnlinkAfter(prev, j);
      }
      code := Success;
    }
  }

  /** Makes sure of the section: where it then is, and what the store then is. */
  ghost predicate Ensured(store: Store, section: string, i: nat, with: Store) {
    var k := Find(store, section);
    if k < |store| then i == k && with == store
    else i == 0 && with == [Cell(Cut(section, CONFIG_MAX_SECTION_LEN), [])] + store
  }

  /** Setting an entry is making sure of the section first, and of the entry then. */
  lemma SetInParts(store: Store, section: string, i: nat, with: Store, key: string, value: string)
    requires Ensured(store, section, i, with)
    ensures i < |with|
    ensures Set(store, section, key, value)
         == with[i := Cell(with[i].name, SetEntry(with[i].content, key, value))]
  {}

  function SectionAt(sections: seq<SectionNode>, i: nat): SectionNode? {
    if i < |sections| then sections[i] else null
  }

  ghost predicate SectionsDistinct(sections: seq<SectionNode>) {
    forall i, j :: 0 <= i < j < |sections| ==> sections[i] != sections[j]
  }

  ghost function WithoutSection(sections: seq<SectionNode>, j: nat): seq<SectionNode>
    requires j < |sections|
  {
    sections[..j] + sections[j + 1..]
  }

  lemma WithoutSectionNext(sections: seq<SectionNode>, j: nat, i: nat)
    requires j < |sections| && i < |sections| - 1
    ensures var k := if i < j then i else i + 1;
            && WithoutSection(sections, j)[i] == sections[k]
            && SectionAt(WithoutSection(sections, j), i + 1) == SectionAt(sections, if i + 1 == j then j + 1 else k + 1)
  {}

  class Config {
    // the section list
    var first: SectionNode?

    // its nodes, in order, and every node of all lists
    ghost var sections: seq<SectionNode>
    ghost var repr: set<object>

    /** From section j on, the section list is linked as the sequence says and ends in null. */
    ghost predicate ChainedFrom(j: nat)
      requires j <= |sections|
      reads this`sections, sections`next
      decreases |sections| - j
    {
      j < |sections| ==> sections[j].next == SectionAt(sections, j + 1) && ChainedFrom(j + 1)
    }

    lemma {:induction false} ChainedIff(j: nat)
      requires j <= |sections|
      ensures ChainedFrom(j) <==>
                forall i {:trigger sections[i].next} :: j <= i < |sections| ==>
                  sections[i].next == SectionAt(sections, i + 1)
      decreases |sections| - j
    {
      if j < |sections| {
        ChainedIff(j + 1);
      }
    }

    ghost predicate Owned()
      reads this, sections
    {
      forall i :: 0 <= i < |sections| ==> sections[i] in repr && sections[i].own <= repr
    }

    /** Both kinds of list are linked in order, no section is there twice, and no two share an entry. */
    ghost predicate Valid()
      reads this, sections, repr
    {
      && this !in repr
      && Owned()
      && first == SectionAt(sections, 0) && ChainedFrom(0)
      && SectionsDistinct(sections)
      && (forall i {:trigger sections[i].Linked()} :: 0 <= i < |sections| ==> sections[i].Linked())
    }

    /** What the lists hold. */
    ghost function Contents(): (store: Store)
      reads this, sections
      ensures |store| == |sections|
      ensures forall i :: 0 <= i < |store| ==> store[i] == Cell(sections[i].name, sections[i].list)
    {
      ContentsOf(sections)
    }

    static ghost function ContentsOf(sections: seq<SectionNode>): (store: Store)
      reads sections
      ensures |store| == |sections|
      ensures forall i :: 0 <= i < |store| ==> store[i] == Cell(sections[i].name, sections[i].list)
    {
      if sections == [] then [] else [Cell(sections[0].name, sections[0].list)] + ContentsOf(sections[1..])
    }

    constructor ()
      ensures Valid() && Contents() == [] && repr == {}
    {
      first, sections, repr := null, [], {};
    }

    /** `find_section`. */
    method FindSection(section: string) returns (sect: SectionNode?, ghost i: nat)
      requires Valid()
      ensures sect == SectionAt(sections, Find(Contents(), section)) && i == Find(Contents(), section)
    {
      ChainedIff(0);
      sect, i := first, 0;
      while sect != null
        invariant i <= |sections| && sect == SectionAt(sections, i)
        invariant forall k :: 0 <= k < i ==> Contents()[k].name != section
        decreases |sections| - i
      {
        if sect.name == section {
          return;
        }
        sect, i := sect.next, i + 1;
      }
    }

    /** `config_get_string`. */
    method GetString(section: string, key: string, default: string) returns (value: string)
      requires Valid()
      ensures value == Get(Contents(), section, key, default)
    {
      var sect, i := FindSection(section);
      if sect == null {
        return default;
      }
      var entry, j := sect.FindEntry(key);
      if entry == null {
        return default;
      }
      sect.FromIsNodes(0);
      value := entry.value;
    }

    method AddSection(section: string) returns (sect: SectionNode)
      requires Valid()
      modifies this
      ensures Valid() && fresh(repr - old(repr)) && sections == [sect] + old(sections)
      ensures sect.name == Cut(section, CONFIG_MAX_SECTION_LEN) && sect.list == []
    {
      ChainedIff(0);
      sect := new SectionNode(Cut(section, CONFIG_MAX_SECTION_LEN), first);
      first := sect;
      sections := [sect] + sections;
      repr := repr + {sect};
      forall k | 0 <= k < |sections|
        ensures sections[k].Linked()
      {
        if k > 0 {
          assert old(sections[k - 1].Linked());
        }
      }
      assert forall k :: 1 <= k < |sections| ==> sections[k] == old(sections)[k - 1];
      ChainedIff(0);
    }

    method FindOrAddSection(section: string) returns (sect: SectionNode, ghost i: nat)
      requires Valid()
      modifies this
      ensures Valid() && fresh(repr - old(repr)) && i < |sections| && sect == sections[i]
      ensures Ensured(old(Contents()), section, i, Contents())
    {
      var found, k := FindSection(section);
      if found != null {
        return found, k;
      }
      sect := AddSection(section);
      i := 0;
    }

    lemma OwnDisjoint(i: nat, k: nat)
      requires Valid() && i < |sections| && k < |sections| && i != k
      ensures sections[i].own !! sections[k].own
    {
      assert sections[i].Linked() && sections[k].Linked();
      sections[i].FromIsNodes(0);
      sections[k].FromIsNodes(0);
    }

    method PutNode(sect: SectionNode, ghost i: nat, key: string, value: string)
      requires Valid() && i < |sections| && sect == sections[i]
      modifies this`repr, sect`entries, sect`nodes, sect`list, sect`own, sect.own
      ensures Valid() && fresh(repr - old(repr))
      ensures sect.list == SetEntry(old(sect.list), key, value)
    {
      forall k | 0 <= k < |sections| && k != i
        ensures sections[k].own !! sect.own
      {
        OwnDisjoint(i, k);
      }
      sect.Put(key, value);
      repr := repr + sect.own;
      forall k | 0 <= k < |sections|
        ensures sections[k].Linked()
      {
        assert old(sections[k].Linked());
      }
    }

    method PutInto(sect: SectionNode, ghost i: nat, key: string, value: string)
      requires Valid() && i < |sections| && sect == sections[i]
      modifies this`repr, sect`entries, sect`nodes, sect`list, sect`own, sect.own
      ensures Valid() && fresh(repr - old(repr))
      ensures var cell := old(Contents())[i];
              Contents() == old(Contents())[i := Cell(cell.name, SetEntry(cell.content, key, value))]
    {
      PutNode(sect, i, key, value);
    }

    /** `config_set_string`. */
    method SetString(section: string, key: string, value: string)
      requires Valid()
      modifies this, repr
      ensures Valid() && fresh(repr - old(repr))
      ensures Contents() == Set(old(Contents()), section, key, value)
    {
      var sect, i := FindOrAddSection(section);
      SetInParts(old(Contents()), section, i, Contents(), key, value);
      PutInto(sect, i, key, value);
    }

    method RemoveNode(sect: SectionNode, ghost i: nat, key: string) returns (code: Code)
      requires Valid() && i < |sections| && sect == sections[i]
      modifies sect`entries, sect`nodes, sect`list, sect.own
      ensures Valid()
      ensures var j := Find(old(sect.list), key);
              if j == |old(sect.list)| then code == NotFound && sect.list == old(sect.list)
              else code == Success && sect.list == Without(old(sect.list), j)
    {
      forall k | 0 <= k < |sections| && k != i
        ensures sections[k].own !! sect.own
      {
        OwnDisjoint(i, k);
      }
      code := sect.Remove(key);
      forall k | 0 <= k < |sections|
        ensures sections[k].Linked()
      {
        assert old(sections[k].Linked());
      }
    }

    method RemoveFrom(sect: SectionNode, ghost i: nat, key: string) returns (code: Code)
      requires Valid() && i < |sections| && sect == sections[i]
      modifies sect`entries, sect`nodes, sect`list, sect.own
      ensures Valid()
      ensures var list := old(Contents())[i].content;
              var j := Find(list, key);
              if j == |list| then code == NotFound && Contents() == old(Contents())
              else code == Success
                   && Contents() == old(Contents())[i := Cell(old(Contents())[i].name, Without(list, j))]
    {
      code := RemoveNode(sect, i, key);
    }

    /** `config_delete_key`. */
    method DeleteEntry(section: string, key: string) returns (code: Code)
      requires Valid()
      modifies repr
      ensures Valid()
      ensures (code, Contents()) == DeleteKey(old(Contents()), section, key)
    {
      var sect, i := FindSection(section);
      if sect == null {
        return NotFound;
      }
      code := RemoveFrom(sect, i, key);
    }

    lemma Rechained(before: seq<SectionNode>, j: nat)
      requires 0 < j < |before| && sections == WithoutSection(before, j)
      requires forall i {:trigger before[i].next} :: 0 <= i < |before| ==>
                 before[i].next == SectionAt(before, if i == j - 1 then j + 1 else i + 1)
      ensures ChainedFrom(0)
    {
      forall i | 0 <= i < |sections|
        ensures sections[i].next == SectionAt(sections, i + 1)
      {
        WithoutSectionNext(before, j, i);
      }
      ChainedIff(0);
    }

    lemma Remaining(before: seq<SectionNode>, j: nat)
      requires j < |before| && sections == WithoutSection(before, j)
      requires SectionsDistinct(before)
      requires forall i :: 0 <= i < |before| ==> before[i] in repr && before[i].own <= repr
      requires forall i {:trigger before[i].Linked()} :: 0 <= i < |before| ==> before[i].Linked()
      ensures SectionsDistinct(sections) && Owned()
      ensures forall i {:trigger sections[i].Linked()} :: 0 <= i < |sections| ==> sections[i].Linked()
    {
      forall i | 0 <= i < |sections|
        ensures sections[i] == before[if i < j then i else i + 1] && sections[i].Linked()
      {
        WithoutSectionNext(before, j, i);
        assert before[if i < j then i else i + 1].Linked();
      }
    }

    method UnlinkFirst()
      requires Valid() && sections != []
      modifies this
      ensures Valid() && repr == old(repr) && sections == WithoutSection(old(sections), 0)
    {
      ghost var before := sections;
      ChainedIff(0);
      first := first.next;
      sections := WithoutSection(before, 0);
      ChainedIff(0);
      Remaining(before, 0);
    }

    method UnlinkAfter(prev: SectionNode, ghost j: nat)
      requires Valid() && 0 < j < |sections| && prev == sections[j - 1]
      modifies this`sections, prev`next
      ensures Valid() && repr == old(repr) && sections == WithoutSection(old(sections), j)
    {
      ghost var before := sections;
      ChainedIff(0);
      prev.next := prev.next.next;
      sections := WithoutSection(before, j);
      Rechained(before, j);
      forall k | 0 <= k < |before|
        ensures before[k].Linked()
      {
        assert old(before[k].Linked());
      }
      Remaining(before, j);
    }

    method UnlinkSection(prev: SectionNode?, ghost i: nat)
      requires Valid() && i < |sections|
      requires if i == 0 then prev == null else prev == sections[i - 1]
      modifies this, sections
      ensures Valid() && repr == old(repr) && Contents() == Without(old(Contents()), i)
    {
      if prev == null {
        UnlinkFirst();
      } else {
        UnlinkAfter(prev, i);
      }
    }

    /** `config_delete_section`: the link that leads to the section is made to lead past it. */
    method RemoveSection(section: string) returns (code: Code)
      requires Valid()
      modifies this, repr
      ensures Valid() && repr == old(repr)
      ensures (code, Contents()) == DeleteSection(old(Contents()), section)
    {
      ChainedIff(0);
      var prev: SectionNode? := null;
      var current := first;
      ghost var i := 0;
      while current != null && current.name != section
        invariant i <= |sections| && current == SectionAt(sections, i)
        invariant if i == 0 then prev == null else prev == sections[i - 1]
        invariant forall k :: 0 <= k < i ==> Contents()[k].name != section
        decreases |sections| - i
      {
        prev, current, i := current, current.next, i + 1;
      }
      if current == null {
        return NotFound;
      }
      UnlinkSection(prev, i);
      code := Success;
    }

    /** `config_clear`. */
    method Clear()
      requires Valid()
      modifies this
      ensures Valid() && Contents() == [] && repr == {}
    {
      first, sections, repr := null, [], {};
    }
  }
}
