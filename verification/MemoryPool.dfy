/** The fixed-block pool of memory_utils.c, its zeroing and its comparison. */
module MemoryPool {
  import opened Wrappers
  import opened Bytes

  function Zeros(n: nat): (zeros: seq<Byte>)
    ensures |zeros| == n
    ensures forall i :: 0 <= i < n ==> zeros[i] == 0
  {
    seq(n, _ => 0)
  }

  // ---------- the pool as a value ----------

  /** Which blocks are in use, and what every block holds. */
  datatype State = State(inUse: seq<bool>, content: seq<seq<Byte>>)

  function Fresh(blockSize: nat, numBlocks: nat): State {
    State(seq(numBlocks, _ => false), seq(numBlocks, _ => Zeros(blockSize)))
  }

  /** The first block that is not in use, or the number of blocks. */
  function FirstFree(inUse: seq<bool>): (i: nat)
    ensures i <= |inUse| && (i < |inUse| ==> !inUse[i])
    ensures forall j :: 0 <= j < i ==> inUse[j]
  {
    if inUse == [] || !inUse[0] then 0 else 1 + FirstFree(inUse[1..])
  }

  /** `pool_allocate`: the block that is handed out, and the pool after it. */
  function Allocate(s: State): (Option<nat>, State) {
    var i := FirstFree(s.inUse);
    if i < |s.inUse| && i < |s.content| then
      (Some(i), State(s.inUse[i := true], s.content[i := Zeros(|s.content[i]|)]))
    else (None, s)
  }

  /** `pool_free`, of the start of a block of the pool or of any other pointer. */
  function Release(s: State, block: Option<nat>): State {
    if block.Some? && block.value < |s.inUse| && block.value < |s.content| && s.inUse[block.value] then
      var i := block.value;
      State(s.inUse[i := false], s.content[i := Zeros(|s.content[i]|)])
    else s
  }

  // ---------- the pool in memory ----------

  /** `secure_zero`. */
  method SecureZero(block: array<Byte>)
    modifies block
    ensures block[..] == Zeros(block.Length)
  {
    var len, p := block.Length, 0;
    while len > 0
      invariant 0 <= p && 0 <= len && p + len == block.Length
      invariant forall i :: 0 <= i < p ==> block[i] == 0
    {
      len := len - 1;
      block[p] := 0;
      p := p + 1;
    }
  }

  function ContentOf(blocks: seq<array<Byte>>): (content: seq<seq<Byte>>)
    reads blocks
    ensures |content| == |blocks|
    ensures forall i :: 0 <= i < |blocks| ==> content[i] == blocks[i][..]
  {
    if blocks == [] then [] else [blocks[0][..]] + ContentOf(blocks[1..])
  }

  class Pool {
    const blockSize: nat
    const blocks: seq<array<Byte>>
    const inUse: array<bool>

    ghost predicate Valid() {
      && inUse.Length == |blocks|
      && (forall i :: 0 <= i < |blocks| ==> blocks[i].Length == blockSize)
      && (forall i, j :: 0 <= i < j < |blocks| ==> blocks[i] != blocks[j])
    }

    ghost function Now(): State
      reads inUse, blocks
    {
      State(inUse[..], ContentOf(blocks))
    }

    /** Which block a pointer is the start of, if it is one. */
    ghost function BlockAt(p: array?<Byte>): (block: Option<nat>)
      requires Valid()
      ensures block.Some? ==> block.value < |blocks| && blocks[block.value] == p
      ensures block == None ==> p == null || forall i :: 0 <= i < |blocks| ==> blocks[i] != p
    {
      if i: nat :| i < |blocks| && blocks[i] == p then Some(i) else None
    }

    /** `create_memory_pool`, where no allocation fails. */
    constructor (blockSize: nat, numBlocks: nat)
      ensures Valid() && this.blockSize == blockSize && |blocks| == numBlocks
      ensures Now() == Fresh(blockSize, numBlocks)
      ensures fresh(inUse) && forall i :: 0 <= i < |blocks| ==> fresh(blocks[i])
    {
      var flags := new bool[numBlocks](_ => false);
      var all: seq<array<Byte>> := [];
      for i := 0 to numBlocks
        invariant |all| == i && fresh(flags) && flags[..] == seq(numBlocks, _ => false)
        invariant forall j :: 0 <= j < i ==> fresh(all[j]) && all[j][..] == Zeros(blockSize)
        invariant forall j, k :: 0 <= j < k < i ==> all[j] != all[k]
      {
        var block := new Byte[blockSize](_ => 0);
        assert block[..] == Zeros(blockSize);
        all := all + [block];
      }
      this.blockSize, blocks, inUse := blockSize, all, flags;
      new;
      assert ContentOf(blocks) == seq(numBlocks, _ => Zeros(blockSize));
    }

    /** `pool_allocate`. */
    method AllocateBlock() returns (p: array?<Byte>)
      requires Valid()
      modifies inUse, blocks
      ensures var (block, after) := Allocate(old(Now()));
              Now() == after && p == if block.Some? then blocks[block.value] else null
    {
      for i := 0 to |blocks|
        invariant Now() == old(Now())
        invariant forall j :: 0 <= j < i ==> inUse[j]
      {
        if !inUse[i] {
          inUse[i] := true;
          SecureZero(blocks[i]);
          assert old(Now()).inUse[i] == false;
          assert Now().content == old(Now()).content[i := Zeros(blockSize)];
          return blocks[i];
        }
      }
      return null;
    }

    /** `pool_free`. */
    method FreeBlock(p: array?<Byte>)
      requires Valid()
      modifies inUse, blocks
      ensures Now() == Release(old(Now()), BlockAt(p))
    {
      if p == null {
        return;
      }
      for i := 0 to |blocks|
        invariant Now() == old(Now())
        invariant forall j :: 0 <= j < i ==> blocks[j] != p || !inUse[j]
      {
        if blocks[i] == p && inUse[i] {
          SecureZero(p);
          inUse[i] := false;
          assert Now().content == old(Now()).content[i := Zeros(blockSize)];
          return;
        }
      }
    }
  }

  // ---------- secure_memcmp ----------

  lemma NoDifference(result: bv8, x: bv8, y: bv8)
    ensures result | (x ^ y) == 0 <==> result == 0 && x == y
  {}

  /** `secure_memcmp`: zero exactly for equal contents, after looking at every byte. */
  method SecureCompare(a: seq<bv8>, b: seq<bv8>) returns (result: bv8)
    requires |a| == |b|
    ensures result == 0 <==> a == b
  {
    result := 0;
    for i := 0 to |a|
      invariant result == 0 <==> a[..i] == b[..i]
    {
      NoDifference(result, a[i], b[i]);
      assert a[..i + 1] == a[..i] + [a[i]] && b[..i + 1] == b[..i] + [b[i]];
      result := result | (a[i] ^ b[i]);
    }
    assert a[..|a|] == a && b[..|a|] == b;
  }

  // ---------- any use of the pool ----------

  /** Every block that is handed out is a holding of its own, numbered in turn; whoever got it gives it back,
      perhaps more than once, or writes into it. Other pointers may be given back too. */
  datatype Use = Ask | GiveBack(holding: nat) | GiveBackOther | Fill(holder: nat, data: seq<Byte>)

  /** The pool, the block of every holding so far, and the holdings that were given back. */
  datatype World = World(pool: State, handed: seq<nat>, back: set<nat>)

  function NewWorld(blockSize: nat, numBlocks: nat): World {
    World(Fresh(blockSize, numBlocks), [], {})
  }

  predicate Holds(w: World, holding: nat) {
    holding < |w.handed| && holding !in w.back
  }

  /** The holdings of a block. */
  ghost predicate IsHeld(w: World, block: nat) {
    exists h: nat :: Holds(w, h) && w.handed[h] == block
  }

  function Step(w: World, u: Use): World {
    match u
    case Ask =>
      var (block, after) := Allocate(w.pool);
      World(after, if block.Some? then w.handed + [block.value] else w.handed, w.back)
    case GiveBack(h) =>
      if h < |w.handed| then World(Release(w.pool, Some(w.handed[h])), w.handed, w.back + {h}) else w
    case GiveBackOther => w.(pool := Release(w.pool, None))
    case Fill(h, data) =>
      if h < |w.handed| && w.handed[h] < |w.pool.content| && |data| == |w.pool.content[w.handed[h]]|
      then w.(pool := w.pool.(content := w.pool.content[w.handed[h] := data])) else w
  }

  function Steps(w: World, uses: seq<Use>): World
    decreases |uses|
  {
    if uses == [] then w else Steps(Step(w, uses[0]), uses[1..])
  }

  /** Only who holds a block gives it back or writes into it. */
  predicate ByHolder(w: World, u: Use) {
    match u
    case GiveBack(h) => Holds(w, h)
    case Fill(h, data) => Holds(w, h)
    case _ => true
  }

  predicate AllByHolders(w: World, uses: seq<Use>)
    decreases |uses|
  {
    uses != [] ==> ByHolder(w, uses[0]) && AllByHolders(Step(w, uses[0]), uses[1..])
  }

  ghost predicate Shaped(w: World, blockSize: nat) {
    && |w.pool.inUse| == |w.pool.content|
    && (forall i :: 0 <= i < |w.pool.content| ==> |w.pool.content[i]| == blockSize)
    && (forall h :: 0 <= h < |w.handed| ==> w.handed[h] < |w.pool.inUse|)
    && (forall h :: h in w.back ==> h < |w.handed|)
  }

  ghost predicate HeldOnce(w: World) {
    forall g: nat, h: nat :: g < h && Holds(w, g) && Holds(w, h) ==> w.handed[g] != w.handed[h]
  }

  /** The flags are exactly the blocks that are held, no block is held twice, and every block that is not
      held is zero. */
  ghost predicate Consistent(w: World, blockSize: nat) {
    && Shaped(w, blockSize)
    && (forall b: nat :: b < |w.pool.inUse| ==> (w.pool.inUse[b] <==> IsHeld(w, b)))
    && HeldOnce(w)
    && (forall b :: 0 <= b < |w.pool.content| ==> w.pool.inUse[b] || w.pool.content[b] == Zeros(blockSize))
  }

  /** Who holds what after a block has been handed out: the same as before, and the new holding. */
  lemma HeldAfterAsk(w: World, after: World, i: nat, b: nat)
    requires (forall h :: h in w.back ==> h < |w.handed|) && after.handed == w.handed + [i] && after.back == w.back
    ensures IsHeld(after, b) <==> IsHeld(w, b) || b == i
  {
    var last := |w.handed|;
    assert Holds(after, last) && after.handed[last] == i;
    if IsHeld(w, b) {
      var h: nat :| Holds(w, h) && w.handed[h] == b;
      assert Holds(after, h) && after.handed[h] == b;
    }
    if IsHeld(after, b) && b != i {
      var h: nat :| Holds(after, h) && after.handed[h] == b;
      assert Holds(w, h) && w.handed[h] == b;
    }
  }

  lemma HeldOnceAfterAsk(w: World, after: World, i: nat)
    requires HeldOnce(w) && !IsHeld(w, i) && after.handed == w.handed + [i] && after.back == w.back
    ensures HeldOnce(after)
  {
    forall g: nat, h: nat | g < h && Holds(after, g) && Holds(after, h)
      ensures after.handed[g] != after.handed[h]
    {
      assert Holds(w, g);
      if h < |w.handed| {
        assert Holds(w, h);
      }
    }
  }

  lemma AskIsConsistent(w: World, blockSize: nat)
    requires Consistent(w, blockSize)
    ensures Consistent(Step(w, Ask), blockSize)
  {
    var i, after := FirstFree(w.pool.inUse), Step(w, Ask);
    if i < |w.pool.inUse| {
      HeldOnceAfterAsk(w, after, i);
      forall b: nat | b < |after.pool.inUse|
        ensures after.pool.inUse[b] <==> IsHeld(after, b)
      {
        HeldAfterAsk(w, after, i, b);
      }
    }
  }

  lemma GiveBackIsConsistent(w: World, holding: nat, blockSize: nat)
    requires Consistent(w, blockSize) && Holds(w, holding)
    ensures Consistent(Step(w, GiveBack(holding)), blockSize)
  {
    var after, block := Step(w, GiveBack(holding)), w.handed[holding];
    assert IsHeld(w, block);
    forall b: nat | b < |after.pool.inUse|
      ensures after.pool.inUse[b] <==> IsHeld(after, b)
    {
      if IsHeld(after, b) {
        var h: nat :| Holds(after, h) && after.handed[h] == b;
        assert Holds(w, h) && b != block;
        assert IsHeld(w, b);
      }
      if b != block && IsHeld(w, b) {
        var h: nat :| Holds(w, h) && w.handed[h] == b;
        assert Holds(after, h) && after.handed[h] == b;
      }
    }
    forall g: nat, h: nat | g < h && Holds(after, g) && Holds(after, h)
      ensures after.handed[g] != after.handed[h]
    {
      assert Holds(w, g) && Holds(w, h);
    }
  }

  lemma FillIsConsistent(w: World, holding: nat, data: seq<Byte>, blockSize: nat)
    requires Consistent(w, blockSize) && Holds(w, holding)
    ensures Consistent(Step(w, Fill(holding, data)), blockSize)
  {
    var after := Step(w, Fill(holding, data));
    assert IsHeld(w, w.handed[holding]);
    assert forall h: nat :: Holds(after, h) <==> Holds(w, h);
    assert forall b: nat :: IsHeld(after, b) <==> IsHeld(w, b);
  }

  lemma StepIsConsistent(w: World, u: Use, blockSize: nat)
    requires Consistent(w, blockSize) && ByHolder(w, u)
    ensures Consistent(Step(w, u), blockSize)
  {
    match u
    case Ask => AskIsConsistent(w, blockSize);
    case GiveBack(h) => GiveBackIsConsistent(w, h, blockSize);
    case GiveBackOther =>
    case Fill(h, data) => FillIsConsistent(w, h, data, blockSize);
  }

  lemma {:induction false} StepsAreConsistent(w: World, uses: seq<Use>, blockSize: nat)
    requires Consistent(w, blockSize) && AllByHolders(w, uses)
    ensures Consistent(Steps(w, uses), blockSize)
    decreases |uses|
  {
    if uses != [] {
      StepIsConsistent(w, uses[0], blockSize);
      StepsAreConsistent(Step(w, uses[0]), uses[1..], blockSize);
    }
  }

  /** As long as only holders give back and write: the flags are the blocks that are held, no block is held
      twice, and a block that is not held is zero. */
  lemma Reachable(blockSize: nat, numBlocks: nat, uses: seq<Use>)
    requires AllByHolders(NewWorld(blockSize, numBlocks), uses)
    ensures Consistent(Steps(NewWorld(blockSize, numBlocks), uses), blockSize)
  {
    StepsAreConsistent(NewWorld(blockSize, numBlocks), uses, blockSize);
  }

  /** In such a state allocation fails exactly when every block is held; otherwise it hands out a block that
      nobody holds, all zero, and touches no other. */
  lemma AllocationFailsIff(w: World, blockSize: nat)
    requires Consistent(w, blockSize)
    ensures var (block, after) := Allocate(w.pool);
            && (block == None <==> forall b: nat :: b < |w.pool.inUse| ==> IsHeld(w, b))
            && (block.Some? ==>
                  && block.value < |w.pool.content| && !IsHeld(w, block.value)
                  && |after.content| == |w.pool.content| && after.content[block.value] == Zeros(blockSize)
                  && forall j :: 0 <= j < |w.pool.content| && j != block.value ==>
                       after.content[j] == w.pool.content[j] && after.inUse[j] == w.pool.inUse[j])
  {
    var i := FirstFree(w.pool.inUse);
    if i < |w.pool.inUse| {
      assert !IsHeld(w, i);
    }
  }

  // ---------- giving back twice ----------

  lemma AgainIff(w: World, holding: nat, blockSize: nat)
    requires Consistent(w, blockSize) && holding < |w.handed| && holding in w.back
    ensures Step(w, GiveBack(holding)) == w <==> !IsHeld(w, w.handed[holding])
    ensures Consistent(Step(w, GiveBack(holding)), blockSize) <==> !IsHeld(w, w.handed[holding])
  {
    var after, block := Step(w, GiveBack(holding)), w.handed[holding];
    assert w.back + {holding} == w.back;
    if IsHeld(w, block) {
      var h: nat :| Holds(w, h) && w.handed[h] == block;
      assert Holds(after, h) && after.handed[h] == block;
      assert IsHeld(after, block) && !after.pool.inUse[block];
    }
  }

  /** The holdings that were handed out in between and are held still. */
  ghost predicate HandedOutAgain(before: World, after: World, block: nat) {
    exists h: nat :: |before.handed| <= h && Holds(after, h) && after.handed[h] == block
  }

  lemma {:induction false} StepsOnlyAdd(w: World, uses: seq<Use>)
    ensures var after := Steps(w, uses);
            w.handed <= after.handed && w.back <= after.back
    decreases |uses|
  {
    if uses != [] {
      StepsOnlyAdd(Step(w, uses[0]), uses[1..]);
    }
  }

  lemma HeldBefore(before: World, after: World, h: nat, block: nat)
    requires before.handed <= after.handed && before.back <= after.back
    requires h < |before.handed| && Holds(after, h) && after.handed[h] == block
    ensures IsHeld(before, block)
  {
    assert Holds(before, h) && before.handed[h] == block;
  }

  lemma HeldIsHandedOutAgain(before: World, after: World, block: nat)
    requires before.handed <= after.handed && before.back <= after.back && !IsHeld(before, block)
    ensures IsHeld(after, block) <==> HandedOutAgain(before, after, block)
  {
    if IsHeld(after, block) {
      var h: nat :| Holds(after, h) && after.handed[h] == block;
      if h < |before.handed| {
        HeldBefore(before, after, h, block);
      }
    }
  }

  /** A holder gives a block back; other holders use the pool; and then the block is given back again. That
      changes nothing, and keeps the pool consistent, exactly unless the block has been handed out in
      between to somebody who holds it still. */
  lemma SecondReleaseIff(w: World, holding: nat, uses: seq<Use>, blockSize: nat)
    requires Consistent(w, blockSize) && Holds(w, holding)
    requires AllByHolders(Step(w, GiveBack(holding)), uses)
    ensures var before := Step(w, GiveBack(holding));
            var after := Steps(before, uses);
            var again := HandedOutAgain(before, after, w.handed[holding]);
            && (Step(after, GiveBack(holding)) == after <==> !again)
            && (Consistent(Step(after, GiveBack(holding)), blockSize) <==> !again)
  {
    var before := Step(w, GiveBack(holding));
    var after, block := Steps(before, uses), w.handed[holding];
    GiveBackIsConsistent(w, holding, blockSize);
    StepsAreConsistent(before, uses, blockSize);
    StepsOnlyAdd(before, uses);
    assert !before.pool.inUse[block];
    HeldIsHandedOutAgain(before, after, block);
    AgainIff(after, holding, blockSize);
  }

  /** Giving back twice in a row changes nothing the second time, and giving back any other pointer, or a
      block that is not in use, nothing at all, whatever the pool holds. */
  lemma ReleaseTwice(s: State, block: Option<nat>)
    ensures Release(Release(s, block), block) == Release(s, block)
    ensures Release(s, None) == s
    ensures block.Some? && block.value < |s.inUse| && !s.inUse[block.value] ==> Release(s, block) == s
  {}

  /** What is handed out is the first block that is free: it is marked, and holds nothing but zeros; no other
      is touched. What is given back is unmarked, and holds nothing but zeros. */
  lemma BlocksAre(s: State, i: nat)
    requires i < |s.inUse| == |s.content|
    ensures !s.inUse[i] && (forall j :: 0 <= j < i ==> s.inUse[j]) ==>
              Allocate(s) == (Some(i), State(s.inUse[i := true], s.content[i := seq(|s.content[i]|, _ => 0)]))
    ensures (forall j :: 0 <= j < |s.inUse| ==> s.inUse[j]) ==> Allocate(s) == (None, s)
    ensures s.inUse[i] ==>
              Release(s, Some(i)) == State(s.inUse[i := false], s.content[i := seq(|s.content[i]|, _ => 0)])
  {
    assert Zeros(|s.content[i]|) == seq(|s.content[i]|, _ => 0);
  }

  /** Otherwise the block, if it is the first that is free then, is handed to a second holder. */
  lemma StaleReleaseIsHandedOut(w: World, holding: nat, holder: nat, blockSize: nat)
    requires Consistent(w, blockSize) && holding < |w.handed| && holding in w.back
    requires Holds(w, holder) && w.handed[holder] == w.handed[holding]
    requires forall b :: 0 <= b < w.handed[holding] ==> w.pool.inUse[b]
    ensures var after := Step(Step(w, GiveBack(holding)), Ask);
            var newer := |w.handed|;
            Holds(after, holder) && Holds(after, newer) && after.handed[holder] == after.handed[newer]
  {
    var block, given := w.handed[holding], Step(w, GiveBack(holding));
    assert IsHeld(w, block);
    assert given.pool.inUse == w.pool.inUse[block := false];
    FirstFreeIs(given.pool.inUse, block);
  }

  lemma FirstFreeIs(inUse: seq<bool>, block: nat)
    requires block < |inUse| && !inUse[block]
    requires forall b :: 0 <= b < block ==> inUse[b]
    ensures FirstFree(inUse) == block
  {}

  /** The shortest such run: the first holder gives the block back, a second is handed it, the first gives it
      back again, and a third is handed it while the second holds it still. */
  lemma StaleReleaseSharesBlock(blockSize: nat)
    ensures var w := Steps(NewWorld(blockSize, 1), [Ask, GiveBack(0), Ask, GiveBack(0), Ask]);
            Holds(w, 1) && Holds(w, 2) && w.handed[1] == w.handed[2] == 0
  {
    var w0 := NewWorld(blockSize, 1);
    assert FirstFree([false]) == 0;
    var held, free := [true], [false];
    assert w0.pool.inUse == free && w0.pool.content == [Zeros(blockSize)];
    var w1 := Step(w0, Ask);
    assert w1.pool.inUse == held && w1.handed == [0];
    var w2 := Step(w1, GiveBack(0));
    assert w2.pool.inUse == free;
    var w3 := Step(w2, Ask);
    assert w3.pool.inUse == held && w3.handed == [0, 0];
    var w4 := Step(w3, GiveBack(0));
    assert w4.pool.inUse == free && w4.back == {0};
    var w5 := Step(w4, Ask);
    assert w5.handed == [0, 0, 0] && w5.back == {0};
    RunOfFive(w0, Ask, GiveBack(0), Ask, GiveBack(0), Ask);
  }

  lemma RunOfFive(w: World, a: Use, b: Use, c: Use, d: Use, e: Use)
    ensures Steps(w, [a, b, c, d, e]) == Step(Step(Step(Step(Step(w, a), b), c), d), e)
  {
    var w1 := Step(w, a);
    var w2 := Step(w1, b);
    var w3 := Step(w2, c);
    assert Steps(w, [a, b, c, d, e]) == Steps(w1, [b, c, d, e]) by { assert [a, b, c, d, e][1..] == [b, c, d, e]; }
    assert Steps(w1, [b, c, d, e]) == Steps(w2, [c, d, e]) by { assert [b, c, d, e][1..] == [c, d, e]; }
    assert Steps(w2, [c, d, e]) == Steps(w3, [d, e]) by { assert [c, d, e][1..] == [d, e]; }
    var w4 := Step(w3, d);
    assert Steps(w3, [d, e]) == Steps(w4, [e]) by { assert [d, e][1..] == [e]; }
    assert Steps(w4, [e]) == Steps(Step(w4, e), []) by { assert [e][1..] == []; }
  }

  /** A block that is asked for and given back leaves the pool as it was. */
  lemma AskThenGiveBack(w: World, blockSize: nat)
    requires Consistent(w, blockSize)
    ensures var (block, after) := Allocate(w.pool);
            Release(after, block) == w.pool
  {
    var i := FirstFree(w.pool.inUse);
    if i < |w.pool.inUse| {
      assert w.pool.content[i] == Zeros(blockSize);
      var after := Allocate(w.pool).1;
      assert after.inUse[i := false] == w.pool.inUse;
      assert after.content[i := Zeros(blockSize)] == w.pool.content;
    }
  }
}
