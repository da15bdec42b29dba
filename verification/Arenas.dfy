/** The arena of src/memory/arena.c in its own form: a linked list of blocks changed in place. */
module Arenas {
  import opened Texts
  import opened ArenaModel

  class ArenaBlock {
    ghost const id: nat
    const capacity: nat
    const oversized: bool
    var next: ArenaBlock?
    var used: nat
    var count: nat

    constructor (ghost id: nat, capacity: nat, oversized: bool)
      ensures this.id == id && this.capacity == capacity && this.oversized == oversized
      ensures next == null && used == 0 && count == 0
    {
      this.id := id;
      this.capacity := capacity;
      this.oversized := oversized;
      next := null;
      used := 0;
      count := 0;
    }
  }

  datatype ArenaMark = ArenaMark(
    owner: LinkedArena, block: ArenaBlock?, used: nat, count: nat, totalUsed: nat, totalAllocations: nat,
    generation: nat)

  ghost function MarkOf(m: ArenaMark): Mark {
    Mark(if m.block == null then None else Some(m.block.id),
         m.used, m.count, m.totalUsed, m.totalAllocations, m.generation)
  }

  ghost predicate Matches(b: ArenaBlock, m: Block)
    reads b`used, b`count
  {
    b.id == m.id && b.capacity == m.capacity && b.oversized == m.oversized && b.used == m.used && b.count == m.count
  }

  /** What follows position `i`. */
  ghost function After(chain: seq<ArenaBlock>, i: int): ArenaBlock? {
    if 0 <= i + 1 < |chain| then chain[i + 1] else null
  }

  /** The objects of `chain`, linked in this order, hold the values `blocks`. */
  ghost predicate Linked(chain: seq<ArenaBlock>, blocks: seq<Block>)
    reads chain
  {
    && |chain| == |blocks|
    && (forall i :: 0 <= i < |chain| ==> Matches(chain[i], blocks[i]))
    && (forall i {:trigger chain[i].next} :: 0 <= i < |chain| ==> chain[i].next == After(chain, i))
    && (forall i, j :: 0 <= i < j < |chain| ==> chain[i] != chain[j])
  }

  ghost function Head(chain: seq<ArenaBlock>): ArenaBlock? {
    if chain == [] then null else chain[0]
  }

  /** Linking `block` in at `at` is a matter of two pointers. */
  lemma {:induction false} LinkedIn(was: seq<ArenaBlock>, bs: seq<Block>, at: nat, block: ArenaBlock, b: Block)
    requires at <= |was| == |bs| && block !in was && Matches(block, b)
    requires forall i :: 0 <= i < |was| ==> Matches(was[i], bs[i])
    requires forall i, j :: 0 <= i < j < |was| ==> was[i] != was[j]
    requires forall i {:trigger was[i].next} :: 0 <= i < |was| && i != at - 1 ==> was[i].next == After(was, i)
    requires at > 0 ==> was[at - 1].next == block
    requires block.next == After(was, at - 1)
    ensures Linked(Inserted(was, at, block), Inserted(bs, at, b))
    ensures Inserted(was, at, block) != [] && Head(Inserted(was, at, block)) == (if at == 0 then block else Head(was))
    ensures at < |Inserted(was, at, block)| && Inserted(was, at, block)[at] == block
  {
    InsertedElements(was, at, block);
    InsertedElements(bs, at, b);
    InsertedDistinctObjects(was, at, block);
    LinkedInNext(was, at, block);
    hide Inserted;
    var chain, blocks := Inserted(was, at, block), Inserted(bs, at, b);
    forall i | 0 <= i < |chain|
      ensures Matches(chain[i], blocks[i])
    {
      assert chain[i] == (if i < at then was[i] else if i == at then block else was[i - 1]);
      assert blocks[i] == (if i < at then bs[i] else if i == at then b else bs[i - 1]);
    }
    hide Matches;
  }

  lemma {:induction false} LinkedInNext(was: seq<ArenaBlock>, at: nat, block: ArenaBlock)
    requires at <= |was|
    requires forall i {:trigger was[i].next} :: 0 <= i < |was| && i != at - 1 ==> was[i].next == After(was, i)
    requires at > 0 ==> was[at - 1].next == block
    requires block.next == After(was, at - 1)
    ensures (var chain := Inserted(was, at, block);
             forall i {:trigger chain[i].next} :: 0 <= i < |chain| ==> chain[i].next == After(chain, i))
  {
    InsertedElements(was, at, block);
    hide Inserted;
    var chain := Inserted(was, at, block);
    forall i | 0 <= i < |chain|
      ensures chain[i].next == After(chain, i)
    {
      if i < at - 1 {
        assert chain[i] == was[i] && chain[i + 1] == was[i + 1];
      } else if i == at - 1 {
        assert chain[i] == was[i] && chain[i + 1] == block;
      } else if i == at {
        assert i < |was| ==> chain[i + 1] == was[i];
      } else {
        assert chain[i] == was[i - 1] && (i < |was| ==> chain[i + 1] == was[i]);
      }
    }
  }

  lemma {:induction false} InsertedDistinctObjects(was: seq<ArenaBlock>, at: nat, block: ArenaBlock)
    requires at <= |was| && block !in was
    requires forall i, j :: 0 <= i < j < |was| ==> was[i] != was[j]
    ensures (var chain := Inserted(was, at, block); forall i, j :: 0 <= i < j < |chain| ==> chain[i] != chain[j])
  {
    InsertedElements(was, at, block);
    hide Inserted;
    var chain := Inserted(was, at, block);
    forall i, j | 0 <= i < j < |chain|
      ensures chain[i] != chain[j]
    {
      var x, y := if i < at then i else i - 1, if j < at then j else j - 1;
      assert i != at ==> chain[i] == was[x];
      assert j != at ==> chain[j] == was[y];
    }
  }

  /** The list starts at `first`, and `current` is the block at `at` (nothing, in an empty list). */
  ghost predicate Laid(chain: seq<ArenaBlock>, blocks: seq<Block>, at: nat, first: ArenaBlock?, current: ArenaBlock?)
    reads chain
  {
    && Linked(chain, blocks)
    && first == Head(chain)
    && (if chain == [] then at == 0 && current == null else at < |chain| && current == chain[at])
  }

  lemma {:induction false} LaidShape(chain: seq<ArenaBlock>, blocks: seq<Block>, at: nat, first: ArenaBlock?,
                                     current: ArenaBlock?)
    requires Laid(chain, blocks, at, first, current)
    ensures |chain| == |blocks| && (chain != [] ==> at < |chain|) && (chain == [] ==> at == 0)
  {
  }

  lemma {:induction false} LaidCurrent(chain: seq<ArenaBlock>, blocks: seq<Block>, at: nat, first: ArenaBlock?,
                                       current: ArenaBlock?)
    requires Laid(chain, blocks, at, first, current)
    ensures |chain| == |blocks|
    ensures current == null ==> blocks == [] && at == 0
    ensures current != null ==> at < |blocks| && current == chain[at] && Matches(current, blocks[at])
    ensures current != null ==> (current.next != null <==> at + 1 < |blocks|)
    ensures current != null && current.next != null ==>
              current.next == chain[at + 1] && Matches(current.next, blocks[at + 1])
  {
    if current != null {
      assert chain[at].next == After(chain, at);
    }
  }

  lemma {:induction false} LaidLinks(chain: seq<ArenaBlock>, blocks: seq<Block>, at: nat, first: ArenaBlock?,
                                     current: ArenaBlock?)
    requires Laid(chain, blocks, at, first, current)
    ensures |chain| == |blocks| && first == Head(chain) && Untouched(chain, blocks, 0)
    ensures forall i {:trigger chain[i].next} :: 0 <= i < |chain| ==> chain[i].next == After(chain, i)
    ensures forall i, j :: 0 <= i < j < |chain| ==> chain[i] != chain[j]
  {
  }

  lemma {:induction false} NothingLaid()
    ensures Laid([], [], 0, null, null)
  {
  }

  lemma {:induction false} KeptLaid(kept: seq<ArenaBlock>, blocks: seq<Block>)
    requires Linked(kept, blocks)
    ensures Laid(kept, blocks, 0, Head(kept), Head(kept)) && |kept| == |blocks|
  {
  }

  lemma {:induction false} LaidNext(chain: seq<ArenaBlock>, blocks: seq<Block>, at: nat, first: ArenaBlock?,
                                    current: ArenaBlock?)
    requires Laid(chain, blocks, at, first, current) && current != null && current.next != null
    ensures Laid(chain, blocks, at + 1, first, current.next)
  {
    assert chain[at].next == After(chain, at);
  }

  ghost function Last(chain: seq<ArenaBlock>): ArenaBlock? {
    if chain == [] then null else chain[|chain| - 1]
  }

  ghost function Objects(chain: seq<ArenaBlock>): set<ArenaBlock> {
    set b | b in chain
  }

  /** Of every block ever made, the list holds exactly those that are not freed. */
  ghost predicate Owned(chain: seq<ArenaBlock>, minted: set<ArenaBlock>, freed: set<ArenaBlock>, nextId: nat) {
    && (forall b :: b in minted ==> b.id < nextId)
    && (forall b, c :: b in minted && c in minted && b.id == c.id ==> b == c)
    && (forall b :: b in minted ==> b in chain || b in freed)
    && (forall b :: b in chain ==> b in minted && b !in freed)
    && freed <= minted
  }

  lemma {:induction false} OwnedWith(
      was: seq<ArenaBlock>, minted: set<ArenaBlock>, freed: set<ArenaBlock>, at: nat, block: ArenaBlock, nextId: nat)
    requires at <= |was| && Owned(was, minted, freed, nextId) && block.id == nextId
    ensures Owned(Inserted(was, at, block), minted + {block}, freed, nextId + 1)
  {
    InsertedMembers(was, at, block);
    hide Inserted;
  }

  lemma {:induction false} OwnedUpTo(chain: seq<ArenaBlock>, minted: set<ArenaBlock>, freed: set<ArenaBlock>,
                                     nextId: nat, bound: nat)
    requires Owned(chain, minted, freed, nextId) && nextId <= bound
    ensures Owned(chain, minted, freed, bound)
  {
  }

  lemma {:induction false} OwnedCut(chain: seq<ArenaBlock>, minted: set<ArenaBlock>, freed: set<ArenaBlock>, n: nat,
                                    nextId: nat)
    requires Owned(chain, minted, freed, nextId) && n <= |chain|
    requires forall i, j :: 0 <= i < j < |chain| ==> chain[i] != chain[j]
    ensures Owned(chain[..n], minted, freed + Objects(chain[n..]), nextId)
  {
    assert chain == chain[..n] + chain[n..];
  }

  lemma {:induction false} OwnedNone(chain: seq<ArenaBlock>, minted: set<ArenaBlock>, freed: set<ArenaBlock>,
                                     nextId: nat)
    requires Owned(chain, minted, freed, nextId)
    requires forall i, j :: 0 <= i < j < |chain| ==> chain[i] != chain[j]
    ensures Owned([], minted, freed + Objects(chain), nextId)
    ensures forall b :: b in chain ==> b !in freed
  {
    assert chain[0..] == chain && chain[..0] == [];
    OwnedCut(chain, minted, freed, 0, nextId);
  }

  lemma {:induction false} LinkedCut(was: seq<ArenaBlock>, bs: seq<Block>, i: nat, b: Block)
    requires i < |was| == |bs| && Matches(was[i], b) && was[i].next == null
    requires forall j :: 0 <= j < i ==> Matches(was[j], bs[j])
    requires forall j {:trigger was[j].next} :: 0 <= j < i ==> was[j].next == After(was, j)
    requires forall j, k :: 0 <= j < k < |was| ==> was[j] != was[k]
    ensures Linked(was[..i + 1], bs[..i] + [b])
  {
    hide Matches;
  }

  /** Where the model finds a block by its identity is where the list has the object. */
  lemma {:induction false} MarkedPlace(
      chain: seq<ArenaBlock>, bs: seq<Block>, minted: set<ArenaBlock>, freed: set<ArenaBlock>, nextId: nat,
      block: ArenaBlock)
    requires Linked(chain, bs) && Owned(chain, minted, freed, nextId) && block in minted
    ensures |chain| == |bs|
    ensures block in chain <==> IndexOf(bs, block.id).Some?
    ensures block in chain ==> chain[IndexOf(bs, block.id).value] == block
                               && Matches(block, bs[IndexOf(bs, block.id).value])
  {
    hide IndexOf;
    var r := IndexOf(bs, block.id);
    if r.Some? {
      assert Matches(chain[r.value], bs[r.value]);
      assert chain[r.value] in chain;
      assert chain[r.value] == block;
    }
  }

  lemma {:induction false} LinkedSnoc(kept: seq<ArenaBlock>, values: seq<Block>, block: ArenaBlock, b: Block)
    requires |kept| == |values| && block !in kept && Matches(block, b) && block.next == null
    requires forall i :: 0 <= i < |kept| ==> Matches(kept[i], values[i])
    requires forall i {:trigger kept[i].next} :: 0 <= i < |kept| - 1 ==> kept[i].next == After(kept, i)
    requires kept != [] ==> kept[|kept| - 1].next == block
    requires forall i, j :: 0 <= i < j < |kept| ==> kept[i] != kept[j]
    ensures Linked(kept + [block], values + [b])
  {
    hide Matches;
    var chain := kept + [block];
    forall i | 0 <= i < |chain|
      ensures chain[i].next == After(chain, i)
    {
      if i < |kept| - 1 {
        assert kept[i].next == After(kept, i);
      }
    }
  }

  /** From position `k` on the list is as it was. */
  ghost predicate Untouched(was: seq<ArenaBlock>, bs: seq<Block>, k: nat)
    reads was
  {
    && |was| == |bs|
    && (forall i :: k <= i < |was| ==> Matches(was[i], bs[i]))
    && (forall i {:trigger was[i].next} :: k <= i < |was| ==> was[i].next == After(was, i))
  }

  lemma {:induction false} UntouchedMore(was: seq<ArenaBlock>, bs: seq<Block>, k: nat)
    requires Untouched(was, bs, k) && k < |was|
    ensures Untouched(was, bs, k + 1) && was[k].next == After(was, k)
    ensures was[k].oversized == bs[k].oversized && was[k].capacity == bs[k].capacity
  {
    assert Matches(was[k], bs[k]);
  }

  lemma {:induction false} NothingSifted(was: seq<ArenaBlock>, freed: set<ArenaBlock>)
    ensures Linked([], []) && Sorted(was, 0, [], freed, freed)
  {
  }

  /** How far a reset has come: of the first `k` blocks, the oversized ones are freed and the
      others kept. */
  ghost predicate Sorted(was: seq<ArenaBlock>, k: nat, kept: seq<ArenaBlock>, before: set<ArenaBlock>,
                         freed: set<ArenaBlock>)
    requires k <= |was|
  {
    && (forall b :: b in kept ==> b in was[..k] && !b.oversized)
    && (forall i :: 0 <= i < k && !was[i].oversized ==> was[i] in kept)
    && (forall i :: 0 <= i < k && was[i].oversized ==> was[i] in freed)
    && before <= freed
    && (forall b :: b in freed ==> b in before || (b in was[..k] && b.oversized))
  }

  lemma {:induction false} SortedStep(was: seq<ArenaBlock>, k: nat, kept: seq<ArenaBlock>, before: set<ArenaBlock>,
                                      freed: set<ArenaBlock>)
    requires k < |was| && Sorted(was, k, kept, before, freed)
    requires forall i, j :: 0 <= i < j < |was| ==> was[i] != was[j]
    ensures was[k] !in kept
    ensures forall i :: 0 <= i < |kept| ==> kept[i] in was
    ensures forall i :: k < i < |was| ==> was[i] !in kept
    ensures was[k].oversized ==> Sorted(was, k + 1, kept, before, freed + {was[k]})
    ensures !was[k].oversized ==> Sorted(was, k + 1, kept + [was[k]], before, freed)
  {
    assert was[..k + 1] == was[..k] + [was[k]];
    forall i | 0 <= i < |kept|
      ensures kept[i] in was
    {
      assert kept[i] in kept;
    }
  }

  lemma {:induction false} OwnedKept(
      was: seq<ArenaBlock>, minted: set<ArenaBlock>, before: set<ArenaBlock>, freed: set<ArenaBlock>, nextId: nat,
      kept: seq<ArenaBlock>)
    requires Owned(was, minted, before, nextId) && Sorted(was, |was|, kept, before, freed)
    ensures Owned(kept, minted, freed, nextId)
  {
    assert was[..|was|] == was;
  }

  lemma {:induction false} RetainedNone(bs: seq<Block>)
    ensures Retained(bs[..0]) == [] && TotalCapacity(bs[..0]) == TotalCapacity([]) == 0
  {
  }

  lemma {:induction false} RetainedSnoc(bs: seq<Block>, k: nat)
    requires k < |bs|
    ensures Retained(bs[..k + 1])
         == if bs[k].oversized then Retained(bs[..k]) else Retained(bs[..k]) + [bs[k].(used := 0, count := 0)]
    ensures TotalCapacity(bs[..k + 1]) == TotalCapacity(bs[..k]) + bs[k].capacity
    ensures TotalCapacity(Retained(bs[..k + 1]))
         == TotalCapacity(Retained(bs[..k])) + (if bs[k].oversized then 0 else bs[k].capacity)
    ensures TotalCapacity(bs[..k + 1]) <= TotalCapacity(bs)
  {
    assert bs == bs[..k + 1] + bs[k + 1..];
    TotalsAppend(bs[..k + 1], bs[k + 1..]);
    assert bs[..k + 1][..k] == bs[..k];
    if !bs[k].oversized {
      TotalsAppend(Retained(bs[..k]), [bs[k].(used := 0, count := 0)]);
      TotalsOne(bs[k].(used := 0, count := 0));
    } else {
      assert Retained(bs[..k]) + [] == Retained(bs[..k]);
    }
  }

  class LinkedArena {
    var first: ArenaBlock?
    var current: ArenaBlock?
    var blockSize: nat
    var blockCount: nat
    var capacity: nat
    var used: nat
    var allocations: nat
    var generation: nat
    /** The arena as a value. */
    ghost var model: Arena
    /** The blocks in the list, in order. */
    ghost var chain: seq<ArenaBlock>
    /** Every block this arena ever made. */
    ghost var minted: set<ArenaBlock>
    /** The blocks given back to the system, which must not be used any more. */
    ghost var freed: set<ArenaBlock>
    ghost var nextId: nat

    ghost predicate Counted()
      reads this
    {
      && model.blockSize == blockSize > 0
      && model.blockCount == blockCount == |model.blocks|
      && model.capacity == capacity == TotalCapacity(model.blocks)
      && model.used == used
      && model.allocations == allocations
      && model.generation == generation
    }

    /** The fields represent `model`. */
    ghost predicate Valid()
      reads this, chain
    {
      && Laid(chain, model.blocks, model.current, first, current)
      && Counted()
      && Owned(chain, minted, freed, nextId)
    }

    /** arena_init on a usable block size. */
    constructor (blockSize: nat)
      requires blockSize > 0
      ensures Valid() && model == Empty(blockSize) && minted == {} && nextId == 0
    {
      first := null;
      current := null;
      this.blockSize := blockSize;
      blockCount := 0;
      capacity := 0;
      used := 0;
      allocations := 0;
      generation := 1;
      model := Empty(blockSize);
      chain := [];
      minted := {};
      freed := {};
      nextId := 0;
    }

    /** arena_init refuses a zero block size. */
    static method Create(blockSize: nat) returns (arena: LinkedArena?)
      ensures arena == null <==> blockSize == 0
      ensures arena != null ==> fresh(arena) && arena.Valid() && arena.model == Empty(blockSize)
    {
      if blockSize == 0 {
        return null;
      }
      arena := new LinkedArena(blockSize);
    }

    /** Links a new block in behind the current one and makes it current. */
    method Link(block: ArenaBlock, ghost b: Block)
      requires Laid(chain, model.blocks, model.current, first, current) && block !in chain
      requires Matches(block, b) && block.next == null
      modifies this`first, this`current, this`chain, this`model, chain, block
      ensures Laid(chain, model.blocks, model.current, first, current)
      ensures (var at := if old(chain) == [] then 0 else old(model).current + 1;
               && at <= |old(chain)| && at <= |old(model).blocks|
               && chain == Inserted(old(chain), at, block)
               && model == old(model).(blocks := Inserted(old(model).blocks, at, b), current := at))
    {
      hide Matches;
      ghost var at, was, bs := if chain == [] then 0 else model.current + 1, chain, model.blocks;
      assert at > 0 ==> current == was[at - 1] && current.next == After(was, at - 1);
      assert at == 0 ==> After(was, at - 1) == null;
      hide Inserted, After;
      if current == null {
        first := block;
      } else {
        block.next := current.next;
        current.next := block;
      }
      current := block;
      chain := Inserted(was, at, block);
      model := model.(blocks := Inserted(bs, at, b), current := at);
      LinkedIn(was, bs, at, block, b);
      hide Linked;
    }

    /** arena_block_create; `granted` says whether the system has the memory. */
    method CreateBlock(needed: nat, granted: bool) returns (block: ArenaBlock?)
      ensures block == null <==> needed > SIZE_LIMIT - HEADER_SIZE || !granted
      ensures block != null ==> fresh(block) && block.id == nextId && block.capacity == needed
      ensures block != null ==> block.next == null
      ensures block != null ==> Matches(block, Block(nextId, needed, 0, 0, IsOversized(blockSize, needed)))
    {
      if needed > SIZE_LIMIT - HEADER_SIZE || !granted {
        return null;
      }
      block := new ArenaBlock(nextId, needed, IsOversized(blockSize, needed));
    }

    /** The counters take the new block in. */
    method CountIn(block: ArenaBlock)
      modifies `blockCount, `capacity, `model, `minted, `nextId
      ensures blockCount == old(blockCount) + 1 && capacity == old(capacity) + block.capacity
      ensures model == old(model).(blockCount := blockCount, capacity := capacity)
      ensures minted == old(minted) + {block} && nextId == old(nextId) + 1
    {
      blockCount := blockCount + 1;
      capacity := capacity + block.capacity;
      model := model.(blockCount := blockCount, capacity := capacity);
      minted := minted + {block};
      nextId := nextId + 1;
    }

    /** The new block joins the list and the counters. */
    method Adopt(block: ArenaBlock, ghost b: Block)
      requires Valid() && block !in minted && Matches(block, b) && block.next == null
      requires block.id == nextId && block.capacity == b.capacity
      modifies this, chain, block
      ensures Valid() && minted == old(minted) + {block} && freed == old(freed) && nextId == old(nextId) + 1
      ensures forall c :: c in chain <==> c in old(chain) || c == block
      ensures (var at := if old(chain) == [] then 0 else old(model).current + 1;
               && at <= |old(model).blocks|
               && model == old(model).(blocks := Inserted(old(model).blocks, at, b), current := at,
                                       blockCount := old(blockCount) + 1, capacity := old(capacity) + b.capacity))
    {
      hide Laid, TotalCapacity, TotalUsed, TotalCount, Inserted, Linked, Matches, Head;
      ghost var at := if chain == [] then 0 else model.current + 1;
      LaidShape(chain, model.blocks, model.current, first, current);
      InsertedTotals(model.blocks, at, b);
      InsertedMembers(chain, at, block);
      InsertedMembers(model.blocks, at, b);
      assert block !in chain;
      OwnedWith(chain, minted, freed, at, block, nextId);
      hide Owned;
      CountIn(block);
      Link(block, b);
    }

    /** arena_add_block. */
    method AddBlock(size: nat, granted: bool) returns (ok: bool)
      requires Valid()
      modifies this, chain
      ensures Valid()
      ensures ArenaModel.AddBlock(old(model), size, granted, old(nextId)) == if ok then Some(model) else None
      ensures !ok ==> model == old(model) && chain == old(chain)
      ensures old(minted) <= minted && forall i :: 0 <= i < |chain| ==> chain[i] in old(chain) || fresh(chain[i])
      ensures forall b :: b in minted ==> b in old(minted) || fresh(b)
      ensures old(nextId) <= nextId <= old(nextId) + 1
    {
      hide IsOversized, Matches, Owned, TotalCapacity, TotalUsed, TotalCount, Inserted;
      ok := false;
      if size > SIZE_LIMIT - (ALIGNMENT - 1) {
        return;
      }
      var needed := BlockCapacity(blockSize, size);
      if blockCount == SIZE_LIMIT || capacity > SIZE_LIMIT - needed {
        return;
      }
      assert |chain| == |model.blocks|;
      assert chain != [] ==> model.current < |chain|;
      hide BlockCapacity, Laid;
      var block := CreateBlock(needed, granted);
      if block == null {
        return;
      }
      Adopt(block, Block(nextId, needed, 0, 0, IsOversized(blockSize, needed)));
      ok := true;
    }

    /** Makes the current block one with room for `size` bytes: as it is, the one behind it, or
        a new one. */
    method Prepare(size: nat, granted: bool) returns (ok: bool)
      requires Valid()
      modifies this, chain
      ensures Valid()
      ensures ArenaModel.Prepare(old(model), size, granted, old(nextId)) == if ok then Some(model) else None
      ensures !ok ==> model == old(model) && chain == old(chain)
      ensures old(minted) <= minted && forall i :: 0 <= i < |chain| ==> chain[i] in old(chain) || fresh(chain[i])
      ensures forall b :: b in minted ==> b in old(minted) || fresh(b)
      ensures old(nextId) <= nextId <= old(nextId) + 1
    {
      hide IsOversized, Linked, Owned, TotalCapacity, TotalUsed, TotalCount, Inserted, HasRoom, ArenaModel.AddBlock;
      LaidCurrent(chain, model.blocks, model.current, first, current);
      hide Laid;
      if current != null && HasRoom(current.used, current.capacity, size) {
        return true;
      }
      if current != null && current.next != null && HasRoom(current.next.used, current.next.capacity, size) {
        LaidNext(chain, model.blocks, model.current, first, current);
        current := current.next;
        model := model.(current := model.current + 1);
        return true;
      }
      ok := AddBlock(size, granted);
    }

    /** Takes `size` bytes from the current block. */
    method Bump(size: nat) returns (block: ArenaBlock?, offset: nat)
      requires Valid()
      modifies this, chain
      ensures Valid()
      ensures (model, if block == null then None else Some(Address(block.id, offset)))
           == ArenaModel.Bump(old(model), size)
      ensures chain == old(chain) && minted == old(minted) && (block != null ==> block in chain)
      ensures nextId == old(nextId)
    {
      hide Laid, Linked, Owned, TotalCapacity, TotalUsed, TotalCount;
      block, offset := null, 0;
      LaidCurrent(chain, model.blocks, model.current, first, current);
      if current == null {
        return;
      }
      AlignedUp(current.used);
      var aligned := AlignUp(current.used);
      hide AlignUp;
      if aligned.None? || size > current.capacity - aligned.value {
        return;
      }
      ghost var at := model.current;
      ghost var b := model.blocks[at].(used := aligned.value + size, count := model.blocks[at].count + 1);
      var previous := current.used;
      TotalsUpdate(model.blocks, at, b);
      FillCurrent(aligned.value + size, current.count + 1);
      used := used + (current.used - previous);
      allocations := allocations + 1;
      model := model.(used := used, allocations := allocations);
      block, offset := current, aligned.value;
    }

    /** Writes the use of the current block. */
    method FillCurrent(used: nat, count: nat)
      requires Laid(chain, model.blocks, model.current, first, current) && current != null
      modifies this`model, current`used, current`count
      ensures old(model.current) < |old(model.blocks)|
      ensures (var bs, at := old(model.blocks), old(model.current);
               model == old(model).(blocks := bs[at := bs[at].(used := used, count := count)]))
      ensures current.used == used && current.count == count
      ensures Laid(chain, model.blocks, model.current, first, current)
    {
      ghost var at, bs := model.current, model.blocks;
      current.used := used;
      current.count := count;
      model := model.(blocks := bs[at := bs[at].(used := used, count := count)]);
    }

    /** arena_alloc. Every call uses up an identity, whether or not it makes a block. */
    method Alloc(size: nat, granted: bool) returns (block: ArenaBlock?, offset: nat)
      requires Valid()
      modifies this, chain
      ensures Valid()
      ensures (model, if block == null then None else Some(Address(block.id, offset)))
           == ArenaModel.Alloc(old(model), size, granted, old(nextId))
      ensures block != null ==> block in chain
      ensures old(minted) <= minted && forall i :: 0 <= i < |chain| ==> chain[i] in old(chain) || fresh(chain[i])
      ensures forall b :: b in minted ==> b in old(minted) || fresh(b)
      ensures nextId == old(nextId) + 1
    {
      hide Owned, Laid, TotalCapacity, TotalUsed, TotalCount, ArenaModel.Prepare, ArenaModel.Bump;
      block, offset := null, 0;
      if size != 0 {
        var ok := Prepare(size, granted);
        if ok {
          assert forall i :: 0 <= i < |chain| ==> chain[i] in old(chain) || fresh(chain[i]);
          block, offset := Bump(size);
        }
      }
      OwnedUpTo(chain, minted, freed, nextId, old(nextId) + 1);
      nextId := old(nextId) + 1;
    }

    /** arena_mark. */
    method Mark() returns (mark: ArenaMark)
      requires Valid()
      ensures mark.owner == this && MarkOf(mark) == TakeMark(model)
      ensures mark.block != null ==> mark.block in minted
    {
      hide TotalCapacity;
      if current == null {
        mark := ArenaMark(this, null, 0, 0, used, allocations, generation);
      } else {
        mark := ArenaMark(this, current, current.used, current.count, used, allocations, generation);
      }
    }

    /** arena_block_free_chain: gives back `rest`, the blocks from `block` on; none twice. */
    method FreeChain(block: ArenaBlock?, ghost rest: seq<ArenaBlock>)
      requires block == Head(rest)
      requires forall i {:trigger rest[i].next} :: 0 <= i < |rest| ==> rest[i].next == After(rest, i)
      requires forall i, j :: 0 <= i < j < |rest| ==> rest[i] != rest[j]
      requires forall b :: b in rest ==> b !in freed
      modifies this`freed
      ensures freed == old(freed) + Objects(rest)
    {
      var next := block;
      ghost var k := 0;
      while next != null
        invariant 0 <= k <= |rest| && next == After(rest, k - 1)
        invariant freed == old(freed) + Objects(rest[..k])
        decreases |rest| - k
      {
        assert next == rest[k] && next !in freed;
        var following := next.next;
        freed := freed + {next};
        assert rest[..k + 1] == rest[..k] + [rest[k]];
        next := following;
        k := k + 1;
      }
      assert rest[..k] == rest;
    }

    /** arena_contains_block. */
    method Contains(target: ArenaBlock) returns (found: bool)
      requires Laid(chain, model.blocks, model.current, first, current)
      ensures found <==> target in chain
    {
      var block := first;
      ghost var k := 0;
      while block != null
        invariant 0 <= k <= |chain| && block == After(chain, k - 1)
        invariant target !in chain[..k]
        decreases |chain| - k
      {
        if block == target {
          return true;
        }
        assert chain[..k + 1] == chain[..k] + [chain[k]];
        block := block.next;
        k := k + 1;
      }
      assert chain[..k] == chain;
      found := false;
    }

    /** Counts the blocks and their capacity afresh. */
    method Recount()
      requires Laid(chain, model.blocks, model.current, first, current)
      modifies this`blockCount, this`capacity
      ensures blockCount == |model.blocks| && capacity == TotalCapacity(model.blocks)
    {
      blockCount := 0;
      capacity := 0;
      var block := first;
      ghost var bs := model.blocks;
      while block != null
        invariant 0 <= blockCount <= |chain| && block == After(chain, blockCount - 1)
        invariant capacity == TotalCapacity(bs[..blockCount])
        decreases |chain| - blockCount
      {
        assert bs[..blockCount + 1][..blockCount] == bs[..blockCount];
        assert Matches(chain[blockCount], bs[blockCount]);
        capacity := capacity + block.capacity;
        block := block.next;
        blockCount := blockCount + 1;
      }
      assert bs[..blockCount] == bs;
    }

    /** The blocks behind position `i` go back to the system. */
    method FreeRest(ghost was: seq<ArenaBlock>, ghost i: nat, released: ArenaBlock?)
      requires i < |was| && released == After(was, i)
      requires forall j {:trigger was[j].next} :: i < j < |was| ==> was[j].next == After(was, j)
      requires forall j, k :: 0 <= j < k < |was| ==> was[j] != was[k]
      requires forall b :: b in was ==> b !in freed
      modifies this`freed
      ensures freed == old(freed) + Objects(was[i + 1..])
    {
      ghost var rest := was[i + 1..];
      forall j | 0 <= j < |rest|
        ensures rest[j].next == After(rest, j)
      {
        assert was[i + 1 + j].next == After(was, i + 1 + j);
      }
      FreeChain(released, rest);
    }

    /** The list ends at `block`; what was behind it is freed. */
    method Detach(block: ArenaBlock, ghost i: nat)
      requires Linked(chain, model.blocks) && Owned(chain, minted, freed, nextId)
      requires i < |chain| && chain[i] == block
      modifies `freed, block`next
      ensures i < |model.blocks| && Linked(chain[..i + 1], model.blocks[..i + 1])
      ensures Owned(chain[..i + 1], minted, freed, nextId)
    {
      ghost var was, bs := chain, model.blocks;
      assert was[i].next == After(was, i);
      OwnedCut(was, minted, freed, i + 1, nextId);
      assert forall b :: b in was ==> b !in freed;
      assert forall j :: 0 <= j < |was| ==> Matches(was[j], bs[j]);
      assert bs[..i + 1] == bs[..i] + [bs[i]];
      hide Linked, Owned, Objects, Matches, After;
      var released := block.next;
      block.next := null;
      FreeRest(was, i, released);
      LinkedCut(was, bs, i, bs[i]);
    }

    /** Sets the use of the last block of a list back. */
    method SetBack(block: ArenaBlock, used: nat, count: nat, ghost kept: seq<ArenaBlock>, ghost bs: seq<Block>)
      requires kept != [] && block == Last(kept) && Linked(kept, bs)
      modifies block`used, block`count
      ensures bs != [] && Linked(kept, bs[..|bs| - 1] + [bs[|bs| - 1].(used := used, count := count)])
    {
      assert Matches(block, bs[|bs| - 1]);
      block.used := used;
      block.count := count;
    }

    /** Frees every block behind `block`, makes it current and sets its use back. */
    method CutBehind(block: ArenaBlock, ghost i: nat, used: nat, count: nat)
      requires Laid(chain, model.blocks, model.current, first, current) && Owned(chain, minted, freed, nextId)
      requires i < |chain| && chain[i] == block
      modifies this`chain, this`model, this`current, this`freed, block
      ensures i < |old(model.blocks)| && chain == old(chain)[..i + 1]
      ensures model == old(model).(
                blocks := old(model.blocks)[..i] + [old(model.blocks)[i].(used := used, count := count)], current := i)
      ensures Laid(chain, model.blocks, model.current, first, current) && Owned(chain, minted, freed, nextId)
    {
      hide Linked, Owned;
      ghost var bs := model.blocks;
      Detach(block, i);
      current := block;
      SetBack(block, used, count, chain[..i + 1], bs[..i + 1]);
      chain := chain[..i + 1];
      assert bs[..i + 1][..i] == bs[..i];
      model := model.(blocks := bs[..i] + [bs[i].(used := used, count := count)], current := i);
    }

    /** Gives back every block. */
    method FreeAll()
      requires Laid(chain, model.blocks, model.current, first, current) && Owned(chain, minted, freed, nextId)
      modifies this`freed
      ensures Owned([], minted, freed, nextId)
    {
      LaidLinks(chain, model.blocks, model.current, first, current);
      OwnedNone(chain, minted, freed, nextId);
      hide Laid, Linked, Owned, Objects;
      FreeChain(first, chain);
    }

    /** The list starts at `block` and nothing in it is in use. */
    method Rewind(block: ArenaBlock?)
      modifies `first, `current, `used, `allocations
      ensures first == current == block && used == allocations == 0
    {
      first := block;
      current := block;
      used := 0;
      allocations := 0;
    }

    /** arena_reset_to_empty. */
    method ResetToEmpty()
      requires Valid()
      modifies this
      ensures Valid() && minted == old(minted) && nextId == old(nextId)
      ensures model == old(model).(blocks := [], current := 0, blockCount := 0, capacity := 0, used := 0,
                                   allocations := 0)
    {
      hide Laid, Linked, Owned, TotalCapacity, TotalUsed, TotalCount;
      NothingLaid();
      NoTotals();
      FreeAll();
      Rewind(null);
      blockCount := 0;
      capacity := 0;
      chain := [];
      model := model.(blocks := [], current := 0, blockCount := 0, capacity := 0, used := 0, allocations := 0);
    }

    /** arena_destroy. */
    method Destroy()
      requires Valid()
      modifies this
      ensures first == null && current == null && blockSize == 0 && minted == old(minted) == freed
    {
      hide Laid, Linked, TotalCapacity;
      FreeAll();
      Rewind(null);
      blockSize := 0;
      blockCount := 0;
      capacity := 0;
      generation := 0;
      chain := [];
    }

    /** The accepted half of a restore: back to the state of a mark at position `i`. */
    method GoBack(mark: ArenaMark, ghost i: nat)
      requires Valid() && mark.block != null && i < |chain| && chain[i] == mark.block
      modifies this, chain
      ensures Valid() && minted == old(minted) && nextId == old(nextId) && i < |old(model).blocks|
      ensures (var kept := old(model).blocks[..i] + [old(model).blocks[i].(used := mark.used, count := mark.count)];
               model == old(model).(blocks := kept, current := i, blockCount := |kept|, capacity := TotalCapacity(kept),
                                    used := mark.totalUsed, allocations := mark.totalAllocations))
    {
      hide Linked, TotalCapacity, TotalUsed, TotalCount, Laid, Owned;
      CutBehind(mark.block, i, mark.used, mark.count);
      Recount();
      used := mark.totalUsed;
      allocations := mark.totalAllocations;
      model := model.(used := used, allocations := allocations, blockCount := blockCount, capacity := capacity);
    }

    /** arena_restore. */
    method Restore(mark: ArenaMark) returns (ok: bool)
      requires Valid()
      requires mark.owner == this && mark.block != null ==> mark.block in minted
      modifies this, chain
      ensures Valid() && minted == old(minted) && nextId == old(nextId)
      ensures mark.owner != this ==> !ok && model == old(model)
      ensures mark.owner == this ==> ArenaModel.Restore(old(model), MarkOf(mark)) == if ok then Some(model) else None
      ensures !ok ==> model == old(model) && chain == old(chain) && freed == old(freed)
    {
      hide TotalCapacity;
      if mark.owner != this || mark.generation != generation {
        return false;
      }
      if mark.block == null {
        if mark.totalUsed != 0 || mark.totalAllocations != 0 {
          return false;
        }
        hide Laid, Owned;
        ResetToEmpty();
        return true;
      }
      MarkedPlace(chain, model.blocks, minted, freed, nextId, mark.block);
      hide Laid, Owned, IndexOf, Linked;
      var present := Contains(mark.block);
      if !present || mark.used > mark.block.used || mark.count > mark.block.count {
        return false;
      }
      GoBack(mark, IndexOf(model.blocks, mark.block.id).value);
      ok := true;
    }

    /** A normal block is emptied and linked in behind the last one kept. */
    method Keep(block: ArenaBlock, last: ArenaBlock?, ghost was: seq<ArenaBlock>, ghost bs: seq<Block>, ghost k: nat,
                ghost kept: seq<ArenaBlock>, ghost values: seq<Block>)
      requires k < |was| == |bs| && block == was[k] && Untouched(was, bs, k)
      requires forall i :: k < i < |was| ==> was[i] != block && was[i] !in kept
      requires Linked(kept, values) && last == Last(kept) && block !in kept
      modifies block, kept
      ensures Linked(kept + [block], values + [bs[k].(used := 0, count := 0)])
      ensures Untouched(was, bs, k + 1)
    {
      assert Matches(was[k], bs[k]);
      block.next := null;
      block.used := 0;
      block.count := 0;
      if last != null {
        assert forall i {:trigger kept[i].next} :: 0 <= i < |kept| - 1 ==> kept[i].next == After(kept, i);
        last.next := block;
      }
      LinkedSnoc(kept, values, block, bs[k].(used := 0, count := 0));
      hide Linked;
    }

    /** One block of a reset: an oversized one goes back to the system, a normal one is kept. */
    method Sift(block: ArenaBlock, retainedFirst: ArenaBlock?, retainedLast: ArenaBlock?, ghost was: seq<ArenaBlock>,
                ghost bs: seq<Block>, ghost k: nat, ghost kept: seq<ArenaBlock>, ghost before: set<ArenaBlock>)
      returns (nextFirst: ArenaBlock?, nextLast: ArenaBlock?, ghost more: seq<ArenaBlock>)
      requires k < |was| == |bs| && block == was[k] && Untouched(was, bs, k)
      requires forall i, j :: 0 <= i < j < |was| ==> was[i] != was[j]
      requires Linked(kept, Retained(bs[..k])) && retainedFirst == Head(kept) && retainedLast == Last(kept)
      requires Sorted(was, k, kept, before, freed)
      requires blockCount >= 1 && capacity >= bs[k].capacity
      modifies this`freed, this`blockCount, this`capacity, was
      ensures Untouched(was, bs, k + 1)
      ensures Linked(more, Retained(bs[..k + 1])) && nextFirst == Head(more) && nextLast == Last(more)
      ensures Sorted(was, k + 1, more, before, freed)
      ensures |more| <= |kept| + 1
      ensures blockCount == old(blockCount) - (|kept| + 1 - |more|)
      ensures capacity == old(capacity) - bs[k].capacity + TotalCapacity(Retained(bs[..k + 1]))
              - TotalCapacity(Retained(bs[..k]))
    {
      hide Linked, Matches, Untouched, Sorted, Retained, TotalCapacity, TotalUsed, TotalCount;
      RetainedSnoc(bs, k);
      UntouchedMore(was, bs, k);
      SortedStep(was, k, kept, before, freed);
      if block.oversized {
        blockCount := blockCount - 1;
        capacity := capacity - block.capacity;
        freed := freed + {block};
        nextFirst, nextLast, more := retainedFirst, retainedLast, kept;
      } else {
        Keep(block, retainedLast, was, bs, k, kept, Retained(bs[..k]));
        nextFirst, nextLast, more := if retainedLast == null then block else retainedFirst, block, kept + [block];
      }
    }

    /** The pass of a reset over all blocks. */
    method SiftAll() returns (retained: ArenaBlock?, ghost kept: seq<ArenaBlock>)
      requires Valid()
      modifies this`freed, this`blockCount, this`capacity, chain
      ensures Laid(kept, Retained(model.blocks), 0, retained, retained)
      ensures Owned(kept, minted, freed, nextId)
      ensures blockCount == |Retained(model.blocks)| && capacity == TotalCapacity(Retained(model.blocks))
    {
      hide Laid, Owned, Linked, Sorted, Matches, Untouched, Retained, TotalCapacity, TotalUsed, TotalCount;
      var block := first;
      var retainedLast: ArenaBlock? := null;
      ghost var k := 0;
      retained, kept := null, [];
      LaidLinks(chain, model.blocks, model.current, first, current);
      RetainedNone(model.blocks);
      NothingSifted(chain, freed);
      while block != null
        invariant 0 <= k <= |chain| && block == After(chain, k - 1)
        invariant Untouched(chain, model.blocks, k)
        invariant Linked(kept, Retained(model.blocks[..k])) && retained == Head(kept) && retainedLast == Last(kept)
        invariant Sorted(chain, k, kept, old(freed), freed)
        invariant blockCount == |chain| - k + |kept|
        invariant capacity == TotalCapacity(model.blocks) - TotalCapacity(model.blocks[..k])
                  + TotalCapacity(Retained(model.blocks[..k]))
        decreases |chain| - k
      {
        UntouchedMore(chain, model.blocks, k);
        var next := block.next;
        RetainedSnoc(model.blocks, k);
        retained, retainedLast, kept := Sift(block, retained, retainedLast, chain, model.blocks, k, kept, old(freed));
        block := next;
        k := k + 1;
      }
      assert model.blocks[..k] == model.blocks;
      OwnedKept(chain, minted, old(freed), freed, nextId, kept);
      KeptLaid(kept, Retained(model.blocks));
    }

    /** The generation wraps around past the largest size_t, and skips 0. */
    method AdvanceGeneration()
      modifies `generation
      ensures generation == NextGeneration(old(generation))
    {
      generation := if generation >= SIZE_LIMIT then 0 else generation + 1;
      if generation == 0 {
        generation := 1;
      }
    }

    /** arena_reset. */
    method Reset()
      requires Valid()
      modifies this, chain
      ensures Valid() && minted == old(minted) && nextId == old(nextId)
      ensures model == ArenaModel.Reset(old(model))
    {
      hide Laid, Owned, Linked, TotalCapacity, TotalUsed, TotalCount, Retained;
      ghost var kept;
      var retained;
      retained, kept := SiftAll();
      Rewind(retained);
      AdvanceGeneration();
      chain := kept;
      model := ArenaModel.Reset(model);
    }

    /** arena_stats: what it reports are the sums over the block list. */
    method Stats() returns (blocks: nat, reserved: nat, bumped: nat, handedOut: nat)
      requires Valid()
      ensures blocks == |model.blocks| && reserved == TotalCapacity(model.blocks)
      ensures bumped == model.used && handedOut == model.allocations
      ensures Inv(model) ==> bumped == TotalUsed(model.blocks) && handedOut == TotalCount(model.blocks)
    {
      hide Linked, TotalCapacity, TotalUsed, TotalCount;
      LaidShape(chain, model.blocks, model.current, first, current);
      blocks, reserved, bumped, handedOut := blockCount, capacity, used, allocations;
    }
  }
}
