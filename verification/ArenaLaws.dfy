/** The arena said with numbers: which memory an allocation gives, when it gives none, and which
    blocks a reset keeps. */
module ArenaLaws {
  import opened Texts
  import opened ArenaModel
  import opened ArenaMarks
  import opened ArenaOrders

  // ---------- allocation ----------

  /** The next multiple of 16. */
  function Rounded(v: nat): nat {
    (v + 15) / 16 * 16
  }

  lemma {:induction false} AlignedIsRounded(v: nat)
    ensures AlignUp(v) == if Rounded(v) <= 0xFFFF_FFFF_FFFF_FFFF || v % 16 == 0 then Some(Rounded(v)) else None
  {
  }

  /** The capacity of a block made for `size` bytes. */
  function Needed(blockSize: nat, size: nat): nat {
    if size + 15 > blockSize then size + 15 else blockSize
  }

  lemma {:induction false} RoomIsRounded(used: nat, capacity: nat, size: nat)
    requires capacity <= 0xFFFF_FFFF_FFFF_FFFF
    ensures HasRoom(used, capacity, size) <==> Rounded(used) + size <= capacity
    ensures HasRoom(used, capacity, size) ==> AlignUp(used) == Some(Rounded(used))
  {
    AlignedIsRounded(used);
    hide AlignUp;
  }

  /** Main result: what an allocation gives. The current block serves it if it has room behind the
      next multiple of 16; else the block behind that one, if it is large enough; else a new block,
      if the system grants it and nothing exceeds 64 bits; else nothing. */
  lemma {:induction false} AllocGives(a: Arena, size: nat, granted: bool, id: nat)
    requires Inv(a) && FreshId(a, id)
    ensures (var given := Alloc(a, size, granted, id).1;
             var here := if a.blocks == [] then None else Some(a.blocks[a.current]);
             var next := if a.current + 1 < |a.blocks| then Some(a.blocks[a.current + 1]) else None;
             given ==
               if size == 0 then None
               else if here.Some? && Rounded(here.value.used) + size <= here.value.capacity then
                 Some(Address(here.value.id, Rounded(here.value.used)))
               else if next.Some? && size <= next.value.capacity then Some(Address(next.value.id, 0))
               else if granted && |a.blocks| != 0xFFFF_FFFF_FFFF_FFFF
                    && Needed(a.blockSize, size) + 80 <= 0xFFFF_FFFF_FFFF_FFFF
                    && a.capacity + Needed(a.blockSize, size) <= 0xFFFF_FFFF_FFFF_FFFF then Some(Address(id, 0))
               else None)
  {
    hide TotalCapacity, TotalUsed, TotalCount, DistinctIds, Alloc;
    if size == 0 {
      NothingGiven(a, granted, id);
    } else if a.blocks != [] && HasRoom(a.blocks[a.current].used, a.blocks[a.current].capacity, size) {
      CapacityBounded(a, a.current);
      RoomIsRounded(a.blocks[a.current].used, a.blocks[a.current].capacity, size);
      GivenHere(a, size, granted, id);
    } else {
      if a.blocks != [] {
        CapacityBounded(a, a.current);
        RoomIsRounded(a.blocks[a.current].used, a.blocks[a.current].capacity, size);
      }
      if a.current + 1 < |a.blocks| {
        CapacityBounded(a, a.current + 1);
        RoomIsRounded(0, a.blocks[a.current + 1].capacity, size);
      }
      if a.current + 1 < |a.blocks| && size <= a.blocks[a.current + 1].capacity {
        GivenNext(a, size, granted, id);
      } else {
        GivenNew(a, size, granted, id);
      }
    }
  }

  /** Main result: what an allocation changes. It takes its bytes from the block that serves it, which
      becomes the current one; a new block stands right behind the one that was current; nothing
      else changes, and nothing at all when nothing is given. */
  lemma {:induction false} AllocChanges(a: Arena, size: nat, granted: bool, id: nat)
    requires Inv(a) && FreshId(a, id)
    ensures (var (after, given) := Alloc(a, size, granted, id);
             if given.None? then after == a
             else
               var isNew := given.value.block == id;
               var at := if a.blocks == [] then 0 else a.current + 1;
               var made := Block(id, Needed(a.blockSize, size), 0, 0, Needed(a.blockSize, size) > 4 * a.blockSize);
               var bs := if isNew then a.blocks[..at] + [made] + a.blocks[at..] else a.blocks;
               var i := after.current;
               && i < |bs| && bs[i].id == given.value.block
               && after == a.(blocks := bs[i := bs[i].(used := given.value.offset + size, count := bs[i].count + 1)],
                              current := i,
                              blockCount := |bs|,
                              capacity := a.capacity + (if isNew then made.capacity else 0),
                              used := a.used + (given.value.offset + size - bs[i].used),
                              allocations := a.allocations + 1))
  {
    hide TotalCapacity, TotalUsed, TotalCount, DistinctIds, Alloc, AddBlock, Bump, CanAllocate, Needed;
    if size > 0 && Prepare(a, size, granted, id).Some? {
      AllocIsBump(a, size, granted, id);
      var ready := Prepare(a, size, granted, id).value;
      PrepareKeepsInv(a, size, granted, id);
      BumpGives(ready, size);
      BumpChanges(ready, size);
      if AddBlock(a, size, granted, id).Some? {
        AddBlockChanges(a, size, granted, id);
      }
    } else {
      AllocIsNothing(a, size, granted, id);
    }
  }

  lemma {:induction false} AllocIsBump(a: Arena, size: nat, granted: bool, id: nat)
    requires a.blockSize > 0 && size > 0 && Prepare(a, size, granted, id).Some?
    ensures Alloc(a, size, granted, id) == Bump(Prepare(a, size, granted, id).value, size)
  {
    hide Prepare, Bump;
  }

  lemma {:induction false} AllocIsNothing(a: Arena, size: nat, granted: bool, id: nat)
    requires size == 0 || Prepare(a, size, granted, id).None?
    ensures Alloc(a, size, granted, id) == (a, None)
  {
    hide Prepare, Bump;
  }

  lemma {:induction false} BumpChanges(a: Arena, size: nat)
    ensures (var (after, given) := Bump(a, size);
             if given.None? then after == a
             else
               && a.current < |a.blocks|
               && (var b := a.blocks[a.current];
                   var end := given.value.offset + size;
                   && given.value.block == b.id
                   && after == a.(blocks := a.blocks[a.current := b.(used := end, count := b.count + 1)],
                                  used := a.used + (end - b.used),
                                  allocations := a.allocations + 1)))
  {
    hide AlignUp;
  }

  lemma {:induction false} AddBlockChanges(a: Arena, size: nat, granted: bool, id: nat)
    requires Inv(a) && AddBlock(a, size, granted, id).Some?
    ensures (var at := if a.blocks == [] then 0 else a.current + 1;
             var made := Block(id, Needed(a.blockSize, size), 0, 0, Needed(a.blockSize, size) > 4 * a.blockSize);
             && at <= |a.blocks|
             && AddBlock(a, size, granted, id).value
                == a.(blocks := a.blocks[..at] + [made] + a.blocks[at..], current := at,
                      blockCount := |a.blocks| + 1, capacity := a.capacity + made.capacity))
  {
    hide TotalCapacity, TotalUsed, TotalCount, DistinctIds;
  }

  lemma {:induction false} NothingGiven(a: Arena, granted: bool, id: nat)
    ensures Alloc(a, 0, granted, id).1 == None
  {
  }

  lemma {:induction false} CapacityBounded(a: Arena, i: nat)
    requires Inv(a) && i < |a.blocks|
    ensures a.blocks[i].capacity <= 0xFFFF_FFFF_FFFF_FFFF
  {
    var bs := a.blocks;
    assert bs == bs[..i] + [bs[i]] + bs[i + 1..];
    TotalsAppend(bs[..i] + [bs[i]], bs[i + 1..]);
    TotalsAppend(bs[..i], [bs[i]]);
    TotalsOne(bs[i]);
    hide TotalCapacity, TotalUsed, TotalCount, DistinctIds;
  }

  lemma {:induction false} BumpGives(a: Arena, size: nat)
    requires a.current < |a.blocks| && CanAllocate(a.blocks[a.current], size)
    ensures Bump(a, size).1 == Some(Address(a.blocks[a.current].id, AlignUp(a.blocks[a.current].used).value))
  {
  }

  lemma {:induction false} GivenHere(a: Arena, size: nat, granted: bool, id: nat)
    requires Inv(a) && size > 0 && a.current < |a.blocks| && CanAllocate(a.blocks[a.current], size)
    ensures Alloc(a, size, granted, id).1
         == Some(Address(a.blocks[a.current].id, AlignUp(a.blocks[a.current].used).value))
  {
    BumpGives(a, size);
    hide Bump, AlignUp, TotalCapacity, TotalUsed, TotalCount, DistinctIds, CanAllocate;
  }

  lemma {:induction false} GivenNext(a: Arena, size: nat, granted: bool, id: nat)
    requires Inv(a) && size > 0 && a.current + 1 < |a.blocks| && !CanAllocate(a.blocks[a.current], size)
    requires a.blocks[a.current + 1].used == 0 && size <= a.blocks[a.current + 1].capacity
    ensures Alloc(a, size, granted, id).1 == Some(Address(a.blocks[a.current + 1].id, 0))
  {
    var ready := a.(current := a.current + 1);
    assert CanAllocate(a.blocks[a.current + 1], size);
    BumpGives(ready, size);
    hide Bump, TotalCapacity, TotalUsed, TotalCount, DistinctIds, CanAllocate;
  }

  lemma {:induction false} GivenNew(a: Arena, size: nat, granted: bool, id: nat)
    requires Inv(a) && size > 0
    requires a.blocks != [] ==> !CanAllocate(a.blocks[a.current], size)
    requires a.current + 1 < |a.blocks| ==> !CanAllocate(a.blocks[a.current + 1], size)
    ensures Alloc(a, size, granted, id).1
         == if granted && |a.blocks| != 0xFFFF_FFFF_FFFF_FFFF && Needed(a.blockSize, size) + 80 <= 0xFFFF_FFFF_FFFF_FFFF
               && a.capacity + Needed(a.blockSize, size) <= 0xFFFF_FFFF_FFFF_FFFF then Some(Address(id, 0))
            else None
  {
    AddBlockAnswers(a, size, granted, id);
    hide TotalCapacity, TotalUsed, TotalCount, DistinctIds, CanAllocate, AddBlock;
    if AddBlock(a, size, granted, id).Some? {
      var ready := AddBlock(a, size, granted, id).value;
      BumpGives(ready, size);
      hide Bump;
      assert Alloc(a, size, granted, id).1 == Bump(ready, size).1;
    }
  }

  lemma {:induction false} AddBlockAnswers(a: Arena, size: nat, granted: bool, id: nat)
    requires Inv(a) && size > 0
    ensures AddBlock(a, size, granted, id).Some?
       <==> && granted && |a.blocks| != 0xFFFF_FFFF_FFFF_FFFF && Needed(a.blockSize, size) + 80 <= 0xFFFF_FFFF_FFFF_FFFF
            && a.capacity + Needed(a.blockSize, size) <= 0xFFFF_FFFF_FFFF_FFFF
    ensures AddBlock(a, size, granted, id).Some? ==>
              (var ready := AddBlock(a, size, granted, id).value;
               && ready.current < |ready.blocks| && ready.blocks[ready.current].id == id
               && ready.blocks[ready.current].used == 0 && CanAllocate(ready.blocks[ready.current], size))
  {
    hide TotalCapacity, TotalUsed, TotalCount, DistinctIds, IsOversized, Inserted;
    var at := if a.blocks == [] then 0 else a.current + 1;
    var b := Block(id, Needed(a.blockSize, size), 0, 0, IsOversized(a.blockSize, Needed(a.blockSize, size)));
    assert BlockCapacity(a.blockSize, size) == Needed(a.blockSize, size);
    InsertedElements(a.blocks, at, b);
  }

  // ---------- marks ----------

  /** Main result: which marks a restore takes and what it leaves. The generation must be the mark's
      and its block must still hold what it held; then the list ends at that block, set back, and
      the counters are the mark's. A mark of the empty arena empties it. */
  lemma {:induction false} RestoreGives(a: Arena, m: Mark, i: nat)
    requires Inv(a)
    ensures m.generation != a.generation ==> Restore(a, m) == None
    ensures m.block.Some? && (forall b :: b in a.blocks ==> b.id != m.block.value) ==> Restore(a, m) == None
    ensures m.generation == a.generation && m.block.None? ==>
              Restore(a, m) == if m.totalUsed == 0 && m.totalAllocations == 0
                               then Some(Arena([], 0, a.blockSize, 0, 0, 0, 0, a.generation)) else None
    ensures m.generation == a.generation && i < |a.blocks| && m.block == Some(a.blocks[i].id) ==>
              (var b := a.blocks[i];
               var kept := a.blocks[..i] + [Block(b.id, b.capacity, m.used, m.count, b.oversized)];
               Restore(a, m) == if m.used <= b.used && m.count <= b.count
                                then Some(Arena(kept, i, a.blockSize, i + 1, TotalCapacity(kept), m.totalUsed,
                                                m.totalAllocations, a.generation))
                                else None)
  {
    hide TotalCapacity, TotalUsed, TotalCount, IndexOf;
    if m.block.Some? && IndexOf(a.blocks, m.block.value).Some? {
      assert a.blocks[IndexOf(a.blocks, m.block.value).value] in a.blocks;
    }
  }

  // ---------- resets ----------

  /** The blocks of at most this capacity, emptied, in their order. */
  function Small(bs: seq<Block>, limit: nat): seq<Block> {
    if bs == [] then []
    else if bs[0].capacity <= limit then [Block(bs[0].id, bs[0].capacity, 0, 0, false)] + Small(bs[1..], limit)
    else Small(bs[1..], limit)
  }

  lemma {:induction false} SmallSnoc(bs: seq<Block>, b: Block, limit: nat)
    ensures Small(bs + [b], limit)
         == Small(bs, limit) + (if b.capacity <= limit then [Block(b.id, b.capacity, 0, 0, false)] else [])
  {
    if bs == [] {
      assert [b][1..] == [];
    } else {
      assert (bs + [b])[1..] == bs[1..] + [b];
      SmallSnoc(bs[1..], b, limit);
    }
  }

  /** Every block carries the flag of its capacity. */
  predicate FlagsFit(bs: seq<Block>, limit: nat) {
    forall i :: 0 <= i < |bs| ==> (bs[i].oversized <==> bs[i].capacity > limit)
  }

  lemma {:induction false} RetainedIsSmall(bs: seq<Block>, limit: nat)
    requires FlagsFit(bs, limit)
    ensures Retained(bs) == Small(bs, limit) && FlagsFit(Retained(bs), limit)
  {
    if bs != [] {
      var front, last := bs[..|bs| - 1], bs[|bs| - 1];
      RetainedIsSmall(front, limit);
      SmallSnoc(front, last, limit);
      assert bs == front + [last];
    }
  }

  lemma {:induction false} AddKeepsFlags(a: Arena, size: nat, granted: bool, id: nat)
    requires FlagsFit(a.blocks, 4 * a.blockSize) && AddBlock(a, size, granted, id).Some?
    ensures FlagsFit(AddBlock(a, size, granted, id).value.blocks, 4 * a.blockSize)
    ensures AddBlock(a, size, granted, id).value.blockSize == a.blockSize
  {
    var at := if a.blocks == [] then 0 else a.current + 1;
    var capacity := BlockCapacity(a.blockSize, size);
    InsertedElements(a.blocks, at, Block(id, capacity, 0, 0, IsOversized(a.blockSize, capacity)));
    hide Inserted;
  }

  lemma {:induction false} PrepareKeepsFlags(a: Arena, size: nat, granted: bool, id: nat)
    requires FlagsFit(a.blocks, 4 * a.blockSize) && Prepare(a, size, granted, id).Some?
    ensures FlagsFit(Prepare(a, size, granted, id).value.blocks, 4 * a.blockSize)
    ensures Prepare(a, size, granted, id).value.blockSize == a.blockSize
  {
    hide AddBlock, CanAllocate, FlagsFit;
    if AddBlock(a, size, granted, id).Some? {
      AddKeepsFlags(a, size, granted, id);
    }
  }

  lemma {:induction false} BumpKeepsFlags(a: Arena, size: nat, limit: nat)
    requires FlagsFit(a.blocks, limit)
    ensures FlagsFit(Bump(a, size).0.blocks, limit) && Bump(a, size).0.blockSize == a.blockSize
  {
    hide AlignUp;
  }

  lemma {:induction false} AllocKeepsFlags(a: Arena, size: nat, granted: bool, id: nat)
    requires FlagsFit(a.blocks, 4 * a.blockSize)
    ensures FlagsFit(Alloc(a, size, granted, id).0.blocks, 4 * a.blockSize)
    ensures Alloc(a, size, granted, id).0.blockSize == a.blockSize
  {
    hide Prepare, Bump, FlagsFit;
    if Prepare(a, size, granted, id).Some? {
      PrepareKeepsFlags(a, size, granted, id);
      BumpKeepsFlags(Prepare(a, size, granted, id).value, size, 4 * a.blockSize);
    }
  }

  lemma {:induction false} RestoreKeepsFlags(a: Arena, m: Mark, limit: nat)
    requires FlagsFit(a.blocks, limit) && Restore(a, m).Some?
    ensures FlagsFit(Restore(a, m).value.blocks, limit) && Restore(a, m).value.blockSize == a.blockSize
  {
    hide TotalCapacity, TotalUsed, TotalCount;
  }

  lemma {:induction false} GoKeepsFlags(t: Timeline, s: Step)
    requires FlagsFit(t.arena.blocks, 4 * t.arena.blockSize)
    ensures FlagsFit(Go(t, s).arena.blocks, 4 * Go(t, s).arena.blockSize)
    ensures Go(t, s).arena.blockSize == t.arena.blockSize
  {
    hide FlagsFit, Alloc, Restore, Retained, TakeMark, Small;
    match s
    case Request(size, granted) => AllocKeepsFlags(t.arena, size, granted, t.nextId);
    case GoBack(k) =>
      if k < |t.marks| && Restore(t.arena, t.marks[k].mark).Some? {
        RestoreKeepsFlags(t.arena, t.marks[k].mark, 4 * t.arena.blockSize);
      }
    case Discard => RetainedIsSmall(t.arena.blocks, 4 * t.arena.blockSize);
    case Remember =>
  }

  lemma {:induction false} RunKeepsFlags(t: Timeline, steps: seq<Step>)
    requires FlagsFit(t.arena.blocks, 4 * t.arena.blockSize)
    ensures FlagsFit(GoAll(t, steps).arena.blocks, 4 * t.arena.blockSize)
    ensures GoAll(t, steps).arena.blockSize == t.arena.blockSize
    decreases steps
  {
    hide Go;
    if steps != [] {
      GoKeepsFlags(t, steps[0]);
      RunKeepsFlags(Go(t, steps[0]), steps[1..]);
    }
  }

  /** Main result: after any run from an empty arena, a reset keeps exactly the blocks of at most
      four block sizes, in their order and emptied; the others go back to the system. */
  lemma {:induction false} ResetKeepsSmallBlocks(blockSize: nat, steps: seq<Step>)
    requires blockSize > 0
    ensures (var a := GoAll(Begin(blockSize), steps).arena;
             var r := Reset(a);
             && r.blocks == Small(a.blocks, 4 * blockSize) && r.current == 0
             && r.used == 0 && r.allocations == 0 && r.blockSize == blockSize)
  {
    RunKeepsFlags(Begin(blockSize), steps);
    var a := GoAll(Begin(blockSize), steps).arena;
    hide GoAll, Small, Retained;
    RetainedIsSmall(a.blocks, 4 * blockSize);
  }
}
