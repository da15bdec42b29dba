/** Marks restored in any order: the counters stay exact all the same. */
module ArenaMarks {
  import opened Texts
  import opened ArenaModel
  import opened ArenaRuns

  /** The arena with every mark ever taken from it. */
  datatype Held = Held(arena: Arena, marks: seq<Mark>, nextId: nat)

  /** A caller may restore any mark it has kept, whether or not marks were taken since. */
  datatype Step = Request(size: nat, granted: bool) | Remember | GoBack(k: nat) | Discard

  function Do(h: Held, s: Step): Held {
    match s
    case Request(size, granted) => h.(arena := Alloc(h.arena, size, granted, h.nextId).0, nextId := h.nextId + 1)
    case Remember => h.(marks := h.marks + [TakeMark(h.arena)])
    case GoBack(k) =>
      if k >= |h.marks| || Restore(h.arena, h.marks[k]).None? then h
      else h.(arena := Restore(h.arena, h.marks[k]).value)
    case Discard => h.(arena := Reset(h.arena))
  }

  function DoAll(h: Held, steps: seq<Step>): Held
    decreases steps
  {
    if steps == [] then h else DoAll(Do(h, steps[0]), steps[1..])
  }

  function Discards(steps: seq<Step>): nat {
    if steps == [] then 0 else (if steps[0].Discard? then 1 else 0) + Discards(steps[1..])
  }

  /** A mark of this generation whose block is still there lies at or in front of the current
      block, and its totals are the sums over the blocks in front of it plus its own. */
  ghost predicate Consistent(a: Arena, m: Mark) {
    m.generation == a.generation ==>
      if m.block.None? then m.totalUsed == m.totalAllocations == 0
      else
        forall i :: 0 <= i < |a.blocks| && a.blocks[i].id == m.block.value ==>
          && i <= a.current
          && m.totalUsed == TotalUsed(a.blocks[..i]) + m.used
          && m.totalAllocations == TotalCount(a.blocks[..i]) + m.count
  }

  ghost predicate MarkKnown(h: Held, m: Mark) {
    && m.generation <= h.arena.generation
    && (m.block.Some? ==> m.block.value < h.nextId)
    && Consistent(h.arena, m)
  }

  ghost predicate Exact(h: Held) {
    && Inv(h.arena)
    && IdsBelow(h.arena.blocks, h.nextId)
    && forall k :: 0 <= k < |h.marks| ==> MarkKnown(h, h.marks[k])
  }

  lemma {:induction false} TotalsUpTo(bs: seq<Block>, i: nat)
    requires i < |bs|
    ensures TotalUsed(bs[..i + 1]) == TotalUsed(bs[..i]) + bs[i].used
    ensures TotalCount(bs[..i + 1]) == TotalCount(bs[..i]) + bs[i].count
    ensures TotalCapacity(bs[..i + 1]) <= TotalCapacity(bs)
  {
    assert bs[..i + 1] == bs[..i] + [bs[i]];
    assert bs == bs[..i + 1] + bs[i + 1..];
    TotalsAppend(bs[..i], [bs[i]]);
    TotalsAppend(bs[..i + 1], bs[i + 1..]);
    TotalsOne(bs[i]);
  }

  /** A fresh mark's totals are exact. */
  lemma {:induction false} TakenConsistent(a: Arena)
    requires Inv(a)
    ensures Consistent(a, TakeMark(a))
  {
    hide TotalUsed, TotalCount, TotalCapacity;
    if a.blocks == [] {
      NoTotals();
    } else {
      var kept, rest := a.blocks[..a.current + 1], a.blocks[a.current + 1..];
      assert a.blocks == kept + rest;
      TotalsAppend(kept, rest);
      UnusedTotals(rest);
      TotalsUpTo(a.blocks, a.current);
    }
  }

  ghost predicate HasId(bs: seq<Block>, id: nat) {
    exists i :: 0 <= i < |bs| && bs[i].id == id
  }

  /** Every block of `after` was in `before`, or is the new one. */
  ghost predicate OldOrNew(before: seq<Block>, after: seq<Block>, id: nat) {
    forall i :: 0 <= i < |after| ==> after[i].id == id || HasId(before, after[i].id)
  }

  lemma {:induction false} PrepareOldOrNew(a: Arena, size: nat, granted: bool, id: nat)
    requires Inv(a) && Prepare(a, size, granted, id).Some?
    ensures OldOrNew(a.blocks, Prepare(a, size, granted, id).value.blocks, id)
  {
    hide CanAllocate, DistinctIds, TotalCapacity, TotalUsed, TotalCount, IsOversized, BlockCapacity;
    var bs := Prepare(a, size, granted, id).value.blocks;
    var at := if a.blocks == [] then 0 else a.current + 1;
    var b := Block(id, BlockCapacity(a.blockSize, size), 0, 0,
                   IsOversized(a.blockSize, BlockCapacity(a.blockSize, size)));
    assert bs == a.blocks || bs == Inserted(a.blocks, at, b);
    InsertedElements(a.blocks, at, b);
    hide Inserted, Prepare, Inv;
    forall i | 0 <= i < |bs|
      ensures bs[i].id == id || HasId(a.blocks, bs[i].id)
    {
      if bs == a.blocks {
        assert bs[i].id == a.blocks[i].id;
      } else if i < at {
        assert bs[i].id == a.blocks[i].id;
      } else if i > at {
        assert bs[i].id == a.blocks[i - 1].id;
      }
    }
  }

  lemma {:induction false} AllocOldOrNew(a: Arena, size: nat, granted: bool, id: nat)
    requires Inv(a) && FreshId(a, id)
    ensures OldOrNew(a.blocks, Alloc(a, size, granted, id).0.blocks, id)
  {
    if size > 0 && Prepare(a, size, granted, id).Some? {
      PrepareKeepsInv(a, size, granted, id);
      var ready := Prepare(a, size, granted, id).value;
      BumpPlaces(ready, size);
      PrepareOldOrNew(a, size, granted, id);
      hide Prepare, Bump, CanAllocate, Inv, HasId;
      var bs := Bump(ready, size).0.blocks;
      assert forall i :: 0 <= i < |bs| ==> bs[i].id == ready.blocks[i].id;
    } else {
      hide Prepare, Inv;
      assert forall i :: 0 <= i < |a.blocks| ==> HasId(a.blocks, a.blocks[i].id);
    }
  }

  /** A block at or in front of the old current one keeps its place and what lies in front of it. */
  lemma {:induction false} SamePlace(a: Arena, b: Arena, i: nat, j: nat)
    requires Grown(a, b) && a.current < |a.blocks| && DistinctIds(b.blocks)
    requires j <= a.current && i < |b.blocks| && b.blocks[i].id == a.blocks[j].id
    ensures i == j && b.blocks[..i] == a.blocks[..j]
  {
    assert b.blocks[..a.current][..j] == b.blocks[..j];
    assert a.blocks[..a.current][..j] == a.blocks[..j];
    if j < a.current {
      assert b.blocks[j] == b.blocks[..a.current][j] == a.blocks[j];
    }
  }

  lemma {:induction false} AllocFacts(a: Arena, size: nat, granted: bool, id: nat)
    requires Inv(a) && IdsBelow(a.blocks, id)
    ensures (var b := Alloc(a, size, granted, id).0;
             && Grown(a, b) && DistinctIds(b.blocks) && OldOrNew(a.blocks, b.blocks, id)
             && a.generation == b.generation
             && (a.blocks != [] ==> a.current < |a.blocks| && a.current <= b.current)
             && (a.blocks == [] ==> a.current == 0))
  {
    assert FreshId(a, id);
    AllocGrows(a, size, granted, id);
    AllocKeepsInv(a, size, granted, id);
    AllocOldOrNew(a, size, granted, id);
    hide Alloc, TotalUsed, TotalCount, TotalCapacity, DistinctIds, OldOrNew;
  }

  /** Position `i` has the same block in both lists, and the same blocks are in front of it. */
  ghost predicate SameFront(bs: seq<Block>, cs: seq<Block>, i: nat) {
    i < |bs| && i < |cs| && bs[i].id == cs[i].id && bs[..i] == cs[..i]
  }

  lemma {:induction false} MarkInFront(a: Arena, m: Mark, i: nat)
    requires Consistent(a, m) && m.generation == a.generation && i < |a.blocks| && m.block == Some(a.blocks[i].id)
    ensures i <= a.current
  {
  }

  lemma {:induction false} OtherGeneration(a: Arena, m: Mark)
    requires m.generation != a.generation
    ensures Consistent(a, m)
  {
  }

  /** The totals of a mark are those of what lies in front of its block. */
  lemma {:induction false} ConsistentAlong(a: Arena, b: Arena, m: Mark)
    requires Consistent(a, m) && b.generation == a.generation
    requires forall i :: 0 <= i < |b.blocks| && m.block == Some(b.blocks[i].id) ==>
               i <= b.current && SameFront(a.blocks, b.blocks, i)
    ensures Consistent(b, m)
  {
    hide TotalUsed, TotalCount;
    if m.generation == a.generation && m.block.Some? {
      forall i | 0 <= i < |b.blocks| && b.blocks[i].id == m.block.value
        ensures i <= b.current
        ensures m.totalUsed == TotalUsed(b.blocks[..i]) + m.used
        ensures m.totalAllocations == TotalCount(b.blocks[..i]) + m.count
      {
        assert SameFront(a.blocks, b.blocks, i);
        assert a.blocks[i].id == m.block.value;
      }
    }
  }

  /** Allocation leaves every mark's totals exact: it changes no block in front of the current one. */
  lemma {:induction false} AllocConsistent(a: Arena, size: nat, granted: bool, id: nat, m: Mark)
    requires Inv(a) && IdsBelow(a.blocks, id) && Consistent(a, m) && (m.block.Some? ==> m.block.value < id)
    ensures Consistent(Alloc(a, size, granted, id).0, m)
  {
    AllocFacts(a, size, granted, id);
    var b := Alloc(a, size, granted, id).0;
    hide Alloc, Inv, DistinctIds, Grown, Consistent;
    if m.generation == a.generation {
      forall i | 0 <= i < |b.blocks| && m.block == Some(b.blocks[i].id)
        ensures i <= b.current && SameFront(a.blocks, b.blocks, i)
      {
        assert HasId(a.blocks, b.blocks[i].id);
        var j: nat :| j < |a.blocks| && a.blocks[j].id == b.blocks[i].id;
        MarkInFront(a, m, j);
        SamePlace(a, b, i, j);
      }
      ConsistentAlong(a, b, m);
    } else {
      OtherGeneration(b, m);
    }
  }

  /** What a restore leaves of the block list. */
  lemma {:induction false} RestoredBlocks(a: Arena, m: Mark)
    requires Inv(a) && Restore(a, m).Some? && m.block.Some?
    ensures (var a' := Restore(a, m).value;
             && a'.current < |a.blocks| && |a'.blocks| == a'.current + 1
             && a'.blocks[..a'.current] == a.blocks[..a'.current]
             && a.blocks[a'.current].id == m.block.value
             && a'.blocks[a'.current] == a.blocks[a'.current].(used := m.used, count := m.count)
             && m.used <= a.blocks[a'.current].used && m.count <= a.blocks[a'.current].count
             && a'.used == m.totalUsed && a'.allocations == m.totalAllocations
             && a'.capacity == TotalCapacity(a'.blocks) && a'.blockCount == |a'.blocks|
             && a'.generation == a.generation && a'.blockSize == a.blockSize)
  {
    hide TotalCapacity, TotalUsed, TotalCount, DistinctIds;
  }

  /** Restoring any mark with exact totals keeps the invariant: nesting is not needed for that. */
  lemma {:induction false} RestoreKeepsInv(a: Arena, m: Mark)
    requires Inv(a) && Consistent(a, m) && Restore(a, m).Some?
    ensures Inv(Restore(a, m).value)
  {
    if m.block.None? {
      NoTotals();
    } else {
      RestoredBlocks(a, m);
      RestoredTotals(a, m);
      var a' := Restore(a, m).value;
      hide Restore, TotalCapacity, TotalUsed, TotalCount, Consistent;
      assert forall j :: 0 <= j < a'.current ==> a'.blocks[j] == a'.blocks[..a'.current][j] == a.blocks[j];
    }
  }

  /** The totals of a block list cut behind position `i`, where `b` takes the place of its block. */
  lemma {:induction false} CutTotals(bs: seq<Block>, i: nat, b: Block)
    requires i < |bs| && b.capacity == bs[i].capacity
    ensures TotalUsed(bs[..i] + [b]) == TotalUsed(bs[..i]) + b.used
    ensures TotalCount(bs[..i] + [b]) == TotalCount(bs[..i]) + b.count
    ensures TotalCapacity(bs[..i] + [b]) <= TotalCapacity(bs)
  {
    hide TotalCapacity, TotalUsed, TotalCount;
    TotalsAppend(bs[..i], [b]);
    TotalsOne(b);
    assert bs == bs[..i] + [bs[i]] + bs[i + 1..];
    TotalsAppend(bs[..i] + [bs[i]], bs[i + 1..]);
    TotalsAppend(bs[..i], [bs[i]]);
    TotalsOne(bs[i]);
  }

  lemma {:induction false} RestoredTotals(a: Arena, m: Mark)
    requires Inv(a) && Consistent(a, m) && Restore(a, m).Some? && m.block.Some?
    ensures (var bs := Restore(a, m).value.blocks;
             TotalUsed(bs) == m.totalUsed && TotalCount(bs) == m.totalAllocations
               && TotalCapacity(bs) <= TotalCapacity(a.blocks))
  {
    RestoredBlocks(a, m);
    assert m.generation == a.generation;
    hide Restore, TotalCapacity, TotalUsed, TotalCount, Inv;
    var bs, i := Restore(a, m).value.blocks, Restore(a, m).value.current;
    assert m.totalUsed == TotalUsed(a.blocks[..i]) + m.used;
    hide Consistent;
    CutTotals(a.blocks, i, bs[i]);
    assert bs == a.blocks[..i] + [bs[i]];
  }

  /** Restoring one mark leaves the totals of the others exact. */
  lemma {:induction false} RestoreConsistent(a: Arena, m: Mark, other: Mark)
    requires Inv(a) && Restore(a, m).Some? && Consistent(a, other)
    ensures Consistent(Restore(a, m).value, other)
  {
    if m.block.Some? {
      RestoredBlocks(a, m);
      var a' := Restore(a, m).value;
      hide Restore, Inv, Consistent;
      forall i | 0 <= i < |a'.blocks| && other.block == Some(a'.blocks[i].id)
        ensures i <= a'.current && SameFront(a.blocks, a'.blocks, i)
      {
        FrontSame(a'.blocks, a.blocks, a'.current, i);
      }
      ConsistentAlong(a, a', other);
    }
  }

  lemma {:induction false} FrontSame(bs: seq<Block>, cs: seq<Block>, n: nat, i: nat)
    requires i <= n < |bs| && n < |cs| && bs[..n] == cs[..n] && bs[n].id == cs[n].id
    ensures bs[..i] == cs[..i] && bs[i].id == cs[i].id
  {
    assert bs[..i] == bs[..n][..i] && cs[..i] == cs[..n][..i];
    if i < n {
      assert bs[i] == bs[..n][i] == cs[..n][i] == cs[i];
    }
  }

  lemma {:induction false} RestoreIds(a: Arena, m: Mark, bound: nat)
    requires Inv(a) && Restore(a, m).Some? && IdsBelow(a.blocks, bound)
    ensures IdsBelow(Restore(a, m).value.blocks, bound)
  {
    if m.block.Some? {
      RestoredBlocks(a, m);
      var a' := Restore(a, m).value;
      hide Restore, Inv;
      assert forall j :: 0 <= j < a'.current ==> a'.blocks[j] == a'.blocks[..a'.current][j] == a.blocks[j];
    }
  }

  lemma {:induction false} AllocIdsBelow(a: Arena, size: nat, granted: bool, id: nat)
    requires Inv(a) && IdsBelow(a.blocks, id)
    ensures IdsBelow(Alloc(a, size, granted, id).0.blocks, id + 1)
  {
    assert FreshId(a, id);
    AllocOldOrNew(a, size, granted, id);
    hide Alloc, Inv;
    var bs := Alloc(a, size, granted, id).0.blocks;
    forall i | 0 <= i < |bs|
      ensures bs[i].id < id + 1
    {
      if bs[i].id != id {
        assert HasId(a.blocks, bs[i].id);
      }
    }
  }

  lemma {:induction false} RequestExact(h: Held, size: nat, granted: bool)
    requires Exact(h)
    ensures Exact(Do(h, Request(size, granted)))
    ensures Do(h, Request(size, granted)).arena.generation == h.arena.generation
  {
    var a, h' := h.arena, Do(h, Request(size, granted));
    assert FreshId(a, h.nextId);
    AllocKeepsInv(a, size, granted, h.nextId);
    AllocIdsBelow(a, size, granted, h.nextId);
    AllocGrows(a, size, granted, h.nextId);
    hide Inv, Alloc, Consistent;
    forall k | 0 <= k < |h.marks|
      ensures MarkKnown(h', h.marks[k])
    {
      AllocConsistent(a, size, granted, h.nextId, h.marks[k]);
    }
  }

  lemma {:induction false} GoBackExact(h: Held, k: nat)
    requires Exact(h)
    ensures Exact(Do(h, GoBack(k)))
    ensures Do(h, GoBack(k)).arena.generation == h.arena.generation
  {
    var a, h' := h.arena, Do(h, GoBack(k));
    if k < |h.marks| && Restore(a, h.marks[k]).Some? {
      RestoreKeepsInv(a, h.marks[k]);
      RestoreIds(a, h.marks[k], h.nextId);
      hide Inv, Consistent;
      forall j | 0 <= j < |h.marks|
        ensures MarkKnown(h', h.marks[j])
      {
        RestoreConsistent(a, h.marks[k], h.marks[j]);
      }
    }
  }

  lemma {:induction false} RememberExact(h: Held)
    requires Exact(h)
    ensures Exact(Do(h, Remember))
  {
    var a, h' := h.arena, Do(h, Remember);
    TakenConsistent(a);
    assert TakeMark(a).generation == a.generation;
    assert TakeMark(a).block.Some? ==> TakeMark(a).block.value < h.nextId;
    hide Consistent, Inv, TakeMark;
    assert MarkKnown(h', TakeMark(a));
    assert forall k :: 0 <= k < |h.marks| ==> MarkKnown(h, h.marks[k]) && MarkKnown(h', h.marks[k]);
  }

  lemma {:induction false} DiscardExact(h: Held)
    requires Exact(h) && h.arena.generation < SIZE_LIMIT
    ensures Exact(Do(h, Discard))
    ensures Do(h, Discard).arena.generation == h.arena.generation + 1
  {
    var h' := Do(h, Discard);
    ResetKeepsInv(h.arena);
    ResetIds(h.arena, h.nextId);
    assert h'.arena.generation == h.arena.generation + 1;
    hide Inv, Reset;
    assert forall k :: 0 <= k < |h.marks| ==> MarkKnown(h, h.marks[k]) && MarkKnown(h', h.marks[k]);
  }

  lemma {:induction false} DoExact(h: Held, s: Step)
    requires Exact(h) && (s.Discard? ==> h.arena.generation < SIZE_LIMIT)
    ensures Exact(Do(h, s))
    ensures Do(h, s).arena.generation == h.arena.generation + (if s.Discard? then 1 else 0)
  {
    hide Exact;
    match s
    case Request(size, granted) => RequestExact(h, size, granted);
    case Remember => RememberExact(h);
    case GoBack(k) => GoBackExact(h, k);
    case Discard => DiscardExact(h);
  }

  /** Main result: over any run, with marks restored in whatever order, the counters are the sums
      over the block list and the blocks behind the current one are empty. */
  lemma {:induction false} AnyOrderStaysExact(h: Held, steps: seq<Step>)
    requires Exact(h) && h.arena.generation + Discards(steps) <= SIZE_LIMIT
    ensures Exact(DoAll(h, steps))
    decreases steps
  {
    hide Exact, Do;
    if steps != [] {
      DoExact(h, steps[0]);
      AnyOrderStaysExact(Do(h, steps[0]), steps[1..]);
    }
  }

  /** An arena that begins empty has exact counters after any such run. */
  lemma {:induction false} RunsStayExact(blockSize: nat, steps: seq<Step>)
    requires blockSize > 0 && Discards(steps) < SIZE_LIMIT
    ensures Exact(DoAll(Held(Empty(blockSize), [], 0), steps))
  {
    NoTotals();
    AnyOrderStaysExact(Held(Empty(blockSize), [], 0), steps);
  }

  /** An arena of one 64-byte block, `used` bytes of it in `count` allocations. */
  function OneBlock(used: nat, count: nat): Arena {
    Arena([Block(0, 64, used, count, false)], 0, 64, 1, 64, used, count, 1)
  }

  lemma {:induction false} OneBlockAlloc(used: nat, count: nat, size: nat, granted: bool, id: nat)
    requires used % ALIGNMENT == 0 && 0 < size && used + size <= 64
    ensures Alloc(OneBlock(used, count), size, granted, id)
         == (OneBlock(used + size, count + 1), Some(Address(0, used)))
  {
    var b := Block(0, 64, used, count, false);
    assert [b][0 := b.(used := used + size, count := count + 1)] == [b.(used := used + size, count := count + 1)];
  }

  lemma {:induction false} OneBlockRestore(used: nat, count: nat, m: Mark)
    requires m == Mark(Some(0), m.used, m.count, m.used, m.count, 1) && m.used <= used && m.count <= count
    ensures Restore(OneBlock(used, count), m) == Some(OneBlock(m.used, m.count))
  {
    var bs := OneBlock(used, count).blocks;
    assert IndexOf(bs, 0) == Some(0);
    var kept := bs[..0] + [bs[0].(used := m.used, count := m.count)];
    assert kept == OneBlock(m.used, m.count).blocks;
    TotalsOne(kept[0]);
  }

  // ---------- what the next allocation meets ----------

  /** The memory that the next allocation of `size` bytes is given after the restore. */
  function NextAfter(a: Arena, m: Mark, size: nat, granted: bool, id: nat): Option<Address>
    requires Restore(a, m).Some?
  {
    Alloc(Restore(a, m).value, size, granted, id).1
  }

  /** The marked block has room for `size` bytes behind the mark. */
  predicate FitsBehind(a: Arena, m: Mark, size: nat)
    requires Restore(a, m).Some?
  {
    var back := Restore(a, m).value;
    size > 0 && back.current < |back.blocks| && CanAllocate(back.blocks[back.current], size)
  }

  /** The next allocation shares memory with `al`. */
  predicate Meets(a: Arena, m: Mark, al: Allocation, size: nat, granted: bool, id: nat)
    requires Restore(a, m).Some?
  {
    var next := NextAfter(a, m, size, granted, id);
    next.Some? && !Apart(al, Allocation(next.value.block, next.value.offset, size))
  }

  /** The allocation lies in the marked block and reaches behind the aligned mark. */
  predicate Cuts(m: Mark, al: Allocation) {
    && m.block == Some(al.block)
    && AlignUp(m.used).Some? && AlignUp(m.used).value < al.offset + al.size
  }

  lemma {:induction false} FittingAllocationMeets(a: Arena, m: Mark, al: Allocation, size: nat, granted: bool, id: nat)
    requires Inv(a) && m.block.Some? && Restore(a, m).Some? && FitsBehind(a, m, size)
    ensures Meets(a, m, al, size, granted, id) <==> Cuts(m, al) && al.offset < AlignUp(m.used).value + size
  {
    RestoredBlocks(a, m);
    hide Restore, Inv, AlignUp;
  }

  /** An allocation that does not fit goes to a block of its own. */
  lemma {:induction false} OtherwiseNewBlock(a: Arena, m: Mark, size: nat, granted: bool, id: nat)
    requires Inv(a) && Restore(a, m).Some? && !FitsBehind(a, m, size)
    ensures NextAfter(a, m, size, granted, id).Some? ==> NextAfter(a, m, size, granted, id).value.block == id
  {
    if m.block.Some? {
      RestoredBlocks(a, m);
    }
    var back := Restore(a, m).value;
    assert back.blocks == [] || |back.blocks| == back.current + 1;
    hide Restore, Inv, AlignUp, BlockCapacity, IsOversized;
  }

  /** Main result: after a restore, nested or not, the next allocation shares memory with an
      earlier one exactly when it fits the marked block and the earlier one lies there, reaches
      behind the aligned mark and starts before the new one ends. */
  lemma {:induction false} NextAllocationMeets(a: Arena, m: Mark, al: Allocation, size: nat, granted: bool, id: nat)
    requires Inv(a) && Restore(a, m).Some? && al.block != id
    ensures Meets(a, m, al, size, granted, id)
       <==> FitsBehind(a, m, size) && Cuts(m, al) && al.offset < AlignUp(m.used).value + size
  {
    hide Inv, NextAfter, AlignUp;
    if FitsBehind(a, m, size) {
      FittingAllocationMeets(a, m, al, size, granted, id);
    } else {
      OtherwiseNewBlock(a, m, size, granted, id);
    }
  }

  /** Main result: some next allocation meets it exactly when it reaches behind the aligned mark
      in the marked block. */
  lemma {:induction false} CutsIffMet(a: Arena, m: Mark, al: Allocation, granted: bool, id: nat)
    requires Inv(a) && Restore(a, m).Some? && Holds(a.blocks, al) && al.size > 0 && al.block != id
    ensures Cuts(m, al) <==> exists size: nat :: Meets(a, m, al, size, granted, id)
  {
    hide Inv, Restore, AlignUp, NextAfter, Apart, Holds, Meets;
    forall size: nat
      ensures Meets(a, m, al, size, granted, id) ==> Cuts(m, al)
    {
      NextAllocationMeets(a, m, al, size, granted, id);
    }
    if Cuts(m, al) {
      var size := al.offset + al.size - AlignUp(m.used).value;
      CutFits(a, m, al);
      NextAllocationMeets(a, m, al, size, granted, id);
      assert Meets(a, m, al, size, granted, id);
    }
  }

  lemma {:induction false} CutFits(a: Arena, m: Mark, al: Allocation)
    requires Inv(a) && m.block.Some? && Restore(a, m).Some? && Holds(a.blocks, al) && Cuts(m, al)
    ensures FitsBehind(a, m, al.offset + al.size - AlignUp(m.used).value)
  {
    RestoredBlocks(a, m);
    var i :| 0 <= i < |a.blocks| && a.blocks[i].id == al.block && al.offset + al.size <= a.blocks[i].used;
    assert i == Restore(a, m).value.current;
    hide Restore, AlignUp;
  }

  /** In the smallest instance: two marks are taken, 16 bytes apart, and the older one is
      restored; 32 bytes are handed out at offset 16, after the younger mark was taken. Restoring
      that one is accepted, and the next 16 bytes lie inside the 32. */
  lemma {:induction false} UnnestedMarksOverlap()
    ensures (var older, younger := TakeMark(OneBlock(16, 1)), TakeMark(OneBlock(32, 2));
             && Alloc(OneBlock(16, 1), 16, true, 1).0 == OneBlock(32, 2)
             && Restore(OneBlock(32, 2), older) == Some(OneBlock(16, 1))
             && Alloc(OneBlock(16, 1), 32, true, 1) == (OneBlock(48, 2), Some(Address(0, 16)))
             && Restore(OneBlock(48, 2), younger) == Some(OneBlock(32, 2))
             && Alloc(OneBlock(32, 2), 16, true, 1).1 == Some(Address(0, 32))
             && Meets(OneBlock(48, 2), younger, Allocation(0, 16, 32), 16, true, 1))
  {
    OneBlockAlloc(16, 1, 16, true, 1);
    OneBlockAlloc(16, 1, 32, true, 1);
    OneBlockAlloc(32, 2, 16, true, 1);
    OneBlockRestore(32, 2, TakeMark(OneBlock(16, 1)));
    OneBlockRestore(48, 2, TakeMark(OneBlock(32, 2)));
    hide Alloc, Restore;
  }
}
