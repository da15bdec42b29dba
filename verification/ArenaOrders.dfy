/** Marks restored in any order: what the arena promises, by the time at which memory was handed
    out and marks were taken. */
module ArenaOrders {
  import opened ArenaModel
  import opened ArenaRuns
  import opened ArenaMarks

  /** Memory handed out at the time `since`, and a mark taken at the time `taken`. */
  datatype Handed = Handed(al: Allocation, since: nat)

  datatype Dated = Dated(mark: Mark, taken: nat)

  /** The arena, the memory live in it, and every mark taken so far. */
  datatype Timeline = Timeline(arena: Arena, live: set<Handed>, marks: seq<Dated>, nextId: nat, clock: nat)

  function Begin(blockSize: nat): Timeline {
    Timeline(Empty(blockSize), {}, [], 0, 0)
  }

  /** Restoring a mark discards what was handed out since it was taken; a reset discards all. */
  function Go(t: Timeline, s: Step): Timeline {
    match s
    case Request(size, granted) =>
      var r := Alloc(t.arena, size, granted, t.nextId);
      var live := if r.1.None? then t.live
                  else t.live + {Handed(Allocation(r.1.value.block, r.1.value.offset, size), t.clock)};
      t.(arena := r.0, live := live, nextId := t.nextId + 1, clock := t.clock + 1)
    case Remember => t.(marks := t.marks + [Dated(TakeMark(t.arena), t.clock)], clock := t.clock + 1)
    case GoBack(k) =>
      if k >= |t.marks| || Restore(t.arena, t.marks[k].mark).None? then t
      else t.(arena := Restore(t.arena, t.marks[k].mark).value, live := Before(t.live, t.marks[k].taken))
    case Discard => t.(arena := Reset(t.arena), live := {})
  }

  function Before(live: set<Handed>, taken: nat): set<Handed> {
    set h | h in live && h.since < taken
  }

  function GoAll(t: Timeline, steps: seq<Step>): Timeline
    decreases steps
  {
    if steps == [] then t else GoAll(Go(t, steps[0]), steps[1..])
  }

  // ---------- what holds at any time ----------

  /** Live memory is aligned, inside the used part of a block, and pairwise disjoint. */
  ghost predicate AllHeld(bs: seq<Block>, live: set<Handed>) {
    && (forall h :: h in live ==> h.al.size > 0 && h.al.offset % ALIGNMENT == 0 && Holds(bs, h.al))
    && (forall g, h :: g in live && h in live && g != h ==> Apart(g.al, h.al))
  }

  /** The allocation lies in front of the mark: in an earlier block, or below it in its own. */
  ghost predicate InFront(bs: seq<Block>, m: Mark, al: Allocation) {
    && m.block.Some?
    && forall i :: 0 <= i < |bs| && bs[i].id == m.block.value ==>
         if al.block == bs[i].id then al.offset + al.size <= m.used else HasId(bs[..i], al.block)
  }

  /** A mark of this generation has exact totals, and what was live before it lies in front of it. */
  ghost predicate MarkSound(t: Timeline, d: Dated) {
    && d.mark.generation <= t.arena.generation && d.taken < t.clock
    && (d.mark.block.Some? ==> d.mark.block.value < t.nextId)
    && Consistent(t.arena, d.mark)
    && (d.mark.generation == t.arena.generation ==>
          forall h :: h in t.live && h.since < d.taken ==> InFront(t.arena.blocks, d.mark, h.al))
  }

  ghost predicate Sound(t: Timeline) {
    && Inv(t.arena) && IdsBelow(t.arena.blocks, t.nextId)
    && AllHeld(t.arena.blocks, t.live)
    && (forall h :: h in t.live ==> h.since < t.clock)
    && (forall k :: 0 <= k < |t.marks| ==> MarkSound(t, t.marks[k]))
  }

  lemma {:induction false} BeginSound(blockSize: nat)
    requires blockSize > 0
    ensures Sound(Begin(blockSize))
  {
  }

  // ---------- allocation ----------

  lemma {:induction false} AllocHolds(a: Arena, size: nat, granted: bool, id: nat, al: Allocation)
    requires Inv(a) && FreshId(a, id) && Holds(a.blocks, al)
    ensures (var r := Alloc(a, size, granted, id);
             && Holds(r.0.blocks, al)
             && (r.1.Some? ==> Apart(al, Allocation(r.1.value.block, r.1.value.offset, size))))
  {
    hide Prepare, Bump, Inv, CanAllocate, Holds, Apart;
    if size > 0 && Prepare(a, size, granted, id).Some? {
      PrepareHolds(a, size, granted, id, al);
      PrepareKeepsInv(a, size, granted, id);
      BumpHolds(Prepare(a, size, granted, id).value, size, al);
    }
  }

  lemma {:induction false} AllocPlaces(a: Arena, size: nat, granted: bool, id: nat)
    requires Inv(a) && FreshId(a, id)
    ensures (var r := Alloc(a, size, granted, id);
             r.1.Some? ==> size > 0 && r.1.value.offset % ALIGNMENT == 0
                           && Holds(r.0.blocks, Allocation(r.1.value.block, r.1.value.offset, size)))
  {
    hide Prepare, Bump, Inv, CanAllocate;
    if size > 0 && Prepare(a, size, granted, id).Some? {
      PrepareKeepsInv(a, size, granted, id);
      var ready := Prepare(a, size, granted, id).value;
      BumpPlaces(ready, size);
      assert Bump(ready, size).0.blocks[ready.current].id == Bump(ready, size).1.value.block;
    }
  }

  lemma {:induction false} AllocInFront(a: Arena, size: nat, granted: bool, id: nat, m: Mark, al: Allocation)
    requires Inv(a) && IdsBelow(a.blocks, id) && Consistent(a, m) && m.generation == a.generation
    requires (m.block.Some? ==> m.block.value < id) && InFront(a.blocks, m, al)
    ensures InFront(Alloc(a, size, granted, id).0.blocks, m, al)
  {
    AllocFacts(a, size, granted, id);
    var b := Alloc(a, size, granted, id).0;
    hide Alloc, TotalUsed, TotalCount, TotalCapacity, Inv, DistinctIds, Grown;
    forall i | 0 <= i < |b.blocks| && b.blocks[i].id == m.block.value
      ensures if al.block == b.blocks[i].id then al.offset + al.size <= m.used else HasId(b.blocks[..i], al.block)
    {
      assert HasId(a.blocks, b.blocks[i].id);
      var j: nat :| j < |a.blocks| && a.blocks[j].id == b.blocks[i].id;
      SamePlace(a, b, i, j);
    }
  }

  lemma {:induction false} AllHeldAfterAlloc(a: Arena, size: nat, granted: bool, id: nat, live: set<Handed>, clock: nat)
    requires Inv(a) && FreshId(a, id) && AllHeld(a.blocks, live)
    requires forall h :: h in live ==> h.since < clock
    ensures (var r := Alloc(a, size, granted, id);
             AllHeld(r.0.blocks, if r.1.None? then live
                                 else live + {Handed(Allocation(r.1.value.block, r.1.value.offset, size), clock)}))
  {
    hide Alloc, Inv, Apart, Holds;
    var r := Alloc(a, size, granted, id);
    AllocPlaces(a, size, granted, id);
    forall h | h in live
      ensures Holds(r.0.blocks, h.al)
      ensures r.1.Some? ==> Apart(h.al, Allocation(r.1.value.block, r.1.value.offset, size))
      ensures r.1.Some? ==> Apart(Allocation(r.1.value.block, r.1.value.offset, size), h.al)
    {
      AllocHolds(a, size, granted, id, h.al);
      if r.1.Some? {
        ApartSymmetric(h.al, Allocation(r.1.value.block, r.1.value.offset, size));
      }
    }
  }

  lemma {:induction false} ApartSymmetric(x: Allocation, y: Allocation)
    ensures Apart(x, y) <==> Apart(y, x)
  {
  }

  /** A mark stays sound when memory is handed out. */
  lemma {:induction false} RequestMark(t: Timeline, size: nat, granted: bool, d: Dated)
    requires Sound(t) && MarkSound(t, d)
    requires Alloc(t.arena, size, granted, t.nextId).0.generation == t.arena.generation
    ensures MarkSound(Go(t, Request(size, granted)), d)
  {
    hide Inv, Alloc, Consistent, AllHeld, InFront;
    AllocConsistent(t.arena, size, granted, t.nextId, d.mark);
    if d.mark.generation == t.arena.generation {
      forall h | h in t.live && h.since < d.taken
        ensures InFront(Alloc(t.arena, size, granted, t.nextId).0.blocks, d.mark, h.al)
      {
        AllocInFront(t.arena, size, granted, t.nextId, d.mark, h.al);
      }
    }
  }

  lemma {:induction false} RequestSound(t: Timeline, size: nat, granted: bool)
    requires Sound(t)
    ensures Sound(Go(t, Request(size, granted)))
    ensures Go(t, Request(size, granted)).arena.generation == t.arena.generation
  {
    assert FreshId(t.arena, t.nextId);
    hide Inv, Alloc, Consistent, AllHeld, InFront, Grown, OldOrNew;
    AllocKeepsInv(t.arena, size, granted, t.nextId);
    AllocIdsBelow(t.arena, size, granted, t.nextId);
    AllocFacts(t.arena, size, granted, t.nextId);
    AllHeldAfterAlloc(t.arena, size, granted, t.nextId, t.live, t.clock);
    forall k | 0 <= k < |t.marks|
      ensures MarkSound(Go(t, Request(size, granted)), t.marks[k])
    {
      RequestMark(t, size, granted, t.marks[k]);
    }
    hide MarkSound;
  }

  // ---------- marks ----------

  /** Everything live lies in front of a mark taken now. */
  lemma {:induction false} TakenInFront(a: Arena, al: Allocation)
    requires Inv(a) && Holds(a.blocks, al) && al.size > 0
    ensures InFront(a.blocks, TakeMark(a), al)
  {
    hide TotalUsed, TotalCount, TotalCapacity;
    var j :| 0 <= j < |a.blocks| && a.blocks[j].id == al.block && al.offset + al.size <= a.blocks[j].used;
    assert j <= a.current;
    forall i | 0 <= i < |a.blocks| && a.blocks[i].id == a.blocks[a.current].id
      ensures al.block != a.blocks[i].id ==> HasId(a.blocks[..i], al.block)
    {
      assert i == a.current;
      if j < i {
        assert a.blocks[..i][j].id == al.block;
      }
    }
  }

  lemma {:induction false} RememberSound(t: Timeline)
    requires Sound(t)
    ensures Sound(Go(t, Remember))
  {
    var a, t' := t.arena, Go(t, Remember);
    var d := Dated(TakeMark(a), t.clock);
    TakenConsistent(a);
    assert TakeMark(a).generation == a.generation;
    assert TakeMark(a).block.Some? ==> TakeMark(a).block.value < t.nextId;
    forall h | h in t.live
      ensures InFront(a.blocks, TakeMark(a), h.al)
    {
      TakenInFront(a, h.al);
    }
    hide Consistent, Inv, TakeMark, AllHeld, InFront;
    assert MarkSound(t', d);
    assert forall k :: 0 <= k < |t.marks| ==> MarkSound(t, t.marks[k]) && MarkSound(t', t.marks[k]);
  }

  /** What lies in front of a restored mark is held as before. */
  lemma {:induction false} RestoreHolds(a: Arena, m: Mark, al: Allocation)
    requires Inv(a) && Restore(a, m).Some? && Holds(a.blocks, al) && InFront(a.blocks, m, al)
    ensures Holds(Restore(a, m).value.blocks, al)
  {
    RestoredBlocks(a, m);
    var b := Restore(a, m).value;
    var i := b.current;
    hide Restore, TotalUsed, TotalCount, TotalCapacity;
    if al.block == a.blocks[i].id {
      assert b.blocks[i].id == al.block;
    } else {
      var j :| 0 <= j < |a.blocks[..i]| && a.blocks[..i][j].id == al.block;
      var k :| 0 <= k < |a.blocks| && a.blocks[k].id == al.block && al.offset + al.size <= a.blocks[k].used;
      assert k == j;
      assert b.blocks[j] == b.blocks[..i][j] == a.blocks[j];
    }
  }

  lemma {:induction false} RestoreInFront(a: Arena, m: Mark, other: Mark, al: Allocation)
    requires Inv(a) && Restore(a, m).Some? && InFront(a.blocks, other, al)
    ensures InFront(Restore(a, m).value.blocks, other, al)
  {
    if m.block.Some? {
      RestoredBlocks(a, m);
      var b := Restore(a, m).value;
      hide Restore, TotalUsed, TotalCount, TotalCapacity, Inv;
      forall i | 0 <= i < |b.blocks| && b.blocks[i].id == other.block.value
        ensures if al.block == b.blocks[i].id then al.offset + al.size <= other.used else HasId(b.blocks[..i], al.block)
      {
        FrontSame(b.blocks, a.blocks, b.current, i);
      }
    }
  }

  lemma {:induction false} GoBackHeld(t: Timeline, k: nat)
    requires Sound(t) && k < |t.marks| && Restore(t.arena, t.marks[k].mark).Some?
    ensures AllHeld(Restore(t.arena, t.marks[k].mark).value.blocks, Before(t.live, t.marks[k].taken))
  {
    var d := t.marks[k];
    assert MarkSound(t, d);
    assert d.mark.generation == t.arena.generation;
    hide Inv, Consistent, InFront, Holds, Apart;
    forall h | h in Before(t.live, d.taken)
      ensures Holds(Restore(t.arena, d.mark).value.blocks, h.al)
    {
      RestoreHolds(t.arena, d.mark, h.al);
    }
    hide Restore;
  }

  /** A mark stays sound when another one is restored. */
  lemma {:induction false} GoBackMark(t: Timeline, k: nat, d: Dated)
    requires Sound(t) && k < |t.marks| && Restore(t.arena, t.marks[k].mark).Some? && MarkSound(t, d)
    requires Restore(t.arena, t.marks[k].mark).value.generation == t.arena.generation
    ensures MarkSound(Go(t, GoBack(k)), d)
  {
    hide Inv, Restore, Consistent, AllHeld, InFront;
    var m := t.marks[k].mark;
    assert MarkSound(t, t.marks[k]);
    RestoreConsistent(t.arena, m, d.mark);
    if d.mark.generation == t.arena.generation {
      forall h | h in t.live && h.since < d.taken
        ensures InFront(Restore(t.arena, m).value.blocks, d.mark, h.al)
      {
        RestoreInFront(t.arena, m, d.mark, h.al);
      }
    }
  }

  lemma {:induction false} RestoreGeneration(a: Arena, m: Mark)
    requires Restore(a, m).Some?
    ensures Restore(a, m).value.generation == a.generation
  {
    hide TotalUsed, TotalCount, TotalCapacity;
  }

  lemma {:induction false} GoBackSound(t: Timeline, k: nat)
    requires Sound(t)
    ensures Sound(Go(t, GoBack(k)))
    ensures Go(t, GoBack(k)).arena.generation == t.arena.generation
  {
    hide Inv, Restore, Consistent, AllHeld, InFront;
    if k < |t.marks| && Restore(t.arena, t.marks[k].mark).Some? {
      assert MarkSound(t, t.marks[k]);
      RestoreGeneration(t.arena, t.marks[k].mark);
      RestoreKeepsInv(t.arena, t.marks[k].mark);
      RestoreIds(t.arena, t.marks[k].mark, t.nextId);
      GoBackHeld(t, k);
      forall j | 0 <= j < |t.marks|
        ensures MarkSound(Go(t, GoBack(k)), t.marks[j])
      {
        GoBackMark(t, k, t.marks[j]);
      }
      hide MarkSound;
    }
  }

  lemma {:induction false} DiscardSound(t: Timeline)
    requires Sound(t) && t.arena.generation < SIZE_LIMIT
    ensures Sound(Go(t, Discard))
    ensures Go(t, Discard).arena.generation == t.arena.generation + 1
  {
    var t' := Go(t, Discard);
    ResetKeepsInv(t.arena);
    ResetIds(t.arena, t.nextId);
    hide Inv, Reset, InFront;
    assert forall k :: 0 <= k < |t.marks| ==> MarkSound(t, t.marks[k]) && MarkSound(t', t.marks[k]);
  }

  // ---------- main results ----------

  lemma {:induction false} GoSound(t: Timeline, s: Step)
    requires Sound(t) && (s.Discard? ==> t.arena.generation < SIZE_LIMIT)
    ensures Sound(Go(t, s))
    ensures Go(t, s).arena.generation == t.arena.generation + (if s.Discard? then 1 else 0)
  {
    hide Sound;
    match s
    case Request(size, granted) => RequestSound(t, size, granted);
    case Remember => RememberSound(t);
    case GoBack(k) => GoBackSound(t, k);
    case Discard => DiscardSound(t);
  }

  /** Main result: over any run, with marks restored in whatever order and as often as the caller
      likes, memory handed out and not discarded since stays aligned, inside its block, where it
      was handed out and apart from all other such memory. */
  lemma {:induction false} AnyOrderStaysSafe(t: Timeline, steps: seq<Step>)
    requires Sound(t) && t.arena.generation + Discards(steps) <= SIZE_LIMIT
    ensures Sound(GoAll(t, steps))
    decreases steps
  {
    hide Sound, Go;
    if steps != [] {
      GoSound(t, steps[0]);
      AnyOrderStaysSafe(Go(t, steps[0]), steps[1..]);
    }
  }

  /** Main result, from the start: the same for an arena that begins empty. */
  lemma {:induction false} RunsStaySafe(blockSize: nat, steps: seq<Step>)
    requires blockSize > 0 && Discards(steps) < SIZE_LIMIT
    ensures Sound(GoAll(Begin(blockSize), steps))
  {
    BeginSound(blockSize);
    hide Sound;
    AnyOrderStaysSafe(Begin(blockSize), steps);
  }

  /** Main result: memory that the next allocation can meet after a restore was handed out when or
      after the mark was taken, so the restore discards it. Only a caller that goes on using it,
      as it can after a mark was restored out of order, shares it with somebody else. */
  lemma {:induction false} CutIsDiscarded(t: Timeline, k: nat, h: Handed)
    requires Sound(t) && k < |t.marks| && Restore(t.arena, t.marks[k].mark).Some?
    requires h in t.live && Cuts(t.marks[k].mark, h.al)
    ensures h.since >= t.marks[k].taken && h !in Go(t, GoBack(k)).live
  {
    var m := t.marks[k].mark;
    assert MarkSound(t, t.marks[k]);
    RestoredBlocks(t.arena, m);
    AlignedUp(m.used);
    hide Inv, Consistent, AlignUp, TotalCapacity, TotalUsed, TotalCount;
    assert t.arena.blocks[Restore(t.arena, m).value.current].id == h.al.block;
  }
}
