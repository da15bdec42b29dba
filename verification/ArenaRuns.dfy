/** Whole runs of the arena: what is handed out stays aligned, in place and apart. */
module ArenaRuns {
  import opened ArenaModel

  /** Memory handed out and not yet given back. */
  datatype Allocation = Allocation(block: nat, offset: nat, size: nat)

  /** The arena, what is live in it, and the supply of block identities. */
  datatype Tracked = Tracked(arena: Arena, live: seq<Allocation>, nextId: nat)

  /** A caller's step. A scope takes a mark, runs its body and, when `restored`, restores the
      mark; nested scopes are nested marks. */
  datatype Cmd =
    | Allocate(size: nat, granted: bool)
    | Scope(body: seq<Cmd>, restored: bool)
    | StartOver

  function Start(blockSize: nat): Tracked {
    Tracked(Empty(blockSize), [], 0)
  }

  function Allocated(t: Tracked, size: nat, granted: bool): Tracked {
    var r := Alloc(t.arena, size, granted, t.nextId);
    Tracked(r.0,
            if r.1.Some? then t.live + [Allocation(r.1.value.block, r.1.value.offset, size)] else t.live,
            t.nextId + 1)
  }

  /** The end of a scope that began at `t` and whose body led to `u`. */
  function Closed(t: Tracked, u: Tracked): Tracked {
    match Restore(u.arena, TakeMark(t.arena))
    case None => u
    case Some(back) => Tracked(back, t.live, u.nextId)
  }

  function RunOne(t: Tracked, c: Cmd): Tracked
    decreases c, 0
  {
    match c
    case Allocate(size, granted) => Allocated(t, size, granted)
    case Scope(body, restored) =>
      var u := RunAll(t, body);
      if restored then Closed(t, u) else u
    case StartOver => Tracked(Reset(t.arena), [], t.nextId)
  }

  function RunAll(t: Tracked, cs: seq<Cmd>): Tracked
    decreases cs
  {
    if cs == [] then t else RunAll(RunOne(t, cs[0]), cs[1..])
  }

  /** How many resets a run makes. */
  function ResetsOf(c: Cmd): nat
    decreases c, 0
  {
    match c
    case Allocate(_, _) => 0
    case Scope(body, _) => Resets(body)
    case StartOver => 1
  }

  function Resets(cs: seq<Cmd>): nat
    decreases cs
  {
    if cs == [] then 0 else ResetsOf(cs[0]) + Resets(cs[1..])
  }

  /** No restored scope sees the 64-bit generation come all the way round inside it. */
  predicate DistinctGenerations(cs: seq<Cmd>)
    decreases cs
  {
    cs == [] || (GenerationsDifferIn(cs[0]) && DistinctGenerations(cs[1..]))
  }

  predicate GenerationsDifferIn(c: Cmd)
    decreases c, 0
  {
    c.Scope? ==> DistinctGenerations(c.body) && (c.restored ==> Resets(c.body) == 0 || Resets(c.body) % SIZE_LIMIT != 0)
  }

  // ---------- what holds of live memory ----------

  /** Some block holds the allocation in its used part. */
  ghost predicate Holds(bs: seq<Block>, al: Allocation) {
    exists i :: 0 <= i < |bs| && bs[i].id == al.block && al.offset + al.size <= bs[i].used
  }

  predicate Apart(x: Allocation, y: Allocation) {
    x.block != y.block || x.offset + x.size <= y.offset || y.offset + y.size <= x.offset
  }

  ghost predicate IdsBelow(bs: seq<Block>, bound: nat) {
    forall i :: 0 <= i < |bs| ==> bs[i].id < bound
  }

  ghost predicate LiveIn(bs: seq<Block>, live: seq<Allocation>) {
    && (forall k :: 0 <= k < |live| ==> live[k].size > 0 && live[k].offset % ALIGNMENT == 0 && Holds(bs, live[k]))
    && (forall j, k :: 0 <= j < k < |live| ==> Apart(live[j], live[k]))
  }

  /** Live allocations are aligned, inside the used part of a block of the arena, and pairwise
      disjoint; and the arena's own invariant holds. */
  ghost predicate Safe(t: Tracked) {
    Inv(t.arena) && IdsBelow(t.arena.blocks, t.nextId) && LiveIn(t.arena.blocks, t.live)
  }

  lemma {:induction false} StartSafe(blockSize: nat)
    requires blockSize > 0
    ensures Safe(Start(blockSize))
  {
  }

  // ---------- allocation ----------

  /** Preparing a block leaves every block's use alone. */
  lemma {:induction false} PrepareHolds(a: Arena, size: nat, granted: bool, id: nat, al: Allocation)
    requires Inv(a) && Prepare(a, size, granted, id).Some? && Holds(a.blocks, al)
    ensures Holds(Prepare(a, size, granted, id).value.blocks, al)
  {
    hide CanAllocate, DistinctIds, TotalCapacity, TotalUsed, TotalCount, IsOversized, BlockCapacity;
    var bs := Prepare(a, size, granted, id).value.blocks;
    if bs != a.blocks {
      var at := if a.blocks == [] then 0 else a.current + 1;
      var b := Block(id, BlockCapacity(a.blockSize, size), 0, 0,
                     IsOversized(a.blockSize, BlockCapacity(a.blockSize, size)));
      assert bs == Inserted(a.blocks, at, b);
      InsertedElements(a.blocks, at, b);
      hide Inserted;
      var i :| 0 <= i < |a.blocks| && a.blocks[i].id == al.block && al.offset + al.size <= a.blocks[i].used;
      var j := if i < at then i else i + 1;
      assert bs[j] == a.blocks[i];
    }
  }

  lemma {:induction false} PrepareIds(a: Arena, size: nat, granted: bool, id: nat)
    requires Inv(a) && IdsBelow(a.blocks, id) && Prepare(a, size, granted, id).Some?
    ensures IdsBelow(Prepare(a, size, granted, id).value.blocks, id + 1)
  {
    hide CanAllocate, DistinctIds, TotalCapacity, TotalUsed, TotalCount, IsOversized, BlockCapacity;
    var bs := Prepare(a, size, granted, id).value.blocks;
    if bs != a.blocks {
      var at := if a.blocks == [] then 0 else a.current + 1;
      var b := Block(id, BlockCapacity(a.blockSize, size), 0, 0,
                     IsOversized(a.blockSize, BlockCapacity(a.blockSize, size)));
      assert bs == Inserted(a.blocks, at, b);
      InsertedElements(a.blocks, at, b);
      hide Inserted;
    }
  }

  /** A bump hands out aligned memory behind everything in the block, and moves nothing. */
  lemma {:induction false} BumpPlaces(a: Arena, size: nat)
    requires Inv(a) && a.current < |a.blocks| && CanAllocate(a.blocks[a.current], size)
    ensures (var r := Bump(a, size);
             && r.1.Some? && r.1.value.offset % ALIGNMENT == 0 && r.1.value.block == a.blocks[a.current].id
             && a.blocks[a.current].used <= r.1.value.offset
             && |r.0.blocks| == |a.blocks|
             && (forall i :: 0 <= i < |a.blocks| && i != a.current ==> r.0.blocks[i] == a.blocks[i])
             && r.0.blocks[a.current].id == a.blocks[a.current].id
             && r.0.blocks[a.current].used == r.1.value.offset + size)
  {
    hide DistinctIds, TotalCapacity, TotalUsed, TotalCount;
    AlignedUp(a.blocks[a.current].used);
  }

  lemma {:induction false} BumpHolds(a: Arena, size: nat, al: Allocation)
    requires Inv(a) && a.current < |a.blocks| && CanAllocate(a.blocks[a.current], size) && Holds(a.blocks, al)
    ensures Bump(a, size).1.Some? && Holds(Bump(a, size).0.blocks, al)
    ensures Apart(al, Allocation(Bump(a, size).1.value.block, Bump(a, size).1.value.offset, size))
  {
    BumpPlaces(a, size);
    hide Bump, CanAllocate, TotalCapacity, TotalUsed, TotalCount;
    var i :| 0 <= i < |a.blocks| && a.blocks[i].id == al.block && al.offset + al.size <= a.blocks[i].used;
    var b := Bump(a, size).0.blocks[i];
    assert b.id == al.block && al.offset + al.size <= b.used;
    assert i != a.current ==> a.blocks[i].id != a.blocks[a.current].id;
  }

  /** A bump keeps what is live and adds what it hands out. */
  lemma {:induction false} BumpLive(a: Arena, size: nat, live: seq<Allocation>)
    requires Inv(a) && a.current < |a.blocks| && CanAllocate(a.blocks[a.current], size)
    requires size > 0 && LiveIn(a.blocks, live)
    ensures Bump(a, size).1.Some?
    ensures LiveIn(Bump(a, size).0.blocks,
                   live + [Allocation(Bump(a, size).1.value.block, Bump(a, size).1.value.offset, size)])
  {
    BumpPlaces(a, size);
    hide Bump, Inv, CanAllocate, Apart;
    var r := Bump(a, size);
    var handed := Allocation(r.1.value.block, r.1.value.offset, size);
    assert r.0.blocks[a.current].id == handed.block;
    assert Holds(r.0.blocks, handed);
    forall k | 0 <= k < |live|
      ensures Holds(r.0.blocks, live[k]) && Apart(live[k], handed)
    {
      BumpHolds(a, size, live[k]);
    }
    hide Holds;
  }

  lemma {:induction false} PrepareLive(a: Arena, size: nat, granted: bool, id: nat, live: seq<Allocation>)
    requires Inv(a) && Prepare(a, size, granted, id).Some? && LiveIn(a.blocks, live)
    ensures LiveIn(Prepare(a, size, granted, id).value.blocks, live)
  {
    hide Prepare, Inv, Holds, Apart;
    var bs := Prepare(a, size, granted, id).value.blocks;
    forall k | 0 <= k < |live|
      ensures Holds(bs, live[k])
    {
      PrepareHolds(a, size, granted, id, live[k]);
    }
  }

  lemma {:induction false} BumpIds(a: Arena, size: nat, bound: nat)
    requires Inv(a) && a.current < |a.blocks| && CanAllocate(a.blocks[a.current], size) && IdsBelow(a.blocks, bound)
    ensures IdsBelow(Bump(a, size).0.blocks, bound)
  {
    BumpPlaces(a, size);
    hide Bump, Inv, CanAllocate;
  }

  lemma {:induction false} AllocatedSafe(t: Tracked, size: nat, granted: bool)
    requires Safe(t)
    ensures Safe(Allocated(t, size, granted))
  {
    var a, id := t.arena, t.nextId;
    assert FreshId(a, id);
    AllocKeepsInv(a, size, granted, id);
    hide LiveIn, Inv;
    if size > 0 && Prepare(a, size, granted, id).Some? {
      var ready := Prepare(a, size, granted, id).value;
      PrepareKeepsInv(a, size, granted, id);
      PrepareIds(a, size, granted, id);
      PrepareLive(a, size, granted, id, t.live);
      BumpIds(ready, size, id + 1);
      BumpLive(ready, size, t.live);
      hide Bump, Prepare, CanAllocate;
    }
  }

  // ---------- scopes ----------

  /** Nothing live lies behind the current block, so cutting the list there loses nothing. */
  lemma {:induction false} TruncatedSafe(t: Tracked)
    requires Safe(t)
    ensures Safe(t.(arena := Truncated(t.arena)))
  {
    TruncatedKeepsInv(t.arena);
    hide TotalCapacity, TotalUsed, TotalCount, DistinctIds;
    var bs := Truncated(t.arena).blocks;
    forall k | 0 <= k < |t.live|
      ensures Holds(bs, t.live[k])
    {
      var i :| && 0 <= i < |t.arena.blocks| && t.arena.blocks[i].id == t.live[k].block
               && t.live[k].offset + t.live[k].size <= t.arena.blocks[i].used;
      assert bs[i] == t.arena.blocks[i];
    }
  }

  lemma {:induction false} GenerationAfterSum(g: nat, m: nat, n: nat)
    ensures GenerationAfter(GenerationAfter(g, m), n) == GenerationAfter(g, m + n)
  {
    if n > 0 {
      GenerationAfterSum(g, m, n - 1);
    }
  }

  /** What a stretch of a run leaves: everything safe, the generation counted on by the resets
      made, and, without a reset, the earlier blocks untouched and the earlier allocations live
      where they were. */
  ghost predicate Led(t: Tracked, u: Tracked, resets: nat) {
    && Safe(u)
    && t.nextId <= u.nextId
    && u.arena.generation == GenerationAfter(t.arena.generation, resets)
    && (resets == 0 ==> Grown(t.arena, u.arena) && t.live <= u.live)
  }

  lemma {:induction false} LedTrans(t: Tracked, u: Tracked, v: Tracked, m: nat, n: nat)
    requires Led(t, u, m) && Led(u, v, n)
    ensures Led(t, v, m + n)
  {
    GenerationAfterSum(t.arena.generation, m, n);
    hide GenerationAfter, Safe;
    if m + n == 0 {
      GrownTrans(t.arena, u.arena, v.arena);
      assert t.live <= u.live <= v.live;
    }
  }

  lemma {:induction false} ClosedLed(t: Tracked, u: Tracked, resets: nat)
    requires Safe(t) && Led(t, u, resets) && (resets == 0 || resets % SIZE_LIMIT != 0)
    ensures Led(t, Closed(t, u), resets)
    ensures resets == 0 ==> Closed(t, u) == Tracked(Truncated(t.arena), t.live, u.nextId)
    ensures resets != 0 ==> Closed(t, u) == u
  {
    if resets == 0 {
      RestoreUndoes(t.arena, u.arena);
      TruncatedSafe(t);
      TruncatedGrows(t.arena, t.arena);
    } else {
      StaleMarkRefused(u.arena, TakeMark(t.arena), resets);
    }
  }

  // ---------- main results ----------

  lemma {:induction false} OneSafe(t: Tracked, c: Cmd)
    requires Safe(t) && GenerationsDifferIn(c)
    ensures Led(t, RunOne(t, c), ResetsOf(c))
    decreases c, 0
  {
    match c
    case Allocate(size, granted) =>
      AllocatedSafe(t, size, granted);
      assert FreshId(t.arena, t.nextId);
      AllocGrows(t.arena, size, granted, t.nextId);
    case Scope(body, restored) =>
      RunSafe(t, body);
      if restored {
        ClosedLed(t, RunAll(t, body), Resets(body));
      }
    case StartOver =>
      ResetKeepsInv(t.arena);
      ResetIds(t.arena, t.nextId);
  }

  lemma {:induction false} ResetIds(a: Arena, bound: nat)
    requires Inv(a) && IdsBelow(a.blocks, bound)
    ensures IdsBelow(Reset(a).blocks, bound) && Reset(a).generation == GenerationAfter(a.generation, 1)
  {
    RetainedFrom(a.blocks);
    hide Retained;
    var kept := Reset(a).blocks;
    forall i | 0 <= i < |kept|
      ensures kept[i].id < bound
    {
      assert kept[i] in Retained(a.blocks);
      var c :| c in a.blocks && c.id == kept[i].id;
    }
  }

  /** Main result: over any run of allocations (which the system may refuse at any point),
      resets and properly nested marks and restores, live allocations stay aligned, inside the
      used part of their block, pairwise disjoint and where they were handed out, and the
      arena's counters stay the sums over its blocks. */
  lemma {:induction false} RunSafe(t: Tracked, cs: seq<Cmd>)
    requires Safe(t) && DistinctGenerations(cs)
    ensures Led(t, RunAll(t, cs), Resets(cs))
    decreases cs
  {
    if cs == [] {
      assert Grown(t.arena, t.arena);
    } else {
      var u := RunOne(t, cs[0]);
      OneSafe(t, cs[0]);
      RunSafe(u, cs[1..]);
      LedTrans(t, u, RunAll(u, cs[1..]), ResetsOf(cs[0]), Resets(cs[1..]));
    }
  }

  /** Main result, from the start: an arena that begins empty is safe after any such run. */
  lemma {:induction false} RunsStaySafe(blockSize: nat, cs: seq<Cmd>)
    requires blockSize > 0 && DistinctGenerations(cs)
    ensures Safe(RunAll(Start(blockSize), cs))
  {
    StartSafe(blockSize);
    hide Safe, Start;
    RunSafe(Start(blockSize), cs);
  }

  /** A restored scope without a reset leaves the arena exactly as it was at its mark, up to the
      marked block, whatever was allocated and however scopes were nested inside. */
  lemma {:induction false} ScopeLeavesNothing(t: Tracked, body: seq<Cmd>)
    requires Safe(t) && DistinctGenerations(body) && Resets(body) == 0
    ensures RunOne(t, Scope(body, true)).arena == Truncated(t.arena)
    ensures RunOne(t, Scope(body, true)).live == t.live
  {
    RunSafe(t, body);
    ClosedLed(t, RunAll(t, body), 0);
  }

  /** A restored scope with a reset inside is refused: what the body left stands. */
  lemma {:induction false} ResetOutdatesMarks(t: Tracked, body: seq<Cmd>)
    requires Safe(t) && DistinctGenerations(body) && Resets(body) % SIZE_LIMIT != 0
    ensures RunOne(t, Scope(body, true)) == RunOne(t, Scope(body, false))
  {
    hide Resets, Led, Safe, Closed, DistinctGenerations;
    RunSafe(t, body);
    ClosedLed(t, RunAll(t, body), Resets(body));
  }
}
