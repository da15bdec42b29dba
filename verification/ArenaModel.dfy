/** The arena of src/memory/arena.c as a value: a list of blocks, a bump position, marks. */
module ArenaModel {
  import opened Texts

  const ALIGNMENT: nat := 16
  const SIZE_LIMIT: nat := 0xFFFF_FFFF_FFFF_FFFF
  const HEADER_SIZE: nat := 80

  /** `id` tells blocks apart for ever; addresses are offsets in a block. */
  datatype Block = Block(id: nat, capacity: nat, used: nat, count: nat, oversized: bool)

  /** `current` is an index into the blocks; it is 0 while there are none. */
  datatype Arena = Arena(
    blocks: seq<Block>,
    current: nat,
    blockSize: nat,
    blockCount: nat,
    capacity: nat,
    used: nat,
    allocations: nat,
    generation: nat)

  datatype Address = Address(block: nat, offset: nat)

  datatype Mark = Mark(block: Option<nat>, used: nat, count: nat, totalUsed: nat, totalAllocations: nat,
                       generation: nat)

  function Empty(blockSize: nat): Arena {
    Arena([], 0, blockSize, 0, 0, 0, 0, 1)
  }

  // ---------- sums ----------

  function TotalCapacity(bs: seq<Block>): nat {
    if bs == [] then 0 else TotalCapacity(bs[..|bs| - 1]) + bs[|bs| - 1].capacity
  }

  function TotalUsed(bs: seq<Block>): nat {
    if bs == [] then 0 else TotalUsed(bs[..|bs| - 1]) + bs[|bs| - 1].used
  }

  function TotalCount(bs: seq<Block>): nat {
    if bs == [] then 0 else TotalCount(bs[..|bs| - 1]) + bs[|bs| - 1].count
  }

  lemma {:induction false} TotalsAppend(a: seq<Block>, b: seq<Block>)
    ensures TotalCapacity(a + b) == TotalCapacity(a) + TotalCapacity(b)
    ensures TotalUsed(a + b) == TotalUsed(a) + TotalUsed(b)
    ensures TotalCount(a + b) == TotalCount(a) + TotalCount(b)
  {
    if b == [] {
      assert a + b == a;
    } else {
      assert (a + b)[..|a + b| - 1] == a + b[..|b| - 1];
      TotalsAppend(a, b[..|b| - 1]);
    }
  }

  lemma {:induction false} NoTotals()
    ensures TotalCapacity([]) == TotalUsed([]) == TotalCount([]) == 0
  {
  }

  lemma {:induction false} TotalsOne(b: Block)
    ensures TotalCapacity([b]) == b.capacity && TotalUsed([b]) == b.used && TotalCount([b]) == b.count
  {
    assert [b][..0] == [];
  }

  /** Exchanging one block changes the totals by the difference. */
  lemma {:induction false} TotalsUpdate(bs: seq<Block>, i: nat, b: Block)
    requires i < |bs|
    ensures TotalCapacity(bs[i := b]) == TotalCapacity(bs) - bs[i].capacity + b.capacity
    ensures TotalUsed(bs[i := b]) == TotalUsed(bs) - bs[i].used + b.used
    ensures TotalCount(bs[i := b]) == TotalCount(bs) - bs[i].count + b.count
    ensures bs[i].capacity <= TotalCapacity(bs) && bs[i].used <= TotalUsed(bs) && bs[i].count <= TotalCount(bs)
  {
    assert bs == bs[..i] + [bs[i]] + bs[i + 1..];
    assert bs[i := b] == bs[..i] + [b] + bs[i + 1..];
    TotalsAppend(bs[..i], [bs[i]]);
    TotalsAppend(bs[..i] + [bs[i]], bs[i + 1..]);
    TotalsAppend(bs[..i], [b]);
    TotalsAppend(bs[..i] + [b], bs[i + 1..]);
    TotalsOne(b);
    TotalsOne(bs[i]);
  }

  lemma {:induction false} UnusedTotals(bs: seq<Block>)
    requires forall i :: 0 <= i < |bs| ==> bs[i].used == 0 && bs[i].count == 0
    ensures TotalUsed(bs) == 0 && TotalCount(bs) == 0
  {
    if bs != [] {
      UnusedTotals(bs[..|bs| - 1]);
    }
  }

  // ---------- allocation ----------

  /** arena_align_up. */
  function AlignUp(value: nat): Option<nat> {
    var remainder := value % ALIGNMENT;
    if remainder == 0 then Some(value)
    else if value > SIZE_LIMIT - (ALIGNMENT - remainder) then None
    else Some(value + (ALIGNMENT - remainder))
  }

  /** arena_block_can_allocate. */
  predicate HasRoom(used: nat, capacity: nat, size: nat) {
    AlignUp(used).Some? && AlignUp(used).value <= capacity && size <= capacity - AlignUp(used).value
  }

  predicate CanAllocate(b: Block, size: nat) {
    HasRoom(b.used, b.capacity, size)
  }

  /** arena_capacity_is_oversized. */
  predicate IsOversized(blockSize: nat, capacity: nat) {
    blockSize <= SIZE_LIMIT / 4 && capacity > blockSize * 4
  }

  /** What arena_add_block asks of the system for `size` bytes. */
  function BlockCapacity(blockSize: nat, size: nat): nat {
    if blockSize < size + (ALIGNMENT - 1) then size + (ALIGNMENT - 1) else blockSize
  }

  /** `s` with `x` linked in at `at`. */
  function Inserted<T>(s: seq<T>, at: nat, x: T): seq<T>
    requires at <= |s|
  {
    s[..at] + [x] + s[at..]
  }

  /** arena_add_block: a new block behind the current one; `granted` says whether the system has
      the memory, and `id` is the new block's. */
  function AddBlock(a: Arena, size: nat, granted: bool, id: nat): Option<Arena> {
    var capacity := BlockCapacity(a.blockSize, size);
    if size > SIZE_LIMIT - (ALIGNMENT - 1) then None
    else if a.blockCount == SIZE_LIMIT || a.capacity > SIZE_LIMIT - capacity then None
    else if capacity > SIZE_LIMIT - HEADER_SIZE || !granted then None
    else
      var at := if a.blocks == [] then 0 else a.current + 1;
      if at > |a.blocks| then None
      else
        var b := Block(id, capacity, 0, 0, IsOversized(a.blockSize, capacity));
        Some(a.(blocks := Inserted(a.blocks, at, b), current := at,
                blockCount := a.blockCount + 1, capacity := a.capacity + capacity))
  }

  /** The arena once its current block is the one to allocate from. */
  function Prepare(a: Arena, size: nat, granted: bool, id: nat): Option<Arena> {
    if a.current < |a.blocks| && CanAllocate(a.blocks[a.current], size) then Some(a)
    else if a.current < |a.blocks| && a.current + 1 < |a.blocks| && CanAllocate(a.blocks[a.current + 1], size) then
      Some(a.(current := a.current + 1))
    else AddBlock(a, size, granted, id)
  }

  /** Bumping the current block. */
  function Bump(a: Arena, size: nat): (Arena, Option<Address>) {
    if a.current >= |a.blocks| then (a, None)
    else
      var b := a.blocks[a.current];
      match AlignUp(b.used)
      case None => (a, None)
      case Some(aligned) =>
        if aligned + size > b.capacity || aligned < b.used then (a, None)
        else
          (a.(blocks := a.blocks[a.current := b.(used := aligned + size, count := b.count + 1)],
              used := a.used + (aligned + size - b.used), allocations := a.allocations + 1),
           Some(Address(b.id, aligned)))
  }

  /** arena_alloc. */
  function Alloc(a: Arena, size: nat, granted: bool, id: nat): (Arena, Option<Address>) {
    if a.blockSize == 0 || size == 0 then (a, None)
    else
      match Prepare(a, size, granted, id)
      case None => (a, None)
      case Some(ready) => Bump(ready, size)
  }

  // ---------- marks and reset ----------

  /** arena_mark. */
  function TakeMark(a: Arena): Mark {
    if a.current >= |a.blocks| then Mark(None, 0, 0, a.used, a.allocations, a.generation)
    else
      var b := a.blocks[a.current];
      Mark(Some(b.id), b.used, b.count, a.used, a.allocations, a.generation)
  }

  /** The first block with this identity (arena_contains_block). */
  function IndexOf(bs: seq<Block>, id: nat): (r: Option<nat>)
    ensures r.Some? ==> r.value < |bs| && bs[r.value].id == id
    ensures r.None? ==> forall i :: 0 <= i < |bs| ==> bs[i].id != id
    ensures r.Some? ==> forall i :: 0 <= i < r.value ==> bs[i].id != id
  {
    if bs == [] then None
    else if bs[0].id == id then Some(0)
    else
      var r := IndexOf(bs[1..], id);
      if r.None? then None else Some(r.value + 1)
  }

  /** arena_restore; None where it answers false. */
  function Restore(a: Arena, m: Mark): Option<Arena> {
    if m.generation != a.generation then None
    else if m.block.None? then
      if m.totalUsed != 0 || m.totalAllocations != 0 then None
      else Some(a.(blocks := [], current := 0, blockCount := 0, capacity := 0, used := 0, allocations := 0))
    else
      var i := IndexOf(a.blocks, m.block.value);
      if i.None? || m.used > a.blocks[i.value].used || m.count > a.blocks[i.value].count then None
      else
        var kept := a.blocks[..i.value] + [a.blocks[i.value].(used := m.used, count := m.count)];
        Some(a.(blocks := kept, current := i.value, blockCount := |kept|, capacity := TotalCapacity(kept),
                used := m.totalUsed, allocations := m.totalAllocations))
  }

  /** The blocks a reset keeps, emptied. */
  function Retained(bs: seq<Block>): seq<Block> {
    if bs == [] then []
    else
      var last := bs[|bs| - 1];
      Retained(bs[..|bs| - 1]) + (if last.oversized then [] else [last.(used := 0, count := 0)])
  }

  /** The generation after a reset: a 64-bit counter that skips zero. */
  function NextGeneration(g: nat): nat {
    if g + 1 > SIZE_LIMIT then 1 else g + 1
  }

  /** arena_reset. */
  function Reset(a: Arena): Arena {
    if a.blockSize == 0 then a
    else
      var kept := Retained(a.blocks);
      a.(blocks := kept, current := 0, blockCount := |kept|, capacity := TotalCapacity(kept), used := 0,
         allocations := 0, generation := NextGeneration(a.generation))
  }

  // ---------- what every operation keeps ----------

  ghost predicate DistinctIds(bs: seq<Block>) {
    forall i, j :: 0 <= i < j < |bs| ==> bs[i].id != bs[j].id
  }

  /** The counters are the sums over the block list, and blocks behind the current one are empty. */
  ghost predicate Inv(a: Arena) {
    && a.blockSize > 0
    && (if a.blocks == [] then a.current == 0 else a.current < |a.blocks|)
    && DistinctIds(a.blocks)
    && (forall i :: 0 <= i < |a.blocks| ==> a.blocks[i].used <= a.blocks[i].capacity)
    && (forall i :: a.current < i < |a.blocks| ==> a.blocks[i].used == 0 && a.blocks[i].count == 0)
    && a.blockCount == |a.blocks|
    && a.capacity == TotalCapacity(a.blocks) <= SIZE_LIMIT
    && a.used == TotalUsed(a.blocks)
    && a.allocations == TotalCount(a.blocks)
    && 1 <= a.generation <= SIZE_LIMIT
  }

  ghost predicate FreshId(a: Arena, id: nat) {
    forall i :: 0 <= i < |a.blocks| ==> a.blocks[i].id != id
  }

  lemma {:induction false} AlignedUp(value: nat)
    ensures AlignUp(value).Some? ==>
              value <= AlignUp(value).value < value + ALIGNMENT && AlignUp(value).value % ALIGNMENT == 0
    ensures value + ALIGNMENT <= SIZE_LIMIT ==> AlignUp(value).Some?
  {
  }

  lemma {:induction false} InsertedElements<T>(s: seq<T>, at: nat, x: T)
    requires at <= |s|
    ensures |Inserted(s, at, x)| == |s| + 1 && Inserted(s, at, x)[at] == x
    ensures forall i :: 0 <= i < at ==> Inserted(s, at, x)[i] == s[i]
    ensures forall i :: at < i <= |s| ==> Inserted(s, at, x)[i] == s[i - 1]
  {
  }

  lemma {:induction false} InsertedMembers<T>(s: seq<T>, at: nat, x: T)
    requires at <= |s|
    ensures |Inserted(s, at, x)| == |s| + 1
    ensures forall y :: y in Inserted(s, at, x) <==> y in s || y == x
  {
    assert s == s[..at] + s[at..];
  }

  lemma {:induction false} InsertedTotals(bs: seq<Block>, at: nat, b: Block)
    requires at <= |bs|
    ensures TotalCapacity(Inserted(bs, at, b)) == TotalCapacity(bs) + b.capacity
    ensures TotalUsed(Inserted(bs, at, b)) == TotalUsed(bs) + b.used
    ensures TotalCount(Inserted(bs, at, b)) == TotalCount(bs) + b.count
  {
    hide TotalCapacity, TotalUsed, TotalCount;
    assert bs == bs[..at] + bs[at..];
    TotalsAppend(bs[..at], bs[at..]);
    TotalsAppend(bs[..at], [b]);
    TotalsAppend(bs[..at] + [b], bs[at..]);
    TotalsOne(b);
  }

  lemma {:induction false} InsertedDistinct(bs: seq<Block>, at: nat, b: Block)
    requires at <= |bs| && DistinctIds(bs) && forall i :: 0 <= i < |bs| ==> bs[i].id != b.id
    ensures DistinctIds(Inserted(bs, at, b))
  {
    InsertedElements(bs, at, b);
    hide Inserted;
    var all := Inserted(bs, at, b);
    forall i, j | 0 <= i < j < |all|
      ensures all[i].id != all[j].id
    {
      var x, y := if i < at then i else i - 1, if j < at then j else j - 1;
      assert i != at ==> all[i] == bs[x];
      assert j != at ==> all[j] == bs[y];
    }
  }

  lemma {:induction false} AddBlockKeepsInv(a: Arena, size: nat, granted: bool, id: nat)
    requires Inv(a) && FreshId(a, id) && AddBlock(a, size, granted, id).Some?
    ensures Inv(AddBlock(a, size, granted, id).value)
    ensures (var a' := AddBlock(a, size, granted, id).value;
             a'.current < |a'.blocks| && CanAllocate(a'.blocks[a'.current], size))
  {
    hide TotalCapacity, TotalUsed, TotalCount, DistinctIds;
    var at := if a.blocks == [] then 0 else a.current + 1;
    var capacity := BlockCapacity(a.blockSize, size);
    var b := Block(id, capacity, 0, 0, IsOversized(a.blockSize, capacity));
    InsertedElements(a.blocks, at, b);
    InsertedTotals(a.blocks, at, b);
    InsertedDistinct(a.blocks, at, b);
    hide Inserted, IsOversized;
  }

  lemma {:induction false} BumpKeepsInv(a: Arena, size: nat)
    requires Inv(a) && a.current < |a.blocks| && CanAllocate(a.blocks[a.current], size)
    ensures Inv(Bump(a, size).0) && Bump(a, size).1.Some?
  {
    hide TotalCapacity, TotalUsed, TotalCount;
    var b := a.blocks[a.current];
    AlignedUp(b.used);
    var aligned := AlignUp(b.used).value;
    TotalsUpdate(a.blocks, a.current, b.(used := aligned + size, count := b.count + 1));
  }

  /** A prepared arena has room in its current block, so the checks behind it never fail. */
  lemma {:induction false} PrepareKeepsInv(a: Arena, size: nat, granted: bool, id: nat)
    requires Inv(a) && FreshId(a, id) && Prepare(a, size, granted, id).Some?
    ensures var a' := Prepare(a, size, granted, id).value;
            Inv(a') && a'.current < |a'.blocks| && CanAllocate(a'.blocks[a'.current], size)
  {
    if !(a.current < |a.blocks| && CanAllocate(a.blocks[a.current], size))
       && !(a.current + 1 < |a.blocks| && CanAllocate(a.blocks[a.current + 1], size)) {
      AddBlockKeepsInv(a, size, granted, id);
    }
  }

  lemma {:induction false} AllocKeepsInv(a: Arena, size: nat, granted: bool, id: nat)
    requires Inv(a) && FreshId(a, id)
    ensures Inv(Alloc(a, size, granted, id).0)
    ensures Alloc(a, size, granted, id).1.None? ==> Alloc(a, size, granted, id).0 == a
  {
    hide Prepare, Bump, Inv, CanAllocate;
    if size > 0 && Prepare(a, size, granted, id).Some? {
      PrepareKeepsInv(a, size, granted, id);
      BumpKeepsInv(Prepare(a, size, granted, id).value, size);
    }
  }

  /** Every block a reset keeps is an emptied normal block of the old list. */
  lemma {:induction false} RetainedFrom(bs: seq<Block>)
    ensures forall b :: b in Retained(bs) ==>
              b.used == 0 && b.count == 0 && !b.oversized
              && exists c :: c in bs && c.id == b.id && c.capacity == b.capacity
  {
    if bs != [] {
      var rest, last := bs[..|bs| - 1], bs[|bs| - 1];
      RetainedFrom(rest);
      assert last in bs;
      assert forall c :: c in rest ==> c in bs;
      forall b | b in Retained(bs)
        ensures b.used == 0 && b.count == 0 && !b.oversized
             && exists c :: c in bs && c.id == b.id && c.capacity == b.capacity
      {
        if b in Retained(rest) {
          var c :| c in rest && c.id == b.id && c.capacity == b.capacity;
        } else {
          assert last.id == b.id && last.capacity == b.capacity;
        }
      }
    }
  }

  /** And every normal block is kept. */
  lemma {:induction false} RetainedAll(bs: seq<Block>, i: nat)
    requires i < |bs| && !bs[i].oversized
    ensures bs[i].(used := 0, count := 0) in Retained(bs)
  {
    var rest := bs[..|bs| - 1];
    if i < |rest| {
      assert rest[i] == bs[i];
      RetainedAll(rest, i);
    }
  }

  /** A reset keeps exactly the normal blocks, emptied. */
  lemma {:induction false} ResetKeepsNormalBlocks(a: Arena, b: Block)
    requires a.blockSize > 0
    ensures b in Reset(a).blocks ==> b.used == 0 && b.count == 0 && !b.oversized
    ensures b.used == 0 && b.count == 0 && !b.oversized ==>
              (b in Reset(a).blocks <==> exists c :: c in a.blocks && !c.oversized && c.(used := 0, count := 0) == b)
  {
    RetainedNormal(a.blocks);
    hide Retained;
    forall c | c in a.blocks && !c.oversized
      ensures c.(used := 0, count := 0) in Retained(a.blocks)
    {
      var i :| 0 <= i < |a.blocks| && a.blocks[i] == c;
      RetainedAll(a.blocks, i);
    }
  }

  lemma {:induction false} RetainedNormal(bs: seq<Block>)
    ensures forall b :: b in Retained(bs) ==> !b.oversized && b.used == 0 && b.count == 0
    ensures forall b :: b in Retained(bs) ==> exists c :: c in bs && !c.oversized && c.(used := 0, count := 0) == b
  {
    if bs != [] {
      var rest, last := bs[..|bs| - 1], bs[|bs| - 1];
      RetainedNormal(rest);
      assert last in bs;
      assert forall c :: c in rest ==> c in bs;
      forall b | b in Retained(bs)
        ensures !b.oversized && b.used == 0 && b.count == 0
        ensures exists c :: c in bs && !c.oversized && c.(used := 0, count := 0) == b
      {
        if b in Retained(rest) {
          var c :| c in rest && !c.oversized && c.(used := 0, count := 0) == b;
        } else {
          assert last.(used := 0, count := 0) == b && !last.oversized;
        }
      }
    }
  }

  lemma {:induction false} RetainedDistinct(bs: seq<Block>)
    requires DistinctIds(bs)
    ensures DistinctIds(Retained(bs))
  {
    if bs != [] {
      var rest, last := bs[..|bs| - 1], bs[|bs| - 1];
      RetainedDistinct(rest);
      RetainedFrom(rest);
      var kept := Retained(rest);
      forall i | 0 <= i < |kept|
        ensures kept[i].id != last.id
      {
        assert kept[i] in kept;
        var c :| c in rest && c.id == kept[i].id;
      }
    }
  }

  lemma {:induction false} RetainedTotals(bs: seq<Block>)
    ensures TotalCapacity(Retained(bs)) <= TotalCapacity(bs)
    ensures TotalUsed(Retained(bs)) == 0 && TotalCount(Retained(bs)) == 0
  {
    if bs != [] {
      var rest, last := bs[..|bs| - 1], bs[|bs| - 1];
      RetainedTotals(rest);
      if last.oversized {
        assert Retained(bs) == Retained(rest);
      } else {
        TotalsAppend(Retained(rest), [last.(used := 0, count := 0)]);
        TotalsOne(last.(used := 0, count := 0));
      }
    }
  }

  lemma {:induction false} ResetKeepsInv(a: Arena)
    requires Inv(a)
    ensures Inv(Reset(a))
  {
    hide Retained, TotalCapacity, TotalUsed, TotalCount, DistinctIds;
    RetainedFrom(a.blocks);
    RetainedDistinct(a.blocks);
    RetainedTotals(a.blocks);
    forall i | 0 <= i < |Retained(a.blocks)|
      ensures Retained(a.blocks)[i].used == 0 && Retained(a.blocks)[i].count == 0
    {
      assert Retained(a.blocks)[i] in Retained(a.blocks);
    }
  }

  // ---------- growing from a mark ----------

  /** `b` came from `a` by allocations and nested marks and restores: the blocks in front of
      `a`'s current one are untouched, and that one has only been filled further. */
  ghost predicate Grown(a: Arena, b: Arena) {
    && a.generation == b.generation && a.blockSize == b.blockSize
    && (a.blocks != [] && a.current < |a.blocks| ==>
          && a.current <= b.current < |b.blocks|
          && b.blocks[..a.current] == a.blocks[..a.current]
          && b.blocks[a.current] == a.blocks[a.current].(used := b.blocks[a.current].used,
                                                         count := b.blocks[a.current].count)
          && b.blocks[a.current].used >= a.blocks[a.current].used
          && b.blocks[a.current].count >= a.blocks[a.current].count)
  }

  lemma {:induction false} GrownTrans(a: Arena, b: Arena, c: Arena)
    requires Grown(a, b) && Grown(b, c)
    ensures Grown(a, c)
  {
    if a.blocks != [] && a.current < |a.blocks| {
      assert c.blocks[..a.current] == c.blocks[..b.current][..a.current];
      assert b.blocks[..a.current] == b.blocks[..b.current][..a.current];
      if a.current < b.current {
        assert c.blocks[a.current] == c.blocks[..b.current][a.current] == b.blocks[a.current];
      }
    }
  }

  lemma {:induction false} AllocGrows(a: Arena, size: nat, granted: bool, id: nat)
    requires Inv(a) && FreshId(a, id)
    ensures Grown(a, Alloc(a, size, granted, id).0)
  {
    hide TotalCapacity, TotalUsed, TotalCount, AlignUp, CanAllocate;
    var prepared := Prepare(a, size, granted, id);
    if size > 0 && prepared.Some? {
      assert Grown(a, prepared.value);
      var b := Bump(prepared.value, size).0;
      assert Grown(prepared.value, b);
      GrownTrans(a, prepared.value, b);
    }
  }

  /** The arena at a mark, without the blocks behind the marked one. */
  function Truncated(a: Arena): Arena {
    if a.blocks == [] || a.current >= |a.blocks| then
      a.(blocks := [], current := 0, blockCount := 0, capacity := 0, used := 0, allocations := 0)
    else
      var kept := a.blocks[..a.current + 1];
      a.(blocks := kept, blockCount := |kept|, capacity := TotalCapacity(kept))
  }

  /** Main result: restoring a mark after properly nested work brings back the arena as it was
      at the mark: use, allocation count and the block list up to the marked block. */
  lemma {:induction false} RestoreUndoes(a: Arena, b: Arena)
    requires Inv(a) && Inv(b) && Grown(a, b)
    ensures Restore(b, TakeMark(a)) == Some(Truncated(a))
  {
    if a.blocks != [] {
      var at := a.current;
      var id := a.blocks[at].id;
      assert b.blocks[at].id == id;
      assert IndexOf(b.blocks, id) == Some(at);
      assert b.blocks[..at] + [b.blocks[at].(used := a.blocks[at].used, count := a.blocks[at].count)]
          == a.blocks[..at + 1];
    }
  }

  lemma {:induction false} TruncatedKeepsInv(a: Arena)
    requires Inv(a)
    ensures Inv(Truncated(a)) && (a.blocks == [] ==> Truncated(a) == a)
  {
    hide TotalCapacity, TotalUsed, TotalCount;
    if a.blocks == [] {
      NoTotals();
    } else {
      var kept, rest := a.blocks[..a.current + 1], a.blocks[a.current + 1..];
      assert a.blocks == kept + rest;
      TotalsAppend(kept, rest);
      UnusedTotals(rest);
    }
  }

  lemma {:induction false} TruncatedGrows(a: Arena, b: Arena)
    requires Grown(a, b) && Inv(a) && Inv(b)
    ensures Grown(a, Truncated(b))
  {
    if a.blocks != [] {
      assert Truncated(b).blocks[..a.current] == b.blocks[..a.current];
    }
  }

  /** An allocation that fits the marked block gets the address it would have had at the mark. */
  lemma {:induction false} SameAddressAfterRestore(a: Arena, b: Arena, size: nat, granted: bool, id: nat)
    requires Inv(a) && Inv(b) && Grown(a, b) && a.current < |a.blocks|
    requires size > 0 && CanAllocate(a.blocks[a.current], size)
    ensures Restore(b, TakeMark(a)).Some?
    ensures Alloc(Restore(b, TakeMark(a)).value, size, granted, id).1 == Alloc(a, size, granted, id).1
    ensures Alloc(a, size, granted, id).1.Some?
  {
    RestoreUndoes(a, b);
    BumpKeepsInv(a, size);
    assert Truncated(a).blocks[a.current] == a.blocks[a.current];
  }

  // ---------- stale marks ----------

  function GenerationAfter(g: nat, resets: nat): nat {
    if resets == 0 then g else NextGeneration(GenerationAfter(g, resets - 1))
  }

  lemma {:induction false} GenerationIs(g: nat, resets: nat)
    requires 1 <= g <= SIZE_LIMIT
    ensures GenerationAfter(g, resets) == 1 + (g - 1 + resets) % SIZE_LIMIT
  {
    if resets > 0 {
      GenerationIs(g, resets - 1);
    }
  }

  /** A mark from before a number of resets is refused, unless the 64-bit counter has come all
      the way round: then, and only then, its generation matches again. */
  lemma {:induction false} OldGenerationDiffers(g: nat, resets: nat)
    requires 1 <= g <= SIZE_LIMIT
    ensures GenerationAfter(g, resets) == g <==> resets % SIZE_LIMIT == 0
  {
    GenerationIs(g, resets);
  }

  lemma {:induction false} StaleMarkRefused(a: Arena, m: Mark, resets: nat)
    requires 1 <= m.generation <= SIZE_LIMIT
    requires a.generation == GenerationAfter(m.generation, resets) && resets % SIZE_LIMIT != 0
    ensures Restore(a, m).None?
  {
    OldGenerationDiffers(m.generation, resets);
  }
}
