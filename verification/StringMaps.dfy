/** The open-addressing map of src/collection/string_map.c. Its class works on one slot array
    in place; its contracts speak of a plain finite map and of who owns which allocation. */
module StringMaps {
  import opened Texts
  import opened SlotTables

  const SIZE_MAX: nat := 0xFFFF_FFFF_FFFF_FFFF
  const SLOT_SIZE: nat := 56
  const INITIAL_CAPACITY: nat := 16

  /** An allocator; one that may refuse can do so at any call. Freeing demands a live block, so a double free
      or a free of something foreign does not verify. */
  class Heap {
    ghost var live: set<nat>
    ghost var failed: bool
    var next: nat
    const mayRefuse: bool

    ghost predicate Valid()
      reads this
    {
      (forall b :: b in live ==> b < next) && (failed ==> mayRefuse)
    }

    constructor (mayRefuse: bool)
      ensures Valid() && live == {} && !failed && this.mayRefuse == mayRefuse
    {
      live, failed, next := {}, false, 0;
      this.mayRefuse := mayRefuse;
    }

    method Alloc() returns (block: Option<nat>)
      requires Valid()
      modifies this
      ensures Valid()
      ensures block.Some? ==> block.value !in old(live) && live == old(live) + {block.value} && failed == old(failed)
      ensures block.None? ==> live == old(live) && failed
    {
      var granted: bool := *;
      if mayRefuse && !granted {
        failed := true;
        return None;
      }
      block := Some(next);
      live := live + {next};
      next := next + 1;
    }

    /** free; freeing NULL does nothing. */
    method Free(block: Option<nat>)
      requires Valid() && (block.Some? ==> block.value in live)
      modifies this`live
      ensures Valid()
      ensures live == Without(old(live), block)
    {
      if block.Some? {
        live := live - {block.value};
      }
    }
  }

  function LoadThreshold(capacity: nat): nat {
    capacity / 2 + capacity / 5
  }

  /** How many slots a table may have after one more entry: growth doubles a table only when its
      entries fill half of it. */
  function GrowthBound(slots: nat, entries: nat): nat {
    var least := if slots < INITIAL_CAPACITY then INITIAL_CAPACITY else slots;
    if least < 4 * (entries + 1) then 4 * (entries + 1) else least
  }

  /** What string_map_set_internal refuses to store. */
  predicate Storable(value: Value) {
    value.Value? && (value.item.ObjectItem? ==> value.item.bytes != "")
  }

  /** Everything a map with this slot array owns. */
  function MapBlocks(block: Option<nat>, t: Table): multiset<nat> {
    Owned(block) + Blocks(t)
  }

  /** Each of the owned allocations is live, and none is owned twice. */
  ghost predicate Backed(live: set<nat>, owned: multiset<nat>) {
    owned <= multiset(live)
  }

  ghost function Foreign(live: set<nat>, owned: multiset<nat>): multiset<nat> {
    multiset(live) - owned
  }

  class StringMap {
    const heap: Heap
    const hash: Hash
    var slots: array<Slot>        // length 0 stands for the missing slot array
    var slotsBlock: Option<nat>   // the allocation behind it
    var length: nat
    var tombstones: nat
    ghost var contents: map<Text, Item>

    /** The allocations the map owns, each as often as it owns it. */
    ghost function Footprint(): multiset<nat>
      reads this, slots
    {
      MapBlocks(slotsBlock, slots[..])
    }

    /** The live allocations that belong to somebody else. */
    ghost function Outside(): multiset<nat>
      reads this, slots, heap
    {
      Foreign(heap.live, Footprint())
    }

    /** Capacities are powers of two and stay below the load threshold. */
    ghost predicate Shaped()
      reads this, slots
    {
      && (slots.Length == 0 <==> slotsBlock.None?)
      && (slots.Length == 0 ==> length == tombstones == 0)
      && (slots.Length > 0 ==> PowerOfTwo(slots.Length) && slots.Length >= INITIAL_CAPACITY)
      && (slots.Length > 0 ==> length + tombstones < LoadThreshold(slots.Length))
    }

    /** Live allocations contain everything the map owns, each exactly once. */
    ghost predicate Valid()
      reads this, slots, heap
    {
      && heap.Valid()
      && Shaped()
      && Good(slots[..], hash, contents, length, tombstones)
      && Backed(heap.live, Footprint())
    }

    /** sm_init: no memory is taken before the first entry. */
    constructor (heap: Heap, hash: Hash)
      requires heap.Valid()
      ensures Valid() && contents == map[] && this.heap == heap && this.hash == hash && fresh(slots)
           && slots.Length == 0
      ensures Outside() == multiset(heap.live)
    {
      this.heap := heap;
      this.hash := hash;
      slots := new Slot[0];
      slotsBlock := None;
      length, tombstones := 0, 0;
      contents := map[];
      new;
      assert slots[..] == [];
      GoodStart(hash);
    }

    /** string_map_find_index: where the key is, or else the first tombstone on its way. */
    method FindIndex(key: Text) returns (found: Option<nat>, tombstone: Option<nat>)
      requires Valid()
      ensures found.Some? ==> HoldsKey(slots[..], key, found.value) && key in contents
      ensures found.None? ==> LacksKey(slots[..], key) && key !in contents
      ensures tombstone.Some? ==> tombstone.value < slots.Length && slots[tombstone.value] == Tombstone
                                  && Reachable(slots[..], Home(hash(key), slots.Length), tombstone.value)
      ensures found.None? && tombstone.None? && slots.Length > 0 ==>
                NoTombstoneFirst(slots[..], Home(hash(key), slots.Length))
    {
      hide Home, MaskedHome, MaskedNext, PowerOfTwo, Good, Probed, Represents, Searched, Reachable, OccupiedRun,
           LacksKey, NoTombstoneFirst;
      found, tombstone := None, None;
      ghost var t := slots[..];
      GoodRoom(t, hash, contents, length, tombstones);
      if slots.Length == 0 {
        assert t == [];
        NoSlotsLack(key);
        RepresentsLookup(t, contents, key);
        return;
      }
      var capacity, code := slots.Length, hash(key);
      var index: nat := MaskedHome(code, capacity);
      ghost var home := index;
      var probes := 0;
      RunStart(t, home, key);
      while probes < capacity
        invariant probes <= capacity && index < capacity
        invariant probes < capacity ==> Offset(home, index, capacity) == probes
        invariant Searched(t, home, key, probes)
        invariant tombstone.None? ==> OccupiedRun(t, home, probes)
        invariant tombstone.Some? ==> tombstone.value < capacity && t[tombstone.value] == Tombstone
                                      && Reachable(t, home, tombstone.value)
      {
        SearchStep(t, home, key, probes, index);
        if tombstone.None? {
          RunStep(t, home, probes, index);
        }
        if slots[index].Empty? {
          SearchedMeansAbsent(t, hash, key, probes, index);
          RepresentsLookup(t, contents, key);
          if tombstone.None? {
            RunThenEmpty(t, home, probes, index);
          }
          return;
        }
        if slots[index].Tombstone? {
          if tombstone.None? {
            tombstone := Some(index);
          }
        } else if slots[index].hash == code && slots[index].key == key {
          RepresentsFound(t, contents, key, index);
          return Some(index), tombstone;
        } else {
          ProbedHash(t, hash, index);
        }
        index := MaskedNext(index, capacity);
        probes := probes + 1;
      }
      SearchedMeansAbsent(t, hash, key, probes, index);
      RepresentsLookup(t, contents, key);
      if tombstone.None? {
        RunThenEmpty(t, home, probes, index);
      }
    }

    /** The loop that walks from a key's home to the first slot that is not occupied. */
    static method ProbeFree(slots: array<Slot>, code: nat) returns (index: nat)
      requires PowerOfTwo(slots.Length) && Occupancy(slots[..]) + Burials(slots[..]) < slots.Length
      ensures index < slots.Length && !slots[index].Occupied?
      ensures Reachable(slots[..], Home(code, slots.Length), index)
    {
      hide Home, MaskedHome, MaskedNext, PowerOfTwo, Reachable, OccupiedRun, Occupancy, Burials;
      ghost var t := slots[..];
      ghost var e := EmptyExists(t);
      index := MaskedHome(code, slots.Length);
      ghost var home, probes := index, 0;
      RunStart(t, home, "");
      while slots[index].Occupied?
        invariant index < slots.Length && probes == Offset(home, index, slots.Length)
        invariant OccupiedRun(t, home, probes)
        decreases slots.Length - probes
      {
        RunStep(t, home, probes, index);
        index := MaskedNext(index, slots.Length);
        probes := probes + 1;
        RunBounded(t, home, probes, e);
      }
      RunStep(t, home, probes, index);
    }

    /** The copying loop of string_map_rehash: a fresh slot array with the same entries. */
    method MovedSlots(capacity: nat) returns (moved: array<Slot>)
      requires Good(slots[..], hash, contents, length, tombstones)
      requires PowerOfTwo(capacity) && length < capacity
      ensures fresh(moved) && moved.Length == capacity
      ensures Good(moved[..], hash, contents, length, 0) && Blocks(moved[..]) == Blocks(slots[..])
    {
      hide PowerOfTwo, Good, Probed, Reachable, Moving, Occupancy, Burials, Blocks, Home;
      ghost var t := slots[..];
      GoodRoom(t, hash, contents, length, tombstones);
      moved := new Slot[capacity](_ => Empty);
      MovingStart(t, moved[..], hash);
      var index := 0;
      while index < slots.Length
        invariant index <= slots.Length && slots[..] == t && fresh(moved)
        invariant Moving(t, index, moved[..], hash)
      {
        if slots[index].Occupied? {
          ProbedHash(t, hash, index);
          MovingLoad(t, index, moved[..], hash);
          var free := ProbeFree(moved, slots[index].hash);
          MovingFree(t, index, moved[..], hash, free);
          MovingFill(t, index, moved[..], hash, free);
          ghost var before := moved[..];
          moved[free] := slots[index];
          assert moved[..] == before[free := t[index]];
        } else {
          MovingSkip(t, index, moved[..], hash);
        }
        index := index + 1;
      }
      GoodMove(t, moved[..], hash, contents, length, tombstones);
    }

    /** The end of string_map_rehash: the new slot array takes over and the old one is freed. */
    method AdoptSlots(moved: array<Slot>, block: nat, ghost live: set<nat>)
      requires heap.Valid() && heap.live == live + {block} && block !in live
      requires Backed(live, Footprint())
      requires Good(moved[..], hash, contents, length, 0) && Blocks(moved[..]) == Blocks(slots[..])
      requires PowerOfTwo(moved.Length) && moved.Length >= INITIAL_CAPACITY && length < LoadThreshold(moved.Length)
      modifies this, heap`live
      ensures Valid() && contents == old(contents) && length == old(length) && tombstones == 0 && slots == moved
      ensures Outside() == Foreign(live, old(Footprint()))
    {
      hide PowerOfTwo, Good, Blocks, MapBlocks, Backed, Foreign, Without;
      SwapSlotArrays(live, slotsBlock, slots[..], block, moved[..]);
      var oldBlock := slotsBlock;
      slots, slotsBlock, tombstones := moved, Some(block), 0;
      heap.Free(oldBlock);
    }

    /** string_map_rehash: moves every entry to a fresh slot array and leaves the tombstones. */
    method Rehash(capacity: nat) returns (ok: bool)
      requires Valid() && PowerOfTwo(capacity) && capacity >= INITIAL_CAPACITY && length < LoadThreshold(capacity)
      modifies this, heap
      ensures Valid() && contents == old(contents) && Outside() == old(Outside()) && length == old(length)
      ensures ok ==> slots.Length == capacity && tombstones == 0 && fresh(slots) && heap.failed == old(heap.failed)
      ensures !ok ==> slots == old(slots) && tombstones == old(tombstones)
      ensures !ok ==> heap.failed || capacity > SIZE_MAX / SLOT_SIZE
      ensures old(heap.failed) ==> heap.failed
    {
      hide PowerOfTwo, Good, Blocks, LoadThreshold, MapBlocks, Backed, Foreign;
      ThresholdBelow(capacity);
      if capacity > SIZE_MAX / SLOT_SIZE {
        return false;
      }
      ghost var live := heap.live;
      var block := heap.Alloc();
      if block.None? {
        return false;
      }
      var moved := MovedSlots(capacity);
      AdoptSlots(moved, block.value, live);
      ok := true;
    }

    /** string_map_prepare_capacity: afterwards there is room for one more entry. A table that is
        mostly tombstones is cleaned at the same size, others double. */
    method PrepareCapacity() returns (ok: bool)
      requires Valid()
      modifies this, heap
      ensures Valid() && contents == old(contents) && Outside() == old(Outside()) && length == old(length)
      ensures (slots == old(slots) || fresh(slots)) && slots.Length >= old(slots.Length)
      ensures ok ==> slots.Length > 0 && length + tombstones + 1 < LoadThreshold(slots.Length)
      ensures ok ==> 10 * (length + tombstones + 1) < 7 * slots.Length
      ensures slots.Length <= GrowthBound(old(slots.Length), |old(contents)|)
      ensures !ok ==> heap.failed || slots.Length * 2 > SIZE_MAX / SLOT_SIZE
      ensures old(heap.failed) ==> heap.failed
      ensures ok ==> heap.failed == old(heap.failed)
    {
      hide Good, Blocks, PowerOfTwo, MapBlocks, Backed, Foreign;
      GoodRoom(slots[..], hash, contents, length, tombstones);
      InitialPowers(slots.Length);
      if slots.Length == 0 {
        ok := Rehash(INITIAL_CAPACITY);
        return;
      }
      if length > SIZE_MAX - tombstones || length + tombstones == SIZE_MAX {
        return false;
      }
      var used := length + tombstones + 1;
      var threshold := LoadThreshold(slots.Length);
      if !(threshold == 0 || used >= threshold) {
        return true;
      }
      if length < slots.Length / 2 && tombstones > 0 {
        ok := Rehash(slots.Length);
        return;
      }
      if slots.Length > SIZE_MAX / 2 {
        return false;
      }
      ok := Rehash(slots.Length * 2);
    }

    /** string_map_value_release, for a value of the map or of the caller. */
    method ReleaseValue(value: Value)
      requires heap.Valid() && ValueBlocks(value) <= multiset(heap.live)
      modifies heap`live
      ensures heap.Valid() && heap.live == Without(old(heap.live), BlockOf(value))
    {
      if value.Value? {
        assert value.block.Some? ==> value.block.value in ValueBlocks(value);
        heap.Free(value.block);
      }
    }

    /** Puts a value that the map does not own yet into slot `i`, releasing the one it replaces. */
    method ReplaceValue(i: nat, value: Value)
      requires Valid() && i < slots.Length && slots[i].Occupied? && value.Value? && ValueBlocks(value) <= Outside()
      modifies this, slots, heap`live
      ensures Valid() && slots == old(slots)
      ensures contents == old(contents)[old(slots[i].key) := value.item]
      ensures Outside() == old(Outside()) - ValueBlocks(value)
    {
      hide PowerOfTwo, Good, MapBlocks, Backed, Foreign, ValueBlocks, Without, BlockOf;
      ghost var t := slots[..];
      var slot := slots[i];
      GoodReplace(t, hash, contents, length, tombstones, i, value);
      ReplaceBooks(heap.live, slotsBlock, t, i, value);
      ReleaseValue(slot.value);
      slots[i] := slot.(value := value);
      assert slots[..] == t[i := slot.(value := value)];
      contents := contents[slot.key := value.item];
    }

    /** Stores a new entry in a slot that is free and on its way. */
    method FillSlot(index: nat, slot: Slot)
      requires Valid() && slot.Occupied? && slot.key !in contents && slot.value.Value? && slot.hash == hash(slot.key)
      requires index < slots.Length && !slots[index].Occupied? && length + tombstones + 1 < LoadThreshold(slots.Length)
      requires Reachable(slots[..], Home(slot.hash, slots.Length), index)
      requires SlotBlocks(slot) <= Outside()
      modifies this, slots
      ensures Valid() && contents == old(contents)[slot.key := slot.value.item] && slots == old(slots)
      ensures Outside() == old(Outside()) - SlotBlocks(slot)
    {
      hide PowerOfTwo, Good, MapBlocks, Backed, Foreign, SlotBlocks, Reachable, LoadThreshold, Home;
      ghost var t := slots[..];
      GoodFill(t, hash, contents, length, tombstones, index, slot);
      FillBooks(heap.live, slotsBlock, t, index, slot);
      if slots[index].Tombstone? {
        tombstones := tombstones - 1;
      }
      slots[index] := slot;
      assert slots[..] == t[index := slot];
      length := length + 1;
      contents := contents[slot.key := slot.value.item];
    }

    /** The end of string_map_set_internal: stores a new entry in the first tombstone on its way,
        or else in the first slot that was never used. */
    method PlaceEntry(key: Text, keyBlock: Option<nat>, value: Value)
      requires Valid() && key !in contents && value.Value?
      requires slots.Length > 0 && length + tombstones + 1 < LoadThreshold(slots.Length)
      requires SlotBlocks(Occupied(hash(key), key, keyBlock, value)) <= Outside()
      modifies this, slots
      ensures Valid() && contents == old(contents)[key := value.item] && slots == old(slots)
      ensures Outside() == old(Outside()) - SlotBlocks(Occupied(hash(key), key, keyBlock, value))
    {
      hide PowerOfTwo, Good, MapBlocks, Backed, Foreign, SlotBlocks, Reachable, NoTombstoneFirst, LoadThreshold, Home;
      ThresholdBelow(slots.Length);
      var code := hash(key);
      var _, tombstone := FindIndex(key);
      var index: nat;
      if tombstone.Some? {
        index := tombstone.value;
      } else {
        GoodRoom(slots[..], hash, contents, length, tombstones);
        index := ProbeFree(slots, code);
        RunEndsEmpty(slots[..], Home(code, slots.Length), index);
      }
      FillSlot(index, Occupied(code, key, keyBlock, value));
    }

    /** Releases a value the map does not own. */
    method Discard(value: Value)
      requires Valid() && ValueBlocks(value) <= Outside()
      modifies heap`live
      ensures Valid() && Outside() == old(Outside()) - ValueBlocks(value)
    {
      hide PowerOfTwo, Good, MapBlocks, Backed, Foreign, ValueBlocks, Without, BlockOf;
      ForeignDrops(heap.live, Footprint(), value);
      ReleaseValue(value);
    }

    /** Frees a block the map does not own. */
    method DiscardBlock(block: Option<nat>, ghost rest: multiset<nat>)
      requires Valid() && Outside() == rest + Owned(block)
      modifies heap`live
      ensures Valid() && Outside() == rest
    {
      hide PowerOfTwo, Good, MapBlocks, Backed, Foreign, Without;
      ForeignDropsBlock(heap.live, Footprint(), block, rest);
      heap.Free(block);
    }

    /** string_map_copy_key. */
    method CopyBytes(bytes: Text) returns (ok: bool, block: Option<nat>)
      requires Valid()
      modifies heap
      ensures Valid() && Outside() == old(Outside()) + Owned(block) && (bytes == "" ==> block.None?)
      ensures heap.failed == (old(heap.failed) || !ok) && (!ok ==> block.None?)
    {
      hide PowerOfTwo, Good, MapBlocks, Backed, Foreign;
      ghost var live := heap.live;
      OwnedNothing(Outside());
      if |bytes| == 0 {
        return true, None;
      }
      block := heap.Alloc();
      if block.None? {
        return false, None;
      }
      ForeignTakes(live, Footprint(), block.value);
      ok := true;
    }

    /** The part of string_map_set_internal that adds a new entry. */
    method AddEntry(key: Text, value: Value, copyKey: bool) returns (ok: bool)
      requires Valid() && ValueBlocks(value) <= Outside() && Storable(value) && key !in contents
      modifies this, slots, heap
      ensures Valid() && (slots == old(slots) || fresh(slots)) && slots.Length >= old(slots.Length)
      ensures slots.Length <= GrowthBound(old(slots.Length), |old(contents)|)
      ensures contents == if ok then old(contents)[key := value.item] else old(contents)
      ensures !ok ==> heap.failed || slots.Length * 2 > SIZE_MAX / SLOT_SIZE
      ensures Outside() == old(Outside()) - ValueBlocks(value)
      ensures old(heap.failed) ==> heap.failed
    {
      hide Valid, Outside, SlotBlocks, ValueBlocks, Owned, LoadThreshold;
      ghost var outside := Outside();
      OwnedNothing(outside);
      var keyBlock: Option<nat> := None;
      if copyKey {
        ok, keyBlock := CopyBytes(key);
        if !ok {
          Discard(value);
          return;
        }
      }
      KeyAndValue(outside, hash(key), key, keyBlock, value);
      ok := PrepareCapacity();
      if !ok {
        DiscardBlock(keyBlock, outside);
        Discard(value);
        return;
      }
      PlaceEntry(key, keyBlock, value);
    }

    /** string_map_set_internal. Whatever happens, the value is no longer the caller's: it is
        stored or released. A failed set changes no entry, and sets fail only for values that
        cannot be stored, for want of memory, or at the end of the address space. */
    method SetInternal(key: Text, value: Value, copyKey: bool) returns (ok: bool)
      requires Valid() && ValueBlocks(value) <= Outside()
      modifies this, slots, heap
      ensures Valid() && (slots == old(slots) || fresh(slots)) && slots.Length >= old(slots.Length)
      ensures slots.Length <= GrowthBound(old(slots.Length), |old(contents)|)
      ensures ok ==> Storable(value) && contents == old(contents)[key := value.item]
      ensures !ok ==> contents == old(contents)
      ensures !ok ==> heap.failed || !Storable(value) || slots.Length * 2 > SIZE_MAX / SLOT_SIZE
      ensures Outside() == old(Outside()) - ValueBlocks(value)
      ensures old(heap.failed) ==> heap.failed
    {
      hide Valid, Outside, ValueBlocks;
      if !Storable(value) {
        Discard(value);
        return false;
      }
      var found, _ := FindIndex(key);
      if found.Some? {
        ReplaceValue(found.value, value);
        return true;
      }
      ok := AddEntry(key, value, copyKey);
    }

    /** sm_string_copy. */
    method StringCopy(text: Text) returns (value: Value)
      requires Valid()
      modifies heap
      ensures Valid() && Outside() == old(Outside()) + ValueBlocks(value)
      ensures value.Value? ==> value.item == StringItem(text) && heap.failed == old(heap.failed)
      ensures value.NoValue? ==> heap.failed
    {
      hide Valid, Outside, Owned;
      OwnedNothing(Outside());
      var ok, block := CopyBytes(text);
      value := if ok then Value(StringItem(text), block) else NoValue;
    }

    /** sm_set_string_view: the map keeps copies of its own. */
    method SetString(key: Text, text: Text) returns (ok: bool)
      requires Valid()
      modifies this, slots, heap
      ensures Valid() && (slots == old(slots) || fresh(slots)) && slots.Length >= old(slots.Length)
      ensures slots.Length <= GrowthBound(old(slots.Length), |old(contents)|)
      ensures Outside() == old(Outside())
      ensures contents == if ok then old(contents)[key := StringItem(text)] else old(contents)
      ensures !ok ==> heap.failed || slots.Length * 2 > SIZE_MAX / SLOT_SIZE
      ensures old(heap.failed) ==> heap.failed
    {
      hide Valid, Outside, ValueBlocks;
      var value := StringCopy(text);
      ok := SetInternal(key, value, true);
    }

    /** sm_set_value with sm_int, sm_bool or a borrowed pointer: a value that owns nothing. */
    method SetScalar(key: Text, item: Item) returns (ok: bool)
      requires Valid() && (item.IntItem? || item.BoolItem? || item.PointerItem?)
      modifies this, slots, heap
      ensures Valid() && (slots == old(slots) || fresh(slots)) && slots.Length >= old(slots.Length)
      ensures slots.Length <= GrowthBound(old(slots.Length), |old(contents)|)
      ensures Outside() == old(Outside())
      ensures contents == if ok then old(contents)[key := item] else old(contents)
      ensures !ok ==> heap.failed || slots.Length * 2 > SIZE_MAX / SLOT_SIZE
      ensures old(heap.failed) ==> heap.failed
    {
      hide Valid, Outside;
      OwnedNothing(Outside());
      ok := SetInternal(key, Value(item, None), true);
    }

    /** sm_set_int stores 0 and 1 as booleans. */
    method SetInt(key: Text, value: int) returns (ok: bool)
      requires Valid()
      modifies this, slots, heap
      ensures Valid() && (slots == old(slots) || fresh(slots)) && slots.Length >= old(slots.Length)
      ensures slots.Length <= GrowthBound(old(slots.Length), |old(contents)|)
      ensures Outside() == old(Outside())
      ensures ok ==> key in contents && contents == old(contents)[key := contents[key]]
      ensures ok ==>
                contents[key]
                == if value == 0 then BoolItem(false) else if value == 1 then BoolItem(true) else IntItem(value)
      ensures !ok ==> contents == old(contents) && (heap.failed || slots.Length * 2 > SIZE_MAX / SLOT_SIZE)
      ensures old(heap.failed) ==> heap.failed
    {
      hide Valid, Outside;
      if value == 0 || value == 1 {
        ok := SetScalar(key, BoolItem(value != 0));
      } else {
        ok := SetScalar(key, IntItem(value));
      }
    }

    /** sm_get. */
    method Get(key: Text) returns (item: Option<Item>)
      requires Valid()
      ensures item == if key in contents then Some(contents[key]) else None
    {
      hide PowerOfTwo, Good, Backed, Foreign, MapBlocks;
      var found, _ := FindIndex(key);
      if found.None? {
        return None;
      }
      GoodSlot(slots[..], hash, contents, length, tombstones, found.value);
      return Some(slots[found.value].value.item);
    }

    /** sm_length. */
    method Length() returns (n: nat)
      requires Valid()
      ensures n == |contents|
    {
      GoodRoom(slots[..], hash, contents, length, tombstones);
      n := length;
    }

    /** string_map_slot_release; `left` is what the slot becomes. */
    method ReleaseSlot(i: nat, left: Slot)
      requires heap.Valid() && Backed(heap.live, Footprint()) && i < slots.Length
      requires slots[i].Occupied? && !left.Occupied?
      modifies slots, heap`live
      ensures heap.Valid() && Backed(heap.live, Footprint()) && Outside() == old(Outside())
      ensures slots[..] == old(slots[..])[i := left]
    {
      hide PowerOfTwo, Good, MapBlocks, Backed, Foreign, Without, BlockOf, ValueBlocks;
      ghost var t := slots[..];
      var slot := slots[i];
      ReleaseBooks(heap.live, slotsBlock, t, i, left);
      heap.Free(slot.keyBlock);
      ReleaseValue(slot.value);
      slots[i] := left;
      assert slots[..] == t[i := left];
    }

    /** The entry of `key`, at position `i`, becomes a tombstone. */
    method Bury(key: Text, i: nat)
      requires Valid() && HoldsKey(slots[..], key, i) && key in contents
      modifies this, slots, heap`live
      ensures Valid() && slots == old(slots) && Outside() == old(Outside())
      ensures contents == old(contents) - {key}
    {
      hide PowerOfTwo, Good, MapBlocks, Backed, Foreign, LoadThreshold;
      GoodBury(slots[..], hash, contents, length, tombstones, i);
      ReleaseSlot(i, Tombstone);
      length := length - 1;
      tombstones := tombstones + 1;
      contents := contents - {key};
    }

    /** sm_remove. */
    method Remove(key: Text) returns (removed: bool)
      requires Valid()
      modifies this, slots, heap`live
      ensures Valid() && slots == old(slots) && Outside() == old(Outside())
      ensures removed == (key in old(contents)) && contents == old(contents) - {key}
    {
      hide PowerOfTwo, Good, MapBlocks, Backed, Foreign, Shaped, HoldsKey;
      var found, _ := FindIndex(key);
      removed := found.Some?;
      if removed {
        Bury(key, found.value);
      } else {
        assert contents - {key} == contents;
      }
    }

    /** The loop of sm_clear. */
    method ReleaseAll()
      requires heap.Valid() && Backed(heap.live, Footprint())
      modifies slots, heap`live
      ensures heap.Valid() && Backed(heap.live, Footprint()) && Outside() == old(Outside())
      ensures forall j :: 0 <= j < slots.Length ==> !slots[j].Occupied?
    {
      hide Backed, Foreign, MapBlocks;
      var index := 0;
      while index < slots.Length
        invariant index <= slots.Length && heap.Valid()
        invariant Backed(heap.live, Footprint()) && Outside() == old(Outside())
        invariant forall j :: 0 <= j < index ==> !slots[j].Occupied?
      {
        if slots[index].Occupied? {
          ReleaseSlot(index, Empty);
        }
        index := index + 1;
      }
    }

    /** sm_clear: releases every entry and keeps the slot array. */
    method Clear()
      requires Valid()
      modifies this, slots, heap`live
      ensures Valid() && slots == old(slots) && Outside() == old(Outside())
      ensures contents == map[] && Footprint() == Owned(slotsBlock) && slotsBlock == old(slotsBlock)
    {
      hide PowerOfTwo, Good, Backed, Foreign, MapBlocks, Owned;
      ReleaseAll();
      ghost var t := slots[..];
      NothingOwned(t);
      forall i | 0 <= i < slots.Length {
        slots[i] := Empty;
      }
      length, tombstones, contents := 0, 0, map[];
      GoodEmpty(slots[..], hash);
      SameBooks(slotsBlock, t, slots[..]);
    }

    /** sm_destroy leaves no allocation of the map behind. */
    method Destroy()
      requires Valid()
      modifies this, slots, heap`live
      ensures Valid() && contents == map[] && Footprint() == multiset{}
      ensures multiset(heap.live) == old(Outside())
    {
      hide PowerOfTwo, Good, Backed, Foreign, MapBlocks, Owned, Without;
      Clear();
      GoodStart(hash);
      LastBlock(heap.live, slotsBlock);
      heap.Free(slotsBlock);
      slots := new Slot[0];
      assert slots[..] == [];
      slotsBlock, length, tombstones := None, 0, 0;
    }
  }

  lemma {:induction false} FailureIsRefusal(m: StringMap)
    requires m.Valid()
    ensures m.heap.failed ==> m.heap.mayRefuse
  {
  }

  lemma {:induction false} ThresholdBelow(capacity: nat)
    ensures LoadThreshold(capacity) <= capacity
  {
  }

  lemma {:induction false} InitialPowers(n: nat)
    ensures PowerOfTwo(INITIAL_CAPACITY)
    ensures n > 0 && PowerOfTwo(n) ==> PowerOfTwo(n * 2)
  {
    assert PowerOfTwo(2) && PowerOfTwo(4) && PowerOfTwo(8);
  }

  // ---------- the books ----------

  function BlockOf(value: Value): Option<nat> {
    if value.Value? then value.block else None
  }

  /** The live allocations once `block` has been freed. */
  ghost function Without(live: set<nat>, block: Option<nat>): set<nat> {
    if block.Some? then live - {block.value} else live
  }

  lemma {:induction false} MapTakes(live: set<nat>, owned: multiset<nat>, b: nat)
    requires owned <= multiset(live) && b !in live
    ensures owned + multiset{b} <= multiset(live + {b})
    ensures multiset(live + {b}) - (owned + multiset{b}) == multiset(live) - owned
  {
  }

  lemma {:induction false} MapDrops(live: set<nat>, owned: multiset<nat>, block: Option<nat>)
    requires owned <= multiset(live) && Owned(block) <= owned
    ensures block.Some? ==> block.value in live
    ensures var live' := Without(live, block);
            && multiset(live') == multiset(live) - Owned(block)
            && owned - Owned(block) <= multiset(live')
            && multiset(live') - (owned - Owned(block)) == multiset(live) - owned
  {
  }

  lemma {:induction false} SwapSlotArrays(live: set<nat>, oldBlock: Option<nat>, t: Table, b: nat, moved: Table)
    requires Backed(live, MapBlocks(oldBlock, t)) && b !in live && Blocks(moved) == Blocks(t)
    ensures oldBlock.Some? ==> oldBlock.value in live + {b}
    ensures var live' := Without(live + {b}, oldBlock);
            && Backed(live', MapBlocks(Some(b), moved))
            && Foreign(live', MapBlocks(Some(b), moved)) == Foreign(live, MapBlocks(oldBlock, t))
  {
    hide Blocks;
    var owned := Owned(oldBlock) + Blocks(t);
    MapTakes(live, owned, b);
    MapDrops(live + {b}, owned + multiset{b}, oldBlock);
    assert owned + multiset{b} - Owned(oldBlock) == Owned(Some(b)) + Blocks(t);
  }

  lemma {:induction false} ReplaceBooks(live: set<nat>, block: Option<nat>, t: Table, i: nat, value: Value)
    requires Backed(live, MapBlocks(block, t)) && i < |t| && t[i].Occupied?
    requires ValueBlocks(value) <= Foreign(live, MapBlocks(block, t))
    ensures ValueBlocks(t[i].value) <= multiset(live)
    ensures var live', t' := Without(live, BlockOf(t[i].value)), t[i := t[i].(value := value)];
            && Backed(live', MapBlocks(block, t'))
            && Foreign(live', MapBlocks(block, t')) == Foreign(live, MapBlocks(block, t)) - ValueBlocks(value)
  {
    hide Blocks, SlotBlocks, ValueBlocks;
    var slot, gone, owned := t[i].(value := value), t[i].value, MapBlocks(block, t);
    BlocksUpdate(t, i, slot);
    SwapValue(t[i], value);
    SwapOut(Owned(block), Blocks(t), SlotBlocks(t[i]), ValueBlocks(gone), ValueBlocks(value));
    DropValue(live, owned, gone);
    MapAbsorbs(Without(live, BlockOf(gone)), owned - ValueBlocks(gone), ValueBlocks(value));
  }

  lemma {:induction false} DropValue(live: set<nat>, owned: multiset<nat>, gone: Value)
    requires owned <= multiset(live) && ValueBlocks(gone) <= owned
    ensures ValueBlocks(gone) <= multiset(live)
    ensures owned - ValueBlocks(gone) <= multiset(Without(live, BlockOf(gone)))
    ensures multiset(Without(live, BlockOf(gone))) - (owned - ValueBlocks(gone)) == multiset(live) - owned
  {
    MapDrops(live, owned, BlockOf(gone));
  }

  lemma {:induction false} SwapOut(base: multiset<nat>, blocks: multiset<nat>, slot: multiset<nat>, gone: multiset<nat>,
                                   come: multiset<nat>)
    requires gone <= slot <= blocks
    ensures gone <= base + blocks
    ensures base + (blocks - slot + (slot - gone + come)) == base + blocks - gone + come
  {
  }

  lemma {:induction false} MapAbsorbs(live: set<nat>, owned: multiset<nat>, come: multiset<nat>)
    requires owned <= multiset(live) && come <= multiset(live) - owned
    ensures owned + come <= multiset(live)
    ensures multiset(live) - (owned + come) == multiset(live) - owned - come
  {
  }

  lemma {:induction false} ForeignTakes(live: set<nat>, owned: multiset<nat>, b: nat)
    requires Backed(live, owned) && b !in live
    ensures Backed(live + {b}, owned) && Foreign(live + {b}, owned) == Foreign(live, owned) + Owned(Some(b))
  {
  }

  lemma {:induction false} ForeignDropsBlock(live: set<nat>, owned: multiset<nat>, block: Option<nat>,
                                             rest: multiset<nat>)
    requires Backed(live, owned) && Foreign(live, owned) == rest + Owned(block)
    ensures block.Some? ==> block.value in live
    ensures Backed(Without(live, block), owned) && Foreign(Without(live, block), owned) == rest
  {
    assert block.Some? ==> block.value in Foreign(live, owned);
    assert multiset(live) == owned + (rest + Owned(block));
    assert multiset(Without(live, block)) == owned + rest;
  }

  lemma {:induction false} ForeignDrops(live: set<nat>, owned: multiset<nat>, value: Value)
    requires Backed(live, owned) && ValueBlocks(value) <= Foreign(live, owned)
    ensures ValueBlocks(value) <= multiset(live)
    ensures Backed(Without(live, BlockOf(value)), owned)
    ensures Foreign(Without(live, BlockOf(value)), owned) == Foreign(live, owned) - ValueBlocks(value)
  {
    ForeignDropsBlock(live, owned, BlockOf(value), Foreign(live, owned) - ValueBlocks(value));
  }

  lemma {:induction false} KeyAndValue(outside: multiset<nat>, code: nat, key: Text, keyBlock: Option<nat>,
                                       value: Value)
    requires ValueBlocks(value) <= outside
    ensures SlotBlocks(Occupied(code, key, keyBlock, value)) <= outside + Owned(keyBlock)
    ensures outside + Owned(keyBlock) - SlotBlocks(Occupied(code, key, keyBlock, value)) == outside - ValueBlocks(value)
    ensures outside + Owned(None) == outside
    ensures ValueBlocks(value) <= outside + Owned(keyBlock)
  {
  }

  lemma {:induction false} FillBooks(live: set<nat>, block: Option<nat>, t: Table, i: nat, slot: Slot)
    requires Backed(live, MapBlocks(block, t)) && i < |t|
    requires Blocks(t[i := slot]) == Blocks(t) + SlotBlocks(slot)
    requires SlotBlocks(slot) <= Foreign(live, MapBlocks(block, t))
    ensures Backed(live, MapBlocks(block, t[i := slot]))
    ensures Foreign(live, MapBlocks(block, t[i := slot])) == Foreign(live, MapBlocks(block, t)) - SlotBlocks(slot)
  {
    hide Blocks, SlotBlocks;
    assert MapBlocks(block, t[i := slot]) == MapBlocks(block, t) + SlotBlocks(slot);
    MapAbsorbs(live, MapBlocks(block, t), SlotBlocks(slot));
  }

  lemma {:induction false} OwnedNothing(outside: multiset<nat>)
    ensures Owned(None) == multiset{} && outside + Owned(None) == outside && outside + multiset{} == outside
    ensures outside - multiset{} == outside
    ensures forall v: Value ::
              ValueBlocks(v) <= outside + ValueBlocks(v) && outside + ValueBlocks(v) - ValueBlocks(v) == outside
  {
  }

  lemma {:induction false} ReleaseBooks(live: set<nat>, block: Option<nat>, t: Table, i: nat, left: Slot)
    requires Backed(live, MapBlocks(block, t)) && i < |t| && t[i].Occupied? && !left.Occupied?
    ensures t[i].keyBlock.Some? ==> t[i].keyBlock.value in live
    ensures ValueBlocks(t[i].value) <= multiset(Without(live, t[i].keyBlock))
    ensures var live', t' := Without(Without(live, t[i].keyBlock), BlockOf(t[i].value)), t[i := left];
            && Backed(live', MapBlocks(block, t'))
            && Foreign(live', MapBlocks(block, t')) == Foreign(live, MapBlocks(block, t))
  {
    hide Blocks;
    BlocksUpdate(t, i, left);
    var owned, key, value := MapBlocks(block, t), t[i].keyBlock, t[i].value;
    TakeOut(Owned(block), Blocks(t), Owned(key), ValueBlocks(value));
    MapDrops(live, owned, key);
    DropValue(Without(live, key), owned - Owned(key), value);
  }

  lemma {:induction false} TakeOut(base: multiset<nat>, blocks: multiset<nat>, first: multiset<nat>,
                                   second: multiset<nat>)
    requires first + second <= blocks
    ensures first <= base + blocks && second <= base + blocks - first
    ensures base + blocks - first - second == base + (blocks - (first + second) + multiset{})
  {
  }

  lemma {:induction false} NothingOwned(t: Table)
    requires forall i :: 0 <= i < |t| ==> !t[i].Occupied?
    ensures Blocks(t) == multiset{}
  {
    if t != [] {
      NothingOwned(t[..|t| - 1]);
    }
  }

  lemma {:induction false} GoodEmpty(t: Table, hash: Hash)
    requires forall i :: 0 <= i < |t| ==> t[i] == Empty
    ensures Good(t, hash, map[], 0, 0) && Blocks(t) == multiset{}
  {
    AllEmpty(t);
  }

  lemma {:induction false} SameBooks(block: Option<nat>, a: Table, b: Table)
    requires Blocks(a) == Blocks(b) == multiset{}
    ensures MapBlocks(block, a) == MapBlocks(block, b) == Owned(block)
  {
  }

  lemma {:induction false} LastBlock(live: set<nat>, block: Option<nat>)
    requires Backed(live, Owned(block))
    ensures block.Some? ==> block.value in live
    ensures multiset(Without(live, block)) == Foreign(live, Owned(block))
    ensures MapBlocks(None, []) == multiset{} && Backed(Without(live, block), multiset{})
  {
    MapDrops(live, Owned(block), block);
  }
}
