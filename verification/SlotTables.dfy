/** The slot table of src/collection/string_map.c as a value: what linear probing keeps. */
module SlotTables {
  import opened Texts

  // ---------- masking ----------

  /** Bitwise and of two naturals. */
  function BitAnd(a: nat, b: nat): nat {
    if a == 0 || b == 0 then 0 else (a % 2) * (b % 2) + 2 * BitAnd(a / 2, b / 2)
  }

  predicate PowerOfTwo(n: nat) {
    n == 1 || (n > 1 && n % 2 == 0 && PowerOfTwo(n / 2))
  }

  /** Masking with a power of two less one is the remainder. */
  lemma {:induction false} MaskIsRemainder(a: nat, n: nat)
    requires PowerOfTwo(n)
    ensures BitAnd(a, n - 1) == a % n
  {
    if n > 1 {
      var half := n / 2;
      MaskIsRemainder(a / 2, half);
      HalfRemainder(a, half);
      assert (n - 1) / 2 == half - 1 && (n - 1) % 2 == 1 && n == 2 * half;
      if a == 0 {
        assert a % n == 0;
      }
    }
  }

  lemma {:induction false} HalfRemainder(a: nat, half: nat)
    requires half > 0
    ensures a % (2 * half) == a % 2 + 2 * (a / 2 % half)
  {
    var q, r := a / 2 / half, a / 2 % half;
    assert a / 2 == q * half + r;
    assert a == 2 * (q * half) + (a % 2 + 2 * r);
    assert 2 * (q * half) == q * (2 * half);
    RemainderIs(a, 2 * half, q, a % 2 + 2 * r);
  }

  lemma {:induction false} RemainderIs(a: nat, n: nat, q: nat, r: nat)
    requires n > 0 && r < n && a == q * n + r
    ensures a % n == r
  {
    var k := a / n - q;
    assert a == (a / n) * n + a % n;
    assert k * n == (a / n) * n - q * n;
    if k >= 1 {
      MultipleBound(k - 1, n);
    } else if k <= -1 {
      MultipleBound(-1 - k, n);
    }
  }

  lemma {:induction false} MultipleBound(k: nat, n: nat)
    ensures (k + 1) * n >= n && (-1 - k) * n <= 0 - n
  {
    assert k * n >= 0;
    assert (k + 1) * n == k * n + n;
    assert (-1 - k) * n == -(k * n) - n;
  }

  // ---------- slots ----------

  /** What a value means to the caller. */
  datatype Item =
    | IntItem(i: int)
    | BoolItem(b: bool)
    | StringItem(text: Text)
    | PointerItem(p: nat)
    | ObjectItem(bytes: Text)

  /** A value as the map stores it; `block` is the allocation it owns, if any. */
  datatype Value = NoValue | Value(item: Item, block: Option<nat>)

  datatype Slot =
    | Empty
    | Tombstone
    | Occupied(hash: nat, key: Text, keyBlock: Option<nat>, value: Value)

  type Table = seq<Slot>

  type Hash = Text -> nat

  function Home(hash: nat, capacity: nat): (i: nat)
    requires capacity > 0
    ensures i < capacity
  {
    hash % capacity
  }

  function Next(i: nat, capacity: nat): nat {
    if i + 1 == capacity then 0 else i + 1
  }

  /** `hash & (capacity - 1)`. */
  function MaskedHome(hash: nat, capacity: nat): (i: nat)
    requires PowerOfTwo(capacity)
    ensures i == Home(hash, capacity)
  {
    MaskIsRemainder(hash, capacity);
    BitAnd(hash, capacity - 1)
  }

  /** `(i + 1) & (capacity - 1)`. */
  function MaskedNext(i: nat, capacity: nat): (j: nat)
    requires PowerOfTwo(capacity) && i < capacity
    ensures j == Next(i, capacity) && j < capacity
  {
    MaskIsRemainder(i + 1, capacity);
    NextIsRemainder(i, capacity);
    BitAnd(i + 1, capacity - 1)
  }

  lemma {:induction false} NextIsRemainder(i: nat, capacity: nat)
    requires i < capacity
    ensures (i + 1) % capacity == Next(i, capacity)
  {
  }

  /** How many steps linear probing takes from `home` to `p`. */
  function Offset(home: nat, p: nat, capacity: nat): int {
    if p >= home then p - home else p + capacity - home
  }

  // ---------- the probing invariant ----------

  ghost predicate HashesTrue(t: Table, hash: Hash) {
    forall i :: 0 <= i < |t| && t[i].Occupied? ==> t[i].hash == hash(t[i].key) && t[i].value.Value?
  }

  ghost predicate KeysUnique(t: Table) {
    forall i, j :: 0 <= i < |t| && 0 <= j < |t| && t[i].Occupied? && t[j].Occupied? && t[i].key == t[j].key ==> i == j
  }

  /** No slot that was never used lies between `home` and slot `i`. */
  ghost predicate Reachable(t: Table, home: nat, i: nat) {
    forall p: nat :: p < |t| && Offset(home, p, |t|) < Offset(home, i, |t|) ==> t[p] != Empty
  }

  ghost predicate AllReachable(t: Table) {
    forall i: nat :: i < |t| && t[i].Occupied? ==> Reachable(t, Home(t[i].hash, |t|), i)
  }

  ghost predicate Probed(t: Table, hash: Hash) {
    HashesTrue(t, hash) && KeysUnique(t) && AllReachable(t)
  }

  predicate HoldsKey(t: Table, key: Text, i: nat) {
    i < |t| && t[i].Occupied? && t[i].key == key
  }

  ghost predicate LacksKey(t: Table, key: Text) {
    forall i: nat :: !HoldsKey(t, key, i)
  }

  /** The search has looked at the first `n` slots from `home` on without meeting the key or a
      slot that was never used. */
  ghost predicate Searched(t: Table, home: nat, key: Text, n: nat) {
    forall p: nat :: p < |t| && Offset(home, p, |t|) < n ==> t[p] != Empty && !HoldsKey(t, key, p)
  }

  lemma {:induction false} ProbedHash(t: Table, hash: Hash, i: nat)
    requires Probed(t, hash) && i < |t| && t[i].Occupied?
    ensures t[i].hash == hash(t[i].key) && t[i].value.Value?
  {
  }

  /** Every tombstone on the way from `home` comes after a never-used slot. */
  ghost predicate NoTombstoneFirst(t: Table, home: nat) {
    forall p: nat :: p < |t| && t[p] == Tombstone ==> !Reachable(t, home, p)
  }

  /** The first `n` slots from `home` on are all occupied. */
  ghost predicate OccupiedRun(t: Table, home: nat, n: nat) {
    forall p: nat :: p < |t| && Offset(home, p, |t|) < n ==> t[p].Occupied?
  }

  lemma {:induction false} SearchStep(t: Table, home: nat, key: Text, n: nat, i: nat)
    requires home < |t| && i < |t| && Offset(home, i, |t|) == n && Searched(t, home, key, n)
    ensures Reachable(t, home, i)
    ensures t[i] != Empty && !HoldsKey(t, key, i) ==> Searched(t, home, key, n + 1)
  {
  }

  lemma {:induction false} RunStep(t: Table, home: nat, n: nat, i: nat)
    requires home < |t| && i < |t| && Offset(home, i, |t|) == n && OccupiedRun(t, home, n)
    ensures Reachable(t, home, i)
    ensures t[i].Occupied? ==> OccupiedRun(t, home, n + 1)
  {
  }

  lemma {:induction false} RunStart(t: Table, home: nat, key: Text)
    requires home < |t|
    ensures OccupiedRun(t, home, 0) && Searched(t, home, key, 0)
  {
  }

  /** A run of occupied slots ends before any slot that was never used. */
  lemma {:induction false} RunBounded(t: Table, home: nat, n: nat, e: nat)
    requires OccupiedRun(t, home, n) && home < |t| && e < |t| && t[e] == Empty
    ensures n <= Offset(home, e, |t|) < |t|
  {
  }

  /** Where a free slot ends a run of occupied ones and no tombstone comes first, it was never used. */
  lemma {:induction false} RunEndsEmpty(t: Table, home: nat, i: nat)
    requires NoTombstoneFirst(t, home) && i < |t| && Reachable(t, home, i) && !t[i].Occupied?
    ensures t[i] == Empty
  {
  }

  lemma {:induction false} RunThenEmpty(t: Table, home: nat, n: nat, stop: nat)
    requires OccupiedRun(t, home, n) && home < |t|
    requires n >= |t| || (stop < |t| && t[stop] == Empty && Offset(home, stop, |t|) == n)
    ensures NoTombstoneFirst(t, home)
  {
    forall p: nat | p < |t| && t[p] == Tombstone
      ensures !Reachable(t, home, p)
    {
      assert Offset(home, p, |t|) < |t|;
      assert n <= Offset(home, p, |t|);
    }
  }

  /** A search that meets a never-used slot, or has seen every slot, has shown the key absent. */
  lemma {:induction false} SearchedMeansAbsent(t: Table, hash: Hash, key: Text, n: nat, stop: nat)
    requires Probed(t, hash) && t != [] && Searched(t, Home(hash(key), |t|), key, n)
    requires n >= |t| || (stop < |t| && t[stop] == Empty && Offset(Home(hash(key), |t|), stop, |t|) == n)
    ensures LacksKey(t, key)
  {
    forall i: nat
      ensures !HoldsKey(t, key, i)
    {
      if i < |t| && t[i].Occupied? && t[i].key == key {
        assert Reachable(t, Home(t[i].hash, |t|), i);
        assert t[i] != Empty;
      }
    }
  }

  /** Filling a free slot that its key's probing reaches keeps the invariant. */
  lemma {:induction false} FillKeepsProbed(t: Table, hash: Hash, i: nat, slot: Slot)
    requires Probed(t, hash) && i < |t| && !t[i].Occupied?
    requires slot.Occupied? && slot.hash == hash(slot.key) && slot.value.Value? && LacksKey(t, slot.key)
    requires Reachable(t, Home(slot.hash, |t|), i)
    ensures Probed(t[i := slot], hash)
  {
    var t' := t[i := slot];
    forall a, b | 0 <= a < |t'| && 0 <= b < |t'| && t'[a].Occupied? && t'[b].Occupied? && t'[a].key == t'[b].key
      ensures a == b
    {
      assert !HoldsKey(t, slot.key, a) && !HoldsKey(t, slot.key, b);
    }
    forall j: nat | j < |t'| && t'[j].Occupied?
      ensures Reachable(t', Home(t'[j].hash, |t'|), j)
    {
      assert j != i ==> Reachable(t, Home(t[j].hash, |t|), j);
    }
  }

  /** Replacing the value of an occupied slot keeps the invariant. */
  lemma {:induction false} ReplaceKeepsProbed(t: Table, hash: Hash, i: nat, value: Value)
    requires Probed(t, hash) && i < |t| && t[i].Occupied? && value.Value?
    ensures Probed(t[i := t[i].(value := value)], hash)
  {
    var t' := t[i := t[i].(value := value)];
    forall j: nat | j < |t'| && t'[j].Occupied?
      ensures Reachable(t', Home(t'[j].hash, |t'|), j)
    {
      assert Reachable(t, Home(t[j].hash, |t|), j);
    }
  }

  /** Leaving a tombstone keeps the invariant. */
  lemma {:induction false} BuryKeepsProbed(t: Table, hash: Hash, i: nat)
    requires Probed(t, hash) && i < |t|
    ensures Probed(t[i := Tombstone], hash)
  {
    var t' := t[i := Tombstone];
    forall j: nat | j < |t'| && t'[j].Occupied?
      ensures Reachable(t', Home(t'[j].hash, |t'|), j)
    {
      assert Reachable(t, Home(t[j].hash, |t|), j);
    }
  }

  // ---------- counting ----------

  function Occupancy(t: Table): nat {
    if t == [] then 0 else Occupancy(t[..|t| - 1]) + (if t[|t| - 1].Occupied? then 1 else 0)
  }

  function Burials(t: Table): nat {
    if t == [] then 0 else Burials(t[..|t| - 1]) + (if t[|t| - 1].Tombstone? then 1 else 0)
  }

  function One(b: bool): nat {
    if b then 1 else 0
  }

  lemma {:induction false} CountUpdate(t: Table, i: nat, slot: Slot)
    requires i < |t|
    ensures Occupancy(t[i := slot]) == Occupancy(t) - One(t[i].Occupied?) + One(slot.Occupied?)
    ensures Burials(t[i := slot]) == Burials(t) - One(t[i].Tombstone?) + One(slot.Tombstone?)
  {
    var last := |t| - 1;
    if i == last {
      assert t[i := slot][..last] == t[..last];
    } else {
      assert t[i := slot][..last] == t[..last][i := slot];
      CountUpdate(t[..last], i, slot);
    }
  }

  lemma {:induction false} AllEmpty(t: Table)
    requires forall i :: 0 <= i < |t| ==> t[i] == Empty
    ensures Occupancy(t) == 0 && Burials(t) == 0 && Blocks(t) == multiset{}
  {
    if t != [] {
      AllEmpty(t[..|t| - 1]);
    }
  }

  /** Below full load there is a slot that was never used. */
  lemma {:induction false} EmptyExists(t: Table) returns (e: nat)
    requires Occupancy(t) + Burials(t) < |t|
    ensures e < |t| && t[e] == Empty
  {
    var last := |t| - 1;
    if t[last] == Empty {
      e := last;
    } else {
      e := EmptyExists(t[..last]);
    }
  }

  // ---------- ownership ----------

  function Owned(block: Option<nat>): multiset<nat> {
    if block.Some? then multiset{block.value} else multiset{}
  }

  function ValueBlocks(v: Value): multiset<nat> {
    if v.Value? then Owned(v.block) else multiset{}
  }

  function SlotBlocks(s: Slot): multiset<nat> {
    if s.Occupied? then Owned(s.keyBlock) + ValueBlocks(s.value) else multiset{}
  }

  /** The allocations the slots own, each as often as it is owned. */
  function Blocks(t: Table): multiset<nat> {
    if t == [] then multiset{} else Blocks(t[..|t| - 1]) + SlotBlocks(t[|t| - 1])
  }

  lemma {:induction false} BlocksUpdate(t: Table, i: nat, slot: Slot)
    requires i < |t|
    ensures SlotBlocks(t[i]) <= Blocks(t)
    ensures Blocks(t[i := slot]) == Blocks(t) - SlotBlocks(t[i]) + SlotBlocks(slot)
  {
    hide SlotBlocks;
    var last := |t| - 1;
    if i == last {
      assert t[i := slot][..last] == t[..last];
    } else {
      assert t[i := slot][..last] == t[..last][i := slot];
      BlocksUpdate(t[..last], i, slot);
    }
  }

  // ---------- rehashing ----------

  /** Two tables with the same occupied slots, wherever they sit. */
  ghost predicate SameEntries(a: Table, b: Table) {
    && (forall i :: 0 <= i < |a| && a[i].Occupied? ==> a[i] in b)
    && (forall i :: 0 <= i < |b| && b[i].Occupied? ==> b[i] in a)
  }

  /** What holds when the first `n` slots of `t` have been moved into `moved`. */
  ghost predicate Moving(t: Table, n: nat, moved: Table, hash: Hash)
    requires n <= |t|
  {
    && Probed(moved, hash)
    && SameEntries(t[..n], moved)
    && Occupancy(moved) == Occupancy(t[..n]) && Burials(moved) == 0
    && Blocks(moved) == Blocks(t[..n])
  }

  lemma {:induction false} MovingStart(t: Table, moved: Table, hash: Hash)
    requires forall i :: 0 <= i < |moved| ==> moved[i] == Empty
    ensures Moving(t, 0, moved, hash)
  {
    AllEmpty(moved);
    assert t[..0] == [];
  }

  lemma {:induction false} MovingSkip(t: Table, n: nat, moved: Table, hash: Hash)
    requires n < |t| && Moving(t, n, moved, hash) && !t[n].Occupied?
    ensures Moving(t, n + 1, moved, hash)
  {
    hide Probed;
    assert t[..n + 1][..n] == t[..n];
    assert t[..n + 1] == t[..n] + [t[n]];
  }

  lemma {:induction false} MovingLacks(t: Table, n: nat, moved: Table, hash: Hash)
    requires n < |t| && Moving(t, n, moved, hash) && KeysUnique(t) && t[n].Occupied?
    ensures LacksKey(moved, t[n].key)
  {
    hide Probed;
    forall i: nat
      ensures !HoldsKey(moved, t[n].key, i)
    {
      if i < |moved| && moved[i].Occupied? {
        assert moved[i] in t[..n];
      }
    }
  }

  lemma {:induction false} SameEntriesFill(a: Table, slot: Slot, moved: Table, i: nat)
    requires SameEntries(a, moved) && i < |moved| && moved[i] == Empty
    ensures SameEntries(a + [slot], moved[i := slot])
  {
    var a', moved' := a + [slot], moved[i := slot];
    assert moved'[i] == slot && a'[|a|] == slot;
    forall j | 0 <= j < |a'| && a'[j].Occupied?
      ensures a'[j] in moved'
    {
      if j < |a| {
        var k :| 0 <= k < |moved| && moved[k] == a[j];
        assert moved'[k] == a[j];
      }
    }
    forall j | 0 <= j < |moved'| && moved'[j].Occupied?
      ensures moved'[j] in a'
    {
      if j != i {
        assert moved[j] in a;
      }
    }
  }

  lemma {:induction false} MovingFill(t: Table, n: nat, moved: Table, hash: Hash, i: nat)
    requires n < |t| && Moving(t, n, moved, hash) && Probed(t, hash) && t[n].Occupied?
    requires i < |moved| && moved[i] == Empty && Reachable(moved, Home(t[n].hash, |moved|), i)
    ensures Moving(t, n + 1, moved[i := t[n]], hash)
  {
    MovingLacks(t, n, moved, hash);
    FillKeepsProbed(moved, hash, i, t[n]);
    hide Probed, SlotBlocks, Reachable, LacksKey, SameEntries, Occupancy, Burials, Blocks;
    SameEntriesFill(t[..n], t[n], moved, i);
    CountUpdate(moved, i, t[n]);
    BlocksUpdate(moved, i, t[n]);
    EmptyOwnsNothing();
    PrefixCounts(t, n);
    assert Blocks(moved) - multiset{} == Blocks(moved);
  }

  lemma {:induction false} PrefixCounts(t: Table, n: nat)
    requires n < |t|
    ensures t[..n + 1] == t[..n] + [t[n]]
    ensures Occupancy(t[..n + 1]) == Occupancy(t[..n]) + One(t[n].Occupied?)
    ensures Blocks(t[..n + 1]) == Blocks(t[..n]) + SlotBlocks(t[n])
  {
    assert t[..n + 1][..n] == t[..n];
  }

  /** While slots are being moved, the new table never fills up. */
  lemma {:induction false} MovingLoad(t: Table, n: nat, moved: Table, hash: Hash)
    requires n <= |t| && Moving(t, n, moved, hash) && Occupancy(t) < |moved|
    ensures Occupancy(moved) + Burials(moved) < |moved|
  {
    OccupancyPrefix(t, n);
  }

  lemma {:induction false} OccupancyPrefix(t: Table, n: nat)
    requires n <= |t|
    ensures Occupancy(t[..n]) <= Occupancy(t)
    decreases |t| - n
  {
    if n == |t| {
      assert t[..n] == t;
    } else {
      OccupancyPrefix(t, n + 1);
      PrefixCounts(t, n);
    }
  }

  lemma {:induction false} MovingFree(t: Table, n: nat, moved: Table, hash: Hash, i: nat)
    requires n <= |t| && Moving(t, n, moved, hash) && i < |moved| && !moved[i].Occupied?
    ensures moved[i] == Empty
  {
    if moved[i].Tombstone? {
      BurialCounted(moved, i);
    }
  }

  lemma {:induction false} BurialCounted(t: Table, i: nat)
    requires i < |t| && t[i].Tombstone?
    ensures Burials(t) > 0
  {
    CountUpdate(t, i, Empty);
  }

  lemma {:induction false} EmptyOwnsNothing()
    ensures SlotBlocks(Empty) == multiset{} && SlotBlocks(Tombstone) == multiset{}
  {
  }

  lemma {:induction false} MovedRepresents(t: Table, moved: Table, m: map<Text, Item>)
    requires SameEntries(t, moved) && Represents(t, m)
    ensures Represents(moved, m)
  {
    forall j | 0 <= j < |moved| && moved[j].Occupied?
      ensures moved[j].value.Value? && Agrees(m, moved[j])
    {
      assert moved[j] in t;
    }
    forall k | k in m
      ensures !LacksKey(moved, k)
    {
      var i: nat :| HoldsKey(t, k, i);
      assert t[i] in moved;
      var j :| 0 <= j < |moved| && moved[j] == t[i];
      assert HoldsKey(moved, k, j);
    }
  }

  // ---------- the map a table stands for ----------

  predicate Agrees(m: map<Text, Item>, s: Slot)
    requires s.Occupied? && s.value.Value?
  {
    s.key in m && m[s.key] == s.value.item
  }

  ghost predicate Represents(t: Table, m: map<Text, Item>) {
    && (forall i :: 0 <= i < |t| && t[i].Occupied? ==> t[i].value.Value? && Agrees(m, t[i]))
    && (forall k :: k in m ==> !LacksKey(t, k))
  }

  lemma {:induction false} RepresentsLookup(t: Table, m: map<Text, Item>, key: Text)
    requires Represents(t, m)
    ensures LacksKey(t, key) <==> key !in m
  {
    if i: nat :| HoldsKey(t, key, i) {
      assert Agrees(m, t[i]);
    }
  }

  lemma {:induction false} RepresentsFound(t: Table, m: map<Text, Item>, key: Text, i: nat)
    requires Represents(t, m) && HoldsKey(t, key, i)
    ensures key in m && t[i].value.Value? && m[key] == t[i].value.item
  {
    assert Agrees(m, t[i]);
  }

  lemma {:induction false} NoSlotsLack(key: Text)
    ensures LacksKey([], key)
  {
  }

  lemma {:induction false} FillRepresents(t: Table, m: map<Text, Item>, i: nat, slot: Slot)
    requires Represents(t, m) && i < |t| && !t[i].Occupied?
    requires slot.Occupied? && slot.value.Value? && LacksKey(t, slot.key)
    ensures Represents(t[i := slot], m[slot.key := slot.value.item])
  {
    var t', m' := t[i := slot], m[slot.key := slot.value.item];
    forall j | 0 <= j < |t'| && t'[j].Occupied?
      ensures t'[j].value.Value? && Agrees(m', t'[j])
    {
      assert j != i ==> Agrees(m, t[j]) && !HoldsKey(t, slot.key, j);
    }
    forall k | k in m'
      ensures !LacksKey(t', k)
    {
      if k == slot.key {
        assert HoldsKey(t', k, i);
      } else {
        var j: nat :| HoldsKey(t, k, j);
        assert HoldsKey(t', k, j);
      }
    }
  }

  lemma {:induction false} ReplaceRepresents(t: Table, m: map<Text, Item>, i: nat, value: Value)
    requires Represents(t, m) && KeysUnique(t) && i < |t| && t[i].Occupied? && value.Value?
    ensures Represents(t[i := t[i].(value := value)], m[t[i].key := value.item])
  {
    var t', m' := t[i := t[i].(value := value)], m[t[i].key := value.item];
    forall j | 0 <= j < |t'| && t'[j].Occupied?
      ensures t'[j].value.Value? && Agrees(m', t'[j])
    {
      assert j != i ==> Agrees(m, t[j]) && t[j].key != t[i].key;
    }
    forall k | k in m'
      ensures !LacksKey(t', k)
    {
      var j: nat :| HoldsKey(t, k, j) || (k == t[i].key && j == i);
      assert HoldsKey(t', k, j);
    }
  }

  lemma {:induction false} BuryRepresents(t: Table, m: map<Text, Item>, i: nat)
    requires Represents(t, m) && KeysUnique(t) && i < |t| && t[i].Occupied?
    ensures Represents(t[i := Tombstone], m - {t[i].key})
  {
    var t', m' := t[i := Tombstone], m - {t[i].key};
    forall j | 0 <= j < |t'| && t'[j].Occupied?
      ensures t'[j].value.Value? && Agrees(m', t'[j])
    {
      assert Agrees(m, t[j]) && t[j].key != t[i].key;
    }
    forall k | k in m'
      ensures !LacksKey(t', k)
    {
      var j: nat :| HoldsKey(t, k, j);
      assert HoldsKey(t', k, j);
    }
  }

  /** The exact count: as many occupied slots as keys. */
  lemma {:induction false} OccupancyIsSize(t: Table, m: map<Text, Item>)
    requires Represents(t, m) && KeysUnique(t)
    ensures Occupancy(t) == |m|
  {
    if t == [] {
      assert forall k: Text :: LacksKey(t, k);
      assert m.Keys == {};
    } else {
      var last := |t| - 1;
      var rest := t[..last];
      if t[last].Occupied? {
        var key := t[last].key;
        assert Agrees(m, t[last]);
        DropLastRepresents(t, m, m - {key});
        OccupancyIsSize(rest, m - {key});
        assert m.Keys == (m - {key}).Keys + {key};
      } else {
        DropLastRepresents(t, m, m);
        OccupancyIsSize(rest, m);
      }
    }
  }

  lemma {:induction false} DropLastRepresents(t: Table, m: map<Text, Item>, m': map<Text, Item>)
    requires t != [] && Represents(t, m) && KeysUnique(t)
    requires m' == if t[|t| - 1].Occupied? then m - {t[|t| - 1].key} else m
    ensures Represents(t[..|t| - 1], m') && KeysUnique(t[..|t| - 1])
  {
    var last := |t| - 1;
    var rest := t[..last];
    forall j | 0 <= j < |rest| && rest[j].Occupied?
      ensures rest[j].value.Value? && Agrees(m', rest[j])
    {
      assert Agrees(m, t[j]);
    }
    forall k | k in m'
      ensures !LacksKey(rest, k)
    {
      var j: nat :| HoldsKey(t, k, j);
      assert HoldsKey(rest, k, j);
    }
  }

  // ---------- one step of the table as a whole ----------

  /** A probed table that stands for `m`, with its counts. */
  ghost predicate Good(t: Table, hash: Hash, m: map<Text, Item>, length: nat, tombstones: nat) {
    Probed(t, hash) && Represents(t, m) && length == Occupancy(t) && tombstones == Burials(t)
  }

  lemma {:induction false} GoodStart(hash: Hash)
    ensures Good([], hash, map[], 0, 0) && Blocks([]) == multiset{}
  {
  }

  lemma {:induction false} GoodSlot(t: Table, hash: Hash, m: map<Text, Item>, length: nat, tombstones: nat, i: nat)
    requires Good(t, hash, m, length, tombstones) && i < |t|
    ensures t[i].Occupied? ==> t[i].hash == hash(t[i].key) && t[i].value.Value?
                               && t[i].key in m && m[t[i].key] == t[i].value.item
    ensures t[i].Occupied? ==> length > 0
    ensures t[i].Tombstone? ==> tombstones > 0
    ensures SlotBlocks(t[i]) <= Blocks(t)
  {
    CountUpdate(t, i, Empty);
    BlocksUpdate(t, i, Empty);
    if t[i].Occupied? {
      RepresentsFound(t, m, t[i].key, i);
    }
  }

  lemma {:induction false} GoodReplace(t: Table, hash: Hash, m: map<Text, Item>, length: nat, tombstones: nat, i: nat,
                                       value: Value)
    requires Good(t, hash, m, length, tombstones) && i < |t| && t[i].Occupied? && value.Value?
    ensures Good(t[i := t[i].(value := value)], hash, m[t[i].key := value.item], length, tombstones)
  {
    var slot := t[i].(value := value);
    ReplaceKeepsProbed(t, hash, i, value);
    ReplaceRepresents(t, m, i, value);
    CountUpdate(t, i, slot);
  }

  lemma {:induction false} SwapValue(slot: Slot, value: Value)
    requires slot.Occupied?
    ensures SlotBlocks(slot.(value := value)) == SlotBlocks(slot) - ValueBlocks(slot.value) + ValueBlocks(value)
    ensures ValueBlocks(slot.value) <= SlotBlocks(slot)
  {
  }

  lemma {:induction false} GoodBury(t: Table, hash: Hash, m: map<Text, Item>, length: nat, tombstones: nat, i: nat)
    requires Good(t, hash, m, length, tombstones) && i < |t| && t[i].Occupied?
    ensures length > 0 && Good(t[i := Tombstone], hash, m - {t[i].key}, length - 1, tombstones + 1)
    ensures Blocks(t[i := Tombstone]) == Blocks(t) - SlotBlocks(t[i])
  {
    BuryKeepsProbed(t, hash, i);
    BuryRepresents(t, m, i);
    CountUpdate(t, i, Tombstone);
    BlocksUpdate(t, i, Tombstone);
  }

  lemma {:induction false} GoodFill(t: Table, hash: Hash, m: map<Text, Item>, length: nat, tombstones: nat, i: nat,
                                    slot: Slot)
    requires Good(t, hash, m, length, tombstones) && i < |t| && !t[i].Occupied?
    requires slot.Occupied? && slot.hash == hash(slot.key) && slot.value.Value? && slot.key !in m
    requires Reachable(t, Home(slot.hash, |t|), i)
    ensures t[i].Tombstone? ==> tombstones > 0
    ensures Good(t[i := slot], hash, m[slot.key := slot.value.item], length + 1,
                 if t[i].Tombstone? then tombstones - 1 else tombstones)
    ensures Blocks(t[i := slot]) == Blocks(t) + SlotBlocks(slot)
  {
    RepresentsLookup(t, m, slot.key);
    FillKeepsProbed(t, hash, i, slot);
    FillRepresents(t, m, i, slot);
    CountUpdate(t, i, slot);
    BlocksUpdate(t, i, slot);
    GoodSlot(t, hash, m, length, tombstones, i);
  }

  lemma {:induction false} GoodMove(t: Table, moved: Table, hash: Hash, m: map<Text, Item>, length: nat,
                                    tombstones: nat)
    requires Good(t, hash, m, length, tombstones) && Moving(t, |t|, moved, hash)
    ensures Good(moved, hash, m, length, 0) && Blocks(moved) == Blocks(t)
  {
    assert t[..|t|] == t;
    MovedRepresents(t, moved, m);
  }

  lemma {:induction false} GoodRoom(t: Table, hash: Hash, m: map<Text, Item>, length: nat, tombstones: nat)
    requires Good(t, hash, m, length, tombstones)
    ensures Probed(t, hash) && length == Occupancy(t) && tombstones == Burials(t) && length == |m| && Represents(t, m)
  {
    OccupancyIsSize(t, m);
  }
}
