/** Iterating over a map, and whole runs of map operations. */
module MapRuns {
  import opened Texts
  import opened SlotTables
  import opened StringMaps

  // ---------- iteration ----------

  datatype Entry = Entry(key: Text, item: Item)

  function EntryOf(s: Slot): seq<Entry> {
    if s.Occupied? && s.value.Value? then [Entry(s.key, s.value.item)] else []
  }

  /** The entries of a table in slot order. */
  function Entries(t: Table): seq<Entry> {
    if t == [] then [] else Entries(t[..|t| - 1]) + EntryOf(t[|t| - 1])
  }

  /** The map after setting a list of entries one after the other. */
  function PutAll(m: map<Text, Item>, es: seq<Entry>): map<Text, Item> {
    if es == [] then m
    else PutAll(m, es[..|es| - 1])[es[|es| - 1].key := es[|es| - 1].item]
  }

  lemma {:induction false} PutAllSnoc(m: map<Text, Item>, es: seq<Entry>, e: Entry)
    ensures PutAll(m, es + [e]) == PutAll(m, es)[e.key := e.item]
  {
    assert (es + [e])[..|es|] == es;
  }

  function MapOf(es: seq<Entry>): map<Text, Item> {
    PutAll(map[], es)
  }

  /** Whatever the slot layout, the entries are those of the map, each once. */
  lemma {:induction false} EntriesAreContents(t: Table, m: map<Text, Item>)
    requires Represents(t, m) && KeysUnique(t)
    ensures MapOf(Entries(t)) == m && |Entries(t)| == |m|
  {
    hide LacksKey, KeysUnique, Represents, PutAll;
    if t == [] {
      NothingStored(m);
    } else {
      var last, rest := t[|t| - 1], t[..|t| - 1];
      if last.Occupied? {
        LastAgrees(t, m);
        DropLastRepresents(t, m, m - {last.key});
        EntriesAreContents(rest, m - {last.key});
        PutAllSnoc(map[], Entries(rest), Entry(last.key, last.value.item));
        PutBack(m, last.key);
      } else {
        DropLastRepresents(t, m, m);
        EntriesAreContents(rest, m);
        assert Entries(rest) + [] == Entries(rest);
      }
    }
  }

  lemma {:induction false} NothingStored(m: map<Text, Item>)
    requires Represents([], m)
    ensures m == map[] && MapOf([]) == map[]
  {
    assert forall k: Text :: LacksKey([], k);
    assert m.Keys == {};
  }

  lemma {:induction false} LastAgrees(t: Table, m: map<Text, Item>)
    requires t != [] && Represents(t, m) && t[|t| - 1].Occupied?
    ensures var last := t[|t| - 1];
            last.value.Value? && last.key in m && m[last.key] == last.value.item
  {
    assert Agrees(m, t[|t| - 1]);
  }

  lemma {:induction false} PutBack(m: map<Text, Item>, key: Text)
    requires key in m
    ensures m == (m - {key})[key := m[key]] && |m| == |m - {key}| + 1
  {
    assert m.Keys == (m - {key}).Keys + {key};
  }

  lemma {:induction false} EntriesSnoc(t: Table, n: nat)
    requires n < |t|
    ensures Entries(t[..n + 1]) == Entries(t[..n]) + EntryOf(t[n])
  {
    assert t[..n + 1][..n] == t[..n];
  }

  /** sm_next_const: the next occupied slot from the iterator on, and the advanced iterator. */
  method NextEntry(m: StringMap, cursor: nat) returns (entry: Option<Entry>, advanced: nat)
    requires m.Valid() && cursor <= m.slots.Length
    ensures cursor <= advanced <= m.slots.Length
    ensures entry.Some? ==> cursor < advanced
    ensures entry.Some? ==> Entries(m.slots[..advanced]) == Entries(m.slots[..cursor]) + [entry.value]
    ensures entry.None? ==> Entries(m.slots[..]) == Entries(m.slots[..cursor])
  {
    hide Good, PowerOfTwo, Backed, Foreign, MapBlocks, Entries;
    advanced := cursor;
    ghost var t := m.slots[..];
    while advanced < m.slots.Length
      invariant cursor <= advanced <= m.slots.Length
      invariant Entries(t[..advanced]) == Entries(t[..cursor])
    {
      var slot := m.slots[advanced];
      EntriesSnoc(t, advanced);
      GoodSlot(t, m.hash, m.contents, m.length, m.tombstones, advanced);
      assert t[..advanced + 1] == m.slots[..advanced + 1] && t[..cursor] == m.slots[..cursor];
      advanced := advanced + 1;
      if slot.Occupied? {
        return Some(Entry(slot.key, slot.value.item)), advanced;
      }
    }
    assert t[..advanced] == t;
    return None, advanced;
  }

  // ---------- runs ----------

  datatype Command =
    | SetText(key: Text, text: Text)
    | SetItem(key: Text, item: Item)
    | Delete(key: Text)
    | ClearAll
    | Lookup(key: Text)

  datatype Answer = Did(ok: bool) | Found(item: Option<Item>)

  predicate Issuable(c: Command) {
    c.SetItem? ==> c.item.IntItem? || c.item.BoolItem? || c.item.PointerItem?
  }

  /** The plain map after a command that got this answer, if a plain map may answer so. A set
      may be refused; then nothing changes. */
  function PlainStep(m: map<Text, Item>, c: Command, a: Answer): Option<map<Text, Item>> {
    match c
    case SetText(key, text) =>
      if a.Did? then Some(if a.ok then m[key := StringItem(text)] else m) else None
    case SetItem(key, item) =>
      if a.Did? then Some(if a.ok then m[key := item] else m) else None
    case Delete(key) => if a == Did(key in m) then Some(m - {key}) else None
    case ClearAll => if a == Did(true) then Some(map[]) else None
    case Lookup(key) => if a == Found(if key in m then Some(m[key]) else None) then Some(m) else None
  }

  /** The plain map after a whole run. */
  function PlainRun(cs: seq<Command>, answers: seq<Answer>): Option<map<Text, Item>>
    requires |cs| == |answers|
  {
    if cs == [] then Some(map[])
    else
      match PlainRun(cs[..|cs| - 1], answers[..|answers| - 1])
      case None => None
      case Some(m) => PlainStep(m, cs[|cs| - 1], answers[|answers| - 1])
  }

  predicate IsSet(c: Command) {
    c.SetText? || c.SetItem?
  }

  method Obey(m: StringMap, c: Command) returns (a: Answer)
    requires m.Valid() && Issuable(c)
    modifies m, m.slots, m.heap
    ensures m.Valid() && (m.slots == old(m.slots) || fresh(m.slots)) && m.Outside() == old(m.Outside())
    ensures m.slots.Length <= GrowthBound(old(m.slots.Length), |old(m.contents)|)
    ensures PlainStep(old(m.contents), c, a) == Some(m.contents)
    ensures old(m.heap.failed) ==> m.heap.failed
    ensures IsSet(c) && a == Did(false) ==> m.heap.failed || m.slots.Length * 2 > SIZE_MAX / SLOT_SIZE
  {
    hide StringMap.Valid, StringMap.Outside;
    match c {
      case SetText(key, text) =>
        var ok := m.SetString(key, text);
        a := Did(ok);
      case SetItem(key, item) =>
        var ok := m.SetScalar(key, item);
        a := Did(ok);
      case Delete(key) =>
        var ok := m.Remove(key);
        a := Did(ok);
      case ClearAll =>
        m.Clear();
        a := Did(true);
      case Lookup(key) =>
        var item := m.Get(key);
        a := Found(item);
    }
  }

  /** After `n` commands a table has at most this many slots. */
  function RunBound(n: nat): nat {
    INITIAL_CAPACITY + 4 * n
  }

  predicate SetsDone(cs: seq<Command>, answers: seq<Answer>)
    requires |cs| == |answers|
  {
    forall n :: 0 <= n < |cs| && IsSet(cs[n]) ==> answers[n] == Did(true)
  }

  /** No set is refused in a run of `n` commands when memory is not, unless it is so long that the
      table comes to the end of the address space. */
  predicate Supplied(n: nat, mayRefuse: bool) {
    !mayRefuse && RunBound(n) * 2 <= SIZE_MAX / SLOT_SIZE
  }

  /** One command of a run, the `n`-th. */
  method Follow(m: StringMap, cs: seq<Command>, n: nat, ghost answers: seq<Answer>) returns (a: Answer)
    requires m.Valid() && n < |cs| && |answers| == n && Issuable(cs[n])
    requires |m.contents| <= n && m.slots.Length <= RunBound(n)
    requires PlainRun(cs[..n], answers) == Some(m.contents)
    requires Supplied(|cs|, m.heap.mayRefuse) ==> SetsDone(cs[..n], answers)
    modifies m, m.slots, m.heap
    ensures m.Valid() && (m.slots == old(m.slots) || fresh(m.slots)) && m.Outside() == old(m.Outside())
    ensures |m.contents| <= n + 1 && m.slots.Length <= RunBound(n + 1)
    ensures PlainRun(cs[..n + 1], answers + [a]) == Some(m.contents)
    ensures Supplied(|cs|, m.heap.mayRefuse) ==> SetsDone(cs[..n + 1], answers + [a])
  {
    hide StringMap.Valid, StringMap.Outside, StringMap.Footprint, PlainRun, PlainStep, SetsDone;
    ghost var before := m.contents;
    a := Obey(m, cs[n]);
    PlainStepSize(before, cs[n], a);
    FailureIsRefusal(m);
    PlainRunSnoc(cs, n, answers, a);
    if a != Did(false) || !IsSet(cs[n]) {
      SetsDoneSnoc(cs, n, answers, a);
    }
  }

  /** Main result: over any run, for any hash function and however the allocator fails, the
      probed table answers as a plain finite map does; and once it is destroyed nothing is live.
      Where the allocator does not refuse, no set is refused in a run too short to come to the
      end of the address space. */
  method Replay(hash: Hash, mayRefuse: bool, cs: seq<Command>) returns (answers: seq<Answer>, ghost leaked: set<nat>)
    requires forall c :: c in cs ==> Issuable(c)
    ensures |answers| == |cs| && PlainRun(cs, answers).Some?
    ensures leaked == {}
    ensures Supplied(|cs|, mayRefuse) ==> SetsDone(cs, answers)
  {
    hide StringMap.Valid, StringMap.Outside, StringMap.Footprint, PlainRun, PlainStep, SetsDone, Supplied,
         RunBound;
    var heap := new Heap(mayRefuse);
    NothingLive(heap.live);
    var m := new StringMap(heap, hash);
    answers := [];
    PlainStart(cs);
    for n := 0 to |cs|
      invariant |answers| == n && fresh(m) && fresh(m.slots) && fresh(m.heap)
      invariant m.Valid() && m.Outside() == multiset{}
      invariant m.heap.mayRefuse == mayRefuse && |m.contents| <= n && m.slots.Length <= RunBound(n)
      invariant PlainRun(cs[..n], answers) == Some(m.contents)
      invariant Supplied(|cs|, mayRefuse) ==> SetsDone(cs[..n], answers)
    {
      var a := Follow(m, cs, n, answers);
      answers := answers + [a];
    }
    assert cs[..|cs|] == cs;
    m.Destroy();
    leaked := m.heap.live;
    NothingLive(leaked);
  }

  lemma {:induction false} PutSize(m: map<Text, Item>, key: Text, item: Item)
    ensures |m[key := item]| <= |m| + 1
  {
    assert m[key := item].Keys == m.Keys + {key};
  }

  lemma {:induction false} DeleteSize(m: map<Text, Item>, key: Text)
    ensures |m - {key}| <= |m|
  {
    if key in m {
      PutBack(m, key);
    } else {
      assert m - {key} == m;
    }
  }

  lemma {:induction false} PlainStepSize(m: map<Text, Item>, c: Command, a: Answer)
    requires PlainStep(m, c, a).Some?
    ensures |PlainStep(m, c, a).value| <= |m| + 1
    ensures IsSet(c) ==> a == Did(true) || a == Did(false)
  {
    match c
    case SetText(key, text) => PutSize(m, key, StringItem(text));
    case SetItem(key, item) => PutSize(m, key, item);
    case Delete(key) => DeleteSize(m, key);
    case _ =>
  }

  lemma {:induction false} PlainStart(cs: seq<Command>)
    ensures PlainRun(cs[..0], []) == Some(map[]) && SetsDone(cs[..0], [])
  {
  }

  lemma {:induction false} SetsDoneSnoc(cs: seq<Command>, n: nat, answers: seq<Answer>, a: Answer)
    requires n < |cs| && |answers| == n && (IsSet(cs[n]) ==> a == Did(true))
    ensures SetsDone(cs[..n], answers) ==> SetsDone(cs[..n + 1], answers + [a])
  {
    assert forall k :: 0 <= k < n ==> cs[..n + 1][k] == cs[..n][k];
  }

  lemma {:induction false} PlainRunSnoc(cs: seq<Command>, n: nat, answers: seq<Answer>, a: Answer)
    requires n < |cs| && |answers| == n && PlainRun(cs[..n], answers).Some?
    ensures PlainRun(cs[..n + 1], answers + [a]) == PlainStep(PlainRun(cs[..n], answers).value, cs[n], a)
  {
    assert cs[..n + 1][..n] == cs[..n] && (answers + [a])[..n] == answers;
  }

  lemma {:induction false} NothingLive(live: set<nat>)
    ensures multiset(live) == multiset{} <==> live == {}
  {
    assert forall b :: b in live <==> b in multiset(live);
  }
}
