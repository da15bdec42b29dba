/** Requests that overlap: several sessions of src/session/session.c taking turns on one store. */
module SessionOverlaps {
  import opened Texts
  import opened SlotTables
  import opened MapRuns
  import opened SessionCodec
  import opened SessionModel

  // ---------- one step ----------

  /** A commit that writes the record of a token it still holds, and that token's digest is `key`. */
  predicate Revives(w: World, op: Op, at: Setting, luck: Luck, key: Text) {
    var s := w.session;
    && op.Commit? && s.loaded && s.dirty && !s.destroy && !s.regenerate
    && s.token != "" && at.digest(s.token) == key
    && luck.blob.Some? && luck.digest && luck.upsert
  }

  /** Digests in the store belong to issued tokens, and so does the session's token. */
  ghost predicate Known(w: World, digest: Text -> Text) {
    && w.store.dropped + w.store.records.Keys <= Digests(digest, w.store.issued)
    && (w.session.token != "" ==> w.session.token in w.store.issued)
  }

  lemma {:induction false} DropKnown(w: World, digest: Text -> Text, token: Text)
    requires Known(w, digest) && token in w.store.issued
    ensures Known(w.(store := Drop(w.store, digest(token))), digest)
  {
    assert digest(token) in Digests(digest, w.store.issued);
  }

  lemma {:induction false} LoadKnown(w: World, at: Setting, luck: LoadLuck)
    requires Known(w, at.digest) && Injective(at.digest)
    ensures Known(LoadStep(w, at, luck).0, at.digest)
    ensures LoadStep(w, at, luck).0.store.issued == w.store.issued
         && w.store.dropped <= LoadStep(w, at, luck).0.store.dropped
    ensures LoadStep(w, at, luck).0.store.records.Keys <= w.store.records.Keys
  {
    hide Decode, PutAll, Digests;
    var key := at.digest(at.cookie);
    if key in w.store.records {
      assert key in Digests(at.digest, w.store.issued);
      DigestIssued(w.store, at.digest, at.cookie);
      hide Injective;
      DropKnown(w, at.digest, at.cookie);
    }
  }

  /** A commit in its parts: the record it writes is that of a token in its hands. */
  lemma {:induction false} CommitKnown(w: World, at: Setting, luck: Luck)
    requires Known(w, at.digest) && Injective(at.digest) && FreshLuck(w, luck)
    ensures Known(CommitStep(w, at, luck).0, at.digest) && Grows(w.store, CommitStep(w, at, luck).0.store)
  {
    hide Injective;
    var s := w.session;
    var w1 := if s.regenerate && s.token != "" then w.(store := Drop(w.store, at.digest(s.token))) else w;
    if s.regenerate && s.token != "" {
      DropKnown(w, at.digest, s.token);
    }
    TokenKnown(w1, at, luck);
    var (w2, ok) := TokenStep(w1, luck);
    if ok {
      WriteKnown(w2, at, luck);
    }
    hide Known, TokenStep, WriteStep;
  }

  lemma {:induction false} TokenKnown(w: World, at: Setting, luck: Luck)
    requires Known(w, at.digest) && FreshLuck(w, luck)
    ensures (var (w', ok) := TokenStep(w, luck);
             && Known(w', at.digest) && Grows(w.store, w'.store)
             && (ok ==> w'.session.token != "") && w'.store.records == w.store.records)
  {
    assert Digests(at.digest, w.store.issued) <= Digests(at.digest, w.store.issued + {luck.random});
  }

  lemma {:induction false} WriteKnown(w: World, at: Setting, luck: Luck)
    requires Known(w, at.digest) && w.session.token != ""
    ensures Known(WriteStep(w, at, luck).0, at.digest) && Grows(w.store, WriteStep(w, at, luck).0.store)
  {
    assert at.digest(w.session.token) in Digests(at.digest, w.store.issued);
  }

  lemma {:induction false} ApplyKnown(w: World, op: Op, at: Setting, luck: Luck)
    requires Known(w, at.digest) && Injective(at.digest) && FreshOp(w, op, luck)
    ensures Known(Apply(w, op, at, luck).0, at.digest) && Grows(w.store, Apply(w, op, at, luck).0.store)
  {
    hide CommitStep, LoadStep, Digests, Injective;
    if op.Commit? {
      CommitKnown(w, at, luck);
    } else {
      LoadKnown(w, at, luck.load);
      var w1 := EnsureStep(w, at, luck.load).0;
      if op.Destroy? && w1.session.token != "" {
        DropKnown(w1, at.digest, w1.session.token);
      }
    }
  }

  /** Only a commit adds a record. */
  lemma {:induction false} OthersAddNothing(w: World, op: Op, at: Setting, luck: Luck)
    requires Known(w, at.digest) && Injective(at.digest) && !op.Commit?
    ensures Apply(w, op, at, luck).0.store.records.Keys <= w.store.records.Keys
  {
    hide LoadStep, Known, Injective;
    LoadKnown(w, at, luck.load);
  }

  lemma {:induction false} CommitRevives(w: World, at: Setting, luck: Luck, key: Text)
    requires Known(w, at.digest) && Injective(at.digest) && FreshLuck(w, luck)
    requires key in w.store.dropped && key !in w.store.records
    ensures key in CommitStep(w, at, luck).0.store.records <==> Revives(w, Commit, at, luck, key)
  {
    DigestIssued(w.store, at.digest, luck.random);
    assert at.digest(luck.random) != key;
    hide Known, Injective;
  }

  /** Main result: in whatever state a session is, an operation brings a dropped record back
      exactly when it is such a commit. */
  lemma {:induction false} ReturnsIffRevived(w: World, op: Op, at: Setting, luck: Luck, key: Text)
    requires Known(w, at.digest) && Injective(at.digest) && FreshOp(w, op, luck)
    requires key in w.store.dropped && key !in w.store.records
    ensures key in Apply(w, op, at, luck).0.store.records <==> Revives(w, op, at, luck, key)
  {
    hide Known, Injective;
    if op.Commit? {
      CommitRevives(w, at, luck, key);
    } else {
      OthersAddNothing(w, op, at, luck);
    }
  }

  /** A request alone on the store never meets the condition: its session has let go of dropped
      tokens. */
  lemma {:induction false} SafeNeverRevives(w: World, op: Op, at: Setting, luck: Luck, key: Text)
    requires Safe(w, at.digest) && key in w.store.dropped
    ensures !Revives(w, op, at, luck, key)
  {
  }

  // ---------- sessions taking turns ----------

  /** The sessions of several requests, and the store they share. */
  datatype Shared = Shared(sessions: seq<Session>, store: Store)

  /** Request `i` does its next operation. */
  datatype Turn = Turn(i: nat, op: Op, at: Setting, luck: Luck)

  function WorldOf(sh: Shared, i: nat): World
    requires i < |sh.sessions|
  {
    World(sh.sessions[i], sh.store)
  }

  function Take(sh: Shared, t: Turn): Shared
    requires t.i < |sh.sessions|
  {
    var w := Apply(WorldOf(sh, t.i), t.op, t.at, t.luck).0;
    Shared(sh.sessions[t.i := w.session], w.store)
  }

  /** Every turn belongs to a request, and every token generated in the run is new. */
  ghost predicate Playable(sh: Shared, ts: seq<Turn>, digest: Text -> Text)
    decreases |ts|
  {
    ts != [] ==>
      && ts[0].i < |sh.sessions| && ts[0].at.digest == digest
      && FreshOp(WorldOf(sh, ts[0].i), ts[0].op, ts[0].luck)
      && Playable(Take(sh, ts[0]), ts[1..], digest)
  }

  ghost predicate AllKnown(sh: Shared, digest: Text -> Text) {
    && sh.store.dropped + sh.store.records.Keys <= Digests(digest, sh.store.issued)
    && forall i :: 0 <= i < |sh.sessions| ==> sh.sessions[i].token != "" ==> sh.sessions[i].token in sh.store.issued
  }

  lemma {:induction false} TakeKnown(sh: Shared, t: Turn)
    requires t.i < |sh.sessions| && AllKnown(sh, t.at.digest) && Injective(t.at.digest)
    requires FreshOp(WorldOf(sh, t.i), t.op, t.luck)
    ensures AllKnown(Take(sh, t), t.at.digest) && Grows(sh.store, Take(sh, t).store)
  {
    hide Apply, Injective, Digests;
    ApplyKnown(WorldOf(sh, t.i), t.op, t.at, t.luck);
  }

  function TakeAll(sh: Shared, ts: seq<Turn>): Shared
    requires forall t :: t in ts ==> t.i < |sh.sessions|
    decreases |ts|
  {
    if ts == [] then sh else TakeAll(Take(sh, ts[0]), ts[1..])
  }

  /** The record stays away during the whole run. */
  ghost predicate StaysAway(sh: Shared, ts: seq<Turn>, digest: Text -> Text, key: Text)
    requires Playable(sh, ts, digest)
    decreases |ts|
  {
    key !in sh.store.records && (ts == [] || StaysAway(Take(sh, ts[0]), ts[1..], digest, key))
  }

  /** No turn of the run commits a token with this digest that its session still holds. */
  ghost predicate NoneRevives(sh: Shared, ts: seq<Turn>, digest: Text -> Text, key: Text)
    requires Playable(sh, ts, digest)
    decreases |ts|
  {
    ts != [] ==>
      && !Revives(WorldOf(sh, ts[0].i), ts[0].op, ts[0].at, ts[0].luck, key)
      && NoneRevives(Take(sh, ts[0]), ts[1..], digest, key)
  }

  /** Main result: in every interleaving of any number of requests, with any failures, a dropped
      record stays away exactly as long as no request commits a session that still holds its
      token. */
  lemma {:induction false} StaysAwayIffNoneRevives(sh: Shared, ts: seq<Turn>, digest: Text -> Text, key: Text)
    requires AllKnown(sh, digest) && Injective(digest) && Playable(sh, ts, digest)
    requires key in sh.store.dropped && key !in sh.store.records
    ensures StaysAway(sh, ts, digest, key) <==> NoneRevives(sh, ts, digest, key)
    decreases |ts|
  {
    hide Apply, Revives, Injective, Digests, FreshOp;
    if ts != [] {
      var t := ts[0];
      TakeKnown(sh, t);
      ReturnsIffRevived(WorldOf(sh, t.i), t.op, t.at, t.luck, key);
      if key !in Take(sh, t).store.records {
        StaysAwayIffNoneRevives(Take(sh, t), ts[1..], digest, key);
      } else {
        StaysAwayEndsThere(Take(sh, t), ts[1..], digest, key);
      }
    }
  }

  lemma {:induction false} StaysAwayEndsThere(sh: Shared, ts: seq<Turn>, digest: Text -> Text, key: Text)
    requires Playable(sh, ts, digest) && key in sh.store.records
    ensures !StaysAway(sh, ts, digest, key)
  {
  }

  // ---------- what can be told beforehand ----------

  /** The session would be written under its token's digest `key` by its next commit. */
  predicate Holding(s: Session, digest: Text -> Text, key: Text) {
    s.loaded && s.token != "" && digest(s.token) == key && !s.regenerate
  }

  ghost predicate NoneHolds(sh: Shared, digest: Text -> Text, key: Text) {
    forall i :: 0 <= i < |sh.sessions| ==> !Holding(sh.sessions[i], digest, key)
  }

  /** A session gets its token by loading. */
  ghost predicate TokensLoaded(sh: Shared) {
    forall i :: 0 <= i < |sh.sessions| ==> sh.sessions[i].token != "" ==> sh.sessions[i].loaded
  }

  lemma {:induction false} CommitHolds(w: World, at: Setting, luck: Luck, key: Text)
    requires Known(w, at.digest) && Injective(at.digest) && FreshLuck(w, luck)
    requires key in w.store.dropped && (w.session.token != "" ==> w.session.loaded)
    requires !Holding(w.session, at.digest, key)
    ensures (var s := CommitStep(w, at, luck).0.session;
             !Holding(s, at.digest, key) && (s.token != "" ==> s.loaded))
  {
    DigestIssued(w.store, at.digest, luck.random);
    assert at.digest(luck.random) != key;
    hide Known, Injective, Digests;
  }

  lemma {:induction false} LoadHolds(w: World, at: Setting, luck: LoadLuck, key: Text)
    requires key !in w.store.records && (w.session.token != "" ==> w.session.loaded)
    requires !Holding(w.session, at.digest, key)
    ensures (var s := EnsureStep(w, at, luck).0.session;
             !Holding(s, at.digest, key) && (s.token != "" ==> s.loaded))
  {
    hide Decode, PutAll;
  }

  /** No operation makes a session take up a dropped token. */
  lemma {:induction false} ApplyHolds(w: World, op: Op, at: Setting, luck: Luck, key: Text)
    requires Known(w, at.digest) && Injective(at.digest) && FreshOp(w, op, luck)
    requires key in w.store.dropped && key !in w.store.records && (w.session.token != "" ==> w.session.loaded)
    requires !Holding(w.session, at.digest, key)
    ensures (var s := Apply(w, op, at, luck).0.session;
             !Holding(s, at.digest, key) && (s.token != "" ==> s.loaded))
  {
    hide Known, Injective, LoadStep, CommitStep, EnsureStep;
    if op.Commit? {
      CommitHolds(w, at, luck, key);
    } else {
      LoadHolds(w, at, luck.load, key);
    }
  }

  /** Once every session has let go of a dropped token, no run brings its record back. */
  lemma {:induction false} NoneHoldsStaysAway(sh: Shared, ts: seq<Turn>, digest: Text -> Text, key: Text)
    requires AllKnown(sh, digest) && TokensLoaded(sh) && Injective(digest) && Playable(sh, ts, digest)
    requires key in sh.store.dropped && key !in sh.store.records && NoneHolds(sh, digest, key)
    ensures StaysAway(sh, ts, digest, key)
    decreases |ts|
  {
    hide Apply, Revives, Injective, Digests, FreshOp, Holding;
    if ts != [] {
      var t := ts[0];
      var w := WorldOf(sh, t.i);
      TakeKnown(sh, t);
      if Revives(w, t.op, t.at, t.luck, key) {
        HeldIfRevived(w, t.op, t.at, t.luck, key);
      }
      ReturnsIffRevived(w, t.op, t.at, t.luck, key);
      ApplyHolds(w, t.op, t.at, t.luck, key);
      NoneHoldsStaysAway(Take(sh, t), ts[1..], digest, key);
    }
  }

  lemma {:induction false} HeldIfRevived(w: World, op: Op, at: Setting, luck: Luck, key: Text)
    requires Revives(w, op, at, luck, key)
    ensures Holding(w.session, at.digest, key)
  {
  }

  /** What a commit writes decodes to the values of its session. */
  predicate Honest(w: World, op: Op, luck: Luck) {
    op.Commit? && luck.blob.Some? ==> Records(w.session.values, luck.blob.value)
  }

  ghost predicate HonestRun(sh: Shared, ts: seq<Turn>, digest: Text -> Text)
    requires Playable(sh, ts, digest)
    decreases |ts|
  {
    ts != [] ==>
      && Honest(WorldOf(sh, ts[0].i), ts[0].op, ts[0].luck)
      && HonestRun(Take(sh, ts[0]), ts[1..], digest)
  }

  lemma {:induction false} RunOf(sh: Shared, ts: seq<Turn>, digest: Text -> Text)
    requires ts == []
    ensures Playable(sh, ts, digest) && HonestRun(sh, ts, digest)
  {
  }

  lemma {:induction false} RunFirst(sh: Shared, t: Turn, rest: seq<Turn>, digest: Text -> Text)
    requires t.i < |sh.sessions| && t.at.digest == digest
    requires FreshOp(WorldOf(sh, t.i), t.op, t.luck) && Honest(WorldOf(sh, t.i), t.op, t.luck)
    requires Playable(Take(sh, t), rest, digest) && HonestRun(Take(sh, t), rest, digest)
    ensures Playable(sh, [t] + rest, digest) && HonestRun(sh, [t] + rest, digest)
    ensures forall key :: StaysAway(sh, [t] + rest, digest, key) ==> StaysAway(Take(sh, t), rest, digest, key)
  {
    hide Apply, Records, FreshOp, Honest;
    assert ([t] + rest)[1..] == rest;
  }

  const SMALL_ENTRY: Entry := Entry("k", BoolItem(true))

  /** A request drops its values, sets one and commits. */
  function WriteBack(i: nat, digest: Text -> Text, random: Text): seq<Turn> {
    var at := Setting(digest, "", 0, 0);
    [Turn(i, ClearValues, at, LUCKY), Turn(i, SetValue(SMALL_ENTRY.key, SMALL_ENTRY.item), at, LUCKY),
     Turn(i, Commit, at, LUCKY.(random := random, blob := Some(Encode([SMALL_ENTRY]))))]
  }

  lemma {:induction false} LongerThanAll(tokens: set<Text>) returns (n: nat)
    ensures forall t :: t in tokens ==> |t| < n
    decreases |tokens|
  {
    if tokens == {} {
      n := 0;
    } else {
      var t :| t in tokens;
      n := LongerThanAll(tokens - {t});
      n := if n <= |t| then |t| + 1 else n;
    }
  }

  lemma {:induction false} SmallRecord()
    ensures Records(map[SMALL_ENTRY.key := SMALL_ENTRY.item], Encode([SMALL_ENTRY]))
  {
    hide Decode, BigEndian;
    var es := [SMALL_ENTRY];
    assert es[..0] == [] && EntriesBytes(es[..0]) == "";
    EntryBytesParts(SMALL_ENTRY);
    assert |Encode(es)| == 3 + |EntryBytes(SMALL_ENTRY)|;
    assert forall e :: e in es ==> e == SMALL_ENTRY;
    DecodeEncode(es);
    assert PutAll(map[], es[..0]) == map[];
  }

  /** A session that still holds the token can bring the record back. */
  lemma {:induction false} HoldingWritesBack(sh: Shared, i: nat, digest: Text -> Text, key: Text)
    returns (ts: seq<Turn>)
    requires i < |sh.sessions| && Holding(sh.sessions[i], digest, key)
    ensures Playable(sh, ts, digest) && HonestRun(sh, ts, digest) && !StaysAway(sh, ts, digest, key)
  {
    var n := LongerThanAll(sh.store.issued);
    var random := seq(n + 1, _ => 'a');
    assert |random| == n + 1;
    ts := WriteBack(i, digest, random);
    var sh1 := Take(sh, ts[0]);
    var sh2 := Take(sh1, ts[1]);
    var sh3 := Take(sh2, ts[2]);
    SmallRecord();
    hide Records, Encode;
    WrittenBack(sh, i, digest, key, random);
    hide Take, Holding, Apply;
    RunOf(sh3, [], digest);
    RunFirst(sh2, ts[2], [], digest);
    RunFirst(sh1, ts[1], [ts[2]], digest);
    RunFirst(sh, ts[0], [ts[1], ts[2]], digest);
    assert [ts[2]] + [] == [ts[2]] && [ts[1]] + [ts[2]] == [ts[1], ts[2]] && [ts[0]] + [ts[1], ts[2]] == ts;
    StaysAwayEndsThere(sh3, [], digest, key);
  }

  lemma {:induction false} WrittenBack(sh: Shared, i: nat, digest: Text -> Text, key: Text, random: Text)
    requires i < |sh.sessions| && Holding(sh.sessions[i], digest, key)
    ensures (var ts := WriteBack(i, digest, random);
             var sh1 := Take(sh, ts[0]);
             var sh2 := Take(sh1, ts[1]);
             && |sh1.sessions| == |sh2.sessions| == |sh.sessions|
             && sh2.sessions[i].values == map[SMALL_ENTRY.key := SMALL_ENTRY.item]
             && sh2.store.issued == sh.store.issued
             && key in Take(sh2, ts[2]).store.records)
  {
    hide LoadStep, Encode;
    var ts := WriteBack(i, digest, random);
    var sh1 := Take(sh, ts[0]);
    assert sh1.store == sh.store && Holding(sh1.sessions[i], digest, key) && sh1.sessions[i].values == map[];
    var sh2 := Take(sh1, ts[1]);
    assert sh2.store == sh.store && Holding(sh2.sessions[i], digest, key);
    assert sh2.sessions[i].dirty && !sh2.sessions[i].destroy;
  }

  /** Main result: from the moment a record is dropped, it stays away in every run, with whatever
      interleaving and failures, exactly when no session holds its token then; and a run that
      brings it back can be one that writes what it should. */
  lemma {:induction false} StaysAwayIffNoneHolds(sh: Shared, digest: Text -> Text, key: Text)
    requires AllKnown(sh, digest) && TokensLoaded(sh) && Injective(digest)
    requires key in sh.store.dropped && key !in sh.store.records
    ensures NoneHolds(sh, digest, key)
       <==> forall ts :: Playable(sh, ts, digest) ==> StaysAway(sh, ts, digest, key)
    ensures NoneHolds(sh, digest, key)
       <==> forall ts :: Playable(sh, ts, digest) && HonestRun(sh, ts, digest) ==> StaysAway(sh, ts, digest, key)
  {
    hide AllKnown, TokensLoaded, Injective, Playable, HonestRun, StaysAway, Holding;
    if NoneHolds(sh, digest, key) {
      forall ts | Playable(sh, ts, digest)
        ensures StaysAway(sh, ts, digest, key)
      {
        NoneHoldsStaysAway(sh, ts, digest, key);
      }
    } else {
      var i: nat :| i < |sh.sessions| && Holding(sh.sessions[i], digest, key);
      var ts := HoldingWritesBack(sh, i, digest, key);
    }
  }

  lemma {:induction false} ApplyLoads(w: World, op: Op, at: Setting, luck: Luck)
    requires w.session.token != "" ==> w.session.loaded
    ensures Apply(w, op, at, luck).0.session.token != "" ==> Apply(w, op, at, luck).0.session.loaded
  {
    hide LoadStep;
    LoadedAfter(w, at, luck.load);
  }

  /** What the results ask of a state holds in every state that a run reaches. */
  lemma {:induction false} RunKnown(sh: Shared, ts: seq<Turn>, digest: Text -> Text)
    requires AllKnown(sh, digest) && TokensLoaded(sh) && Injective(digest) && Playable(sh, ts, digest)
    ensures forall t :: t in ts ==> t.i < |sh.sessions|
    ensures AllKnown(TakeAll(sh, ts), digest) && TokensLoaded(TakeAll(sh, ts))
    decreases |ts|
  {
    hide Apply, Injective, Digests, FreshOp;
    if ts != [] {
      TakeKnown(sh, ts[0]);
      ApplyLoads(WorldOf(sh, ts[0].i), ts[0].op, ts[0].at, ts[0].luck);
      RunKnown(Take(sh, ts[0]), ts[1..], digest);
      assert ts == [ts[0]] + ts[1..];
    }
  }

  /** `n` requests that have done nothing yet. */
  function NewRequests(n: nat, store: Store): Shared {
    Shared(seq(n, _ => NEW_SESSION), store)
  }

  /** Main result: after any interleaving of any number of requests on a safe store, a record that
      was dropped and is gone is gone for good exactly when no session holds its token any more. */
  lemma {:induction false} GoneForGoodIffNoneHolds(store: Store, n: nat, ts: seq<Turn>, digest: Text -> Text, key: Text)
    requires StoreSafe(store, digest) && Injective(digest) && Playable(NewRequests(n, store), ts, digest)
    ensures forall t :: t in ts ==> t.i < n
    ensures (var sh := TakeAll(NewRequests(n, store), ts);
             key in sh.store.dropped && key !in sh.store.records ==>
               (NoneHolds(sh, digest, key)
                <==> forall more :: Playable(sh, more, digest) ==> StaysAway(sh, more, digest, key)))
  {
    hide Digests, Injective, Playable, StaysAway, Holding;
    RunKnown(NewRequests(n, store), ts, digest);
    var sh := TakeAll(NewRequests(n, store), ts);
    hide AllKnown, TokensLoaded, NoneHolds, TakeAll;
    if key in sh.store.dropped && key !in sh.store.records {
      StaysAwayIffNoneHolds(sh, digest, key);
    }
  }

  // ---------- how it happens ----------

  /** Two requests with one cookie: both load the session, the second changes it, the first
      destroys it, the second commits. */
  function OverlappingTurns(at: Setting, key: Text, item: Item, luck: Luck): seq<Turn> {
    [Turn(0, GetValue(key), at, LUCKY), Turn(1, SetValue(key, item), at, LUCKY), Turn(0, Destroy, at, LUCKY),
     Turn(1, Commit, at, luck)]
  }

  /** The values of the record with one more. */
  function ChangedValues(record: Record, key: Text, item: Item): map<Text, Item> {
    PutAll(map[], Decode(record.data).entries)[key := item]
  }

  /** From any store that holds a usable record for the cookie, this run ends with the record
      dropped and yet in the store, holding the changed values; nothing in it fails, its token is
      new and what it writes is what it should write. */
  lemma {:induction false} OverlapRestoresRecord(store: Store, at: Setting, key: Text, item: Item, luck: Luck)
    requires at.cookie != "" && at.digest(at.cookie) in store.records && KeyAllowed(key, item)
    requires at.now < store.records[at.digest(at.cookie)].expires && Decode(store.records[at.digest(at.cookie)].data).ok
    requires luck.random != "" && luck.random !in store.issued && luck.digest && luck.upsert && luck.blob.Some?
    requires Records(ChangedValues(store.records[at.digest(at.cookie)], key, item), luck.blob.value)
    ensures (var sh := Shared([NEW_SESSION, NEW_SESSION], store);
             var ts := OverlappingTurns(at, key, item, luck);
             var end := TakeAll(sh, ts).store;
             && Playable(sh, ts, at.digest) && HonestRun(sh, ts, at.digest)
             && at.digest(at.cookie) in end.dropped && at.digest(at.cookie) in end.records
             && end.records[at.digest(at.cookie)] == Record(luck.blob.value, at.now + at.ttl))
  {
    hide Decode, PutAll, Apply, Records;
    var ts := OverlappingTurns(at, key, item, luck);
    var sh0 := Shared([NEW_SESSION, NEW_SESSION], store);
    var sh1 := Take(sh0, ts[0]);
    var sh2 := Take(sh1, ts[1]);
    var sh3 := Take(sh2, ts[2]);
    LoadedByCookie(store, at, GetValue(key));
    LoadedByCookie(store, at, SetValue(key, item));
    DestroyedByToken(WorldOf(sh2, 0), at);
    RevivedByCommit(WorldOf(sh3, 1), at, luck);
    var end := Take(sh3, ts[3]);
    assert TakeAll(end, []) == end;
    TakeFirst(sh3, ts[3], []);
    TakeFirst(sh2, ts[2], [ts[3]]);
    TakeFirst(sh1, ts[1], [ts[2], ts[3]]);
    TakeFirst(sh0, ts[0], [ts[1], ts[2], ts[3]]);
    hide Take, ChangedValues;
    assert [ts[2]] + [ts[3]] == [ts[2], ts[3]] && [ts[1]] + [ts[2], ts[3]] == [ts[1], ts[2], ts[3]];
    assert [ts[0]] + [ts[1], ts[2], ts[3]] == ts && [ts[3]] + [] == [ts[3]];
    RunOf(end, [], at.digest);
    RunFirst(sh3, ts[3], [], at.digest);
    RunFirst(sh2, ts[2], [ts[3]], at.digest);
    RunFirst(sh1, ts[1], [ts[2], ts[3]], at.digest);
    RunFirst(sh0, ts[0], [ts[1], ts[2], ts[3]], at.digest);
  }

  lemma {:induction false} TakeFirst(sh: Shared, t: Turn, rest: seq<Turn>)
    requires t.i < |sh.sessions| && forall r :: r in rest ==> r.i < |sh.sessions|
    ensures forall r :: r in [t] + rest ==> r.i < |sh.sessions|
    ensures TakeAll(sh, [t] + rest) == TakeAll(Take(sh, t), rest)
  {
    hide Apply;
    assert ([t] + rest)[1..] == rest;
  }

  lemma {:induction false} LoadedByCookie(store: Store, at: Setting, op: Op)
    requires at.cookie != "" && at.digest(at.cookie) in store.records
    requires at.now < store.records[at.digest(at.cookie)].expires && Decode(store.records[at.digest(at.cookie)].data).ok
    requires op.GetValue? || (op.SetValue? && KeyAllowed(op.key, op.item))
    ensures (var w := Apply(World(NEW_SESSION, store), op, at, LUCKY).0;
             && w.store == store && w.session.loaded && w.session.token == at.cookie
             && !w.session.destroy && !w.session.regenerate
             && (op.SetValue? ==>
                   w.session.dirty
                   && w.session.values == ChangedValues(store.records[at.digest(at.cookie)], op.key, op.item)))
  {
    hide Decode, PutAll;
  }

  lemma {:induction false} DestroyedByToken(w: World, at: Setting)
    requires w.session.loaded && w.session.token != ""
    ensures Apply(w, Destroy, at, LUCKY).0.store == Drop(w.store, at.digest(w.session.token))
  {
  }

  lemma {:induction false} RevivedByCommit(w: World, at: Setting, luck: Luck)
    requires w.session.loaded && w.session.dirty && !w.session.destroy && !w.session.regenerate && w.session.token != ""
    requires luck.digest && luck.upsert && luck.blob.Some?
    ensures (var end := Apply(w, Commit, at, luck).0.store;
             && at.digest(w.session.token) in end.records && end.dropped == w.store.dropped
             && end.records[at.digest(w.session.token)] == Record(luck.blob.value, at.now + at.ttl))
  {
  }
}
