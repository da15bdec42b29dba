/** The session life cycle of src/session/session.c as steps on a session and the store of
    records. What the outside world does (failing statements, short memory, random tokens) is a
    parameter of each step. */
module SessionModel {
  import opened Texts
  import opened SlotTables
  import opened MapRuns
  import opened SessionCodec

  datatype Record = Record(data: Text, expires: int)

  /** The rows by digest; `dropped` remembers every digest that a deletion was carried out for
      and `issued` every token that was generated. */
  datatype Store = Store(records: map<Text, Record>, dropped: set<Text>, issued: set<Text>)

  /** The session of one request. `sentCookie` is the session cookie of the response; the empty
      one deletes it. */
  datatype Session = Session(
    values: map<Text, Item>,
    token: Text,
    loaded: bool,
    stored: bool,
    dirty: bool,
    regenerate: bool,
    destroy: bool,
    expiresAt: int,
    sentCookie: Option<Text>)

  datatype World = World(session: Session, store: Store)

  const NEW_SESSION: Session := Session(map[], "", false, false, false, false, false, 0, None)

  /** What comes from outside the request: its cookie, the clock, the life time of records. */
  datatype Setting = Setting(digest: Text -> Text, cookie: Text, now: int, ttl: int)

  /** How loading went: whether the cookie could be digested, which statements succeeded, whether
      memory sufficed for the entries and for the token; `partial` is what the map holds when it
      did not. */
  datatype LoadLuck = LoadLuck(
    digest: bool,
    select: bool,
    delete: bool,
    memory: bool,
    copy: bool,
    partial: map<Text, Item>)

  /** How an operation went; `random` is the generated token, `blob` the serialized values. */
  datatype Luck = Luck(
    load: LoadLuck,
    delete: bool,
    memory: bool,
    sodium: bool,
    copy: bool,
    digest: bool,
    random: Text,
    blob: Option<Text>,
    upsert: bool,
    cookie: bool)

  const LUCKY_LOAD: LoadLuck := LoadLuck(true, true, true, true, true, map[])

  const LUCKY: Luck := Luck(LUCKY_LOAD, true, true, true, true, true, "", Some(""), true, true)

  function Drop(store: Store, key: Text): Store {
    store.(records := store.records - {key}, dropped := store.dropped + {key})
  }

  // ---------- the operations ----------

  /** A record that cannot be used is deleted; whether that works is not looked at. */
  function RefuseRecord(w: World, key: Text, luck: LoadLuck): World {
    if luck.delete then w.(store := Drop(w.store, key)) else w
  }

  /** What session_load does with the row it found: an expired or unreadable record is dropped;
      what was decoded from it stays among the values. */
  function ReadStep(w: World, key: Text, record: Record, at: Setting, luck: LoadLuck): (World, bool) {
    var s, decoded := w.session, Decode(record.data);
    if record.expires <= at.now then (RefuseRecord(w, key, luck), true)
    else if !luck.memory then (RefuseRecord(w.(session := s.(values := luck.partial)), key, luck), true)
    else
      var w1 := w.(session := s.(values := PutAll(s.values, decoded.entries)));
      if !decoded.ok then (RefuseRecord(w1, key, luck), true)
      else
        var s2 := w1.session.(expiresAt := record.expires, stored := true);
        if luck.copy then (w.(session := s2.(token := at.cookie)), true) else (w.(session := s2), false)
  }

  /** session_load. */
  function LoadStep(w: World, at: Setting, luck: LoadLuck): (World, bool) {
    var w0 := w.(session := w.session.(loaded := true));
    var key := at.digest(at.cookie);
    if at.cookie == "" || !luck.digest then (w0, true)
    else if !luck.select then (w0, false)
    else if key !in w.store.records then (w0, true)
    else ReadStep(w0, key, w.store.records[key], at, luck)
  }

  /** session_ensure. */
  function EnsureStep(w: World, at: Setting, luck: LoadLuck): (World, bool) {
    if w.session.loaded then (w, true) else LoadStep(w, at, luck)
  }

  datatype Op =
    | SetValue(key: Text, item: Item)
    | GetValue(key: Text)
    | DeleteValue(key: Text)
    | ClearValues
    | Regenerate
    | Destroy
    | Commit

  /** session_set_string refuses the empty key, the other setters do not. */
  predicate KeyAllowed(key: Text, item: Item) {
    item.StringItem? ==> key != ""
  }

  function SetStep(w: World, key: Text, item: Item, luck: Luck): (World, bool) {
    if !KeyAllowed(key, item) || !luck.memory then (w, false)
    else (w.(session := w.session.(values := w.session.values[key := item], destroy := false, dirty := true)), true)
  }

  function DeleteStep(w: World, key: Text): (World, bool) {
    var s := w.session;
    (w.(session := s.(values := s.values - {key}, dirty := s.dirty || key in s.values)), true)
  }

  /** session_destroy: the record goes at once, the cookie with the response. */
  function DestroyStep(w: World, at: Setting, luck: Luck): (World, bool) {
    var s := w.session;
    if s.token != "" && !luck.delete then (w, false)
    else
      var store := if s.token != "" then Drop(w.store, at.digest(s.token)) else w.store;
      var sent := if luck.cookie then Some("") else s.sentCookie;
      (World(s.(values := map[], destroy := true, regenerate := true, dirty := false, stored := false,
                sentCookie := sent), store), true)
  }

  /** The token part of session_commit: none, or a fresh one where one is needed. */
  function TokenStep(w: World, luck: Luck): (World, bool) {
    var s := w.session;
    if s.token != "" && !s.regenerate then (w, true)
    else if !luck.sodium then (w, false)
    else if !luck.copy then (w.(session := s.(token := "")), false)
    else (World(s.(token := luck.random), w.store.(issued := w.store.issued + {luck.random})), true)
  }

  /** The last part of session_commit: writing the record and sending the cookie. */
  function WriteStep(w: World, at: Setting, luck: Luck): (World, bool) {
    var s := w.session;
    if luck.blob.None? || !luck.digest then (w, false)
    else
      var expires := at.now + at.ttl;
      var s1 := s.(expiresAt := expires);
      if !luck.upsert then (w.(session := s1), false)
      else
        var store := w.store.(records := w.store.records[at.digest(s.token) := Record(luck.blob.value, expires)]);
        if !luck.cookie then (World(s1, store), false)
        else (World(s1.(sentCookie := Some(s.token), stored := true, dirty := false, regenerate := false), store), true)
  }

  /** session_commit. */
  function CommitStep(w: World, at: Setting, luck: Luck): (World, bool) {
    var s := w.session;
    if !s.loaded || !s.dirty || s.destroy then (w, true)
    else if s.regenerate && s.token != "" && !luck.delete then (w, false)
    else
      var w1 := if s.regenerate && s.token != "" then w.(store := Drop(w.store, at.digest(s.token))) else w;
      var (w2, ok) := TokenStep(w1, luck);
      if !ok then (w2, false) else WriteStep(w2, at, luck)
  }

  function ApplyLoaded(w: World, op: Op, at: Setting, luck: Luck): (World, bool) {
    match op
    case SetValue(key, item) => SetStep(w, key, item, luck)
    case GetValue(key) => (w, key in w.session.values)
    case DeleteValue(key) => DeleteStep(w, key)
    case ClearValues => (w.(session := w.session.(values := map[], dirty := true)), true)
    case Regenerate => (w.(session := w.session.(regenerate := true, dirty := true)), true)
    case Destroy => DestroyStep(w, at, luck)
    case Commit => CommitStep(w, at, luck)
  }

  /** Every operation but the commit loads the session first. */
  function Apply(w: World, op: Op, at: Setting, luck: Luck): (World, bool) {
    if op.Commit? then CommitStep(w, at, luck)
    else
      var (w1, ok) := EnsureStep(w, at, luck.load);
      if !ok then (w1, false) else ApplyLoaded(w1, op, at, luck)
  }

  /** An operation on a session that is loaded first. */
  lemma {:induction false} ApplyVia(w: World, w1: World, op: Op, at: Setting, luck: Luck)
    requires !op.Commit? && EnsureStep(w, at, luck.load) == (w1, true)
    ensures Apply(w, op, at, luck) == ApplyLoaded(w1, op, at, luck)
  {
  }

  lemma {:induction false} ApplyUnloaded(w: World, w1: World, op: Op, at: Setting, luck: Luck)
    requires !op.Commit? && EnsureStep(w, at, luck.load) == (w1, false)
    ensures Apply(w, op, at, luck) == (w1, false)
  {
  }

  /** session_commit in two halves, each with its own share of the luck. */
  lemma {:induction false} CommitVia(w: World, w1: World, at: Setting, token: Luck, write: Luck, luck: Luck)
    requires w.session.loaded && w.session.dirty && !w.session.destroy
    requires w1 == (if w.session.regenerate && w.session.token != ""
                    then w.(store := Drop(w.store, at.digest(w.session.token))) else w)
    requires luck == write.(delete := true, sodium := token.sodium, copy := token.copy, random := token.random)
    ensures !TokenStep(w1, token).1 ==> CommitStep(w, at, luck) == TokenStep(w1, token)
    ensures TokenStep(w1, token).1 ==> CommitStep(w, at, luck) == WriteStep(TokenStep(w1, token).0, at, write)
  {
  }

  // ---------- what every step keeps ----------

  ghost predicate Injective(digest: Text -> Text) {
    forall a, b :: digest(a) == digest(b) ==> a == b
  }

  ghost function Digests(digest: Text -> Text, tokens: set<Text>): set<Text> {
    set t | t in tokens :: digest(t)
  }

  /** No dropped record is in the store, and every digest belongs to an issued token. */
  ghost predicate StoreSafe(store: Store, digest: Text -> Text) {
    && store.dropped !! store.records.Keys
    && store.dropped + store.records.Keys <= Digests(digest, store.issued)
  }

  /** A session that was destroyed, or whose record was dropped, gets a new token before it is
      stored again. */
  ghost predicate SessionSafe(w: World, digest: Text -> Text) {
    var s := w.session;
    && (s.destroy ==> s.regenerate)
    && (s.token != "" ==> s.token in w.store.issued)
    && (s.token != "" && !s.regenerate ==> digest(s.token) !in w.store.dropped)
    && (!s.loaded ==> s == NEW_SESSION)
  }

  ghost predicate Safe(w: World, digest: Text -> Text) {
    StoreSafe(w.store, digest) && SessionSafe(w, digest)
  }

  /** A generated token is a new one. */
  predicate FreshLuck(w: World, luck: Luck) {
    luck.random != "" && luck.random !in w.store.issued
  }

  /** Only commits generate tokens. */
  predicate FreshOp(w: World, op: Op, luck: Luck) {
    op.Commit? ==> FreshLuck(w, luck)
  }

  /** Dropped digests stay dropped, issued tokens stay issued. */
  predicate Grows(a: Store, b: Store) {
    a.dropped <= b.dropped && a.issued <= b.issued
  }

  lemma {:induction false} DigestIssued(store: Store, digest: Text -> Text, token: Text)
    requires Injective(digest)
    ensures digest(token) in Digests(digest, store.issued) <==> token in store.issued
  {
  }

  lemma {:induction false} DropSafe(store: Store, digest: Text -> Text, token: Text)
    requires StoreSafe(store, digest) && token in store.issued
    ensures StoreSafe(Drop(store, digest(token)), digest) && Grows(store, Drop(store, digest(token)))
  {
    assert digest(token) in Digests(digest, store.issued);
  }

  lemma {:induction false} LoadSafe(w: World, at: Setting, luck: LoadLuck)
    requires Safe(w, at.digest) && Injective(at.digest)
    ensures Safe(LoadStep(w, at, luck).0, at.digest) || w.session.loaded
    ensures Grows(w.store, LoadStep(w, at, luck).0.store) && LoadStep(w, at, luck).0.store.issued == w.store.issued
  {
    hide Decode, StoreSafe, PutAll;
    if at.digest(at.cookie) in w.store.records {
      RecordIssued(w.store, at.digest, at.cookie);
      DropSafe(w.store, at.digest, at.cookie);
    }
  }

  lemma {:induction false} RecordIssued(store: Store, digest: Text -> Text, token: Text)
    requires StoreSafe(store, digest) && Injective(digest) && digest(token) in store.records
    ensures token in store.issued && digest(token) !in store.dropped
  {
    DigestIssued(store, digest, token);
  }

  lemma {:induction false} CommitSafe(w: World, at: Setting, luck: Luck)
    requires Safe(w, at.digest) && Injective(at.digest) && FreshLuck(w, luck)
    ensures Safe(CommitStep(w, at, luck).0, at.digest) && Grows(w.store, CommitStep(w, at, luck).0.store)
  {
    var s := w.session;
    if s.loaded && s.dirty && !s.destroy && !(s.regenerate && s.token != "" && !luck.delete) {
      var w1 := if s.regenerate && s.token != "" then w.(store := Drop(w.store, at.digest(s.token))) else w;
      if s.regenerate && s.token != "" {
        DropSafe(w.store, at.digest, s.token);
      }
      TokenSafe(w1, at, luck);
      var (w2, ok) := TokenStep(w1, luck);
      if ok {
        WriteSafe(w2, at, luck);
      }
    }
  }

  lemma {:induction false} TokenSafe(w: World, at: Setting, luck: Luck)
    requires Safe(w, at.digest) && Injective(at.digest) && FreshLuck(w, luck) && w.session.loaded
    ensures var (w', ok) := TokenStep(w, luck);
            && Safe(w', at.digest) && Grows(w.store, w'.store) && w'.session.loaded
            && w'.session.destroy == w.session.destroy
            && (ok ==> w'.session.token != "" && at.digest(w'.session.token) !in w'.store.dropped)
  {
    DigestIssued(w.store, at.digest, luck.random);
    assert Digests(at.digest, w.store.issued) <= Digests(at.digest, w.store.issued + {luck.random});
  }

  lemma {:induction false} WriteSafe(w: World, at: Setting, luck: Luck)
    requires Safe(w, at.digest) && w.session.loaded && !w.session.destroy
    requires w.session.token != "" && at.digest(w.session.token) !in w.store.dropped
    ensures var w' := WriteStep(w, at, luck).0;
            Safe(w', at.digest) && Grows(w.store, w'.store)
  {
    assert at.digest(w.session.token) in Digests(at.digest, w.store.issued);
  }

  /** Every operation keeps the safety of the world. */
  lemma {:induction false} ApplySafe(w: World, op: Op, at: Setting, luck: Luck)
    requires Safe(w, at.digest) && Injective(at.digest) && FreshOp(w, op, luck)
    ensures Safe(Apply(w, op, at, luck).0, at.digest) && Grows(w.store, Apply(w, op, at, luck).0.store)
  {
    hide CommitStep, LoadStep, StoreSafe;
    if op.Commit? {
      CommitSafe(w, at, luck);
    } else {
      var (w1, ok) := EnsureStep(w, at, luck.load);
      LoadSafe(w, at, luck.load);
      LoadedAfter(w, at, luck.load);
      if ok && op.Destroy? && w1.session.token != "" {
        DropSafe(w1.store, at.digest, w1.session.token);
      }
    }
  }

  lemma {:induction false} LoadedAfter(w: World, at: Setting, luck: LoadLuck)
    ensures EnsureStep(w, at, luck).0.session.loaded
  {
    hide Decode, PutAll;
  }

  // ---------- whole runs ----------

  datatype Event = Event(op: Op, luck: Luck)

  datatype Request = Request(at: Setting, events: seq<Event>)

  function RunEvents(w: World, at: Setting, events: seq<Event>): World
    decreases |events|
  {
    if events == [] then w
    else RunEvents(Apply(w, events[0].op, at, events[0].luck).0, at, events[1..])
  }

  /** Requests one after the other on one store; each starts with a session of its own. */
  function Serve(store: Store, requests: seq<Request>): Store
    decreases |requests|
  {
    if requests == [] then store
    else Serve(RunEvents(World(NEW_SESSION, store), requests[0].at, requests[0].events).store, requests[1..])
  }

  /** Every token generated in the run is new. */
  predicate FreshEvents(w: World, at: Setting, events: seq<Event>)
    decreases |events|
  {
    events != [] ==>
      FreshOp(w, events[0].op, events[0].luck)
        && FreshEvents(Apply(w, events[0].op, at, events[0].luck).0, at, events[1..])
  }

  ghost predicate FreshRequests(store: Store, requests: seq<Request>, digest: Text -> Text)
    decreases |requests|
  {
    requests != [] ==>
      && requests[0].at.digest == digest
      && FreshEvents(World(NEW_SESSION, store), requests[0].at, requests[0].events)
      && FreshRequests(RunEvents(World(NEW_SESSION, store), requests[0].at, requests[0].events).store, requests[1..],
                       digest)
  }

  lemma {:induction false} EventsSafe(w: World, at: Setting, events: seq<Event>)
    requires Safe(w, at.digest) && Injective(at.digest) && FreshEvents(w, at, events)
    ensures Safe(RunEvents(w, at, events), at.digest) && Grows(w.store, RunEvents(w, at, events).store)
    decreases |events|
  {
    hide Apply, Safe, Injective, FreshOp;
    if events != [] {
      var next := Apply(w, events[0].op, at, events[0].luck).0;
      ApplySafe(w, events[0].op, at, events[0].luck);
      EventsSafe(next, at, events[1..]);
    }
  }

  lemma {:induction false} StartSafe(store: Store, digest: Text -> Text)
    requires StoreSafe(store, digest)
    ensures Safe(World(NEW_SESSION, store), digest)
  {
  }

  /** Main result: in every serial run of requests, with any failures, a record that has been
      dropped is never in the store again. */
  lemma {:induction false} DroppedStaysDropped(store: Store, requests: seq<Request>, digest: Text -> Text, key: Text)
    requires StoreSafe(store, digest) && Injective(digest) && FreshRequests(store, requests, digest)
    requires key in store.dropped
    ensures key in Serve(store, requests).dropped && key !in Serve(store, requests).records
    ensures StoreSafe(Serve(store, requests), digest)
    decreases |requests|
  {
    hide RunEvents, FreshEvents, Injective;
    if requests != [] {
      var w := World(NEW_SESSION, store);
      StartSafe(store, digest);
      EventsSafe(w, requests[0].at, requests[0].events);
      DroppedStaysDropped(RunEvents(w, requests[0].at, requests[0].events).store, requests[1..], digest, key);
    }
  }

  /** In every state a request reaches, a destroyed session is due for a new token. */
  lemma {:induction false} DestroyImpliesRegenerate(store: Store, at: Setting, events: seq<Event>)
    requires StoreSafe(store, at.digest) && Injective(at.digest) && FreshEvents(World(NEW_SESSION, store), at, events)
    ensures var s := RunEvents(World(NEW_SESSION, store), at, events).session;
            s.destroy ==> s.regenerate
  {
    EventsSafe(World(NEW_SESSION, store), at, events);
  }

  // ---------- what drops a record ----------

  lemma {:induction false} RegeneratingCommitDrops(w: World, at: Setting, luck: Luck)
    requires w.session.loaded && w.session.dirty && !w.session.destroy && w.session.regenerate && w.session.token != ""
    requires Apply(w, Commit, at, luck).1
    ensures at.digest(w.session.token) in Apply(w, Commit, at, luck).0.store.dropped
    ensures Apply(w, Commit, at, luck).0.session.token == luck.random
  {
  }

  /** The operation ends the session of `token`: a destroy, or a commit behind a regenerate. */
  predicate Ends(w: World, op: Op, at: Setting, luck: Luck, token: Text) {
    && token != "" && Apply(w, op, at, luck).1
    && match op
       case Destroy => EnsureStep(w, at, luck.load).0.session.token == token
       case Commit =>
         var s := w.session;
         s.token == token && s.loaded && s.dirty && s.regenerate && !s.destroy
       case _ => false
  }

  lemma {:induction false} EndsDrops(w: World, op: Op, at: Setting, luck: Luck, token: Text)
    requires Ends(w, op, at, luck, token)
    ensures at.digest(token) in Apply(w, op, at, luck).0.store.dropped
  {
    hide LoadStep;
    if op.Commit? {
      RegeneratingCommitDrops(w, at, luck);
    }
  }

  /** Main result: once a session is destroyed, or regenerated and committed, its record is not in
      the store after whatever the request still does and after any later requests. */
  lemma {:induction false} EndedForGood(w: World, op: Op, at: Setting, luck: Luck, token: Text, rest: seq<Event>,
                                        requests: seq<Request>)
    requires Safe(w, at.digest) && Injective(at.digest) && FreshOp(w, op, luck) && Ends(w, op, at, luck, token)
    requires FreshEvents(Apply(w, op, at, luck).0, at, rest)
    requires FreshRequests(RunEvents(Apply(w, op, at, luck).0, at, rest).store, requests, at.digest)
    ensures at.digest(token) !in Serve(RunEvents(Apply(w, op, at, luck).0, at, rest).store, requests).records
  {
    hide Apply, Ends, RunEvents, Serve, Injective, FreshOp, FreshEvents, FreshRequests;
    ApplySafe(w, op, at, luck);
    EndsDrops(w, op, at, luck, token);
    EventsSafe(Apply(w, op, at, luck).0, at, rest);
    DroppedStaysDropped(RunEvents(Apply(w, op, at, luck).0, at, rest).store, requests, at.digest, at.digest(token));
  }

  // ---------- reading back ----------

  /** The serialized form decodes to the values. */
  predicate Records(values: map<Text, Item>, blob: Text) {
    Decode(blob).ok && PutAll(map[], Decode(blob).entries) == values
  }

  /** After a successful commit of changes the record of the sent cookie holds the values. */
  lemma {:induction false} CommitStores(w: World, at: Setting, luck: Luck)
    requires w.session.loaded && w.session.dirty && !w.session.destroy && CommitStep(w, at, luck).1
    ensures luck.blob.Some?
    ensures var (w', _) := CommitStep(w, at, luck);
            && w'.session.sentCookie == Some(w'.session.token)
            && w'.session.values == w.session.values
            && at.digest(w'.session.token) in w'.store.records
            && w'.store.records[at.digest(w'.session.token)] == Record(luck.blob.value, at.now + at.ttl)
            && (FreshLuck(w, luck) ==> w'.session.token != "")
  {
  }

  /** The record of `token` is as before, and the session still has another token. */
  predicate KeepsOther(w: World, w': World, digest: Text -> Text, token: Text) {
    && w'.session.token != token && token in w'.store.issued
    && (digest(token) in w.store.records ==>
          digest(token) in w'.store.records && w'.store.records[digest(token)] == w.store.records[digest(token)])
  }

  lemma {:induction false} LoadKeepsOthers(w: World, at: Setting, luck: LoadLuck, token: Text)
    requires Injective(at.digest) && token in w.store.issued && w.session.token != token && at.cookie != token
    ensures KeepsOther(w, LoadStep(w, at, luck).0, at.digest, token)
  {
    hide Decode, PutAll;
    assert at.digest(at.cookie) != at.digest(token);
  }

  lemma {:induction false} CommitKeepsOthers(w: World, at: Setting, luck: Luck, token: Text)
    requires Injective(at.digest) && FreshLuck(w, luck)
    requires token != "" && token in w.store.issued && w.session.token != token
    ensures KeepsOther(w, CommitStep(w, at, luck).0, at.digest, token)
  {
    assert at.digest(w.session.token) != at.digest(token);
    assert at.digest(luck.random) != at.digest(token);
  }

  /** A request whose cookie is not `token` leaves that token's record alone. */
  lemma {:induction false} ApplyKeepsOthers(w: World, op: Op, at: Setting, luck: Luck, token: Text)
    requires Injective(at.digest) && FreshOp(w, op, luck)
    requires token != "" && token in w.store.issued && w.session.token != token && at.cookie != token
    ensures KeepsOther(w, Apply(w, op, at, luck).0, at.digest, token)
  {
    hide LoadStep, CommitStep, FreshLuck;
    if op.Commit? {
      CommitKeepsOthers(w, at, luck, token);
    } else {
      var (w1, ok) := EnsureStep(w, at, luck.load);
      LoadKeepsOthers(w, at, luck.load, token);
      assert at.digest(w1.session.token) != at.digest(token);
    }
  }

  lemma {:induction false} EventsKeepOthers(w: World, at: Setting, events: seq<Event>, token: Text)
    requires Injective(at.digest) && FreshEvents(w, at, events)
    requires token != "" && token in w.store.issued && w.session.token != token && at.cookie != token
    requires at.digest(token) in w.store.records
    ensures var store := RunEvents(w, at, events).store;
            && token in store.issued && at.digest(token) in store.records
            && store.records[at.digest(token)] == w.store.records[at.digest(token)]
    decreases |events|
  {
    hide Apply, Safe, Injective, FreshOp;
    if events != [] {
      ApplyKeepsOthers(w, events[0].op, at, events[0].luck, token);
      EventsKeepOthers(Apply(w, events[0].op, at, events[0].luck).0, at, events[1..], token);
    }
  }

  lemma {:induction false} ServeKeepsOthers(store: Store, requests: seq<Request>, digest: Text -> Text, token: Text)
    requires Injective(digest) && FreshRequests(store, requests, digest)
    requires token != "" && token in store.issued && digest(token) in store.records
    requires forall r :: r in requests ==> r.at.cookie != token
    ensures digest(token) in Serve(store, requests).records
    ensures Serve(store, requests).records[digest(token)] == store.records[digest(token)]
    decreases |requests|
  {
    hide RunEvents, FreshEvents, Injective;
    if requests != [] {
      var w := World(NEW_SESSION, store);
      EventsKeepOthers(w, requests[0].at, requests[0].events, token);
      ServeKeepsOthers(RunEvents(w, requests[0].at, requests[0].events).store, requests[1..], digest, token);
    }
  }

  /** Main result: after a successful commit and any number of requests with other cookies, a
      request with the new cookie reads exactly the committed values if it comes before they
      expire; from then on it starts empty and its row goes. */
  lemma {:induction false} CommittedReadsBack(w: World, at: Setting, luck: Luck, between: seq<Request>, later: Setting,
                                              load: LoadLuck)
    requires Safe(w, at.digest) && Injective(at.digest) && FreshLuck(w, luck)
    requires w.session.loaded && w.session.dirty && !w.session.destroy && CommitStep(w, at, luck).1
    requires luck.blob.Some? && Records(w.session.values, luck.blob.value)
    requires FreshRequests(CommitStep(w, at, luck).0.store, between, at.digest)
    requires forall r :: r in between ==> r.at.cookie != CommitStep(w, at, luck).0.session.token
    requires later.digest == at.digest && Some(later.cookie) == CommitStep(w, at, luck).0.session.sentCookie
    requires load.digest && load.select && load.memory && load.copy
    ensures var store := Serve(CommitStep(w, at, luck).0.store, between);
            var (w', ok) := LoadStep(World(NEW_SESSION, store), later, load);
            && ok && later.cookie != ""
            && if later.now < at.now + at.ttl
               then w'.session.values == w.session.values && w'.session.token == later.cookie && w'.store == store
               else w'.session.values == map[] && w'.session.token == ""
                    && (load.delete ==> later.digest(later.cookie) !in w'.store.records)
  {
    hide CommitStep, Serve, FreshRequests, Decode, PutAll, Injective;
    CommitSafe(w, at, luck);
    CommitStores(w, at, luck);
    var w' := CommitStep(w, at, luck).0;
    ServeKeepsOthers(w'.store, between, at.digest, w'.session.token);
  }
}
