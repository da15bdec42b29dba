/** What the operations of a session do, said plainly: its values are a map, a commit writes them
    when something changed, and a later request reads them until they expire. */
module SessionLaws {
  import opened Texts
  import opened SlotTables
  import opened MapRuns
  import opened SessionCodec
  import opened SessionModel

  // ---------- the plain reading ----------

  /** What a caller knows of a loaded session: its values, whether a commit has something to
      write, whether it was destroyed since, and whether a commit must change the token. */
  datatype Plain = Plain(values: map<Text, Item>, changed: bool, ended: bool, renew: bool)

  function PlainOf(s: Session): Plain {
    Plain(s.values, s.dirty, s.destroy, s.regenerate)
  }

  /** One operation on a session with this token. Only strings need a key. */
  function Reads(p: Plain, token: Text, e: Event): Plain {
    match e.op
    case SetValue(key, item) =>
      if (key == "" && item.StringItem?) || !e.luck.memory then p
      else p.(values := p.values[key := item], changed := true, ended := false)
    case DeleteValue(key) => if key in p.values then p.(values := p.values - {key}, changed := true) else p
    case ClearValues => p.(values := map[], changed := true)
    case Regenerate => p.(changed := true, renew := true)
    case Destroy => if token == "" || e.luck.delete then Plain(map[], false, true, true) else p
    case _ => p
  }

  function ReadsAll(p: Plain, token: Text, events: seq<Event>): Plain
    decreases |events|
  {
    if events == [] then p else ReadsAll(Reads(p, token, events[0]), token, events[1..])
  }

  predicate NoCommit(events: seq<Event>) {
    forall e :: e in events ==> !e.op.Commit?
  }

  lemma {:induction false} OneReads(w: World, at: Setting, e: Event)
    requires w.session.loaded && !e.op.Commit?
    ensures (var w' := Apply(w, e.op, at, e.luck).0;
             && PlainOf(w'.session) == Reads(PlainOf(w.session), w.session.token, e)
             && w'.session.loaded && w'.session.token == w.session.token && w'.store.issued == w.store.issued)
  {
    if e.op.DeleteValue? && e.op.key !in w.session.values {
      assert w.session.values - {e.op.key} == w.session.values;
    }
  }

  /** Main result: over any run of operations on a loaded session up to its commit, with any
      failures, the values, and what a commit will find to do, are those of the plain reading. */
  lemma {:induction false} RunReads(w: World, at: Setting, events: seq<Event>)
    requires w.session.loaded && NoCommit(events)
    ensures (var w' := RunEvents(w, at, events);
             && PlainOf(w'.session) == ReadsAll(PlainOf(w.session), w.session.token, events)
             && w'.session.loaded && w'.session.token == w.session.token && w'.store.issued == w.store.issued)
    decreases |events|
  {
    hide Apply, Reads, PlainOf;
    if events != [] {
      OneReads(w, at, events[0]);
      RunReads(Apply(w, events[0].op, at, events[0].luck).0, at, events[1..]);
    }
  }

  /** A request's first operation loads its session, and a commit alone does nothing. */
  lemma {:induction false} StartsByLoading(store: Store, at: Setting, e: Event, rest: seq<Event>)
    ensures (var start := World(NEW_SESSION, store);
             if e.op.Commit? then Apply(start, e.op, at, e.luck) == (start, true)
             else
               var (w, ok) := LoadStep(start, at, e.luck.load);
               && w.session.loaded
               && if ok then RunEvents(start, at, [e] + rest) == RunEvents(w, at, [e] + rest)
                  else Apply(start, e.op, at, e.luck) == (w, false))
  {
    LoadedAfter(World(NEW_SESSION, store), at, e.luck.load);
    hide LoadStep, DestroyStep, SetStep, DeleteStep;
    assert ([e] + rest)[0] == e;
  }

  /** Main result: at every point of such a run a lookup answers what the plain map holds. */
  lemma {:induction false} LookupAnswers(w: World, at: Setting, events: seq<Event>, key: Text, luck: Luck)
    requires w.session.loaded && NoCommit(events)
    ensures Apply(RunEvents(w, at, events), GetValue(key), at, luck)
         == (RunEvents(w, at, events), key in ReadsAll(PlainOf(w.session), w.session.token, events).values)
  {
    RunReads(w, at, events);
    hide ReadsAll, RunEvents;
  }

  /** Storing a string under the empty key is refused. */
  lemma {:induction false} SetAnswers(w: World, at: Setting, key: Text, item: Item, luck: Luck)
    requires w.session.loaded
    ensures Apply(w, SetValue(key, item), at, luck).1 <==> luck.memory && (item.StringItem? ==> key != "")
    ensures !Apply(w, SetValue(key, item), at, luck).1 ==> Apply(w, SetValue(key, item), at, luck).0 == w
  {
  }

  // ---------- commits ----------

  /** The token under which a commit writes. */
  function NextToken(p: Plain, token: Text, random: Text): Text {
    if token == "" || p.renew then random else token
  }

  /** Main result: a commit behind such a run writes exactly when something changed and the session
      was not destroyed since. Then, if it succeeds, the record of the sent token is what was
      serialized, with the time to live from now on, and the record of a token that was replaced
      is dropped. Otherwise it changes nothing. */
  lemma {:induction false} CommitWrites(w: World, at: Setting, events: seq<Event>, luck: Luck)
    requires w.session.loaded && NoCommit(events) && Injective(at.digest)
    requires luck.random != "" && luck.random !in w.store.issued
    requires w.session.token != "" ==> w.session.token in w.store.issued
    ensures (var p := ReadsAll(PlainOf(w.session), w.session.token, events);
             var next := NextToken(p, w.session.token, luck.random);
             var before := RunEvents(w, at, events);
             var (after, ok) := Apply(before, Commit, at, luck);
             if !p.changed || p.ended then (after, ok) == (before, true)
             else ok ==>
               && luck.blob.Some? && after.session.sentCookie == Some(next) && after.session.token == next != ""
               && after.session.values == p.values && !after.session.dirty && !after.session.regenerate
               && at.digest(next) in after.store.records
               && after.store.records[at.digest(next)] == Record(luck.blob.value, at.now + at.ttl)
               && (w.session.token != "" && p.renew ==>
                     && next != w.session.token && at.digest(w.session.token) in after.store.dropped
                     && at.digest(w.session.token) !in after.store.records))
  {
    RunReads(w, at, events);
    hide ReadsAll, RunEvents, Injective;
    var before := RunEvents(w, at, events);
    if w.session.token != "" {
      assert luck.random != w.session.token;
      DigestsDiffer(at.digest, luck.random, w.session.token);
    }
  }

  /** Main result: a commit that fails loses no value: the session is as it was but for its token and
      its time of expiry, so the commit can be tried again; in the store only the row of the old
      token and that of the new one can have changed. */
  lemma {:induction false} CommitFails(w: World, at: Setting, luck: Luck)
    requires !Apply(w, Commit, at, luck).1
    ensures (var after := Apply(w, Commit, at, luck).0;
             && w.session.dirty && !w.session.destroy
             && after.session == w.session.(token := after.session.token, expiresAt := after.session.expiresAt)
             && after.session.token in {w.session.token, "", luck.random}
             && forall digest :: digest != at.digest(w.session.token) && digest != at.digest(luck.random) ==>
                  (digest in after.store.records <==> digest in w.store.records)
                  && (digest in after.store.records ==> after.store.records[digest] == w.store.records[digest]))
  {
  }

  lemma {:induction false} DigestsDiffer(digest: Text -> Text, a: Text, b: Text)
    requires Injective(digest) && a != b
    ensures digest(a) != digest(b)
  {
  }

  // ---------- loading ----------

  /** A load in which nothing fails. */
  predicate Smooth(load: LoadLuck) {
    load.digest && load.select && load.delete && load.memory && load.copy
  }

  /** A record that a request can use: in time, and well formed to its last byte. */
  predicate Usable(record: Record, now: int) {
    now < record.expires && Decode(record.data).ok
  }

  /** Main result: what a load finds when nothing fails. A usable record gives its values and the
      token of the cookie. One that is not usable is deleted, and gives no token: an expired one no
      values either, a broken one the values it begins with. Without a cookie or a record there is
      nothing to find. */
  lemma {:induction false} LoadFinds(store: Store, at: Setting, load: LoadLuck)
    requires Smooth(load)
    ensures (var (found, ok) := LoadStep(World(NEW_SESSION, store), at, load);
             var s := found.session;
             var key := at.digest(at.cookie);
             && ok && s.loaded && s.sentCookie == None && !s.dirty && !s.regenerate && !s.destroy
             && if at.cookie == "" || key !in store.records
                then s.values == map[] && s.token == "" && found.store == store
                else
                  var record := store.records[key];
                  var read := if record.expires <= at.now then [] else Decode(record.data).entries;
                  && s.values == PutAll(map[], read)
                  && if Usable(record, at.now) then s.token == at.cookie && found.store == store
                     else s.token == "" && found.store.records == store.records - {key}
                          && found.store.issued == store.issued)
  {
    hide Decode;
    assert PutAll(map[], []) == map[];
    hide PutAll;
  }

  /** Main result: how a load fails. One that cannot ask the store is reported; one that cannot copy
      the token too, with the values read; where memory runs out while the values are read, the
      record is deleted as if it were broken. */
  lemma {:induction false} LoadFails(store: Store, at: Setting, load: LoadLuck)
    requires at.cookie != "" && load.digest
    ensures (var (found, ok) := LoadStep(World(NEW_SESSION, store), at, load);
             var key := at.digest(at.cookie);
             && (!load.select ==> !ok && found == World(NEW_SESSION.(loaded := true), store))
             && (load.select && key in store.records && at.now < store.records[key].expires ==>
                   && (!load.memory ==> ok && found.session.token == "" && found.session.values == load.partial
                                        && (load.delete ==> key !in found.store.records))
                   && (load.memory && Decode(store.records[key].data).ok && !load.copy ==>
                         !ok && found.session.token == "" && found.store == store
                         && found.session.values == PutAll(map[], Decode(store.records[key].data).entries))))
  {
    hide Decode, PutAll;
  }

  // ---------- reading back ----------

  /** Main result: what a request did to its values is what the next request with its new cookie
      finds, whatever other requests come in between, until the record expires; then that request
      starts with an empty session and no token, and the row is gone. */
  lemma {:induction false} RunReadsBack(w: World, at: Setting, events: seq<Event>, luck: Luck, between: seq<Request>,
                                        later: Setting, load: LoadLuck)
    requires Safe(w, at.digest) && Injective(at.digest) && w.session.loaded && NoCommit(events)
    requires luck.random != "" && luck.random !in w.store.issued
    requires (var p := ReadsAll(PlainOf(w.session), w.session.token, events);
              p.changed && !p.ended && luck.blob.Some? && Records(p.values, luck.blob.value))
    requires Apply(RunEvents(w, at, events), Commit, at, luck).1
    requires FreshRequests(Apply(RunEvents(w, at, events), Commit, at, luck).0.store, between, at.digest)
    requires later.digest == at.digest && Smooth(load)
    requires later.cookie
          == NextToken(ReadsAll(PlainOf(w.session), w.session.token, events), w.session.token, luck.random)
    requires forall r :: r in between ==> r.at.cookie != later.cookie
    ensures (var p := ReadsAll(PlainOf(w.session), w.session.token, events);
             var store := Serve(Apply(RunEvents(w, at, events), Commit, at, luck).0.store, between);
             var (found, ok) := LoadStep(World(NEW_SESSION, store), later, load);
             && ok
             && if later.now < at.now + at.ttl
                then found.session.values == p.values && found.session.token == later.cookie && found.store == store
                else found.session.values == map[] && found.session.token == ""
                     && at.digest(later.cookie) !in found.store.records)
  {
    RunReads(w, at, events);
    NoCommitIsFresh(w, at, events);
    EventsSafe(w, at, events);
    CommitWrites(w, at, events, luck);
    var before := RunEvents(w, at, events);
    hide ReadsAll, RunEvents, Safe, Injective, Records, LoadStep, Serve, FreshRequests, CommitStep;
    CommittedReadsBack(before, at, luck, between, later, load);
  }

  lemma {:induction false} NoCommitIsFresh(w: World, at: Setting, events: seq<Event>)
    requires NoCommit(events)
    ensures FreshEvents(w, at, events)
    decreases |events|
  {
    hide Apply;
    if events != [] {
      NoCommitIsFresh(Apply(w, events[0].op, at, events[0].luck).0, at, events[1..]);
    }
  }

  /** Main result: a value that a request deletes is gone, and no other: the next request with its
      cookie finds the rest of the values, as long as they have not expired. */
  lemma {:induction false} DeletedIsGone(w: World, at: Setting, key: Text, op: Luck, luck: Luck, between: seq<Request>,
                                         later: Setting, load: LoadLuck)
    requires Safe(w, at.digest) && Injective(at.digest) && w.session.loaded && !w.session.destroy
    requires key in w.session.values && luck.random != "" && luck.random !in w.store.issued
    requires luck.blob.Some? && Records(w.session.values - {key}, luck.blob.value)
    requires Apply(RunEvents(w, at, [Event(DeleteValue(key), op)]), Commit, at, luck).1
    requires FreshRequests(Apply(RunEvents(w, at, [Event(DeleteValue(key), op)]), Commit, at, luck).0.store, between,
                           at.digest)
    requires later.digest == at.digest && Smooth(load) && later.now < at.now + at.ttl
    requires Some(later.cookie)
          == Apply(RunEvents(w, at, [Event(DeleteValue(key), op)]), Commit, at, luck).0.session.sentCookie
    requires forall r :: r in between ==> r.at.cookie != later.cookie
    ensures (var after := Apply(RunEvents(w, at, [Event(DeleteValue(key), op)]), Commit, at, luck).0;
             var store := Serve(after.store, between);
             LoadStep(World(NEW_SESSION, store), later, load).0.session.values == w.session.values - {key})
  {
    var events := [Event(DeleteValue(key), op)];
    assert events[1..] == [];
    var p := PlainOf(w.session);
    assert ReadsAll(p, w.session.token, events) == p.(values := p.values - {key}, changed := true);
    hide ReadsAll, Apply, RunEvents, Injective, Records, LoadStep, Serve, FreshRequests;
    CommitWrites(w, at, events, luck);
    RunReadsBack(w, at, events, luck, between, later, load);
  }

  // ---------- renewing ----------

  /** A regenerate that is not followed by a destroy leaves the commit a token to change. */
  lemma {:induction false} RenewStays(p: Plain, token: Text, events: seq<Event>)
    requires forall e :: e in events ==> !e.op.Commit? && !e.op.Destroy?
    ensures (var q := ReadsAll(p, token, events);
             && (p.renew ==> q.renew) && (p.changed ==> q.changed) && (q.ended ==> p.ended))
    decreases |events|
  {
    hide Reads;
    if events != [] {
      OneRenewStays(p, token, events[0]);
      RenewStays(Reads(p, token, events[0]), token, events[1..]);
    }
  }

  lemma {:induction false} OneRenewStays(p: Plain, token: Text, e: Event)
    requires !e.op.Commit? && !e.op.Destroy?
    ensures (var q := Reads(p, token, e);
             && (p.renew ==> q.renew) && (p.changed ==> q.changed) && (q.ended ==> p.ended))
  {
  }

  /** Main result: a session that is regenerated gets a new token with its next commit, whatever is
      set, deleted or cleared in between; the old token's record is gone, and stays away whatever
      the request still does and whatever later requests do. */
  lemma {:induction false} RegeneratedForGood(w: World, at: Setting, first: Luck, middle: seq<Event>, luck: Luck,
                                              rest: seq<Event>, requests: seq<Request>)
    requires Safe(w, at.digest) && Injective(at.digest)
    requires w.session.loaded && w.session.token != "" && !w.session.destroy
    requires forall e :: e in middle ==> !e.op.Commit? && !e.op.Destroy?
    requires luck.random != "" && luck.random !in w.store.issued
    requires (var before := RunEvents(w, at, [Event(Regenerate, first)] + middle);
              var (after, ok) := Apply(before, Commit, at, luck);
              && ok && FreshEvents(after, at, rest)
              && FreshRequests(RunEvents(after, at, rest).store, requests, at.digest))
    ensures (var before := RunEvents(w, at, [Event(Regenerate, first)] + middle);
             var after := Apply(before, Commit, at, luck).0;
             && after.session.sentCookie == Some(luck.random) && luck.random != w.session.token
             && at.digest(w.session.token) !in after.store.records
             && at.digest(w.session.token) !in Serve(RunEvents(after, at, rest).store, requests).records)
  {
    var events := [Event(Regenerate, first)] + middle;
    var p := PlainOf(w.session);
    assert events[1..] == middle;
    assert ReadsAll(p, w.session.token, events)
        == ReadsAll(p.(changed := true, renew := true), w.session.token, middle);
    RenewStays(p.(changed := true, renew := true), w.session.token, middle);
    RenewedForGood(w, at, events, luck, rest, requests);
  }

  /** The same for every run that leaves the commit a token to change and something to write, as a
      destroy followed by a set does. */
  lemma {:induction false} RenewedForGood(w: World, at: Setting, events: seq<Event>, luck: Luck, rest: seq<Event>,
                                          requests: seq<Request>)
    requires Safe(w, at.digest) && Injective(at.digest) && w.session.loaded && w.session.token != "" && NoCommit(events)
    requires (var p := ReadsAll(PlainOf(w.session), w.session.token, events); p.renew && p.changed && !p.ended)
    requires luck.random != "" && luck.random !in w.store.issued
    requires (var (after, ok) := Apply(RunEvents(w, at, events), Commit, at, luck);
              && ok && FreshEvents(after, at, rest)
              && FreshRequests(RunEvents(after, at, rest).store, requests, at.digest))
    ensures (var after := Apply(RunEvents(w, at, events), Commit, at, luck).0;
             && after.session.sentCookie == Some(luck.random) && luck.random != w.session.token
             && at.digest(w.session.token) !in after.store.records
             && at.digest(w.session.token) !in Serve(RunEvents(after, at, rest).store, requests).records)
  {
    RunReads(w, at, events);
    NoCommitIsFresh(w, at, events);
    EventsSafe(w, at, events);
    CommitWrites(w, at, events, luck);
    var before := RunEvents(w, at, events);
    hide ReadsAll, RunEvents, Injective, Serve, FreshRequests, FreshEvents, CommitStep, StoreSafe;
    assert Ends(before, Commit, at, luck, w.session.token);
    hide Safe, Apply, Ends;
    EndedForGood(before, Commit, at, luck, w.session.token, rest, requests);
  }

  // ---------- ending ----------

  /** Main result: a destroy that works leaves no values, asks the client to forget its cookie, and
      drops the record; a commit behind it has nothing to write. */
  lemma {:induction false} DestroyedIsEmpty(w: World, at: Setting, op: Luck, luck: Luck)
    requires w.session.loaded && Apply(w, Destroy, at, op).1
    ensures (var ended := Apply(w, Destroy, at, op).0;
             && ended.session.values == map[] && (op.cookie ==> ended.session.sentCookie == Some(""))
             && (w.session.token != "" ==> at.digest(w.session.token) !in ended.store.records)
             && Apply(ended, Commit, at, luck) == (ended, true))
  {
  }

  /** Main result: a request that only looks at its session leaves every record alone but its own
      when that is expired or broken, and sends no cookie. */
  lemma {:induction false} LookingChangesNothing(store: Store, at: Setting, key: Text, op: Luck, luck: Luck)
    ensures (var w := Apply(World(NEW_SESSION, store), GetValue(key), at, op).0;
             && Apply(w, Commit, at, luck) == (w, true) && w.session.sentCookie == None
             && w.store.issued == store.issued
             && forall digest :: digest in store.records && digest != at.digest(at.cookie) ==>
                  digest in w.store.records && w.store.records[digest] == store.records[digest])
  {
    hide Decode, PutAll;
  }
}
