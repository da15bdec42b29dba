/** The functions of src/session/session.c on the session of one request. Each one is a step of
    the session model; the ghost result says how its surroundings behaved. */
module Sessions {
  import opened Texts
  import opened Numbers
  import opened SlotTables
  import opened StringMaps
  import opened MapRuns
  import opened SessionCodec
  import opened SessionModel

  /** The table of session records. Where statements may fail, a failed one changes nothing. */
  class Database {
    const digest: Text -> Text
    const mayFail: bool
    var records: map<Text, Record>
    ghost var dropped: set<Text>
    ghost var issued: set<Text>

    constructor (digest: Text -> Text, mayFail: bool)
      ensures this.digest == digest && this.mayFail == mayFail && TheStore() == Store(map[], {}, {})
    {
      this.digest := digest;
      this.mayFail := mayFail;
      records, dropped, issued := map[], {}, {};
    }

    ghost function TheStore(): Store
      reads this
    {
      Store(records, dropped, issued)
    }

    method Select(key: Text) returns (ok: bool, row: Option<Record>)
      ensures ok ==> row == if key in records then Some(records[key]) else None
      ensures !ok ==> mayFail
    {
      var works: bool := *;
      if mayFail && !works {
        return false, None;
      }
      return true, if key in records then Some(records[key]) else None;
    }

    /** session_delete_digest. */
    method Delete(key: Text) returns (ok: bool)
      modifies this
      ensures TheStore() == if ok then Drop(old(TheStore()), key) else old(TheStore())
      ensures !ok ==> mayFail
    {
      var works: bool := *;
      if mayFail && !works {
        return false;
      }
      records := records - {key};
      dropped := dropped + {key};
      ok := true;
    }

    /** INSERT OR REPLACE. */
    method Upsert(key: Text, record: Record) returns (ok: bool)
      modifies this
      ensures TheStore() == if ok then old(TheStore()).(records := old(records)[key := record]) else old(TheStore())
      ensures !ok ==> mayFail
    {
      var works: bool := *;
      if mayFail && !works {
        return false;
      }
      records := records[key := record];
      ok := true;
    }
  }

  class Context {
    const db: Database
    const values: StringMap
    const cookie: Text
    const sodiumMayFail: bool
    var token: Text
    var loaded: bool
    var stored: bool
    var dirty: bool
    var regenerate: bool
    var destroy: bool
    var expiresAt: int
    var sentCookie: Option<Text>

    ghost predicate Valid()
      reads this, values, values.slots, values.heap
    {
      values.Valid()
    }

    ghost function TheSession(): Session
      reads this, values
    {
      Session(values.contents, token, loaded, stored, dirty, regenerate, destroy, expiresAt, sentCookie)
    }

    ghost function TheWorld(): World
      reads this, values, db
    {
      World(TheSession(), db.TheStore())
    }

    /** Only the slot array of the values is ever exchanged, for one that is no smaller. */
    twostate predicate SlotsKept()
      reads this, values
    {
      (values.slots == old(values.slots) || fresh(values.slots)) && values.slots.Length >= old(values.slots.Length)
    }

    /** The values' slot array can still be doubled. */
    ghost predicate Roomy()
      reads values
    {
      values.slots.Length * 2 <= SIZE_MAX / SLOT_SIZE
    }

    /** Something around the session may fail. */
    ghost predicate Unreliable()
    {
      values.heap.mayRefuse || db.mayFail || sodiumMayFail
    }

    /** Loading is reported to go wrong only where the surroundings allow it. */
    ghost predicate FairLoad(luck: LoadLuck)
      reads values
    {
      && (!luck.digest ==> sodiumMayFail)
      && (!luck.select ==> db.mayFail)
      && (!luck.delete ==> db.mayFail || sodiumMayFail)
      && (!luck.copy ==> values.heap.mayRefuse)
      && (!luck.memory ==> values.heap.mayRefuse || !Roomy())
    }

    /** So is an operation. */
    ghost predicate Fair(luck: Luck)
      reads values
    {
      && FairLoad(luck.load)
      && (!luck.sodium || !luck.digest ==> sodiumMayFail)
      && (!luck.delete ==> db.mayFail || sodiumMayFail)
      && (!luck.upsert ==> db.mayFail)
      && (!luck.copy || !luck.cookie ==> values.heap.mayRefuse)
      && (!luck.memory ==> values.heap.mayRefuse || !Roomy())
    }

    ghost function At(now: int, ttl: int): Setting {
      Setting(db.digest, cookie, now, ttl)
    }

    constructor (db: Database, cookie: Text, hash: Hash, mayRefuse: bool, sodiumMayFail: bool)
      ensures values.heap.mayRefuse == mayRefuse && this.sodiumMayFail == sodiumMayFail
      ensures Valid() && this.db == db && this.cookie == cookie && TheSession() == NEW_SESSION
      ensures fresh(values) && fresh(values.slots) && fresh(values.heap)
    {
      this.db, this.cookie, this.sodiumMayFail := db, cookie, sodiumMayFail;
      var heap := new Heap(mayRefuse);
      values := new StringMap(heap, hash);
      token, loaded, stored, dirty, regenerate, destroy, expiresAt := "", false, false, false, false, false, 0;
      sentCookie := None;
    }

    /** session_digest, for a token that is not empty. */
    method Digest(text: Text) returns (digest: Option<Text>)
      ensures digest == None || digest == Some(db.digest(text))
      ensures digest.None? ==> sodiumMayFail
    {
      var works: bool := *;
      digest := if works || !sodiumMayFail then Some(db.digest(text)) else None;
    }

    /** session_delete_digest. */
    method DeleteDigest(text: Text) returns (ok: bool)
      modifies db
      ensures db.TheStore() == if ok then Drop(old(db.TheStore()), db.digest(text)) else old(db.TheStore())
      ensures !ok ==> db.mayFail || sodiumMayFail
    {
      var key := Digest(text);
      if key.None? {
        return false;
      }
      ok := db.Delete(key.value);
    }

    /** The deletion of a record that session_load cannot use. */
    method Refuse() returns (ghost deleted: bool)
      modifies db
      ensures TheWorld() == RefuseRecord(old(TheWorld()), db.digest(cookie), LUCKY_LOAD.(delete := deleted))
      ensures !deleted ==> db.mayFail || sodiumMayFail
    {
      deleted := DeleteDigest(cookie);
    }

    /** The part of session_load that reads the row it found. */
    method ReadRecord(ghost key: Text, record: Record, now: int, ghost ttl: int)
      returns (ok: bool, ghost luck: LoadLuck)
      requires Valid() && key == db.digest(cookie)
      modifies this, values, values.slots, values.heap, db
      ensures Valid() && SlotsKept() && luck.select && luck.digest && FairLoad(luck)
      ensures (TheWorld(), ok) == ReadStep(old(TheWorld()), key, record, At(now, ttl), luck)
    {
      hide StringMap.Valid, StringMap.Outside, Decode, PutAll, Database.TheStore, RefuseRecord;
      ghost var decoded := Decode(record.data);
      luck := LUCKY_LOAD;
      if record.expires <= now {
        ghost var deleted := Refuse();
        SameRefusal(old(TheWorld()), key, LUCKY_LOAD.(delete := deleted), luck.(delete := deleted));
        return true, luck.(delete := deleted);
      }
      ghost var before := values.contents;
      var read := Deserialize(values, record.data);
      FailureIsRefusal(values);
      if !read {
        ghost var enough := !decoded.ok && values.contents == PutAll(before, decoded.entries);
        ghost var w := TheWorld();
        ghost var deleted := Refuse();
        luck := LUCKY_LOAD.(delete := deleted, memory := enough, partial := values.contents);
        SameRefusal(w, key, LUCKY_LOAD.(delete := deleted), luck);
        return true, luck;
      }
      expiresAt, stored := record.expires, true;
      var granted: bool := *;
      if values.heap.mayRefuse && !granted {
        return false, luck.(copy := false);
      }
      token := cookie;
      return true, luck;
    }

    /** session_load. */
    method Load(now: int, ghost ttl: int) returns (ok: bool, ghost luck: LoadLuck)
      requires Valid()
      modifies this, values, values.slots, values.heap, db
      ensures Valid() && SlotsKept() && FairLoad(luck)
      ensures (TheWorld(), ok) == LoadStep(old(TheWorld()), At(now, ttl), luck)
    {
      hide StringMap.Valid, ReadStep;
      luck := LUCKY_LOAD;
      loaded := true;
      if |cookie| == 0 {
        return true, luck;
      }
      var digest := Digest(cookie);
      if digest.None? {
        return true, luck.(digest := false);
      }
      var key := digest.value;
      var selected, row := db.Select(key);
      if !selected {
        return false, luck.(select := false);
      }
      if row.None? {
        return true, luck;
      }
      ok, luck := ReadRecord(key, row.value, now, ttl);
    }

    /** session_ensure. */
    method Ensure(now: int, ghost ttl: int) returns (ok: bool, ghost luck: LoadLuck)
      requires Valid()
      modifies this, values, values.slots, values.heap, db
      ensures Valid() && SlotsKept() && FairLoad(luck)
      ensures (TheWorld(), ok) == EnsureStep(old(TheWorld()), At(now, ttl), luck)
    {
      hide LoadStep, StringMap.Valid;
      if loaded {
        return true, LUCKY_LOAD;
      }
      ok, luck := Load(now, ttl);
    }

    /** sm_set_string_view, or sm_set_value with an integer or a boolean. */
    method PutItem(key: Text, item: Item) returns (ok: bool)
      requires Valid() && (item.StringItem? || item.IntItem? || item.BoolItem?)
      modifies values, values.slots, values.heap
      ensures Valid() && SlotsKept() && (!ok ==> values.heap.mayRefuse || !Roomy())
      ensures values.contents == if ok then old(values.contents)[key := item] else old(values.contents)
    {
      hide StringMap.Valid, StringMap.Outside, GrowthBound;
      if item.StringItem? {
        ok := values.SetString(key, item.text);
      } else {
        ok := values.SetScalar(key, item);
      }
      FailureIsRefusal(values);
    }

    /** Storing an item once the session is loaded. */
    method StoreItem(key: Text, item: Item, ghost load: LoadLuck) returns (ok: bool, ghost luck: Luck)
      requires Valid() && (item.StringItem? || item.IntItem? || item.BoolItem?) && FairLoad(load)
      modifies this, values, values.slots, values.heap
      ensures Valid() && SlotsKept() && luck.load == load && Fair(luck)
      ensures (TheWorld(), ok) == SetStep(old(TheWorld()), key, item, luck)
    {
      hide StringMap.Valid, Database.TheStore;
      luck := LUCKY.(load := load);
      if item.StringItem? && |key| == 0 {
        return false, luck;
      }
      ok := PutItem(key, item);
      if !ok {
        return false, luck.(memory := false);
      }
      destroy, dirty := false, true;
    }

    /** session_set_string, session_set_int64 and session_set_bool. */
    method Set(key: Text, item: Item, now: int, ghost ttl: int) returns (ok: bool, ghost luck: Luck)
      requires Valid() && (item.StringItem? || item.IntItem? || item.BoolItem?)
      modifies this, values, values.slots, values.heap, db
      ensures Valid() && SlotsKept() && Fair(luck)
      ensures (TheWorld(), ok) == Apply(old(TheWorld()), SetValue(key, item), At(now, ttl), luck)
    {
      hide Apply, EnsureStep, SetStep, Valid, TheWorld;
      ghost var load;
      ok, load := Ensure(now, ttl);
      ghost var w1 := TheWorld();
      if !ok {
        luck := LUCKY.(load := load);
        ApplyUnloaded(old(TheWorld()), w1, SetValue(key, item), At(now, ttl), luck);
        return;
      }
      ok, luck := StoreItem(key, item, load);
      ApplyVia(old(TheWorld()), w1, SetValue(key, item), At(now, ttl), luck);
    }

    /** The lookup behind the session getters. */
    method Get(key: Text, now: int, ghost ttl: int) returns (item: Option<Item>, ghost luck: Luck)
      requires Valid()
      modifies this, values, values.slots, values.heap, db
      ensures Valid() && SlotsKept() && Fair(luck)
      ensures (TheWorld(), item.Some?) == Apply(old(TheWorld()), GetValue(key), At(now, ttl), luck)
      ensures item.Some? ==> key in values.contents && item.value == values.contents[key]
    {
      hide Apply, EnsureStep, StringMap.Valid;
      var ok;
      ghost var load;
      ok, load := Ensure(now, ttl);
      luck := LUCKY.(load := load);
      if !ok {
        ApplyUnloaded(old(TheWorld()), TheWorld(), GetValue(key), At(now, ttl), luck);
        return None, luck;
      }
      item := values.Get(key);
      ApplyVia(old(TheWorld()), TheWorld(), GetValue(key), At(now, ttl), luck);
    }

    /** session_delete. */
    method Delete(key: Text, now: int, ghost ttl: int) returns (ok: bool, ghost luck: Luck)
      requires Valid()
      modifies this, values, values.slots, values.heap, db
      ensures Valid() && SlotsKept() && Fair(luck)
      ensures (TheWorld(), ok) == Apply(old(TheWorld()), DeleteValue(key), At(now, ttl), luck)
    {
      hide Apply, EnsureStep, StringMap.Valid, StringMap.Outside, Database.TheStore;
      ghost var load;
      ok, load := Ensure(now, ttl);
      luck := LUCKY.(load := load);
      ghost var w1 := TheWorld();
      if !ok {
        ApplyUnloaded(old(TheWorld()), w1, DeleteValue(key), At(now, ttl), luck);
        return;
      }
      var removed := values.Remove(key);
      if removed {
        dirty := true;
      }
      ApplyVia(old(TheWorld()), w1, DeleteValue(key), At(now, ttl), luck);
    }

    /** session_clear. */
    method Clear(now: int, ghost ttl: int) returns (ok: bool, ghost luck: Luck)
      requires Valid()
      modifies this, values, values.slots, values.heap, db
      ensures Valid() && SlotsKept() && Fair(luck)
      ensures (TheWorld(), ok) == Apply(old(TheWorld()), ClearValues, At(now, ttl), luck)
    {
      hide Apply, EnsureStep, StringMap.Valid, StringMap.Outside, Database.TheStore;
      ghost var load;
      ok, load := Ensure(now, ttl);
      luck := LUCKY.(load := load);
      ghost var w1 := TheWorld();
      if !ok {
        ApplyUnloaded(old(TheWorld()), w1, ClearValues, At(now, ttl), luck);
        return;
      }
      values.Clear();
      dirty := true;
      ApplyVia(old(TheWorld()), w1, ClearValues, At(now, ttl), luck);
    }

    /** session_regenerate. */
    method RegenerateToken(now: int, ghost ttl: int) returns (ok: bool, ghost luck: Luck)
      requires Valid()
      modifies this, values, values.slots, values.heap, db
      ensures Valid() && SlotsKept() && Fair(luck)
      ensures (TheWorld(), ok) == Apply(old(TheWorld()), Regenerate, At(now, ttl), luck)
    {
      hide Apply, EnsureStep, StringMap.Valid, Database.TheStore;
      ghost var load;
      ok, load := Ensure(now, ttl);
      luck := LUCKY.(load := load);
      ghost var w1 := TheWorld();
      if !ok {
        ApplyUnloaded(old(TheWorld()), w1, Regenerate, At(now, ttl), luck);
        return;
      }
      regenerate, dirty := true, true;
      ApplyVia(old(TheWorld()), w1, Regenerate, At(now, ttl), luck);
    }

    /** The deletion of the record of a session that has a token. */
    method DropRecord() returns (ok: bool)
      modifies db
      ensures db.TheStore()
           == if ok && token != "" then Drop(old(db.TheStore()), db.digest(token)) else old(db.TheStore())
      ensures !ok ==> token != "" && (db.mayFail || sodiumMayFail)
    {
      if |token| > 0 {
        ok := DeleteDigest(token);
      } else {
        ok := true;
      }
    }

    /** The cookie that makes the client forget the session. */
    method ExpireCookie() returns (sent: bool)
      modifies this`sentCookie
      ensures sentCookie == if sent then Some("") else old(sentCookie)
      ensures !sent ==> values.heap.mayRefuse
    {
      var granted: bool := *;
      sent := granted || !values.heap.mayRefuse;
      if sent {
        sentCookie := Some("");
      }
    }

    /** What session_destroy does to the session once its record is gone. */
    method EndSession() returns (sent: bool)
      requires Valid()
      modifies this, values, values.slots, values.heap
      ensures Valid() && SlotsKept() && (!sent ==> values.heap.mayRefuse)
      ensures TheSession() == old(TheSession()).(values := map[], destroy := true, regenerate := true, dirty := false,
                                                 stored := false,
                                                 sentCookie := if sent then Some("") else old(sentCookie))
    {
      hide StringMap.Valid, StringMap.Outside;
      values.Clear();
      destroy, regenerate, dirty, stored := true, true, false, false;
      sent := ExpireCookie();
    }

    /** The part of session_destroy that acts on the loaded session. */
    method DestroyLoaded(now: int, ghost ttl: int, ghost load: LoadLuck) returns (ok: bool, ghost luck: Luck)
      requires Valid() && FairLoad(load)
      modifies this, values, values.slots, values.heap, db
      ensures Valid() && SlotsKept() && luck.load == load && Fair(luck)
      ensures (TheWorld(), ok) == DestroyStep(old(TheWorld()), At(now, ttl), luck)
    {
      hide Valid, Database.TheStore, Drop;
      luck := LUCKY.(load := load);
      ok := DropRecord();
      if !ok {
        return false, luck.(delete := false);
      }
      var sent := EndSession();
      luck := luck.(cookie := sent);
    }

    /** session_destroy. */
    method DestroySession(now: int, ghost ttl: int) returns (ok: bool, ghost luck: Luck)
      requires Valid()
      modifies this, values, values.slots, values.heap, db
      ensures Valid() && SlotsKept() && Fair(luck)
      ensures (TheWorld(), ok) == Apply(old(TheWorld()), Destroy, At(now, ttl), luck)
    {
      hide Apply, EnsureStep, DestroyStep, Valid, TheWorld;
      ghost var load;
      ok, load := Ensure(now, ttl);
      ghost var w1 := TheWorld();
      if !ok {
        luck := LUCKY.(load := load);
        ApplyUnloaded(old(TheWorld()), w1, Destroy, At(now, ttl), luck);
        return;
      }
      ok, luck := DestroyLoaded(now, ttl, load);
      ApplyVia(old(TheWorld()), w1, Destroy, At(now, ttl), luck);
    }

    /** The token part of session_commit, session_generate_token included; `random` is what the
        random source gives. */
    method RenewToken(random: Text) returns (ok: bool, ghost luck: Luck)
      modifies this`token, db`issued
      ensures (TheWorld(), ok) == TokenStep(old(TheWorld()), luck) && luck.random == random && Fair(luck)
      ensures !ok ==> values.heap.mayRefuse || sodiumMayFail
    {
      luck := LUCKY.(random := random);
      if |token| > 0 && !regenerate {
        return true, luck;
      }
      var generated: bool := *;
      if sodiumMayFail && !generated {
        return false, luck.(sodium := false);
      }
      var granted: bool := *;
      if values.heap.mayRefuse && !granted {
        token := "";
        return false, luck.(copy := false);
      }
      token := random;
      db.issued := db.issued + {random};
      ok := true;
    }

    /** The last part of session_commit. The record it writes decodes to the values. */
    method WriteRecord(now: int, ttl: int) returns (ok: bool, ghost luck: Luck)
      requires Valid()
      modifies this, db
      ensures Valid() && (TheWorld(), ok) == WriteStep(old(TheWorld()), At(now, ttl), luck) && Fair(luck)
      ensures !ok ==> Unreliable() || !Serializable(Entries(values.slots[..]))
      ensures luck.blob.Some? && Int64s(values.contents) ==> Records(values.contents, luck.blob.value)
    {
      hide StringMap.Valid, Decode, PutAll, Records, Serializable, Encode, Int64s;
      luck := LUCKY;
      var data, _ := Serialize(values);
      luck := luck.(blob := data);
      if data.None? {
        return false, luck;
      }
      SerializedRecords(values, data.value);
      var key := Digest(token);
      if key.None? {
        return false, luck.(digest := false);
      }
      expiresAt := now + ttl;
      var written := db.Upsert(key.value, Record(data.value, expiresAt));
      if !written {
        return false, luck.(upsert := false);
      }
      var granted: bool := *;
      if values.heap.mayRefuse && !granted {
        return false, luck.(cookie := false);
      }
      sentCookie := Some(token);
      stored, dirty, regenerate := true, false, false;
      return true, luck;
    }

    /** session_commit. */
    method CommitSession(now: int, ttl: int, random: Text) returns (ok: bool, ghost luck: Luck)
      requires Valid() && random != "" && random !in db.issued
      modifies this, db
      ensures Valid() && FreshLuck(old(TheWorld()), luck) && Fair(luck)
      ensures (TheWorld(), ok) == Apply(old(TheWorld()), Commit, At(now, ttl), luck)
      ensures !ok ==> Unreliable() || !Serializable(Entries(values.slots[..]))
      ensures luck.blob.Some? && Int64s(values.contents) ==> Records(values.contents, luck.blob.value)
    {
      hide StringMap.Valid, Records, Int64s, TokenStep, WriteStep, Drop;
      ok, luck := true, LUCKY.(random := random, blob := None);
      if !loaded || !dirty {
        return;
      }
      if destroy {
        return;
      }
      if regenerate && |token| > 0 {
        var deleted := DeleteDigest(token);
        if !deleted {
          return false, luck.(delete := false);
        }
      }
      ghost var w1 := TheWorld();
      ghost var renewal, write;
      ok, renewal := RenewToken(random);
      luck := luck.(delete := true, sodium := renewal.sodium, copy := renewal.copy);
      if !ok {
        CommitVia(old(TheWorld()), w1, At(now, ttl), renewal, luck, luck);
        return;
      }
      ok, write := WriteRecord(now, ttl);
      luck := write.(delete := true, sodium := renewal.sodium, copy := renewal.copy, random := random);
      CommitVia(old(TheWorld()), w1, At(now, ttl), renewal, write, luck);
    }
  }

  lemma {:induction false} SameRefusal(w: World, key: Text, a: LoadLuck, b: LoadLuck)
    requires a.delete == b.delete
    ensures RefuseRecord(w, key, a) == RefuseRecord(w, key, b)
  {
  }

  /** The integers among the values fit 64 bits, as every integer of the program does. */
  ghost predicate Int64s(m: map<Text, Item>) {
    forall k :: k in m && m[k].IntItem? ==> INT64_MIN <= m[k].i <= INT64_MAX
  }

  lemma {:induction false} SerializedRecords(values: StringMap, blob: Text)
    requires values.Valid() && Serializable(Entries(values.slots[..])) && blob == Encode(Entries(values.slots[..]))
    ensures Int64s(values.contents) ==> Records(values.contents, blob)
  {
    hide Decode, Encode, PutAll, Serializable;
    var t := values.slots[..];
    GoodRoom(t, values.hash, values.contents, values.length, values.tombstones);
    if Int64s(values.contents) {
      EntriesHaveInt64s(t, values.contents);
      RecordReadsBack(t, values.contents);
    }
  }

  lemma {:induction false} EntriesHaveInt64s(t: Table, m: map<Text, Item>)
    requires forall i :: 0 <= i < |t| && t[i].Occupied? ==> t[i].value.Value? && Agrees(m, t[i])
    requires Int64s(m)
    ensures AllInt64(Entries(t))
  {
    if t != [] {
      EntriesHaveInt64s(t[..|t| - 1], m);
      assert t[|t| - 1].Occupied? ==> Agrees(m, t[|t| - 1]);
    }
  }
}
