/** The adapter object itself (src/utils/auth/secure-storage.ts): its methods follow the
    step function of module SecureStorage, so every property of runs is a property of it. */
module StorageAdapter {
  import opened Prelude
  import opened OrderedMaps
  import opened StorageKeys
  import opened Migration
  import opened SecureStorage

  /** A finished migration is a valid starting point for every run. */
  lemma HydratedIsFresh(w: World, decrypted: map<string, string>, keys: seq<string>, values: OrderedMap)
    requires w.Valid() && Covers(w, decrypted, keys)
    requires values.Valid() && values.values == ChosenMap(w, decrypted)
    ensures Fresh(State(Finished(w, decrypted, keys), values, values.values, map[], [], Waiting, None))
  {
    var s := State(Finished(w, decrypted, keys), values, values.values, map[], [], Waiting, None);
    FinishedIsClean(w, decrypted, keys);
    forall k | IsSensitive(k)
      ensures Agrees(s, k) && ReadText(s.world.backend, k) == Lookup(Committed(s), k)
    {
      FinishedHoldsTheChosen(w, decrypted, keys, k);
    }
  }

  /** Keys visible to callers, in enumeration order. */
  function Visible(s: State): seq<string> { s.world.native.keys + s.cache.keys }

  function Read(s: State, key: string): Option<string> {
    if IsSensitive(key) then s.cache.Get(key) else s.world.native.Get(key)
  }

  /** The queue has grown by one write. */
  ghost predicate Appends(before: seq<Task>, after: seq<Task>, secure: bool, key: string, target: Option<string>) {
    && |after| == |before| + 1 && after[..|before|] == before
    && var task := after[|before|];
       task.Secure? == secure && task.key == key && task.target == target
  }

  /** A written value is read back at once, whether or not the backend will take it, and a removed
      one is gone; no other key is touched; and one write is queued, for the backend if the key is
      a credential, for the store if it is a backed plain key, and else none. */
  ghost predicate TakesEffect(backed: string -> bool, s: State, t: State, key: string, target: Option<string>) {
    && Read(t, key) == target && (forall k :: k != key ==> Read(t, k) == Read(s, k))
    && if IsSensitive(key) then Appends(s.queue, t.queue, true, key, target)
       else if backed(key) then Appends(s.queue, t.queue, false, key, target)
       else t.queue == s.queue
  }

  lemma WritesAreReadBack(backed: string -> bool, s: State, e: Event, key: string, target: Option<string>)
    requires
      || (exists v :: e == Event.SetItem(key, v) && target == Some(v))
      || (e == Event.RemoveItem(key) && target == None)
    ensures TakesEffect(backed, s, Step(backed, s, e), key, target)
  {
    hide IsSensitive;
  }

  lemma ClearedReadsNothing(backed: string -> bool, s: State)
    ensures forall k :: Read(Step(backed, s, Event.Clear), k) == None
  {
    ClearIs(backed, s);
    var emptied := s.(cache := OrderedMaps.EMPTY, world := s.world.(native := OrderedMaps.EMPTY));
    DeletesKeepTheRest(emptied, s.cache.keys);
    hide ScheduleDeletes, IsSensitive;
  }

  lemma {:induction false} DeletesKeepTheRest(s: State, keys: seq<string>)
    ensures ScheduleDeletes(s, keys).cache == s.cache && ScheduleDeletes(s, keys).world == s.world
  {
    if keys != [] { DeletesKeepTheRest(s, keys[..|keys| - 1]); }
  }

  /** Enumeration lists every readable key exactly once. */
  lemma VisibleKeysAreTheReadableKeys(s: State)
    requires Inv(s)
    ensures Distinct(Visible(s))
    ensures forall k :: k in Visible(s) <==> Read(s, k).Some?
  {
    forall i, j | 0 <= i < |s.world.native.keys| && 0 <= j < |s.cache.keys|
      ensures s.world.native.keys[i] != s.cache.keys[j]
    {
      assert s.world.native.keys[i] in s.world.native.values && s.cache.keys[j] in s.cache.values;
    }
  }

  lemma ClearIs(backed: string -> bool, s: State)
    ensures Step(backed, s, Event.Clear) ==
      ScheduleDeletes(s.(cache := OrderedMaps.EMPTY, world := s.world.(native := OrderedMaps.EMPTY)), s.cache.keys)
  {
    hide ScheduleDeletes;
  }

  lemma NoDeletes(s: State)
    ensures ScheduleDeletes(s, []) == s
  {}

  lemma OneMoreDelete(s: State, keys: seq<string>, i: nat)
    requires i < |keys|
    ensures ScheduleDeletes(s, keys[..i + 1]) == Schedule(ScheduleDeletes(s, keys[..i]), keys[i], None)
  {
    hide Schedule;
    assert keys[..i + 1][..i] == keys[..i];
  }

  lemma NativeKeysArePlain(s: State)
    requires Inv(s)
    ensures forall k :: k in s.world.native.keys ==> !IsSensitive(k)
  {}

  /** The list `key` builds: native keys without credentials, then the credentials not yet listed. */
  method Enumerated(native: seq<string>, secure: seq<string>) returns (keys: seq<string>)
    requires Distinct(native + secure) && forall k :: k in native ==> !IsSensitive(k)
    ensures keys == native + secure
  {
    var all := native + secure;
    keys := [];
    for i := 0 to |native|
      invariant keys == native[..i]
    {
      if !IsSensitive(native[i]) { keys := keys + [native[i]]; }
    }
    assert keys == native;
    for i := 0 to |secure|
      invariant keys == all[..|native| + i]
    {
      assert all[|native| + i] == secure[i];
      if secure[i] !in keys { keys := keys + [secure[i]]; }
    }
    assert all[..|native| + |secure|] == all;
  }

  class Adapter {
    const stores: Stores
    const isStoreBackedKey: string -> bool
    var secureValues: OrderedMap
    var persistedValues: map<string, string>
    var mutationRevisions: map<string, nat>
    var writeChain: seq<Task>
    var flight: Flight
    var queuedFailure: Option<Error>
    var hydrated: bool

    ghost function Current(): State
      reads this, stores
    {
      State(stores.world, secureValues, persistedValues, mutationRevisions, writeChain, flight, queuedFailure)
    }

    ghost predicate Valid()
      reads this, stores
    {
      if hydrated then Inv(Current())
      else stores.world.Valid() && writeChain == [] && flight == Waiting && queuedFailure == None
    }

    constructor (stores: Stores, isStoreBackedKey: string -> bool)
      requires stores.world.Valid()
      ensures Valid() && !hydrated && this.stores == stores && this.isStoreBackedKey == isStoreBackedKey
    {
      this.stores := stores;
      this.isStoreBackedKey := isStoreBackedKey;
      secureValues, persistedValues, mutationRevisions := OrderedMaps.EMPTY, map[], map[];
      writeChain, flight, queuedFailure, hydrated := [], Waiting, None, false;
    }

    /** Migrates once.  A failed attempt leaves the adapter unhydrated and the stores at a cut of
        the plan; a successful one starts from the chosen values. */
    method Hydrate(decrypted: map<string, string>) returns (ok: bool, ghost keys: seq<string>, ghost done: seq<Call>)
      requires Valid()
      modifies this, stores
      ensures ok == hydrated && (old(hydrated) ==> ok && Current() == old(Current()))
      ensures ok && !old(hydrated) ==>
        && Fresh(Current()) && Covers(old(stores.world), decrypted, keys)
        && stores.world == Finished(old(stores.world), decrypted, keys)
        && secureValues.values == persistedValues == ChosenMap(old(stores.world), decrypted)
      ensures !ok ==>
        && done <= Plan(old(stores.world), decrypted, keys) && stores.world == DoAll(old(stores.world), done)
        && (done != [] ==> Covers(old(stores.world), decrypted, keys))
        && secureValues == old(secureValues) && persistedValues == old(persistedValues)
    {
      keys, done := [], [];
      if hydrated { return true, keys, done; }
      ghost var w := stores.world;
      var result, order, calls := Migrate(stores, decrypted);
      keys, done := order, calls;
      ok := result.Returned?;
      if !ok { return; }
      var migrated := result.value;
      Load(migrated);
      hydrated := true;
      HydratedIsFresh(w, decrypted, keys, migrated);
    }

    /** Fills the cache and its mirror from the migrated values. */
    method Load(migrated: OrderedMap)
      requires migrated.Valid()
      modifies this`secureValues, this`persistedValues, this`mutationRevisions
      ensures secureValues == migrated && persistedValues == migrated.values && mutationRevisions == map[]
    {
      secureValues, persistedValues, mutationRevisions := OrderedMaps.EMPTY, map[], map[];
      for i := 0 to |migrated.keys|
        invariant mutationRevisions == map[]
        invariant secureValues.keys == migrated.keys[..i] && persistedValues == secureValues.values
        invariant forall k ::
          Lookup(secureValues.values, k) == if k in migrated.keys[..i] then migrated.Get(k) else None
      {
        var key := migrated.keys[i];
        assert key in migrated.values && key !in migrated.keys[..i];
        secureValues := secureValues.Set(key, migrated.values[key]);
        persistedValues := persistedValues[key := migrated.values[key]];
        assert migrated.keys[..i + 1] == migrated.keys[..i] + [key];
      }
      assert migrated.keys[..|migrated.keys|] == migrated.keys;
      SameLookups(secureValues.values, migrated.values);
    }

    method GetItem(key: string) returns (value: Option<string>)
      requires Valid() && hydrated
      ensures value == Read(Current(), key)
    {
      if IsSensitive(key) { return secureValues.Get(key); }
      value := stores.world.native.Get(key);
    }

    /** The branch of a write for a key that holds no credential. */
    method WritePlain(key: string, target: Option<string>)
      modifies stores, this`writeChain
      ensures Current() == PlainWrite(isStoreBackedKey, old(Current()), key, target)
    {
      var native := stores.world.native;
      native := if target.Some? then native.Set(key, target.value) else native.Delete(key);
      stores.world := stores.world.(native := native);
      if isStoreBackedKey(key) { writeChain := writeChain + [Plain(key, target)]; }
    }

    /** The branch for a credential: cached at once, queued for the backend. */
    method WriteSecret(key: string, target: Option<string>)
      modifies this`secureValues, this`mutationRevisions, this`writeChain
      ensures Current() == Mutate(old(Current()), key, target)
    {
      var revision := NextRevision(key);
      secureValues := if target.Some? then secureValues.Set(key, target.value) else secureValues.Delete(key);
      writeChain := writeChain + [Secure(key, target, revision)];
    }

    method SetItem(key: string, value: string)
      requires Valid() && hydrated
      modifies this, stores
      ensures Valid() && hydrated
      ensures Current() == Step(isStoreBackedKey, old(Current()), Event.SetItem(key, value))
      ensures TakesEffect(isStoreBackedKey, old(Current()), Current(), key, Some(value))
    {
      ghost var before := Current();
      StepKeeps(isStoreBackedKey, before, Event.SetItem(key, value));
      WritesAreReadBack(isStoreBackedKey, before, Event.SetItem(key, value), key, Some(value));
      hide Inv, TakesEffect, Mutate, PlainWrite, IsSensitive;
      if !IsSensitive(key) {
        WritePlain(key, Some(value));
        return;
      }
      WriteSecret(key, Some(value));
    }

    method RemoveItem(key: string)
      requires Valid() && hydrated
      modifies this, stores
      ensures Valid() && hydrated
      ensures Current() == Step(isStoreBackedKey, old(Current()), Event.RemoveItem(key))
      ensures TakesEffect(isStoreBackedKey, old(Current()), Current(), key, None)
    {
      ghost var before := Current();
      StepKeeps(isStoreBackedKey, before, Event.RemoveItem(key));
      WritesAreReadBack(isStoreBackedKey, before, Event.RemoveItem(key), key, None);
      hide Inv, TakesEffect, Mutate, PlainWrite, IsSensitive;
      if !IsSensitive(key) {
        WritePlain(key, None);
        return;
      }
      WriteSecret(key, None);
    }

    method ClearStorage()
      requires Valid() && hydrated
      modifies this, stores
      ensures Valid() && hydrated
      ensures Current() == Step(isStoreBackedKey, old(Current()), Event.Clear)
      ensures forall k :: Read(Current(), k) == None
    {
      ClearedReadsNothing(isStoreBackedKey, Current());
      StepKeeps(isStoreBackedKey, Current(), Event.Clear);
      ClearIs(isStoreBackedKey, Current());
      hide Inv, Step, ScheduleDeletes;
      var previous := secureValues.keys;
      secureValues := OrderedMaps.EMPTY;
      stores.world := stores.world.(native := OrderedMaps.EMPTY);
      EnqueueDeletes(previous);
    }

    /** The loop of `clear`: one deletion for each cached key. */
    method EnqueueDeletes(keys: seq<string>)
      modifies this`mutationRevisions, this`writeChain
      ensures Current() == ScheduleDeletes(old(Current()), keys)
    {
      hide Inv, Step, ScheduleDeletes, Revision, Valid, IsSensitive, Read, Visible;
      ghost var start := Current();
      NoDeletes(start);
      assert keys[..0] == [];
      for i := 0 to |keys|
        invariant Current() == ScheduleDeletes(start, keys[..i])
      {
        OneMoreDelete(start, keys, i);
        var revision := NextRevision(keys[i]);
        writeChain := writeChain + [Secure(keys[i], None, revision)];
      }
      assert keys[..|keys|] == keys;
    }

    /** The call the head of the chain is awaiting comes back. */
    method Answered(error: Option<Error>)
      requires Valid() && hydrated && writeChain != [] && !flight.Answered?
      modifies this, stores
      ensures Valid() && hydrated
      ensures Current() == Step(isStoreBackedKey, old(Current()), Event.Answer(error))
    {
      hide Inv;
      StepKeeps(isStoreBackedKey, Current(), Event.Answer(error));
      var head := writeChain[0];
      if error.Some? {
        flight := Flight.Answered(error);
      } else if head.Secure? {
        stores.world := stores.world.(backend := Put(stores.world.backend, head.key, TextOf(head.target)));
        flight := Flight.Answered(None);
      } else if flight == Waiting {
        stores.world := stores.world.(mem := Put(stores.world.mem, head.key, TextOf(head.target)));
        flight := Saving;
      } else {
        stores.world := stores.world.(disk := stores.world.mem);
        flight := Flight.Answered(None);
      }
    }

    /** The continuation of the head of the chain: mirror a success, or undo and record a failure. */
    method SettleHead()
      requires Valid() && hydrated && writeChain != [] && flight.Answered?
      modifies this
      ensures Valid() && hydrated
      ensures Current() == Step(isStoreBackedKey, old(Current()), Event.Settle)
    {
      hide Inv;
      StepKeeps(isStoreBackedKey, Current(), Event.Settle);
      var head, error := writeChain[0], flight.error;
      writeChain, flight := writeChain[1..], Waiting;
      if error.None? {
        if head.Secure? { persistedValues := Put(persistedValues, head.key, head.target); }
      } else {
        if head.Secure? { RestoreToPersistedValue(head.key, head.revision); }
        if queuedFailure.None? { queuedFailure := error; }
      }
    }

    /** The end of flush(), after the chain it awaited: hands over the oldest unreported failure. */
    method FinishFlush() returns (thrown: Option<Error>)
      requires Valid() && hydrated
      modifies this
      ensures Valid() && hydrated && thrown == old(queuedFailure)
      ensures Current() == Step(isStoreBackedKey, old(Current()), Event.Report)
    {
      hide Inv;
      StepKeeps(isStoreBackedKey, Current(), Event.Report);
      thrown := queuedFailure;
      queuedFailure := None;
    }

    method NextRevision(key: string) returns (revision: nat)
      modifies this`mutationRevisions
      ensures revision == Revision(old(Current()), key) + 1
      ensures mutationRevisions == old(mutationRevisions)[key := revision]
    {
      revision := (if key in mutationRevisions then mutationRevisions[key] else 0) + 1;
      mutationRevisions := mutationRevisions[key := revision];
    }

    method RestoreToPersistedValue(key: string, revision: nat)
      modifies this`secureValues
      ensures Current() == Rollback(old(Current()), key, revision)
    {
      if key !in mutationRevisions || mutationRevisions[key] != revision { return; }
      if key !in persistedValues {
        secureValues := secureValues.Delete(key);
      } else {
        secureValues := secureValues.Set(key, persistedValues[key]);
      }
    }

    /** The key at an index: native keys first, then credentials; null outside the range. */
    method Key(index: int) returns (key: Option<string>)
      requires Valid() && hydrated
      ensures key == if 0 <= index < |Visible(Current())| then Some(Visible(Current())[index]) else None
    {
      hide Inv;
      if index < 0 { return None; }
      VisibleKeysAreTheReadableKeys(Current());
      NativeKeysArePlain(Current());
      var keys := Enumerated(stores.world.native.keys, secureValues.keys);
      key := if index < |keys| then Some(keys[index]) else None;
    }

    method Length() returns (count: nat)
      requires Valid() && hydrated
      ensures count == |Visible(Current())|
    {
      var native := stores.world.native;
      count := 0;
      for i := 0 to |native.keys|
        invariant count == i
      {
        assert native.keys[i] in native.values;
        if !IsSensitive(native.keys[i]) { count := count + 1; }
      }
      for i := 0 to |secureValues.keys|
        invariant count == |native.keys| + i
      {
        assert secureValues.keys[i] in secureValues.values;
        if native.Get(secureValues.keys[i]).None? { count := count + 1; }
      }
    }
  }
}
