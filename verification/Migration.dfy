/** Moving plaintext credentials into the secure backend
    (src/utils/auth/secure-storage-migration.ts).

    Three stores take part: the secure backend, the legacy plugin store (an
    in-memory table that reaches disk only when saved) and the native
    localStorage.  A migration is a fixed plan of mutating calls; a failed call
    or a crash cuts the plan short, so "what can be observed" is exactly the
    set of prefixes of the plan. */
module Migration {
  import opened Prelude
  import opened OrderedMaps
  import opened StorageKeys

  /** A stored JSON value: only strings are credentials. */
  datatype Value = Text(text: string) | NotText

  datatype World = World(
    backend: map<string, Value>,
    mem: map<string, Value>,
    disk: map<string, Value>,
    native: OrderedMap)
  {
    ghost predicate Valid() { native.Valid() }

    /** What a restarted process finds: unsaved store changes are gone. */
    function Restart(): World { this.(mem := disk) }
  }

  datatype Call =
    | SecureSet(key: string, value: string)
    | StoreDelete(key: string)
    | StoreSave
    | NativeRemove(key: string)

  function Do(w: World, c: Call): World {
    match c
    case SecureSet(key, value) => w.(backend := w.backend[key := Text(value)])
    case StoreDelete(key) => w.(mem := w.mem - {key})
    case StoreSave => w.(disk := w.mem)
    case NativeRemove(key) => w.(native := w.native.Delete(key))
  }

  function DoAll(w: World, calls: seq<Call>): World {
    if calls == [] then w else Do(DoAll(w, calls[..|calls| - 1]), calls[|calls| - 1])
  }

  function ReadText(m: map<string, Value>, key: string): Option<string> {
    if key in m && m[key].Text? then Some(m[key].text) else None
  }

  /** The value a key should end up with: secure, then decrypted, then store, then native. */
  function Chosen(w: World, decrypted: map<string, string>, key: string): Option<string> {
    if ReadText(w.backend, key).Some? then ReadText(w.backend, key)
    else if key in decrypted then Some(decrypted[key])
    else if ReadText(w.mem, key).Some? then ReadText(w.mem, key)
    else w.native.Get(key)
  }

  function SensitiveKeys(w: World, decrypted: map<string, string>): set<string> {
    set k | k in w.backend.Keys + w.mem.Keys + w.native.values.Keys + decrypted.Keys && IsSensitive(k)
  }

  function ChosenMap(w: World, decrypted: map<string, string>): map<string, string> {
    map k | k in SensitiveKeys(w, decrypted) && Chosen(w, decrypted, k).Some? :: Chosen(w, decrypted, k).value
  }

  /** A list of the sensitive keys to visit, in whatever order the stores report them; the
      built-in keys are always among them. */
  ghost predicate Covers(w: World, decrypted: map<string, string>, keys: seq<string>) {
    && Distinct(keys)
    && (forall k :: k in keys ==> IsSensitive(k))
    && (forall k :: k in BuiltInKeys() ==> k in keys)
    && (forall k :: k in SensitiveKeys(w, decrypted) ==> k in keys)
  }

  // The plan, phase by phase.

  function SetCall(w: World, decrypted: map<string, string>, key: string): seq<Call> {
    if ReadText(w.backend, key).None? && Chosen(w, decrypted, key).Some?
    then [SecureSet(key, Chosen(w, decrypted, key).value)] else []
  }

  function DeleteCall(w: World, decrypted: map<string, string>, key: string): seq<Call> {
    if Chosen(w, decrypted, key).Some? && ReadText(w.mem, key).Some? then [StoreDelete(key)] else []
  }

  function RemoveCall(w: World, decrypted: map<string, string>, key: string): seq<Call> {
    if Chosen(w, decrypted, key).Some? && key in w.native.values then [NativeRemove(key)] else []
  }

  function SetCalls(w: World, decrypted: map<string, string>, keys: seq<string>): seq<Call> {
    if keys == [] then [] else
    SetCalls(w, decrypted, keys[..|keys| - 1]) + SetCall(w, decrypted, keys[|keys| - 1])
  }

  function DeleteCalls(w: World, decrypted: map<string, string>, keys: seq<string>): seq<Call> {
    if keys == [] then [] else
    DeleteCalls(w, decrypted, keys[..|keys| - 1]) + DeleteCall(w, decrypted, keys[|keys| - 1])
  }

  function RemoveCalls(w: World, decrypted: map<string, string>, keys: seq<string>): seq<Call> {
    if keys == [] then [] else
    RemoveCalls(w, decrypted, keys[..|keys| - 1]) + RemoveCall(w, decrypted, keys[|keys| - 1])
  }

  function StorePlan(w: World, decrypted: map<string, string>, keys: seq<string>): seq<Call> {
    var deletes := DeleteCalls(w, decrypted, keys);
    deletes + (if deletes == [] then [] else [StoreSave])
  }

  function CleanupPlan(w: World, decrypted: map<string, string>, keys: seq<string>): seq<Call> {
    StorePlan(w, decrypted, keys) + RemoveCalls(w, decrypted, keys)
  }

  function Plan(w: World, decrypted: map<string, string>, keys: seq<string>): seq<Call> {
    SetCalls(w, decrypted, keys) + CleanupPlan(w, decrypted, keys)
  }

  // Plan algebra.

  lemma {:induction false} DoAllAppend(w: World, a: seq<Call>, b: seq<Call>)
    ensures DoAll(w, a + b) == DoAll(DoAll(w, a), b)
  {
    if b == [] {
      assert a + b == a;
    } else {
      DoAllAppend(w, a, b[..|b| - 1]);
      assert (a + b)[..|a + b| - 1] == a + b[..|b| - 1];
    }
  }

  lemma {:induction false} SetCallsAre(w: World, decrypted: map<string, string>, keys: seq<string>)
    ensures forall c :: c in SetCalls(w, decrypted, keys) <==>
      c.SecureSet? && c.key in keys && ReadText(w.backend, c.key).None? && Chosen(w, decrypted, c.key) == Some(c.value)
  {
    if keys != [] {
      SetCallsAre(w, decrypted, keys[..|keys| - 1]);
      assert keys == keys[..|keys| - 1] + [keys[|keys| - 1]];
    }
  }

  lemma {:induction false} DeleteCallsAre(w: World, decrypted: map<string, string>, keys: seq<string>)
    ensures forall c :: c in DeleteCalls(w, decrypted, keys) <==>
      c.StoreDelete? && c.key in keys && ReadText(w.mem, c.key).Some? && Chosen(w, decrypted, c.key).Some?
  {
    if keys != [] {
      DeleteCallsAre(w, decrypted, keys[..|keys| - 1]);
      assert keys == keys[..|keys| - 1] + [keys[|keys| - 1]];
    }
  }

  lemma {:induction false} RemoveCallsAre(w: World, decrypted: map<string, string>, keys: seq<string>)
    ensures forall c :: c in RemoveCalls(w, decrypted, keys) <==>
      c.NativeRemove? && c.key in keys && c.key in w.native.values && Chosen(w, decrypted, c.key).Some?
  {
    if keys != [] {
      RemoveCallsAre(w, decrypted, keys[..|keys| - 1]);
      assert keys == keys[..|keys| - 1] + [keys[|keys| - 1]];
    }
  }

  // What every cut of the plan keeps.

  ghost predicate Secured(w: World, decrypted: map<string, string>, now: World) {
    forall k :: IsSensitive(k) && Chosen(w, decrypted, k).Some? ==> ReadText(now.backend, k) == Chosen(w, decrypted, k)
  }

  ghost predicate LegacyUntouched(w: World, now: World) {
    now.mem == w.mem && now.disk == w.disk && now.native == w.native
  }

  /** Each backend entry is the original or, where there was none, the chosen one. */
  ghost predicate BackendGrows(w: World, decrypted: map<string, string>, now: World) {
    forall k :: (|| ReadText(now.backend, k) == ReadText(w.backend, k)
                 || (ReadText(w.backend, k).None? && ReadText(now.backend, k) == Chosen(w, decrypted, k)))
  }

  /** Backend entries are the original or the chosen ones; legacy copies only disappear. */
  ghost predicate Between(w: World, decrypted: map<string, string>, now: World) {
    && BackendGrows(w, decrypted, now)
    && (forall k :: ReadText(now.mem, k).Some? ==> ReadText(now.mem, k) == ReadText(w.mem, k))
    && (forall k :: ReadText(now.disk, k).Some? ==> ReadText(now.disk, k) in {ReadText(w.disk, k), ReadText(w.mem, k)})
    && (forall k :: k in now.native.values ==> k in w.native.values && now.native.values[k] == w.native.values[k])
    && (Secured(w, decrypted, now) || LegacyUntouched(w, now))
  }

  lemma UntouchedIsBetween(w: World, decrypted: map<string, string>, now: World)
    requires LegacyUntouched(w, now) && BackendGrows(w, decrypted, now)
    ensures Between(w, decrypted, now)
  {
    hide Chosen, Secured;
  }

  lemma SetStep(w: World, decrypted: map<string, string>, now: World, c: Call)
    requires LegacyUntouched(w, now) && BackendGrows(w, decrypted, now)
    requires c.SecureSet? && ReadText(w.backend, c.key).None? && Chosen(w, decrypted, c.key) == Some(c.value)
    ensures LegacyUntouched(w, Do(now, c)) && BackendGrows(w, decrypted, Do(now, c))
    ensures forall k ::
      ReadText(Do(now, c).backend, k) == if k == c.key then Some(c.value) else ReadText(now.backend, k)
  {
    hide Chosen;
  }

  lemma {:induction false} SetsOnly(w: World, decrypted: map<string, string>, calls: seq<Call>)
    requires forall c :: c in calls ==>
      c.SecureSet? && ReadText(w.backend, c.key).None? && Chosen(w, decrypted, c.key) == Some(c.value)
    ensures LegacyUntouched(w, DoAll(w, calls)) && BackendGrows(w, decrypted, DoAll(w, calls))
    ensures forall c :: c in calls ==> ReadText(DoAll(w, calls).backend, c.key) == Some(c.value)
  {
    if calls == [] {
      assert DoAll(w, calls) == w;
    } else {
      var front, last := calls[..|calls| - 1], calls[|calls| - 1];
      assert DoAll(w, calls) == Do(DoAll(w, front), last);
      assert calls == front + [last];
      hide *;
      SetsOnly(w, decrypted, front);
      SetStep(w, decrypted, DoAll(w, front), last);
    }
  }

  lemma SetPhase(w: World, decrypted: map<string, string>, calls: seq<Call>)
    requires forall c :: c in calls ==>
      c.SecureSet? && ReadText(w.backend, c.key).None? && Chosen(w, decrypted, c.key) == Some(c.value)
    ensures LegacyUntouched(w, DoAll(w, calls)) && Between(w, decrypted, DoAll(w, calls))
    ensures forall c :: c in calls ==> ReadText(DoAll(w, calls).backend, c.key) == Some(c.value)
  {
    hide *;
    SetsOnly(w, decrypted, calls);
    UntouchedIsBetween(w, decrypted, DoAll(w, calls));
  }

  lemma CleanupCall(w: World, decrypted: map<string, string>, now: World, c: Call)
    requires Between(w, decrypted, now) && Secured(w, decrypted, now) && !c.SecureSet?
    ensures Do(now, c).backend == now.backend
    ensures Between(w, decrypted, Do(now, c)) && Secured(w, decrypted, Do(now, c))
  {}

  lemma {:induction false} CleanupPhase(w: World, decrypted: map<string, string>, secured: World, calls: seq<Call>)
    requires Between(w, decrypted, secured) && Secured(w, decrypted, secured)
    requires forall c :: c in calls ==> !c.SecureSet?
    ensures DoAll(secured, calls).backend == secured.backend
    ensures Between(w, decrypted, DoAll(secured, calls)) && Secured(w, decrypted, DoAll(secured, calls))
  {
    if calls != [] {
      CleanupPhase(w, decrypted, secured, calls[..|calls| - 1]);
      CleanupCall(w, decrypted, DoAll(secured, calls[..|calls| - 1]), calls[|calls| - 1]);
    }
  }

  lemma AllSetIsSecured(w: World, decrypted: map<string, string>, keys: seq<string>)
    requires Covers(w, decrypted, keys)
    ensures Secured(w, decrypted, DoAll(w, SetCalls(w, decrypted, keys)))
  {
    var sets := SetCalls(w, decrypted, keys);
    SetCallsAre(w, decrypted, keys);
    SetPhase(w, decrypted, sets);
    forall k | IsSensitive(k) && Chosen(w, decrypted, k).Some?
      ensures ReadText(DoAll(w, sets).backend, k) == Chosen(w, decrypted, k)
    {
      assert k in SensitiveKeys(w, decrypted);
      if ReadText(w.backend, k).None? {
        assert SecureSet(k, Chosen(w, decrypted, k).value) in sets;
      }
    }
  }

  lemma CleanupNeverSets(w: World, decrypted: map<string, string>, keys: seq<string>)
    ensures forall c :: c in CleanupPlan(w, decrypted, keys) ==> !c.SecureSet?
  {
    DeleteCallsAre(w, decrypted, keys);
    RemoveCallsAre(w, decrypted, keys);
  }

  lemma CutInSetPhase(w: World, decrypted: map<string, string>, keys: seq<string>, cut: nat)
    requires cut <= |SetCalls(w, decrypted, keys)|
    ensures var now := DoAll(w, SetCalls(w, decrypted, keys)[..cut]);
      LegacyUntouched(w, now) && Between(w, decrypted, now)
  {
    SetCallsAre(w, decrypted, keys);
    SetPhase(w, decrypted, SetCalls(w, decrypted, keys)[..cut]);
  }

  /** Where a cut of the plan can leave the stores. */
  lemma CutIsBetween(w: World, decrypted: map<string, string>, keys: seq<string>, cut: nat)
    requires Covers(w, decrypted, keys) && cut <= |Plan(w, decrypted, keys)|
    ensures var now := DoAll(w, Plan(w, decrypted, keys)[..cut]);
      && Between(w, decrypted, now)
      && (cut <= |SetCalls(w, decrypted, keys)| ==> LegacyUntouched(w, now))
      && (cut >= |SetCalls(w, decrypted, keys)| ==> Secured(w, decrypted, now))
  {
    var sets := SetCalls(w, decrypted, keys);
    var cleanup := CleanupPlan(w, decrypted, keys);
    var plan := Plan(w, decrypted, keys);
    if cut < |sets| {
      assert plan[..cut] == sets[..cut];
      CutInSetPhase(w, decrypted, keys, cut);
    } else {
      var rest := cleanup[..cut - |sets|];
      assert plan[..cut] == sets + rest;
      assert sets[..|sets|] == sets;
      CutInSetPhase(w, decrypted, keys, |sets|);
      DoAllAppend(w, sets, rest);
      CleanupNeverSets(w, decrypted, keys);
      AllSetIsSecured(w, decrypted, keys);
      CleanupPhase(w, decrypted, DoAll(w, sets), rest);
    }
  }

  /** The store's disk image agrees with its table on every key not yet secured.  True when the store is opened. */
  ghost predicate Steady(w: World) {
    forall k :: IsSensitive(k) ==> ReadText(w.backend, k).Some? || ReadText(w.disk, k) == ReadText(w.mem, k)
  }

  /** No legacy copy of any key is gone before every sensitive key is secure. */
  lemma NothingRemovedBeforeSecured(w: World, decrypted: map<string, string>, keys: seq<string>, cut: nat, lost: string)
    requires Covers(w, decrypted, keys) && cut <= |Plan(w, decrypted, keys)|
    requires var now := DoAll(w, Plan(w, decrypted, keys)[..cut]);
      || ReadText(now.mem, lost) != ReadText(w.mem, lost)
      || ReadText(now.disk, lost) != ReadText(w.disk, lost)
      || now.native.Get(lost) != w.native.Get(lost)
    ensures Secured(w, decrypted, DoAll(w, Plan(w, decrypted, keys)[..cut]))
  {
    CutIsBetween(w, decrypted, keys, cut);
  }

  lemma BetweenKeepsChoice(w: World, decrypted: map<string, string>, now: World, key: string)
    requires Between(w, decrypted, now) && IsSensitive(key)
    ensures Chosen(now, decrypted, key) == Chosen(w, decrypted, key)
    ensures Steady(w) ==> Steady(now) && Chosen(now.Restart(), decrypted, key) == Chosen(w, decrypted, key)
  {}

  /** Cut anywhere, then possibly restarted: the value chosen for every key is unchanged. */
  lemma CutKeepsChoice(w: World, decrypted: map<string, string>, keys: seq<string>, cut: nat, key: string)
    requires Covers(w, decrypted, keys) && cut <= |Plan(w, decrypted, keys)| && IsSensitive(key)
    ensures var now := DoAll(w, Plan(w, decrypted, keys)[..cut]);
      && Chosen(now, decrypted, key) == Chosen(w, decrypted, key)
      && (Steady(w) ==> Steady(now) && Chosen(now.Restart(), decrypted, key) == Chosen(w, decrypted, key))
  {
    CutIsBetween(w, decrypted, keys, cut);
    BetweenKeepsChoice(w, decrypted, DoAll(w, Plan(w, decrypted, keys)[..cut]), key);
  }

  /** One attempt: the order the stores reported, where it stopped, and whether the process restarted. */
  datatype Attempt = Attempt(keys: seq<string>, cut: nat, restart: bool)

  function After(w: World, decrypted: map<string, string>, a: Attempt): World {
    var now := DoAll(w, Plan(w, decrypted, a.keys)[..Min(a.cut, |Plan(w, decrypted, a.keys)|)]);
    if a.restart then now.Restart() else now
  }

  function AfterAll(w: World, decrypted: map<string, string>, attempts: seq<Attempt>): World {
    if attempts == [] then w
    else After(AfterAll(w, decrypted, attempts[..|attempts| - 1]), decrypted, attempts[|attempts| - 1])
  }

  ghost predicate Possible(w: World, decrypted: map<string, string>, attempts: seq<Attempt>) {
    attempts != [] ==>
      && Possible(w, decrypted, attempts[..|attempts| - 1])
      && Covers(AfterAll(w, decrypted, attempts[..|attempts| - 1]), decrypted, attempts[|attempts| - 1].keys)
  }

  /** However many attempts fail, and wherever, the map a later run returns is the
      map one uninterrupted run would have returned. */
  lemma {:induction false} RetryReturnsTheSameMap(w: World, decrypted: map<string, string>, attempts: seq<Attempt>)
    requires Steady(w) && Possible(w, decrypted, attempts)
    ensures Steady(AfterAll(w, decrypted, attempts))
    ensures ChosenMap(AfterAll(w, decrypted, attempts), decrypted) == ChosenMap(w, decrypted)
  {
    if attempts != [] {
      var before := AfterAll(w, decrypted, attempts[..|attempts| - 1]);
      var a := attempts[|attempts| - 1];
      RetryReturnsTheSameMap(w, decrypted, attempts[..|attempts| - 1]);
      var cut := Min(a.cut, |Plan(before, decrypted, a.keys)|);
      forall k | IsSensitive(k)
        ensures Chosen(After(before, decrypted, a), decrypted, k) == Chosen(before, decrypted, k)
        ensures Steady(After(before, decrypted, a))
      {
        CutKeepsChoice(before, decrypted, a.keys, cut, k);
      }
      SameChoiceSameMap(before, After(before, decrypted, a), decrypted);
      assert IsSensitive(ACCOUNTS_LIST);
    }
  }

  lemma SameChoiceSameMap(w: World, v: World, decrypted: map<string, string>)
    requires forall k :: IsSensitive(k) ==> Chosen(v, decrypted, k) == Chosen(w, decrypted, k)
    ensures ChosenMap(v, decrypted) == ChosenMap(w, decrypted)
  {
    forall k ensures k in ChosenMap(w, decrypted) <==> IsSensitive(k) && Chosen(w, decrypted, k).Some? {}
    forall k ensures k in ChosenMap(v, decrypted) <==> IsSensitive(k) && Chosen(v, decrypted, k).Some? {}
    assert forall k :: k in ChosenMap(v, decrypted) <==> k in ChosenMap(w, decrypted);
  }

  // What a completed run leaves behind.

  function Finished(w: World, decrypted: map<string, string>, keys: seq<string>): World {
    DoAll(w, Plan(w, decrypted, keys))
  }

  lemma {:induction false} DeletesAll(w: World, calls: seq<Call>)
    requires forall c :: c in calls ==> c.StoreDelete?
    ensures var now := DoAll(w, calls);
      && now.backend == w.backend && now.native == w.native && now.disk == w.disk
      && (forall k :: k in now.mem <==> k in w.mem && StoreDelete(k) !in calls)
      && (forall k :: k in now.mem ==> now.mem[k] == w.mem[k])
  {
    if calls != [] {
      var last := calls[|calls| - 1];
      assert last in calls;
      DeletesAll(w, calls[..|calls| - 1]);
      assert calls == calls[..|calls| - 1] + [last];
    }
  }

  lemma {:induction false} RemovesAll(w: World, calls: seq<Call>)
    requires forall c :: c in calls ==> c.NativeRemove?
    requires w.Valid()
    ensures var now := DoAll(w, calls);
      && now.backend == w.backend && now.mem == w.mem && now.disk == w.disk && now.Valid()
      && (forall k :: k in now.native.values <==> k in w.native.values && NativeRemove(k) !in calls)
  {
    if calls != [] {
      var last := calls[|calls| - 1];
      assert last in calls;
      RemovesAll(w, calls[..|calls| - 1]);
      assert calls == calls[..|calls| - 1] + [last];
    }
  }

  /** A credential in plain text. */
  ghost predicate Dirty(m: map<string, Value>) {
    exists k :: IsSensitive(k) && ReadText(m, k).Some?
  }

  lemma DeletesEverySensitiveText(w: World, decrypted: map<string, string>, keys: seq<string>)
    requires Covers(w, decrypted, keys)
    ensures forall k :: IsSensitive(k) && ReadText(w.mem, k).Some? ==> StoreDelete(k) in DeleteCalls(w, decrypted, keys)
  {
    DeleteCallsAre(w, decrypted, keys);
    forall k | IsSensitive(k) && ReadText(w.mem, k).Some? ensures StoreDelete(k) in DeleteCalls(w, decrypted, keys) {
      assert k in SensitiveKeys(w, decrypted);
      hide DeleteCalls, IsSensitive;
    }
  }

  lemma StorePlanDone(w: World, decrypted: map<string, string>, keys: seq<string>, secured: World)
    ensures
      var deletes := DeleteCalls(w, decrypted, keys);
      DoAll(secured, StorePlan(w, decrypted, keys)) ==
        if deletes == [] then secured else Do(DoAll(secured, deletes), StoreSave)
  {
    hide DeleteCalls, Do;
    var deletes := DeleteCalls(w, decrypted, keys);
    assert deletes + [] == deletes;
    assert (deletes + [StoreSave])[..|deletes|] == deletes;
  }

  /** The store after its phase: every chosen key is gone from the table, and saved if anything was deleted. */
  lemma StorePhase(w: World, decrypted: map<string, string>, keys: seq<string>, secured: World)
    requires Covers(w, decrypted, keys) && LegacyUntouched(w, secured)
    ensures var now := DoAll(secured, StorePlan(w, decrypted, keys));
      && now.backend == secured.backend && now.native == secured.native
      && (forall k :: IsSensitive(k) ==> ReadText(now.mem, k).None?)
      && now.disk == (if Dirty(w.mem) then now.mem else w.disk)
  {
    var deletes := DeleteCalls(w, decrypted, keys);
    DeleteCallsAre(w, decrypted, keys);
    DeletesAll(secured, deletes);
    DeletesEverySensitiveText(w, decrypted, keys);
    StorePlanDone(w, decrypted, keys, secured);
    HeadIn(deletes);
    assert Dirty(w.mem) <==> deletes != [];
    hide IsSensitive, Chosen, DoAll, DeleteCalls, StorePlan, Covers;
  }

  /** A completed run secures every value and leaves no sensitive text in the store's
      table and no sensitive key in native storage. */
  lemma FinishedIsClean(w: World, decrypted: map<string, string>, keys: seq<string>)
    requires w.Valid() && Covers(w, decrypted, keys)
    ensures var now := Finished(w, decrypted, keys);
      && now.Valid() && Secured(w, decrypted, now)
      && (forall k :: IsSensitive(k) ==> ReadText(now.mem, k).None? && k !in now.native.values)
      && now.disk == (if Dirty(w.mem) then now.mem else w.disk)
  {
    var sets := SetCalls(w, decrypted, keys);
    var secured := DoAll(w, sets);
    assert LegacyUntouched(w, secured) by {
      assert sets[..|sets|] == sets;
      CutInSetPhase(w, decrypted, keys, |sets|);
    }
    var stored := DoAll(secured, StorePlan(w, decrypted, keys));
    StorePhase(w, decrypted, keys, secured);
    PlanInPhases(w, decrypted, keys);
    AllSetIsSecured(w, decrypted, keys);
    NativePhase(w, decrypted, keys, stored);
  }

  lemma NativePhase(w: World, decrypted: map<string, string>, keys: seq<string>, stored: World)
    requires Covers(w, decrypted, keys) && stored.native == w.native && stored.Valid()
    ensures var now := DoAll(stored, RemoveCalls(w, decrypted, keys));
      && now.backend == stored.backend && now.mem == stored.mem && now.disk == stored.disk && now.Valid()
      && (forall k :: IsSensitive(k) ==> k !in now.native.values)
  {
    var removes := RemoveCalls(w, decrypted, keys);
    RemoveCallsAre(w, decrypted, keys);
    RemovesAll(stored, removes);
    forall k | IsSensitive(k) && k in w.native.values ensures NativeRemove(k) in removes {
      assert k in SensitiveKeys(w, decrypted);
    }
  }

  lemma PlanInPhases(w: World, decrypted: map<string, string>, keys: seq<string>)
    ensures Finished(w, decrypted, keys) ==
      DoAll(DoAll(DoAll(w, SetCalls(w, decrypted, keys)), StorePlan(w, decrypted, keys)),
        RemoveCalls(w, decrypted, keys))
  {
    var sets := SetCalls(w, decrypted, keys);
    DoAllAppend(w, sets, CleanupPlan(w, decrypted, keys));
    DoAllAppend(DoAll(w, sets), StorePlan(w, decrypted, keys), RemoveCalls(w, decrypted, keys));
  }

  lemma CleanNeedsNoPlan(w: World, decrypted: map<string, string>, keys: seq<string>)
    requires Covers(w, decrypted, keys)
    requires forall k :: IsSensitive(k) && Chosen(w, decrypted, k).Some? ==> ReadText(w.backend, k).Some?
    requires forall k :: IsSensitive(k) ==> ReadText(w.mem, k).None? && k !in w.native.values
    ensures Plan(w, decrypted, keys) == []
  {
    SetCallsAre(w, decrypted, keys);
    DeleteCallsAre(w, decrypted, keys);
    RemoveCallsAre(w, decrypted, keys);
    HeadIn(SetCalls(w, decrypted, keys));
    HeadIn(DeleteCalls(w, decrypted, keys));
    HeadIn(RemoveCalls(w, decrypted, keys));
  }

  lemma HeadIn<T>(s: seq<T>)
    ensures s != [] ==> s[0] in s
  {}

  /** After a success a further run returns the same map and makes no mutating call. */
  lemma SecondRunDoesNothing(w: World, decrypted: map<string, string>, keys: seq<string>, again: seq<string>)
    requires w.Valid() && Covers(w, decrypted, keys)
    requires Covers(Finished(w, decrypted, keys), decrypted, again)
    ensures Plan(Finished(w, decrypted, keys), decrypted, again) == []
    ensures ChosenMap(Finished(w, decrypted, keys), decrypted) == ChosenMap(w, decrypted)
  {
    var now := Finished(w, decrypted, keys);
    var plan := Plan(w, decrypted, keys);
    assert plan[..|plan|] == plan;
    forall k | IsSensitive(k) ensures Chosen(now, decrypted, k) == Chosen(w, decrypted, k) {
      CutKeepsChoice(w, decrypted, keys, |plan|, k);
    }
    FinishedIsClean(w, decrypted, keys);
    CleanNeedsNoPlan(now, decrypted, again);
    SameChoiceSameMap(w, now, decrypted);
  }

  /** The disk image after a completed run: that of the cleaned table if there was something to
      delete, and otherwise what it was. */
  lemma RetryDoesNotRepeatTheSave(w: World, decrypted: map<string, string>, keys: seq<string>)
    requires w.Valid() && Covers(w, decrypted, keys)
    ensures var now := Finished(w, decrypted, keys);
      && now.disk == (if Dirty(w.mem) then now.mem else w.disk)
      && !Dirty(now.mem)
  {
    FinishedIsClean(w, decrypted, keys);
  }

  /** Exactly when a completed run leaves no credential on disk: an unsaved deletion of an
      earlier attempt is the only way to leave one. */
  lemma DiskIsCleanIff(w: World, decrypted: map<string, string>, keys: seq<string>)
    requires w.Valid() && Covers(w, decrypted, keys)
    ensures !Dirty(Finished(w, decrypted, keys).disk) <==> Dirty(w.mem) || !Dirty(w.disk)
  {
    hide *;
    RetryDoesNotRepeatTheSave(w, decrypted, keys);
  }

  lemma DirtyNeedsAPlan(w: World, decrypted: map<string, string>, keys: seq<string>)
    requires Covers(w, decrypted, keys) && Dirty(w.mem)
    ensures Plan(w, decrypted, keys) != []
  {
    var k :| IsSensitive(k) && ReadText(w.mem, k).Some?;
    DeletesEverySensitiveText(w, decrypted, keys);
    assert StoreDelete(k) in DeleteCalls(w, decrypted, keys);
    hide IsSensitive, ReadText, DeleteCalls, SetCalls, RemoveCalls;
    assert DeleteCalls(w, decrypted, keys) != [];
  }

  lemma SecuredChoosesTheSame(w: World, decrypted: map<string, string>, now: World)
    requires Secured(w, decrypted, now) && BackendGrows(w, decrypted, now)
    requires forall k :: IsSensitive(k) ==> ReadText(now.mem, k).None? && k !in now.native.values
    ensures forall k :: IsSensitive(k) ==> Chosen(now, decrypted, k) == Chosen(w, decrypted, k)
    ensures forall k :: IsSensitive(k) && Chosen(now, decrypted, k).Some? ==> ReadText(now.backend, k).Some?
  {
    hide IsSensitive;
  }

  /** A restart after a success makes no mutating call exactly when that run left the disk
      clean, and then it returns the same map. */
  lemma RestartAfterSuccessDoesNothing(w: World, decrypted: map<string, string>, keys: seq<string>, again: seq<string>)
    requires w.Valid() && Covers(w, decrypted, keys)
    requires Covers(Finished(w, decrypted, keys).Restart(), decrypted, again)
    ensures var restarted := Finished(w, decrypted, keys).Restart();
      && (Plan(restarted, decrypted, again) == [] <==> Dirty(w.mem) || !Dirty(w.disk))
      && (Dirty(w.mem) || !Dirty(w.disk) ==> ChosenMap(restarted, decrypted) == ChosenMap(w, decrypted))
  {
    var now := Finished(w, decrypted, keys);
    var restarted := now.Restart();
    DiskIsCleanIff(w, decrypted, keys);
    if Dirty(now.disk) {
      DirtyNeedsAPlan(restarted, decrypted, again);
    } else {
      var plan := Plan(w, decrypted, keys);
      assert plan[..|plan|] == plan;
      CutIsBetween(w, decrypted, keys, |plan|);
      FinishedIsClean(w, decrypted, keys);
      hide Finished, Plan, Covers, IsSensitive, ReadText, Chosen;
      assert forall k :: IsSensitive(k) ==> ReadText(restarted.mem, k).None?;
      SecuredChoosesTheSame(w, decrypted, restarted);
      CleanNeedsNoPlan(restarted, decrypted, again);
      SameChoiceSameMap(w, restarted, decrypted);
    }
  }

  /** One credential, in plain text in the store and nowhere else. */
  function Stored(key: string, secret: string): World {
    World(map[], map[key := Text(secret)], map[key := Text(secret)], OrderedMaps.EMPTY)
  }

  /** The same after it was secured and deleted, with the deletion not saved. */
  function Unsaved(key: string, secret: string): World {
    World(map[key := Text(secret)], map[], map[key := Text(secret)], OrderedMaps.EMPTY)
  }

  lemma OneCredentialChosen(key: string, secret: string)
    ensures forall k :: Chosen(Stored(key, secret), map[], k) == if k == key then Some(secret) else None
    ensures forall k :: Chosen(Unsaved(key, secret), map[], k) == if k == key then Some(secret) else None
  {}

  lemma CallsOfOneCredential(key: string, secret: string)
    ensures SetCall(Stored(key, secret), map[], key) == [SecureSet(key, secret)]
    ensures DeleteCall(Stored(key, secret), map[], key) == [StoreDelete(key)]
    ensures RemoveCall(Stored(key, secret), map[], key) == []
    ensures SetCall(Unsaved(key, secret), map[], key) == []
    ensures DeleteCall(Unsaved(key, secret), map[], key) == []
    ensures RemoveCall(Unsaved(key, secret), map[], key) == []
  {
    OneCredentialChosen(key, secret);
    hide Chosen;
  }

  lemma OneCredentialIsCovered(key: string, secret: string, keys: seq<string>)
    requires IsSensitive(key) && Covers(Stored(key, secret), map[], keys)
    ensures key in keys && Covers(Unsaved(key, secret), map[], keys)
  {
    hide IsSensitive, Chosen;
    assert key in SensitiveKeys(Stored(key, secret), map[]);
    assert SensitiveKeys(Unsaved(key, secret), map[]) == {key};
  }

  lemma PlanFromCalls(w: World, key: string, keys: seq<string>)
    requires key in keys && Distinct(keys)
    requires forall k :: k in keys && k != key ==> Chosen(w, map[], k).None?
    ensures
      var deletes := DeleteCall(w, map[], key);
      Plan(w, map[], keys) ==
        SetCall(w, map[], key) + (deletes + (if deletes == [] then [] else [StoreSave]) + RemoveCall(w, map[], key))
  {
    hide Chosen, SetCall, DeleteCall, RemoveCall, SetCalls, DeleteCalls, RemoveCalls;
    SingleKeyPlan(w, key, keys);
  }

  lemma ThreeCalls(a: Call, b: Call, c: Call)
    ensures [a] + ([b] + [c] + []) == [a, b, c]
  {}

  lemma NoThreeCalls(none: seq<Call>)
    requires none == []
    ensures none + (none + none + none) == []
  {}

  lemma PlansOfOneCredential(key: string, secret: string, keys: seq<string>)
    requires IsSensitive(key) && Covers(Stored(key, secret), map[], keys)
    ensures Plan(Stored(key, secret), map[], keys) == [SecureSet(key, secret), StoreDelete(key), StoreSave]
    ensures Plan(Unsaved(key, secret), map[], keys) == []
    ensures Covers(Unsaved(key, secret), map[], keys)
  {
    assert Distinct(keys);
    hide *;
    OneCredentialChosen(key, secret);
    OneCredentialIsCovered(key, secret, keys);
    CallsOfOneCredential(key, secret);
    PlanFromCalls(Stored(key, secret), key, keys);
    PlanFromCalls(Unsaved(key, secret), key, keys);
    ThreeCalls(SecureSet(key, secret), StoreDelete(key), StoreSave);
    NoThreeCalls([]);
    assert [StoreDelete(key)] != [];
  }

  /** One failed save and one successful retry leave the credential on disk in plaintext, in
      whatever order the stores report the keys. */
  lemma FailedSaveLeavesPlaintext(key: string, secret: string, keys: seq<string>)
    requires IsSensitive(key) && Covers(Stored(key, secret), map[], keys)
    ensures
      var plan := Plan(Stored(key, secret), map[], keys);
      && plan == [SecureSet(key, secret), StoreDelete(key), StoreSave]
      && var failed := DoAll(Stored(key, secret), plan[..2]);
      && Covers(failed, map[], keys) && Plan(failed, map[], keys) == []
      && ReadText(failed.disk, key) == Some(secret)
  {
    PlansOfOneCredential(key, secret, keys);
    hide IsSensitive, Covers, Plan;
    assert Plan(Stored(key, secret), map[], keys)[..2] == [SecureSet(key, secret), StoreDelete(key)];
    TwoCalls(Stored(key, secret), SecureSet(key, secret), StoreDelete(key));
  }

  lemma TwoCalls(w: World, a: Call, b: Call)
    ensures DoAll(w, [a, b]) == Do(Do(w, a), b)
  {
    assert [a, b][..1] == [a] && [a][..0] == [];
    assert DoAll(w, [a]) == Do(w, a);
  }

  lemma NoCalls(w: World, key: string)
    requires Chosen(w, map[], key).None?
    ensures SetCall(w, map[], key) == [] && DeleteCall(w, map[], key) == [] && RemoveCall(w, map[], key) == []
  {
    hide Chosen;
  }

  lemma NothingAdded<T>(a: seq<T>, b: seq<T>)
    ensures a == [] ==> a + b == b
    ensures b == [] ==> a + b == a
  {}

  lemma CallsOfLast(w: World, front: seq<string>, last: string)
    ensures SetCalls(w, map[], front + [last]) == SetCalls(w, map[], front) + SetCall(w, map[], last)
    ensures DeleteCalls(w, map[], front + [last]) == DeleteCalls(w, map[], front) + DeleteCall(w, map[], last)
    ensures RemoveCalls(w, map[], front + [last]) == RemoveCalls(w, map[], front) + RemoveCall(w, map[], last)
  {
    assert (front + [last])[..|front|] == front;
  }

  lemma DistinctFront(keys: seq<string>)
    requires Distinct(keys) && keys != []
    ensures
      var front, last := keys[..|keys| - 1], keys[|keys| - 1];
      Distinct(front) && last !in front && forall k :: k in keys <==> k in front || k == last
  {
    var front, last := keys[..|keys| - 1], keys[|keys| - 1];
    assert keys == front + [last];
  }

  lemma CallsOfNothing(w: World)
    ensures SetCalls(w, map[], []) == [] && DeleteCalls(w, map[], []) == [] && RemoveCalls(w, map[], []) == []
  {}

  /** When only one key has a value anywhere, each phase consists of its call. */
  lemma {:induction false} SingleKeyPlan(w: World, key: string, keys: seq<string>)
    requires Distinct(keys)
    requires forall k :: k in keys && k != key ==> Chosen(w, map[], k).None?
    ensures SetCalls(w, map[], keys) == if key in keys then SetCall(w, map[], key) else []
    ensures DeleteCalls(w, map[], keys) == if key in keys then DeleteCall(w, map[], key) else []
    ensures RemoveCalls(w, map[], keys) == if key in keys then RemoveCall(w, map[], key) else []
  {
    hide *;
    if keys == [] {
      CallsOfNothing(w);
    } else {
      var front, last := keys[..|keys| - 1], keys[|keys| - 1];
      assert keys == front + [last];
      DistinctFront(keys);
      SingleKeyPlan(w, key, front);
      if last != key { NoCalls(w, last); }
      CallsOfLast(w, front, last);
      NothingAdded(SetCalls(w, map[], front), SetCall(w, map[], last));
      NothingAdded(DeleteCalls(w, map[], front), DeleteCall(w, map[], last));
      NothingAdded(RemoveCalls(w, map[], front), RemoveCall(w, map[], last));
    }
  }

  // The program: any foreign call may fail, and then it has no effect.

  class Stores {
    var world: World

    constructor (initial: World)
      ensures world == initial
    {
      world := initial;
    }

    /** backend.load(); an answer that is not a value map counts as a failure. */
    method Load() returns (r: Outcome<map<string, Value>>)
      ensures r.Returned? ==> r.value == world.backend
    {
      var answered: bool := *;
      r := if answered then Returned(world.backend) else Raised;
    }

    /** store.keys() */
    method StoreKeys() returns (r: Outcome<set<string>>)
      ensures r.Returned? ==> r.value == world.mem.Keys
    {
      var answered: bool := *;
      r := if answered then Returned(world.mem.Keys) else Raised;
    }

    /** store.get(key) */
    method StoreGet(key: string) returns (r: Outcome<Option<Value>>)
      ensures r.Returned? ==> r.value == Lookup(world.mem, key)
    {
      var answered: bool := *;
      r := if answered then Returned(Lookup(world.mem, key)) else Raised;
    }

    /** One mutating call on one of the stores. */
    method Perform(c: Call) returns (ok: bool)
      modifies this
      ensures world == if ok then Do(old(world), c) else old(world)
    {
      ok := *;
      if ok { world := Do(world, c); }
    }
  }

  method Enumerate(keys: set<string>) returns (order: seq<string>)
    ensures Distinct(order) && forall k :: k in order <==> k in keys
  {
    order := [];
    var left := keys;
    while left != {}
      invariant left <= keys && Distinct(order)
      invariant forall k :: k in order <==> k in keys && k !in left
      decreases left
    {
      var k :| k in left;
      order, left := order + [k], left - {k};
    }
  }

  /** Settles one key: its secure value, or else its legacy value once that is stored securely. */
  method CopyKey(stores: Stores, ghost w: World, decrypted: map<string, string>, key: string,
                 secure: map<string, Value>, storeTexts: map<string, string>, nativeValues: map<string, string>)
    returns (ok: bool, value: Option<string>, called: bool)
    requires secure == w.backend && nativeValues == w.native.values && Lookup(storeTexts, key) == ReadText(w.mem, key)
    modifies stores
    ensures called ==>
        SetCall(w, decrypted, key) != [] && stores.world == Do(old(stores.world), SetCall(w, decrypted, key)[0])
    ensures !called ==> stores.world == old(stores.world)
    ensures ok ==> value == Chosen(w, decrypted, key) && (called <==> SetCall(w, decrypted, key) != [])
    ensures !ok ==> !called
  {
    ok, called := true, false;
    value := ReadText(secure, key);
    if value.Some? { return; }
    value := if key in decrypted then Some(decrypted[key])
             else if key in storeTexts then Some(storeTexts[key])
             else Lookup(nativeValues, key);
    if value.None? { return; }
    ok := stores.Perform(SecureSet(key, value.value));
    called := ok;
  }

  /** The result so far maps each visited key to its chosen value. */
  ghost predicate Collected(w: World, decrypted: map<string, string>, visited: seq<string>, migrated: OrderedMap) {
    migrated.Valid() && forall k :: migrated.Get(k) == if k in visited then Chosen(w, decrypted, k) else None
  }

  lemma CollectedNext(w: World, decrypted: map<string, string>, keys: seq<string>, i: nat, migrated: OrderedMap)
    requires i < |keys| && Collected(w, decrypted, keys[..i], migrated)
    ensures
      var value := Chosen(w, decrypted, keys[i]);
      Collected(w, decrypted, keys[..i + 1], if value.Some? then migrated.Set(keys[i], value.value) else migrated)
  {
    hide Chosen;
    assert keys[..i + 1] == keys[..i] + [keys[i]];
  }

  lemma NothingCollected(w: World, decrypted: map<string, string>)
    ensures Collected(w, decrypted, [], OrderedMaps.EMPTY)
    ensures SetCalls(w, decrypted, []) == [] && DoAll(w, []) == w
  {}

  /** First phase: every key without a secure value gets its legacy one.  `secure`, `storeTexts`
      and `nativeValues` are what the reads returned. */
  method CopyToSecure(stores: Stores, ghost w: World, decrypted: map<string, string>, order: seq<string>,
                      secure: map<string, Value>, storeTexts: map<string, string>, nativeValues: map<string, string>)
    returns (ok: bool, migrated: OrderedMap, ghost done: seq<Call>)
    requires stores.world == w && secure == w.backend && nativeValues == w.native.values
    requires forall k :: k in order ==> Lookup(storeTexts, k) == ReadText(w.mem, k)
    modifies stores
    ensures done <= SetCalls(w, decrypted, order) && stores.world == DoAll(w, done)
    ensures ok ==> done == SetCalls(w, decrypted, order) && migrated.Valid()
    ensures ok ==> forall k :: migrated.Get(k) == if k in order then Chosen(w, decrypted, k) else None
  {
    hide *;
    ok, migrated, done := false, OrderedMaps.EMPTY, [];
    NothingCollected(w, decrypted);
    assert order[..0] == [];
    for i := 0 to |order|
      invariant done == SetCalls(w, decrypted, order[..i]) <= SetCalls(w, decrypted, order)
      invariant stores.world == DoAll(w, done)
      invariant Collected(w, decrypted, order[..i], migrated)
    {
      VisitNext(w, decrypted, order, i);
      CollectedNext(w, decrypted, order, i, migrated);
      OneCallAtMost(w, decrypted, order[i]);
      var settled, value, called := CopyKey(stores, w, decrypted, order[i], secure, storeTexts, nativeValues);
      if !settled { return; }
      if called { done := Then(w, done, SetCall(w, decrypted, order[i])[0]); }
      if value.Some? { migrated := migrated.Set(order[i], value.value); }
    }
    assert order[..|order|] == order;
    CollectedMeans(w, decrypted, order, migrated);
    ok := true;
  }

  lemma CollectedMeans(w: World, decrypted: map<string, string>, keys: seq<string>, migrated: OrderedMap)
    requires Collected(w, decrypted, keys, migrated)
    ensures migrated.Valid() && forall k :: migrated.Get(k) == if k in keys then Chosen(w, decrypted, k) else None
  {}

  lemma OneCallAtMost(w: World, decrypted: map<string, string>, key: string)
    ensures var calls := SetCall(w, decrypted, key); calls == [] || calls == [calls[0]]
  {}

  /** Second phase: deletes the copies in the store and saves it if anything was deleted. */
  method CleanStore(stores: Stores, ghost w: World, ghost decrypted: map<string, string>, order: seq<string>,
                    storeTexts: map<string, string>, migrated: map<string, string>)
    returns (ok: bool, ghost done: seq<Call>)
    requires forall k :: k in order ==> Lookup(storeTexts, k) == ReadText(w.mem, k)
    requires forall k :: k in order ==> Lookup(migrated, k) == Chosen(w, decrypted, k)
    modifies stores
    ensures done <= StorePlan(w, decrypted, order) && stores.world == DoAll(old(stores.world), done)
    ensures ok ==> done == StorePlan(w, decrypted, order)
  {
    assert order[..0] == [];
    assert DoAll(stores.world, []) == stores.world;
    assert DeleteCalls(w, decrypted, order[..0]) == [];
    hide SetCalls, DeleteCalls, RemoveCalls, DoAll, Chosen;
    ghost var start := stores.world;
    ok, done := false, [];
    var changedStore := false;
    for i := 0 to |order|
      invariant done == DeleteCalls(w, decrypted, order[..i]) <= DeleteCalls(w, decrypted, order)
      invariant stores.world == DoAll(start, done)
      invariant changedStore <==> done != []
    {
      var key := order[i];
      VisitNext(w, decrypted, order, i);
      if key in migrated && key in storeTexts {
        var deleted := stores.Perform(StoreDelete(key));
        if !deleted { return; }
        done := Then(start, done, StoreDelete(key));
        changedStore := true;
      }
    }
    assert order[..|order|] == order;
    if changedStore {
      var saved := stores.Perform(StoreSave);
      if !saved { return; }
      done := Then(start, done, StoreSave);
    }
    ok := true;
  }

  /** Third phase: removes the copies in native storage. */
  method CleanNative(stores: Stores, ghost w: World, ghost decrypted: map<string, string>, order: seq<string>,
                     nativeValues: map<string, string>, migrated: map<string, string>)
    returns (ok: bool, ghost done: seq<Call>)
    requires nativeValues == w.native.values
    requires forall k :: k in order ==> Lookup(migrated, k) == Chosen(w, decrypted, k)
    modifies stores
    ensures done <= RemoveCalls(w, decrypted, order) && stores.world == DoAll(old(stores.world), done)
    ensures ok ==> done == RemoveCalls(w, decrypted, order)
  {
    assert order[..0] == [];
    assert DoAll(stores.world, []) == stores.world;
    assert RemoveCalls(w, decrypted, order[..0]) == [];
    hide SetCalls, DeleteCalls, RemoveCalls, DoAll, Chosen;
    ghost var start := stores.world;
    ok, done := false, [];
    for i := 0 to |order|
      invariant done == RemoveCalls(w, decrypted, order[..i]) <= RemoveCalls(w, decrypted, order)
      invariant stores.world == DoAll(start, done)
    {
      var key := order[i];
      VisitNext(w, decrypted, order, i);
      if key in migrated && key in nativeValues {
        var removed := stores.Perform(NativeRemove(key));
        if !removed { return; }
        done := Then(start, done, NativeRemove(key));
      }
    }
    assert order[..|order|] == order;
    ok := true;
  }

  /** The two phases that remove legacy copies. */
  method Cleanup(stores: Stores, ghost w: World, ghost decrypted: map<string, string>, order: seq<string>,
                 storeTexts: map<string, string>, nativeValues: map<string, string>, migrated: map<string, string>)
    returns (ok: bool, ghost done: seq<Call>)
    requires forall k :: k in order ==> Lookup(storeTexts, k) == ReadText(w.mem, k)
    requires nativeValues == w.native.values
    requires forall k :: k in order ==> Lookup(migrated, k) == Chosen(w, decrypted, k)
    modifies stores
    ensures done <= CleanupPlan(w, decrypted, order) && stores.world == DoAll(old(stores.world), done)
    ensures ok ==> done == CleanupPlan(w, decrypted, order)
  {
    hide SetCalls, DeleteCalls, RemoveCalls, DoAll, Chosen, StorePlan;
    ok, done := CleanStore(stores, w, decrypted, order, storeTexts, migrated);
    if !ok { return; }
    ghost var more;
    ok, more := CleanNative(stores, w, decrypted, order, nativeValues, migrated);
    DoAllAppend(old(stores.world), done, more);
    done := done + more;
  }

  ghost function Then(w: World, done: seq<Call>, c: Call): (longer: seq<Call>)
    ensures longer == done + [c] && DoAll(w, longer) == Do(DoAll(w, done), c)
  {
    assert (done + [c])[..|done|] == done;
    done + [c]
  }

  /** Everything the migration reads before it changes anything. */
  method ReadLegacy(stores: Stores, decrypted: map<string, string>)
    returns (ok: bool, order: seq<string>, secure: map<string, Value>, storeTexts: map<string, string>,
      nativeValues: map<string, string>)
    ensures ok ==> Covers(stores.world, decrypted, order)
    ensures ok ==> secure == stores.world.backend && nativeValues == stores.world.native.values
    ensures ok ==> forall k :: k in order ==> Lookup(storeTexts, k) == ReadText(stores.world.mem, k)
  {
    ok, order, storeTexts, nativeValues := false, [], map[], stores.world.native.values;
    secure := map[];
    var loaded := stores.Load();
    if loaded.Raised? { return; }
    secure := loaded.value;
    var storeKeys := stores.StoreKeys();
    if storeKeys.Raised? { return; }
    var found := set k | k in secure.Keys + storeKeys.value + nativeValues.Keys + decrypted.Keys && IsSensitive(k);
    order := Enumerate((set k | k in BuiltInKeys()) + found);
    assert Covers(stores.world, decrypted, order);
    for i := 0 to |order|
      invariant forall k :: Lookup(storeTexts, k) == if k in order[..i] then ReadText(stores.world.mem, k) else None
    {
      var answer := stores.StoreGet(order[i]);
      if answer.Raised? { return; }
      if order[i] in storeKeys.value && answer.value.Some? && answer.value.value.Text? {
        storeTexts := storeTexts[order[i] := answer.value.value.text];
      }
      assert order[..i + 1] == order[..i] + [order[i]];
    }
    assert order[..|order|] == order;
    ok := true;
  }

  /** The value of a key after a migration, told from what the stores and the caller held: a secure
      text is kept; without one the decrypted value counts, which the passphrase unlocked; then the
      store's text; then the native value. */
  ghost predicate Settled(
      backend: map<string, Value>, decrypted: map<string, string>, store: map<string, Value>,
      native: map<string, string>, key: string, value: Option<string>)
  {
    && (key in backend && backend[key].Text? ==> value == Some(backend[key].text))
    && (!(key in backend && backend[key].Text?) ==>
          && (key in decrypted ==> value == Some(decrypted[key]))
          && (key !in decrypted && key in store && store[key].Text? ==> value == Some(store[key].text))
          && (key !in decrypted && !(key in store && store[key].Text?) ==>
                value == if key in native then Some(native[key]) else None))
  }

  /** What a completed migration secures and returns for every credential. */
  lemma PlanSettles(w: World, decrypted: map<string, string>, keys: seq<string>)
    requires Covers(w, decrypted, keys)
    ensures forall k :: IsSensitive(k) ==>
      && Settled(w.backend, decrypted, w.mem, w.native.values, k, Lookup(ChosenMap(w, decrypted), k))
      && ReadText(Finished(w, decrypted, keys).backend, k) == Lookup(ChosenMap(w, decrypted), k)
  {
    forall k | IsSensitive(k)
      ensures Settled(w.backend, decrypted, w.mem, w.native.values, k, Lookup(ChosenMap(w, decrypted), k))
      ensures ReadText(Finished(w, decrypted, keys).backend, k) == Lookup(ChosenMap(w, decrypted), k)
    {
      ChosenIsSettled(w, decrypted, k);
      FinishedHoldsTheChosen(w, decrypted, keys, k);
    }
  }

  lemma ChosenIsSettled(w: World, decrypted: map<string, string>, key: string)
    requires IsSensitive(key)
    ensures Lookup(ChosenMap(w, decrypted), key) == Chosen(w, decrypted, key)
    ensures Settled(w.backend, decrypted, w.mem, w.native.values, key, Chosen(w, decrypted, key))
  {
    hide IsSensitive;
    assert key in SensitiveKeys(w, decrypted) || Chosen(w, decrypted, key).None?;
  }

  lemma FinishedHoldsTheChosen(w: World, decrypted: map<string, string>, keys: seq<string>, key: string)
    requires Covers(w, decrypted, keys) && IsSensitive(key)
    ensures ReadText(Finished(w, decrypted, keys).backend, key) == Lookup(ChosenMap(w, decrypted), key)
  {
    var plan := Plan(w, decrypted, keys);
    assert plan[..|plan|] == plan;
    CutIsBetween(w, decrypted, keys, |plan|);
    ChosenIsSettled(w, decrypted, key);
    hide Plan, Covers, IsSensitive, Chosen;
  }

  /** Performs the calls `done`, a prefix of the plan: all of it, and then the chosen map is
      returned, or less, and then a failure is reported. */
  method Migrate(stores: Stores, decrypted: map<string, string>)
    returns (result: Outcome<OrderedMap>, order: seq<string>, ghost done: seq<Call>)
    modifies stores
    ensures done <= Plan(old(stores.world), decrypted, order) && stores.world == DoAll(old(stores.world), done)
    ensures done != [] || result.Returned? ==> Covers(old(stores.world), decrypted, order)
    ensures result.Returned? ==>
      && done == Plan(old(stores.world), decrypted, order)
      && result.value.Valid() && result.value.values == ChosenMap(old(stores.world), decrypted)
    ensures result.Returned? ==> forall k :: IsSensitive(k) ==>
      && Settled(old(stores.world.backend), decrypted, old(stores.world.mem), old(stores.world.native.values), k,
                 result.value.Get(k))
      && ReadText(stores.world.backend, k) == result.value.Get(k)
    ensures result.Returned? ==> forall k :: k in result.value.values ==> IsSensitive(k)
  {
    assert DoAll(stores.world, []) == stores.world;
    hide SetCalls, DeleteCalls, RemoveCalls, DoAll, Chosen, CleanupPlan;
    ghost var w := stores.world;
    result, done := Raised, [];
    var ok, keys, secure, storeTexts, nativeValues := ReadLegacy(stores, decrypted);
    order := keys;
    if !ok { return; }
    var migrated;
    ok, migrated, done := CopyToSecure(stores, w, decrypted, order, secure, storeTexts, nativeValues);
    if !ok { return; }
    ghost var more;
    ok, more := Cleanup(stores, w, decrypted, order, storeTexts, nativeValues, migrated.values);
    DoAllAppend(w, done, more);
    done := done + more;
    if !ok { return; }
    MigratedIsChosen(w, decrypted, order, migrated);
    result := Returned(migrated);
    PlanSettles(w, decrypted, order);
    hide IsSensitive, Settled, ReadText;
  }

  lemma MigratedIsChosen(w: World, decrypted: map<string, string>, keys: seq<string>, migrated: OrderedMap)
    requires Covers(w, decrypted, keys)
    requires forall k :: migrated.Get(k) == if k in keys then Chosen(w, decrypted, k) else None
    ensures migrated.values == ChosenMap(w, decrypted)
  {
    forall k ensures k in migrated.values <==> k in ChosenMap(w, decrypted) {
      assert migrated.Get(k).Some? <==> k in migrated.values;
    }
    forall k | k in migrated.values ensures migrated.values[k] == ChosenMap(w, decrypted)[k] {
      assert migrated.Get(k) == Some(migrated.values[k]);
    }
  }

  lemma {:induction false} PhasePrefixes(w: World, decrypted: map<string, string>, keys: seq<string>, i: nat)
    requires i <= |keys|
    ensures SetCalls(w, decrypted, keys[..i]) <= SetCalls(w, decrypted, keys)
    ensures DeleteCalls(w, decrypted, keys[..i]) <= DeleteCalls(w, decrypted, keys)
    ensures RemoveCalls(w, decrypted, keys[..i]) <= RemoveCalls(w, decrypted, keys)
  {
    if i < |keys| {
      PhasePrefixes(w, decrypted, keys[..|keys| - 1], i);
      assert keys[..|keys| - 1][..i] == keys[..i];
    } else {
      assert keys[..i] == keys;
    }
  }

  /** Visiting the next key extends each phase by that key's call. */
  lemma VisitNext(w: World, decrypted: map<string, string>, keys: seq<string>, i: nat)
    requires i < |keys|
    ensures keys[..i + 1] == keys[..i] + [keys[i]]
    ensures SetCalls(w, decrypted, keys[..i]) + SetCall(w, decrypted, keys[i]) == SetCalls(w, decrypted, keys[..i + 1])
      <= SetCalls(w, decrypted, keys)
    ensures DeleteCalls(w, decrypted, keys[..i]) + DeleteCall(w, decrypted, keys[i]) ==
        DeleteCalls(w, decrypted, keys[..i + 1])
      <= DeleteCalls(w, decrypted, keys)
    ensures RemoveCalls(w, decrypted, keys[..i]) + RemoveCall(w, decrypted, keys[i]) ==
        RemoveCalls(w, decrypted, keys[..i + 1])
      <= RemoveCalls(w, decrypted, keys)
  {
    assert keys[..i + 1][..i] == keys[..i];
    PhasePrefixes(w, decrypted, keys, i + 1);
  }
}
