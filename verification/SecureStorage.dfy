/** The optimistic credential cache (src/utils/auth/secure-storage.ts).

    Reads and writes go to a synchronous map; every mutation is also queued for
    an asynchronous backend that may refuse it.  The queue is served one task at
    a time; between any two of its steps the user may read and write again. */
module SecureStorage {
  import opened Prelude
  import opened OrderedMaps
  import opened StorageKeys
  import opened Migration

  type Error = string

  /** A queued write: `target` None deletes the key.  Plain tasks keep the legacy store's
      copy of a non-sensitive key. */
  datatype Task =
    | Secure(key: string, target: Option<string>, revision: nat)
    | Plain(key: string, target: Option<string>)

  /** The head of the queue: awaiting its first call, awaiting the store's save, or
      answered with its continuation still to run. */
  datatype Flight = Waiting | Saving | Answered(error: Option<Error>)

  datatype State = State(
    world: World,
    cache: OrderedMap,
    persisted: map<string, string>,
    revisions: map<string, nat>,
    queue: seq<Task>,
    flight: Flight,
    failure: Option<Error>)

  datatype Event =
    | SetItem(key: string, value: string)
    | RemoveItem(key: string)
    | Clear
    | Answer(error: Option<Error>)
    | Settle
    | Report

  // The step function.

  function Put<V>(m: map<string, V>, key: string, target: Option<V>): map<string, V> {
    if target.Some? then m[key := target.value] else m - {key}
  }

  function PutCache(m: OrderedMap, key: string, target: Option<string>): (r: OrderedMap)
    ensures r.values == Put(m.values, key, target)
    ensures m.Valid() ==> r.Valid()
  {
    if target.Some? then m.Set(key, target.value) else m.Delete(key)
  }

  function TextOf(target: Option<string>): Option<Value> {
    if target.Some? then Some(Text(target.value)) else None
  }

  function Revision(s: State, key: string): nat {
    if key in s.revisions then s.revisions[key] else 0
  }

  /** A sensitive write: bump the revision, update the cache, queue the backend call. */
  function Mutate(s: State, key: string, target: Option<string>): State {
    Schedule(s.(cache := PutCache(s.cache, key, target)), key, target)
  }

  function Schedule(s: State, key: string, target: Option<string>): State {
    var revision := Revision(s, key) + 1;
    s.(revisions := s.revisions[key := revision], queue := s.queue + [Secure(key, target, revision)])
  }

  function PlainWrite(backed: string -> bool, s: State, key: string, target: Option<string>): State {
    s.(world := s.world.(native := PutCache(s.world.native, key, target)),
       queue := if backed(key) then s.queue + [Plain(key, target)] else s.queue)
  }

  function ScheduleDeletes(s: State, keys: seq<string>): State {
    if keys == [] then s else Schedule(ScheduleDeletes(s, keys[..|keys| - 1]), keys[|keys| - 1], None)
  }

  function ClearAll(s: State): State {
    ScheduleDeletes(s.(cache := OrderedMaps.EMPTY, world := s.world.(native := OrderedMaps.EMPTY)), s.cache.keys)
  }

  function OnAnswer(s: State, error: Option<Error>): State {
    if s.queue == [] || s.flight.Answered? then s
    else if error.Some? then s.(flight := Answered(error))
    else match s.queue[0]
      case Secure(key, target, _) =>
        s.(world := s.world.(backend := Put(s.world.backend, key, TextOf(target))), flight := Answered(None))
      case Plain(key, target) =>
        if s.flight == Waiting
        then s.(world := s.world.(mem := Put(s.world.mem, key, TextOf(target))), flight := Saving)
        else s.(world := Do(s.world, StoreSave), flight := Answered(None))
  }

  function Rollback(s: State, key: string, revision: nat): State {
    if Lookup(s.revisions, key) != Some(revision) then s
    else s.(cache := PutCache(s.cache, key, Lookup(s.persisted, key)))
  }

  function OnSettle(s: State): State {
    if s.queue == [] || !s.flight.Answered? then s else
    var rest := s.(queue := s.queue[1..], flight := Waiting);
    var head := s.queue[0];
    if s.flight.error.None? then
      if head.Secure? then rest.(persisted := Put(s.persisted, head.key, head.target)) else rest
    else
      var undone := if head.Secure? then Rollback(rest, head.key, head.revision) else rest;
      undone.(failure := if s.failure.Some? then s.failure else s.flight.error)
  }

  function Step(backed: string -> bool, s: State, e: Event): State {
    match e
    case SetItem(key, value) =>
      if IsSensitive(key) then Mutate(s, key, Some(value)) else PlainWrite(backed, s, key, Some(value))
    case RemoveItem(key) => if IsSensitive(key) then Mutate(s, key, None) else PlainWrite(backed, s, key, None)
    case Clear => ClearAll(s)
    case Answer(error) => OnAnswer(s, error)
    case Settle => OnSettle(s)
    case Report => s.(failure := None)
  }

  function Run(backed: string -> bool, s: State, events: seq<Event>): State {
    if events == [] then s else Step(backed, Run(backed, s, events[..|events| - 1]), events[|events| - 1])
  }

  // The invariant.

  function LastTask(queue: seq<Task>, key: string): Option<Task> {
    if queue == [] then None
    else if queue[|queue| - 1].key == key then Some(queue[|queue| - 1])
    else LastTask(queue[..|queue| - 1], key)
  }

  /** Credentials live in the cache, its mirror and the backend, and nowhere else. */
  ghost predicate Separated(s: State) {
    && s.world.native.Valid() && s.cache.Valid()
    && (forall k :: k in s.world.native.values ==> !IsSensitive(k))
    && (forall k :: k in s.cache.values || k in s.persisted ==> IsSensitive(k))
    && (forall t :: t in s.queue ==> (t.Secure? <==> IsSensitive(t.key)))
    && (forall k :: IsSensitive(k) ==> ReadText(s.world.mem, k).None?)
  }

  ghost predicate FlightFits(s: State) {
    && (s.flight != Waiting ==> s.queue != [])
    && (s.flight == Saving ==> s.queue[0].Plain?)
  }

  /** Revisions grow along the queue and none exceeds its key's current one. */
  ghost predicate RevisionsGrow(s: State) {
    && (forall i :: 0 <= i < |s.queue| && s.queue[i].Secure? ==> s.queue[i].revision <= Revision(s, s.queue[i].key))
    && (forall i, j ::
          0 <= i < j < |s.queue| && s.queue[i].Secure? && s.queue[j].Secure? && s.queue[i].key == s.queue[j].key
          ==> s.queue[i].revision < s.queue[j].revision)
  }

  /** What the backend holds: the persisted mirror, plus a success not yet mirrored. */
  function Committed(s: State): map<string, string> {
    if s.queue != [] && s.queue[0].Secure? && s.flight == Answered(None)
    then Put(s.persisted, s.queue[0].key, s.queue[0].target) else s.persisted
  }

  ghost predicate BackendMirrored(s: State) {
    forall k :: IsSensitive(k) ==> ReadText(s.world.backend, k) == Lookup(Committed(s), k)
  }

  /** A key with no queued write is cached as persisted; otherwise its last queued write
      carries its current revision and targets exactly the cached value. */
  ghost predicate Agrees(s: State, key: string) {
    match LastTask(s.queue, key)
    case None => s.cache.Get(key) == Lookup(s.persisted, key)
    case Some(t) => t.Secure? && t.key in s.revisions && t.revision == Revision(s, key) && t.target == s.cache.Get(key)
  }

  ghost predicate AllAgree(s: State) {
    forall k :: IsSensitive(k) ==> Agrees(s, k)
  }

  ghost predicate Inv(s: State) {
    && Separated(s) && FlightFits(s) && RevisionsGrow(s) && BackendMirrored(s)
    && AllAgree(s)
  }

  // Queue facts.

  lemma {:induction false} LastTaskIsQueued(queue: seq<Task>, key: string) returns (i: nat)
    requires LastTask(queue, key).Some?
    ensures i < |queue| && queue[i] == LastTask(queue, key).value && queue[i].key == key
    ensures forall j :: i < j < |queue| ==> queue[j].key != key
  {
    if queue[|queue| - 1].key == key {
      i := |queue| - 1;
    } else {
      i := LastTaskIsQueued(queue[..|queue| - 1], key);
    }
  }

  lemma {:induction false} LastTaskOfTail(queue: seq<Task>, key: string)
    requires queue != []
    ensures LastTask(queue, key) ==
      if LastTask(queue[1..], key).Some? then LastTask(queue[1..], key)
      else if queue[0].key == key then Some(queue[0]) else None
  {
    var last := |queue| - 1;
    if last > 0 {
      assert queue[1..][last - 1] == queue[last];
      assert queue[1..][..last - 1] == queue[..last][1..];
      if queue[last].key != key { LastTaskOfTail(queue[..last], key); }
    } else {
      assert queue[..last] == [];
    }
  }

  lemma LastTaskAfterAppend(queue: seq<Task>, t: Task, key: string)
    ensures LastTask(queue + [t], key) == if t.key == key then Some(t) else LastTask(queue, key)
  {
    assert (queue + [t])[..|queue|] == queue;
  }

  // Each step keeps the invariant.

  lemma MutateKeepsRevisions(s: State, key: string, target: Option<string>)
    requires RevisionsGrow(s)
    ensures RevisionsGrow(Mutate(s, key, target))
  {}

  lemma MutateKeepsAgreement(s: State, key: string, target: Option<string>, k: string)
    requires Agrees(s, k) && IsSensitive(k) && IsSensitive(key)
    ensures Agrees(Mutate(s, key, target), k)
  {
    LastTaskAfterAppend(s.queue, Secure(key, target, Revision(s, key) + 1), k);
  }

  lemma MutateKeepsSeparation(s: State, key: string, target: Option<string>)
    requires Separated(s) && IsSensitive(key)
    ensures Separated(Mutate(s, key, target))
  {
    hide IsSensitive;
  }

  lemma MutateKeepsMirror(s: State, key: string, target: Option<string>)
    requires FlightFits(s) && BackendMirrored(s)
    ensures FlightFits(Mutate(s, key, target)) && BackendMirrored(Mutate(s, key, target))
  {
    hide IsSensitive, ReadText;
    assert Committed(Mutate(s, key, target)) == Committed(s);
  }

  lemma MutateKeeps(s: State, key: string, target: Option<string>)
    requires Inv(s) && IsSensitive(key)
    ensures Inv(Mutate(s, key, target))
  {
    MutateKeepsSeparation(s, key, target);
    MutateKeepsRevisions(s, key, target);
    MutateKeepsMirror(s, key, target);
    forall k | IsSensitive(k) ensures Agrees(Mutate(s, key, target), k) {
      MutateKeepsAgreement(s, key, target, k);
    }
    hide Mutate, IsSensitive, Separated, FlightFits, RevisionsGrow, BackendMirrored, Agrees;
  }

  lemma PlainWriteKeepsSeparation(backed: string -> bool, s: State, key: string, target: Option<string>)
    requires Separated(s) && !IsSensitive(key)
    ensures Separated(PlainWrite(backed, s, key, target))
  {
    hide IsSensitive;
  }

  lemma PlainWriteKeepsQueue(backed: string -> bool, s: State, key: string, target: Option<string>)
    requires FlightFits(s) && RevisionsGrow(s)
    ensures var next := PlainWrite(backed, s, key, target);
      FlightFits(next) && RevisionsGrow(next) && Committed(next) == Committed(s)
  {}

  lemma PlainWriteKeepsAgreement(backed: string -> bool, s: State, key: string, target: Option<string>, k: string)
    requires Agrees(s, k) && k != key
    ensures Agrees(PlainWrite(backed, s, key, target), k)
  {
    LastTaskAfterAppend(s.queue, Plain(key, target), k);
  }

  lemma PlainWriteKeeps(backed: string -> bool, s: State, key: string, target: Option<string>)
    requires Inv(s) && !IsSensitive(key)
    ensures Inv(PlainWrite(backed, s, key, target))
  {
    PlainWriteKeepsSeparation(backed, s, key, target);
    PlainWriteKeepsQueue(backed, s, key, target);
    forall k | IsSensitive(k) ensures Agrees(PlainWrite(backed, s, key, target), k) {
      PlainWriteKeepsAgreement(backed, s, key, target, k);
    }
    hide IsSensitive, Separated, FlightFits, RevisionsGrow, Agrees, Committed;
  }

  lemma PlainSetIsNotSensitive(mem: map<string, Value>, key: string, target: Option<string>)
    requires forall k :: IsSensitive(k) ==> ReadText(mem, k).None?
    requires !IsSensitive(key)
    ensures forall k :: IsSensitive(k) ==> ReadText(Put(mem, key, TextOf(target)), k).None?
  {
    hide IsSensitive;
  }

  lemma AnswerKeepsSeparation(s: State, error: Option<Error>)
    requires Separated(s)
    ensures Separated(OnAnswer(s, error))
  {
    if s.queue != [] && s.queue[0].Plain? { PlainSetIsNotSensitive(s.world.mem, s.queue[0].key, s.queue[0].target); }
    hide IsSensitive, ReadText, Put, TextOf;
    assert s.queue != [] ==> s.queue[0] in s.queue;
  }

  lemma AnswerKeepsMirror(s: State, error: Option<Error>)
    requires FlightFits(s) && BackendMirrored(s)
    ensures FlightFits(OnAnswer(s, error)) && BackendMirrored(OnAnswer(s, error))
  {}

  ghost predicate SameValues(s: State, t: State) {
    t.queue == s.queue && t.revisions == s.revisions && t.cache == s.cache && t.persisted == s.persisted
  }

  lemma SameAgreement(s: State, t: State)
    requires AllAgree(s) && RevisionsGrow(s) && SameValues(s, t)
    ensures AllAgree(t) && RevisionsGrow(t)
  {
    hide LastTask, IsSensitive;
    forall k | IsSensitive(k) ensures Agrees(t, k) { assert Agrees(s, k); }
  }

  lemma AnswerChangesNoValue(s: State, error: Option<Error>)
    ensures SameValues(s, OnAnswer(s, error))
  {}

  lemma AnswerKeeps(s: State, error: Option<Error>)
    requires Inv(s)
    ensures Inv(OnAnswer(s, error))
  {
    AnswerKeepsSeparation(s, error);
    AnswerKeepsMirror(s, error);
    AnswerChangesNoValue(s, error);
    hide OnAnswer, Separated, BackendMirrored, FlightFits, AllAgree, RevisionsGrow;
    SameAgreement(s, OnAnswer(s, error));
  }

  lemma SettleKeepsSeparation(s: State)
    requires Separated(s)
    ensures Separated(OnSettle(s))
  {
    hide IsSensitive, ReadText;
    assert s.queue != [] ==> s.queue[0] in s.queue;
    assert forall t :: t in OnSettle(s).queue ==> t in s.queue;
  }

  lemma SettleKeepsRevisions(s: State)
    requires RevisionsGrow(s)
    ensures RevisionsGrow(OnSettle(s))
  {}

  lemma SettleKeepsMirror(s: State)
    requires FlightFits(s) && BackendMirrored(s)
    ensures FlightFits(OnSettle(s)) && BackendMirrored(OnSettle(s))
  {}

  lemma SettleKeepsAgreement(s: State, k: string)
    requires RevisionsGrow(s) && IsSensitive(k) && Agrees(s, k)
    requires s.queue != [] && s.flight.Answered?
    ensures Agrees(OnSettle(s), k)
  {
    var next := OnSettle(s);
    assert next.queue == s.queue[1..];
    LastTaskOfTail(s.queue, k);
    if LastTask(next.queue, k).Some? {
      var i := LastTaskIsQueued(next.queue, k);
      assert s.queue[i + 1] == next.queue[i];
    }
  }

  lemma SettleKeeps(s: State)
    requires Inv(s)
    ensures Inv(OnSettle(s))
  {
    if s.queue != [] && s.flight.Answered? {
      SettleKeepsSeparation(s);
      SettleKeepsRevisions(s);
      SettleKeepsMirror(s);
      forall k | IsSensitive(k) ensures Agrees(OnSettle(s), k) { SettleKeepsAgreement(s, k); }
      hide OnSettle, IsSensitive, Separated, FlightFits, RevisionsGrow, BackendMirrored, Agrees;
    }
  }

  // Clearing is removing every cached key, one after the other.

  function RemoveEach(s: State, keys: seq<string>): State {
    if keys == [] then s else Mutate(RemoveEach(s, keys[..|keys| - 1]), keys[|keys| - 1], None)
  }

  lemma OneDeletionIgnoresTheCache(s: State, cache: OrderedMap, native: OrderedMap, key: string)
    ensures
      var next := Mutate(s, key, None);
      Schedule(s.(cache := cache, world := s.world.(native := native)), key, None)
        == next.(cache := cache, world := next.world.(native := native))
  {}

  lemma {:induction false} SchedulingIgnoresTheCache(s: State, cache: OrderedMap, native: OrderedMap, keys: seq<string>)
    ensures ScheduleDeletes(s.(cache := cache, world := s.world.(native := native)), keys)
      == RemoveEach(s, keys).(cache := cache, world := RemoveEach(s, keys).world.(native := native))
  {
    if keys != [] {
      var front, last := keys[..|keys| - 1], keys[|keys| - 1];
      SchedulingIgnoresTheCache(s, cache, native, front);
      OneDeletionIgnoresTheCache(RemoveEach(s, front), cache, native, last);
      hide Schedule, Mutate;
    }
  }

  lemma {:induction false} RemoveEachEmpties(s: State, keys: seq<string>)
    requires Inv(s) && forall k :: k in keys ==> IsSensitive(k)
    ensures Inv(RemoveEach(s, keys)) && RemoveEach(s, keys).world == s.world
    ensures forall k :: k in RemoveEach(s, keys).cache.values <==> k in s.cache.values && k !in keys
  {
    if keys != [] {
      var last := keys[|keys| - 1];
      assert keys == keys[..|keys| - 1] + [last];
      RemoveEachEmpties(s, keys[..|keys| - 1]);
      MutateKeeps(RemoveEach(s, keys[..|keys| - 1]), last, None);
    }
  }

  lemma ClearIsRemoveEach(s: State)
    requires Inv(s)
    ensures var removed := RemoveEach(s, s.cache.keys);
      && Inv(removed) && removed.cache == OrderedMaps.EMPTY
      && ClearAll(s) == removed.(world := removed.world.(native := OrderedMaps.EMPTY))
  {
    var removed := RemoveEach(s, s.cache.keys);
    RemoveEachEmpties(s, s.cache.keys);
    SchedulingIgnoresTheCache(s, OrderedMaps.EMPTY, OrderedMaps.EMPTY, s.cache.keys);
    HeadIn(removed.cache.keys);
    assert removed.cache.values == map[];
  }

  lemma NativeCleared(s: State)
    requires Inv(s)
    ensures Inv(s.(world := s.world.(native := OrderedMaps.EMPTY)))
  {
    var t := s.(world := s.world.(native := OrderedMaps.EMPTY));
    SameAgreement(s, t);
    hide AllAgree, RevisionsGrow, IsSensitive, ReadText;
    assert Committed(t) == Committed(s);
  }

  lemma ClearKeeps(s: State)
    requires Inv(s)
    ensures Inv(ClearAll(s))
  {
    ClearIsRemoveEach(s);
    hide ClearAll, RemoveEach;
    NativeCleared(RemoveEach(s, s.cache.keys));
  }

  // Every run.

  lemma ReportKeeps(s: State)
    requires Inv(s)
    ensures Inv(s.(failure := None))
  {
    SameAgreement(s, s.(failure := None));
    hide AllAgree, RevisionsGrow, IsSensitive, ReadText;
    assert Committed(s.(failure := None)) == Committed(s);
  }

  lemma StepKeeps(backed: string -> bool, s: State, e: Event)
    requires Inv(s)
    ensures Inv(Step(backed, s, e))
  {
    match e
    case SetItem(key, value) =>
      if IsSensitive(key) { MutateKeeps(s, key, Some(value)); } else { PlainWriteKeeps(backed, s, key, Some(value)); }
    case RemoveItem(key) =>
      if IsSensitive(key) { MutateKeeps(s, key, None); } else { PlainWriteKeeps(backed, s, key, None); }
    case Clear => ClearKeeps(s);
    case Answer(error) => AnswerKeeps(s, error);
    case Settle => SettleKeeps(s);
    case Report => ReportKeeps(s);
  }

  lemma {:induction false} EveryRunKeepsTheInvariant(backed: string -> bool, s: State, events: seq<Event>)
    requires Inv(s)
    ensures Inv(Run(backed, s, events))
  {
    if events != [] {
      EveryRunKeepsTheInvariant(backed, s, events[..|events| - 1]);
      StepKeeps(backed, Run(backed, s, events[..|events| - 1]), events[|events| - 1]);
    }
  }

  lemma DrainedAgrees(s: State)
    requires Inv(s) && s.queue == []
    ensures s.cache.values == s.persisted
    ensures forall k :: IsSensitive(k) ==> s.cache.Get(k) == ReadText(s.world.backend, k)
  {
    assert forall k :: IsSensitive(k) ==> Agrees(s, k);
    hide IsSensitive, FlightFits, RevisionsGrow, ReadText;
    forall k ensures Lookup(s.cache.values, k) == Lookup(s.persisted, k) {
      if IsSensitive(k) { assert Agrees(s, k); }
    }
    SameLookups(s.cache.values, s.persisted);
  }

  lemma SameLookups(a: map<string, string>, b: map<string, string>)
    requires forall k :: Lookup(a, k) == Lookup(b, k)
    ensures a == b
  {
    assert forall k :: k in a <==> Lookup(a, k).Some?;
    assert forall k :: k in b <==> Lookup(b, k).Some?;
  }

  /** Once the queue is drained, cache, mirror and backend agree on every credential. */
  lemma DrainedRunAgrees(backed: string -> bool, s: State, events: seq<Event>)
    requires Inv(s) && Run(backed, s, events).queue == []
    ensures var end := Run(backed, s, events);
      && end.cache.values == end.persisted
      && forall k :: IsSensitive(k) ==> end.cache.Get(k) == ReadText(end.world.backend, k)
  {
    hide *;
    EveryRunKeepsTheInvariant(backed, s, events);
    DrainedAgrees(Run(backed, s, events));
  }

  // The history of a run: what was issued, and how each settled task ended.

  function Enqueued(backed: string -> bool, s: State, e: Event): seq<Task> {
    var after := Step(backed, s, e).queue;
    if e.Settle? || |after| < |s.queue| then [] else after[|s.queue|..]
  }

  function Ended(s: State, e: Event): seq<bool> {
    if e.Settle? && s.queue != [] && s.flight.Answered? then [s.flight.error.None?] else []
  }

  function Issued(backed: string -> bool, s: State, events: seq<Event>): seq<Task> {
    if events == [] then [] else
    Issued(backed, s, events[..|events| - 1]) +
      Enqueued(backed, Run(backed, s, events[..|events| - 1]), events[|events| - 1])
  }

  function Endings(backed: string -> bool, s: State, events: seq<Event>): seq<bool> {
    if events == [] then [] else
    Endings(backed, s, events[..|events| - 1]) + Ended(Run(backed, s, events[..|events| - 1]), events[|events| - 1])
  }

  /** The contents after the first |oks| tasks, keeping only those that succeeded. */
  function Replay(base: map<string, string>, tasks: seq<Task>, oks: seq<bool>): map<string, string>
    requires |oks| <= |tasks|
  {
    if oks == [] then base else
    var n := |oks| - 1;
    var before := Replay(base, tasks, oks[..n]);
    if oks[n] && tasks[n].Secure? then Put(before, tasks[n].key, tasks[n].target) else before
  }

  lemma {:induction false} ReplayIgnoresLaterTasks(
      base: map<string, string>, tasks: seq<Task>, more: seq<Task>, oks: seq<bool>)
    requires |oks| <= |tasks|
    ensures Replay(base, tasks + more, oks) == Replay(base, tasks, oks)
  {
    if oks != [] { ReplayIgnoresLaterTasks(base, tasks, more, oks[..|oks| - 1]); }
  }

  lemma ReplayOneMore(base: map<string, string>, tasks: seq<Task>, oks: seq<bool>, ok: bool)
    requires |oks| < |tasks|
    ensures Replay(base, tasks, oks + [ok]) ==
      if ok && tasks[|oks|].Secure? then Put(Replay(base, tasks, oks), tasks[|oks|].key, tasks[|oks|].target)
      else Replay(base, tasks, oks)
  {
    assert (oks + [ok])[..|oks|] == oks;
  }

  /** The last success on a key decides it. */
  lemma {:induction false} ReplayLastSuccess(base: map<string, string>, tasks: seq<Task>, oks: seq<bool>, i: nat)
    requires i < |oks| <= |tasks| && oks[i] && tasks[i].Secure?
    requires forall j :: i < j < |oks| && oks[j] && tasks[j].Secure? ==> tasks[j].key != tasks[i].key
    ensures Lookup(Replay(base, tasks, oks), tasks[i].key) == tasks[i].target
  {
    if i < |oks| - 1 { ReplayLastSuccess(base, tasks, oks[..|oks| - 1], i); }
  }

  /** A key no success touched keeps its hydrated value. */
  lemma {:induction false} ReplayUntouched(base: map<string, string>, tasks: seq<Task>, oks: seq<bool>, key: string)
    requires |oks| <= |tasks|
    requires forall j :: 0 <= j < |oks| && oks[j] && tasks[j].Secure? ==> tasks[j].key != key
    ensures Lookup(Replay(base, tasks, oks), key) == Lookup(base, key)
  {
    if oks != [] { ReplayUntouched(base, tasks, oks[..|oks| - 1], key); }
  }

  ghost predicate Fresh(s: State) { Inv(s) && s.queue == [] }

  ghost predicate WellClassed(tasks: seq<Task>) {
    forall t :: t in tasks ==> (t.Secure? <==> IsSensitive(t.key))
  }

  lemma {:induction false} ScheduleDeletesAppends(s: State, keys: seq<string>)
    ensures |s.queue| <= |ScheduleDeletes(s, keys).queue|
    ensures ScheduleDeletes(s, keys).queue[..|s.queue|] == s.queue
    ensures ScheduleDeletes(s, keys).persisted == s.persisted && ScheduleDeletes(s, keys).flight == s.flight
  {
    if keys != [] { ScheduleDeletesAppends(s, keys[..|keys| - 1]); }
  }

  /** Only settling takes a task off the queue, and it takes the oldest. */
  lemma QueueGrowsAtTheEnd(backed: string -> bool, s: State, e: Event)
    ensures Ended(s, e) == [] ==>
      Step(backed, s, e).queue == s.queue + Enqueued(backed, s, e) && Step(backed, s, e).persisted == s.persisted
    ensures Ended(s, e) != [] ==>
        s.queue != [] && Step(backed, s, e).queue == s.queue[1..] && Enqueued(backed, s, e) == []
  {
    if e.Clear? {
      ScheduleDeletesAppends(s.(cache := OrderedMaps.EMPTY, world := s.world.(native := OrderedMaps.EMPTY)),
        s.cache.keys);
    }
  }

  ghost predicate Recorded(s: State, base: map<string, string>, issued: seq<Task>, endings: seq<bool>) {
    && |endings| <= |issued| && WellClassed(issued)
    && s.queue == issued[|endings|..]
    && s.persisted == Replay(base, issued, endings)
  }

  lemma StepIsRecorded(
      backed: string -> bool, s: State, e: Event, base: map<string, string>, issued: seq<Task>, endings: seq<bool>)
    requires Recorded(s, base, issued, endings) && Separated(Step(backed, s, e))
    ensures Recorded(Step(backed, s, e), base, issued + Enqueued(backed, s, e), endings + Ended(s, e))
  {
    var more := Enqueued(backed, s, e);
    QueueGrowsAtTheEnd(backed, s, e);
    hide IsSensitive, Replay;
    if Ended(s, e) == [] {
      hide Step, Enqueued;
      assert (issued + more)[|endings|..] == issued[|endings|..] + more;
      assert endings + Ended(s, e) == endings;
      ReplayIgnoresLaterTasks(base, issued, more, endings);
    } else {
      assert issued[|endings|] == s.queue[0];
      assert issued[|endings| + 1..] == s.queue[1..];
      assert issued + more == issued;
      ReplayOneMore(base, issued, endings, s.flight.error.None?);
    }
  }

  /** The queue is the unsettled part of what was issued, and the mirror is the replay of
      the settled part. */
  lemma {:induction false} HistoryOfRun(backed: string -> bool, s: State, events: seq<Event>)
    requires Fresh(s)
    ensures Recorded(Run(backed, s, events), s.persisted, Issued(backed, s, events), Endings(backed, s, events))
  {
    if events != [] {
      var prefix, e := events[..|events| - 1], events[|events| - 1];
      HistoryOfRun(backed, s, prefix);
      EveryRunKeepsTheInvariant(backed, s, events);
      StepIsRecorded(backed, Run(backed, s, prefix), e, s.persisted, Issued(backed, s, prefix),
        Endings(backed, s, prefix));
    }
  }

  /** How every task the backend has answered ended, settled or about to settle. */
  function Decisions(backed: string -> bool, s: State, events: seq<Event>): seq<bool> {
    var end := Run(backed, s, events);
    Endings(backed, s, events) + if end.flight.Answered? then [end.flight.error.None?] else []
  }

  /** At every moment the backend holds exactly the successes, replayed in issue order on
      the hydrated contents. */
  lemma BackendIsReplay(backed: string -> bool, s: State, events: seq<Event>, key: string)
    requires Fresh(s) && IsSensitive(key)
    ensures |Decisions(backed, s, events)| <= |Issued(backed, s, events)|
    ensures ReadText(Run(backed, s, events).world.backend, key)
      == Lookup(Replay(s.persisted, Issued(backed, s, events), Decisions(backed, s, events)), key)
  {
    HistoryOfRun(backed, s, events);
    EveryRunKeepsTheInvariant(backed, s, events);
    var end := Run(backed, s, events);
    var issued, endings := Issued(backed, s, events), Endings(backed, s, events);
    if end.flight.Answered? {
      assert issued[|endings|] == end.queue[0];
      ReplayOneMore(s.persisted, issued, endings, end.flight.error.None?);
    } else {
      assert Decisions(backed, s, events) == endings;
    }
  }

  lemma {:induction false} LastTaskAt(queue: seq<Task>, i: nat)
    requires i < |queue| && forall j :: i < j < |queue| ==> queue[j].key != queue[i].key
    ensures LastTask(queue, queue[i].key) == Some(queue[i])
  {
    if i < |queue| - 1 { LastTaskAt(queue[..|queue| - 1], i); }
  }

  lemma NoLastTask(queue: seq<Task>, key: string)
    requires forall j :: 0 <= j < |queue| ==> queue[j].key != key
    ensures LastTask(queue, key) == None
  {
    if LastTask(queue, key).Some? { var i := LastTaskIsQueued(queue, key); }
  }

  lemma CacheFromRecord(end: State, base: map<string, string>, issued: seq<Task>, endings: seq<bool>, i: nat)
    requires Recorded(end, base, issued, endings) && i < |issued| && issued[i].Secure?
    requires Agrees(end, issued[i].key)
    requires forall j :: i < j < |issued| ==> issued[j].key != issued[i].key
    ensures end.cache.Get(issued[i].key) ==
      if i < |endings| && !endings[i] then Lookup(Replay(base, issued, endings), issued[i].key) else issued[i].target
  {
    if i >= |endings| {
      assert end.queue[i - |endings|] == issued[i];
      LastTaskAt(end.queue, i - |endings|);
    } else {
      NoLastTask(end.queue, issued[i].key);
      if endings[i] { ReplayLastSuccess(base, issued, endings, i); }
    }
  }

  /** What a reader sees: the value of the last write issued on the key, unless that very
      write failed, and then the last success before it.  So no older failure ever rolls
      back a newer write. */
  lemma CacheShowsTheLastWrite(backed: string -> bool, s: State, events: seq<Event>, i: nat)
    requires Fresh(s) && i < |Issued(backed, s, events)| && Issued(backed, s, events)[i].Secure?
    requires var issued := Issued(backed, s, events);
      forall j :: i < j < |issued| ==> issued[j].key != issued[i].key
    ensures var issued, endings := Issued(backed, s, events), Endings(backed, s, events);
      && |endings| <= |issued|
      && Run(backed, s, events).cache.Get(issued[i].key) ==
         if i < |endings| && !endings[i] then Lookup(Replay(s.persisted, issued, endings), issued[i].key)
           else issued[i].target
  {
    HistoryOfRun(backed, s, events);
    EveryRunKeepsTheInvariant(backed, s, events);
    var issued := Issued(backed, s, events);
    assert issued[i] in issued;
    CacheFromRecord(Run(backed, s, events), s.persisted, issued, Endings(backed, s, events), i);
  }

  /** A credential nobody wrote is still the hydrated one. */
  lemma CacheShowsTheHydratedValue(backed: string -> bool, s: State, events: seq<Event>, key: string)
    requires Fresh(s) && IsSensitive(key)
    requires forall t :: t in Issued(backed, s, events) ==> t.key != key
    ensures Run(backed, s, events).cache.Get(key) == Lookup(s.persisted, key)
  {
    HistoryOfRun(backed, s, events);
    EveryRunKeepsTheInvariant(backed, s, events);
    assert Agrees(Run(backed, s, events), key);
    var end := Run(backed, s, events);
    assert forall j :: 0 <= j < |end.queue| ==> end.queue[j] in Issued(backed, s, events);
    NoLastTask(end.queue, key);
    var issued := Issued(backed, s, events);
    assert forall j :: 0 <= j < |issued| ==> issued[j] in issued;
    ReplayUntouched(s.persisted, issued, Endings(backed, s, events), key);
  }

  // What a flush reports, and what it waits for.

  /** The error with which the task settled by an event ended, if it failed. */
  function Failed(s: State, e: Event): Option<Error> {
    if e.Settle? && s.queue != [] && s.flight.Answered? then s.flight.error else None
  }

  /** The ith event settles a failed task, and no report follows it. */
  ghost predicate Unreported(backed: string -> bool, s: State, events: seq<Event>, i: nat) {
    && i < |events| && Failed(Run(backed, s, events[..i]), events[i]).Some?
    && forall j :: i < j < |events| ==> events[j] != Report
  }

  /** The oldest of those. */
  ghost predicate OldestUnreported(backed: string -> bool, s: State, events: seq<Event>, i: nat) {
    Unreported(backed, s, events, i) && forall j :: 0 <= j < i ==> !Unreported(backed, s, events, j)
  }

  lemma FailureStep(backed: string -> bool, s: State, e: Event)
    ensures Step(backed, s, e).failure ==
      if e == Report then None else if s.failure.Some? then s.failure else Failed(s, e)
  {
    if e.Clear? {
      ClearKeepsFailure(s.(cache := OrderedMaps.EMPTY, world := s.world.(native := OrderedMaps.EMPTY)), s.cache.keys);
    }
    hide ScheduleDeletes, IsSensitive;
  }

  lemma {:induction false} ClearKeepsFailure(s: State, keys: seq<string>)
    ensures ScheduleDeletes(s, keys).failure == s.failure
  {
    if keys != [] { ClearKeepsFailure(s, keys[..|keys| - 1]); }
  }

  lemma UnreportedStep(backed: string -> bool, s: State, events: seq<Event>, i: nat)
    requires events != []
    ensures
      var n := |events| - 1;
      Unreported(backed, s, events, i) <==>
        if i < n then events[n] != Report && Unreported(backed, s, events[..n], i)
        else i == n && Failed(Run(backed, s, events[..n]), events[n]).Some?
  {
    hide Run, Failed;
    if i < |events| - 1 { assert events[..|events| - 1][..i] == events[..i]; }
  }

  /** After any run the recorded failure is the error of the oldest failed write that no report
      has followed; there is none exactly when every failure was followed by a report. */
  lemma {:induction false} FailureIsTheOldestUnreported(backed: string -> bool, s: State, events: seq<Event>)
    requires s.failure == None
    ensures Run(backed, s, events).failure.None? <==> forall i: nat :: !Unreported(backed, s, events, i)
    ensures forall i: nat :: OldestUnreported(backed, s, events, i) ==>
      Run(backed, s, events).failure == Failed(Run(backed, s, events[..i]), events[i])
  {
    if events != [] {
      var n := |events| - 1;
      var front := events[..n];
      var before := Run(backed, s, front);
      assert Run(backed, s, events) == Step(backed, before, events[n]);
      FailureIsTheOldestUnreported(backed, s, front);
      FailureStep(backed, before, events[n]);
      hide Run, Step, Failed;
      forall i: nat
        ensures Unreported(backed, s, events, i) <==>
          if i < n then events[n] != Report && Unreported(backed, s, front, i)
          else i == n && Failed(before, events[n]).Some?
      {
        UnreportedStep(backed, s, events, i);
      }
      hide Unreported;
      if before.failure.Some? && events[n] != Report {
        var k: nat :| Unreported(backed, s, front, k);
        assert k < n by { UnreportedIsInside(backed, s, front, k); }
        assert Unreported(backed, s, events, k);
      } else if Failed(before, events[n]).Some? {
        assert Unreported(backed, s, events, n);
      }
      forall i: nat | OldestUnreported(backed, s, events, i)
        ensures Step(backed, before, events[n]).failure == Failed(Run(backed, s, events[..i]), events[i])
      {
        if i < n {
          assert front[..i] == events[..i] && front[i] == events[i];
          assert OldestUnreported(backed, s, front, i);
        }
      }
    }
  }

  lemma UnreportedIsInside(backed: string -> bool, s: State, events: seq<Event>, i: nat)
    requires Unreported(backed, s, events, i)
    ensures i < |events|
  {}

  /** A flush waits for the writes issued before it. Once those have settled, each credential
      whose last write is among them reads the same from cache, mirror and backend: the value
      written, if that write succeeded, and what the successes before it left, if it failed. */
  lemma FlushedWritesHaveSettled(backed: string -> bool, s: State, events: seq<Event>, i: nat)
    requires Fresh(s)
    requires i < |Endings(backed, s, events)| && i < |Issued(backed, s, events)| && Issued(backed, s, events)[i].Secure?
    requires forall j :: i < j < |Issued(backed, s, events)| ==>
      Issued(backed, s, events)[j].key != Issued(backed, s, events)[i].key
    ensures
      var end, issued, endings := Run(backed, s, events), Issued(backed, s, events), Endings(backed, s, events);
      var key := issued[i].key;
      && |endings| <= |issued|
      && end.cache.Get(key) == Lookup(end.persisted, key) == ReadText(end.world.backend, key)
      && end.cache.Get(key) ==
         if endings[i] then issued[i].target else Lookup(Replay(s.persisted, issued, endings), key)
  {
    var end, issued, endings := Run(backed, s, events), Issued(backed, s, events), Endings(backed, s, events);
    HistoryOfRun(backed, s, events);
    EveryRunKeepsTheInvariant(backed, s, events);
    CacheShowsTheLastWrite(backed, s, events, i);
    hide Run, Issued, Endings, Replay;
    SettledKeyAgrees(end, issued, endings, s.persisted, i);
  }

  lemma SettledKeyAgrees(end: State, issued: seq<Task>, endings: seq<bool>, base: map<string, string>, i: nat)
    requires Inv(end) && Recorded(end, base, issued, endings)
    requires i < |endings| && issued[i].Secure? && forall j :: i < j < |issued| ==> issued[j].key != issued[i].key
    ensures end.cache.Get(issued[i].key) == Lookup(end.persisted, issued[i].key) ==
        ReadText(end.world.backend, issued[i].key)
  {
    var key := issued[i].key;
    assert issued[i] in issued;
    forall j | 0 <= j < |end.queue| ensures end.queue[j].key != key { assert end.queue[j] == issued[|endings| + j]; }
    NoLastTask(end.queue, key);
    assert Agrees(end, key);
    assert Lookup(Committed(end), key) == Lookup(end.persisted, key);
    hide Separated, FlightFits, RevisionsGrow, IsSensitive, LastTask;
  }
}
