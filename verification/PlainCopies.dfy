/** The plugin store's copies of keys that hold no credential (src/utils/auth/secure-storage.ts): a
    write goes to native storage at once and to the store behind the queue, and clearing empties
    native storage only. */
module PlainCopies {
  import opened Prelude
  import opened OrderedMaps
  import opened StorageKeys
  import opened Migration
  import opened SecureStorage

  /** The value an operation gives the key, if it writes it; None inside removes it. */
  function Written(e: Event, key: string): Option<Option<string>> {
    match e
    case SetItem(k, value) => if k == key then Some(Some(value)) else None
    case RemoveItem(k) => if k == key then Some(None) else None
    case _ => None
  }

  /** The event is a failing answer to a call about the key. */
  predicate FailsOn(s: State, e: Event, key: string) {
    e.Answer? && e.error.Some? && s.queue != [] && !s.flight.Answered? && s.queue[0].key == key
  }

  /** No call about the key fails in the run. */
  ghost predicate NeverFails(backed: string -> bool, s: State, events: seq<Event>, key: string) {
    forall i :: 0 <= i < |events| ==> !FailsOn(Run(backed, s, events[..i]), events[i], key)
  }

  function StoreCopy(s: State, key: string): Option<string> { ReadText(s.world.mem, key) }

  function DiskCopy(s: State, key: string): Option<string> { ReadText(s.world.disk, key) }

  /** How far the head task has come, if it is about the key. */
  ghost predicate HeadFits(s: State, key: string) {
    s.queue != [] && s.queue[0].key == key ==>
      var target := s.queue[0].target;
      match s.flight
      case Waiting => true
      case Saving => StoreCopy(s, key) == target
      case Answered(error) => error == None && StoreCopy(s, key) == target == DiskCopy(s, key)
  }

  /** The last write on its way, or already in the store and on disk, is `target`. */
  ghost predicate HeadsFor(s: State, key: string, target: Option<string>) {
    match LastTask(s.queue, key)
    case None => StoreCopy(s, key) == target == DiskCopy(s, key)
    case Some(t) => t.target == target
  }

  lemma {:induction false} DeletionsAreOthers(s: State, keys: seq<string>, key: string)
    requires key !in keys
    ensures
      var t := ScheduleDeletes(s, keys);
      && t.world == s.world && t.flight == s.flight && LastTask(t.queue, key) == LastTask(s.queue, key)
      && (s.queue != [] ==> t.queue != [] && t.queue[0] == s.queue[0])
      && (s.queue == [] && t.queue != [] ==> t.queue[0].key != key)
  {
    if keys != [] {
      var front, last := keys[..|keys| - 1], keys[|keys| - 1];
      DeletionsAreOthers(s, front, key);
      var before := ScheduleDeletes(s, front);
      LastTaskAfterAppend(before.queue, Secure(last, None, Revision(before, last) + 1), key);
    }
  }

  lemma ClearIsElsewhere(s: State, key: string)
    requires Inv(s) && !IsSensitive(key)
    ensures
      var t := ClearAll(s);
      && t.world == s.world.(native := OrderedMaps.EMPTY) && t.flight == s.flight
      && LastTask(t.queue, key) == LastTask(s.queue, key)
      && (s.queue != [] ==> t.queue != [] && t.queue[0] == s.queue[0])
      && (s.queue == [] && t.queue != [] ==> t.queue[0].key != key)
  {
    assert key !in s.cache.keys;
    var emptied := s.(cache := OrderedMaps.EMPTY, world := s.world.(native := OrderedMaps.EMPTY));
    DeletionsAreOthers(emptied, s.cache.keys, key);
    hide ScheduleDeletes, IsSensitive;
  }

  lemma HeadIsPlain(s: State, key: string)
    requires Inv(s) && !IsSensitive(key) && s.queue != [] && s.queue[0].key == key
    ensures s.queue[0].Plain?
  {
    assert s.queue[0] in s.queue;
  }

  lemma StoreKeepsOthers(m: map<string, Value>, k: string, target: Option<string>, key: string)
    ensures ReadText(Put(m, k, TextOf(target)), key) == if k == key then target else ReadText(m, key)
  {}

  lemma AnswerMoves(s: State, error: Option<Error>, key: string)
    requires Inv(s) && !IsSensitive(key) && HeadFits(s, key) && !FailsOn(s, Answer(error), key)
    ensures HeadFits(OnAnswer(s, error), key)
    ensures forall target :: HeadsFor(s, key, target) ==> HeadsFor(OnAnswer(s, error), key, target)
  {
    if s.queue != [] {
      if s.queue[0].key == key { HeadIsPlain(s, key); }
      StoreKeepsOthers(s.world.mem, s.queue[0].key, s.queue[0].target, key);
      HeadIsLast(s.queue, key);
    }
    hide Inv, IsSensitive, ReadText, Put, LastTask, TextOf;
  }

  lemma HeadIsLast(queue: seq<Task>, key: string)
    requires queue != []
    ensures queue[0].key == key ==> LastTask(queue, key).Some?
  {
    LastTaskOfTail(queue, key);
  }

  lemma SettleDrops(s: State)
    requires s.queue != [] && s.flight.Answered?
    ensures
      var t := OnSettle(s);
      t.world == s.world && t.queue == s.queue[1..] && t.flight == Waiting
  {}

  lemma SettleIsIdle(s: State)
    requires s.queue == [] || !s.flight.Answered?
    ensures OnSettle(s) == s
  {}

  lemma SettleMoves(s: State, key: string)
    requires HeadFits(s, key)
    ensures HeadFits(OnSettle(s), key)
    ensures forall target :: HeadsFor(s, key, target) ==> HeadsFor(OnSettle(s), key, target)
  {
    hide OnSettle, ReadText, LastTask;
    if s.queue != [] && s.flight.Answered? {
      SettleDrops(s);
      LastTaskOfTail(s.queue, key);
    } else {
      SettleIsIdle(s);
    }
  }

  /** At most one task, about another key, has joined the queue, and the store is the same. */
  ghost predicate Joined(s: State, t: State, key: string) {
    && t.world.mem == s.world.mem && t.world.disk == s.world.disk && t.flight == s.flight
    && (t.queue == s.queue || exists task: Task :: task.key != key && t.queue == s.queue + [task])
  }

  lemma JoiningMoves(s: State, t: State, key: string)
    requires Joined(s, t, key) && HeadFits(s, key)
    ensures HeadFits(t, key)
    ensures forall target :: HeadsFor(s, key, target) ==> HeadsFor(t, key, target)
  {
    if t.queue != s.queue {
      var task: Task :| task.key != key && t.queue == s.queue + [task];
      LastTaskAfterAppend(s.queue, task, key);
      assert t.queue[0] == if s.queue == [] then task else s.queue[0];
    }
    hide LastTask, ReadText;
  }

  lemma OtherWriteJoins(backed: string -> bool, s: State, e: Event, key: string)
    requires (e.SetItem? || e.RemoveItem?) && Written(e, key).None?
    ensures Joined(s, Step(backed, s, e), key)
  {
    hide IsSensitive;
    var target := if e.SetItem? then Some(e.value) else None;
    var t := Step(backed, s, e);
    if IsSensitive(e.key) {
      assert t.queue == s.queue + [Secure(e.key, target, Revision(s, e.key) + 1)];
    } else if backed(e.key) {
      assert t.queue == s.queue + [Plain(e.key, target)];
    }
  }

  lemma OtherWriteMoves(backed: string -> bool, s: State, e: Event, key: string)
    requires HeadFits(s, key) && (e.SetItem? || e.RemoveItem?) && Written(e, key).None?
    ensures HeadFits(Step(backed, s, e), key)
    ensures forall target :: HeadsFor(s, key, target) ==> HeadsFor(Step(backed, s, e), key, target)
  {
    hide *;
    OtherWriteJoins(backed, s, e, key);
    JoiningMoves(s, Step(backed, s, e), key);
  }

  /** An event that does not write the key keeps both facts about it. */
  lemma StepMoves(backed: string -> bool, s: State, e: Event, key: string)
    requires Inv(s) && !IsSensitive(key) && HeadFits(s, key) && !FailsOn(s, e, key) && Written(e, key).None?
    ensures HeadFits(Step(backed, s, e), key)
    ensures forall target :: HeadsFor(s, key, target) ==> HeadsFor(Step(backed, s, e), key, target)
  {
    match e
    case SetItem(k, value) => OtherWriteMoves(backed, s, e, key);
    case RemoveItem(k) => OtherWriteMoves(backed, s, e, key);
    case Clear =>
      ClearIsElsewhere(s, key);
      hide ClearAll, IsSensitive, Inv, LastTask;
    case Answer(error) => AnswerMoves(s, error, key);
    case Settle => SettleMoves(s, key);
    case Report => hide Inv, IsSensitive, LastTask;
  }

  /** A write of a backed key heads for the store. */
  lemma WriteMoves(backed: string -> bool, s: State, e: Event, key: string)
    requires Inv(s) && !IsSensitive(key) && backed(key) && HeadFits(s, key) && Written(e, key).Some?
    ensures
      var t := Step(backed, s, e);
      && HeadFits(t, key) && HeadsFor(t, key, Written(e, key).value)
      && t.world.native.Get(key) == Written(e, key).value
  {
    LastTaskAfterAppend(s.queue, Plain(key, Written(e, key).value), key);
    assert s.queue == [] ==> s.flight == Waiting;
    hide Inv, IsSensitive, ReadText, LastTask;
  }

  lemma {:induction false} HeadAlwaysFits(backed: string -> bool, s: State, events: seq<Event>, key: string)
    requires Fresh(s) && !IsSensitive(key) && backed(key) && NeverFails(backed, s, events, key)
    ensures HeadFits(Run(backed, s, events), key)
  {
    hide Inv, IsSensitive, Step, FailsOn, Written, HeadFits;
    if events == [] {
      EmptyQueueFits(s, key);
    } else {
      var n := |events| - 1;
      var front := events[..n];
      FrontNeverFails(backed, s, events, key);
      HeadAlwaysFits(backed, s, front, key);
      EveryRunKeepsTheInvariant(backed, s, front);
      if Written(events[n], key).Some? {
        WriteMoves(backed, Run(backed, s, front), events[n], key);
      } else {
        StepMoves(backed, Run(backed, s, front), events[n], key);
      }
    }
  }

  lemma EmptyQueueFits(s: State, key: string)
    requires s.queue == []
    ensures HeadFits(s, key)
  {}

  lemma FrontNeverFails(backed: string -> bool, s: State, events: seq<Event>, key: string)
    requires events != [] && NeverFails(backed, s, events, key)
    ensures
      var n := |events| - 1;
      NeverFails(backed, s, events[..n], key) && !FailsOn(Run(backed, s, events[..n]), events[n], key)
  {
    hide Run, FailsOn;
    var front := events[..|events| - 1];
    assert forall i :: 0 <= i < |front| ==> front[..i] == events[..i];
  }

  lemma PutKeepsOthers(m: OrderedMap, k: string, target: Option<string>, key: string)
    requires k != key
    ensures PutCache(m, k, target).Get(key) == m.Get(key)
  {}

  lemma OtherWriteKeepsNative(backed: string -> bool, s: State, e: Event, key: string)
    requires (e.SetItem? || e.RemoveItem?) && Written(e, key).None?
    ensures Step(backed, s, e).world.native.Get(key) == s.world.native.Get(key)
  {
    PutKeepsOthers(s.world.native, e.key, if e.SetItem? then Some(e.value) else None, key);
    hide IsSensitive, PutCache;
  }

  lemma QueueKeepsNative(s: State, error: Option<Error>)
    ensures OnAnswer(s, error).world.native == s.world.native && OnSettle(s).world == s.world
  {
    hide Put, PutCache;
  }

  lemma NativeStep(backed: string -> bool, s: State, e: Event, key: string)
    requires Inv(s) && !IsSensitive(key) && Written(e, key).None?
    ensures Step(backed, s, e).world.native.Get(key) == if e.Clear? then None else s.world.native.Get(key)
  {
    match e
    case SetItem(k, value) => OtherWriteKeepsNative(backed, s, e, key);
    case RemoveItem(k) => OtherWriteKeepsNative(backed, s, e, key);
    case Clear =>
      ClearIsElsewhere(s, key);
      hide ClearAll, IsSensitive, Inv, LastTask;
    case Answer(error) =>
      QueueKeepsNative(s, error);
      hide OnAnswer, IsSensitive, Inv;
    case Settle =>
      QueueKeepsNative(s, None);
      hide OnSettle, IsSensitive, Inv;
    case Report => hide IsSensitive, Inv;
  }

  ghost predicate ClearedAfter(events: seq<Event>, i: nat) {
    exists j :: i < j < |events| && events[j].Clear?
  }

  lemma ClearedStep(events: seq<Event>, i: nat)
    requires i < |events| - 1
    ensures
      var n := |events| - 1;
      ClearedAfter(events, i) <==> ClearedAfter(events[..n], i) || events[n].Clear?
  {}

  lemma LastStep(backed: string -> bool, s: State, events: seq<Event>)
    requires Fresh(s) && events != []
    ensures
      var n := |events| - 1;
      && Run(backed, s, events) == Step(backed, Run(backed, s, events[..n]), events[n])
      && Inv(Run(backed, s, events[..n]))
  {
    EveryRunKeepsTheInvariant(backed, s, events[..|events| - 1]);
    hide Inv, Step;
  }

  lemma NotClearedAfterLast(events: seq<Event>)
    requires events != []
    ensures !ClearedAfter(events, |events| - 1)
  {}

  /** After the ith event, the last to write the key. */
  lemma {:induction false} LastWriteHeads(
      backed: string -> bool, s: State, events: seq<Event>, key: string, i: nat)
    requires Fresh(s) && !IsSensitive(key) && backed(key) && NeverFails(backed, s, events, key)
    requires i < |events| && Written(events[i], key).Some?
    requires forall j :: i < j < |events| ==> Written(events[j], key).None?
    ensures
      var end, target := Run(backed, s, events), Written(events[i], key).value;
      && HeadsFor(end, key, target)
      && end.world.native.Get(key) == if ClearedAfter(events, i) then None else target
  {
    hide *;
    var n := |events| - 1;
    var front := events[..n];
    var before := Run(backed, s, front);
    FrontNeverFails(backed, s, events, key);
    HeadAlwaysFits(backed, s, front, key);
    LastStep(backed, s, events);
    if i == n {
      WriteMoves(backed, before, events[n], key);
      NotClearedAfterLast(events);
    } else {
      LastWriteHeads(backed, s, front, key, i);
      StepMoves(backed, before, events[n], key);
      NativeStep(backed, before, events[n], key);
      ClearedStep(events, i);
    }
  }

  /** Once the queue is drained, and if no call about the key failed, the store and its disk image
      hold the last value written to a backed plain key, even if everything was cleared since;
      native storage holds it exactly when nothing was cleared since or the write was a removal. */
  lemma DrainedStoreHoldsTheLastWrite(
      backed: string -> bool, s: State, events: seq<Event>, key: string, i: nat)
    requires Fresh(s) && !IsSensitive(key) && backed(key) && NeverFails(backed, s, events, key)
    requires i < |events| && Written(events[i], key).Some?
    requires forall j :: i < j < |events| ==> Written(events[j], key).None?
    requires Run(backed, s, events).queue == []
    ensures
      var end, target := Run(backed, s, events), Written(events[i], key).value;
      && ReadText(end.world.mem, key) == ReadText(end.world.disk, key) == target
      && end.world.native.Get(key) == (if ClearedAfter(events, i) then None else target)
      && (end.world.native.Get(key) == target <==> !ClearedAfter(events, i) || target == None)
  {
    LastWriteHeads(backed, s, events, key, i);
    assert LastTask([], key) == None;
    hide Run, ReadText, IsSensitive, NeverFails, Written, ClearedAfter;
  }

  /** So a plain key that was cleared is still in the store. */
  lemma ClearedKeyIsStillStored(
      backed: string -> bool, s: State, events: seq<Event>, key: string, i: nat, value: string)
    requires Fresh(s) && !IsSensitive(key) && backed(key) && NeverFails(backed, s, events, key)
    requires i < |events| && events[i] == SetItem(key, value) && ClearedAfter(events, i)
    requires forall j :: i < j < |events| ==> Written(events[j], key).None?
    requires Run(backed, s, events).queue == []
    ensures
      var end := Run(backed, s, events);
      end.world.native.Get(key) == None && ReadText(end.world.disk, key) == Some(value)
  {
    DrainedStoreHoldsTheLastWrite(backed, s, events, key, i);
    hide Run, ReadText, IsSensitive, NeverFails, ClearedAfter;
  }
}
