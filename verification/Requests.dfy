/** What callers ask of the queue (src/utils/auth/secure-storage.ts), told from the operations and not
    from the step function. */
module Requests {
  import opened Prelude
  import opened OrderedMaps
  import opened StorageKeys
  import opened SecureStorage

  /** A write to the secure backend or to the plugin store; None deletes the key. */
  datatype Request = Request(secure: bool, key: string, target: Option<string>)

  function RequestsOf(tasks: seq<Task>): seq<Request> {
    seq(|tasks|, i requires 0 <= i < |tasks| => Request(tasks[i].Secure?, tasks[i].key, tasks[i].target))
  }

  function Deletions(keys: seq<string>): seq<Request> {
    seq(|keys|, i requires 0 <= i < |keys| => Request(true, keys[i], None))
  }

  /** Credentials go to the backend, backed plain keys to the plugin store, and other keys nowhere;
      clearing deletes the credentials readable at that moment, in their order. */
  function Requested(backed: string -> bool, readable: seq<string>, e: Event): seq<Request> {
    match e
    case SetItem(key, value) =>
      if IsSensitive(key) || backed(key) then [Request(IsSensitive(key), key, Some(value))] else []
    case RemoveItem(key) =>
      if IsSensitive(key) || backed(key) then [Request(IsSensitive(key), key, None)] else []
    case Clear => Deletions(readable)
    case _ => []
  }

  function AllRequested(backed: string -> bool, s: State, events: seq<Event>): seq<Request> {
    if events == [] then []
    else
      var front := events[..|events| - 1];
      AllRequested(backed, s, front) + Requested(backed, Run(backed, s, front).cache.keys, events[|events| - 1])
  }

  lemma {:induction false} DeletesRequested(s: State, keys: seq<string>)
    ensures |s.queue| + |keys| == |ScheduleDeletes(s, keys).queue|
    ensures ScheduleDeletes(s, keys).queue[..|s.queue|] == s.queue
    ensures RequestsOf(ScheduleDeletes(s, keys).queue[|s.queue|..]) == Deletions(keys)
  {
    if keys != [] {
      var front, last := keys[..|keys| - 1], keys[|keys| - 1];
      DeletesRequested(s, front);
      var before := ScheduleDeletes(s, front);
      var task := Secure(last, None, Revision(before, last) + 1);
      assert ScheduleDeletes(s, keys).queue == before.queue + [task];
      hide ScheduleDeletes;
      assert (before.queue + [task])[|s.queue|..] == before.queue[|s.queue|..] + [task];
      RequestsJoin(before.queue[|s.queue|..], [task]);
    }
  }

  lemma RequestsJoin(a: seq<Task>, b: seq<Task>)
    ensures RequestsOf(a + b) == RequestsOf(a) + RequestsOf(b)
  {}

  lemma WriteRequested(backed: string -> bool, s: State, e: Event)
    requires e.SetItem? || e.RemoveItem?
    ensures RequestsOf(Enqueued(backed, s, e)) == Requested(backed, s.cache.keys, e)
  {
    hide IsSensitive;
    var target := if e.SetItem? then Some(e.value) else None;
    if IsSensitive(e.key) {
      assert Step(backed, s, e).queue == s.queue + [Secure(e.key, target, Revision(s, e.key) + 1)];
    } else if backed(e.key) {
      assert Step(backed, s, e).queue == s.queue + [Plain(e.key, target)];
    } else {
      assert Step(backed, s, e).queue == s.queue;
    }
    hide Step;
  }

  /** One operation puts exactly what it asks for on the queue. */
  lemma EnqueuedIsRequested(backed: string -> bool, s: State, e: Event)
    ensures RequestsOf(Enqueued(backed, s, e)) == Requested(backed, s.cache.keys, e)
  {
    match e
    case SetItem(key, value) => WriteRequested(backed, s, e);
    case RemoveItem(key) => WriteRequested(backed, s, e);
    case Clear =>
      var emptied := s.(cache := OrderedMaps.EMPTY, world := s.world.(native := OrderedMaps.EMPTY));
      DeletesRequested(emptied, s.cache.keys);
      assert Step(backed, s, e) == ScheduleDeletes(emptied, s.cache.keys);
      hide ScheduleDeletes;
      if s.cache.keys == [] { assert Deletions([]) == []; }
    case Answer(error) =>
      assert Step(backed, s, e).queue == s.queue;
      hide Step;
    case Settle =>
    case Report =>
  }

  /** Over any run, exactly what was asked for was issued, in that order. */
  lemma {:induction false} IssuedIsRequested(backed: string -> bool, s: State, events: seq<Event>)
    ensures RequestsOf(Issued(backed, s, events)) == AllRequested(backed, s, events)
  {
    hide Step, Enqueued, Requested;
    if events != [] {
      var front, last := events[..|events| - 1], events[|events| - 1];
      IssuedIsRequested(backed, s, front);
      EnqueuedIsRequested(backed, Run(backed, s, front), last);
      RequestsJoin(Issued(backed, s, front), Enqueued(backed, Run(backed, s, front), last));
    }
  }
}
