/** Deciding from telemetry whether an account's quota is exhausted
    (src-tauri/src/cli_pools/quota.rs). */
module QuotaEvidence {
  import opened Prelude
  import opened Sorting

  datatype Window = FiveHour | Weekly | Monthly

  datatype Status = Exhausted | Available | Unknown

  /** A reported percentage: a number, or an infinity or NaN. */
  datatype Percent = Finite(value: real) | NotFinite

  datatype Sample = Sample(
    account: string,
    window: Window,
    used: Option<Percent>,
    remaining: Option<Percent>,
    resetAt: Option<nat>,
    sampledAt: nat,
    explicitlyExhausted: bool,
    transientError: bool)

  /** The arguments that stay the same for every window. */
  datatype Query = Query(account: string, now: nat, ttl: nat, separation: nat, required: nat) {
    function Gap(): nat { Max(separation, 5) }

    function Needed(): nat { Max(required, 2) }
  }

  function SaturatingSub(a: nat, b: nat): nat { if a >= b then a - b else 0 }

  /** is_fresh */
  predicate IsFresh(sampledAt: nat, now: nat, ttl: nat) {
    sampledAt <= now && SaturatingSub(now, sampledAt) <= ttl
  }

  predicate InvalidPercent(p: Option<Percent>) {
    p.Some? && (p.value.NotFinite? || p.value.value < 0.0 || p.value.value > 100.0)
  }

  /** sample_status */
  function StatusOf(s: Sample, now: nat): Status {
    if s.transientError || (s.resetAt.Some? && s.resetAt.value <= now) then Unknown
    else if s.explicitlyExhausted then Exhausted
    else if InvalidPercent(s.used) || InvalidPercent(s.remaining) then Unknown
    else
      var used := if s.used.Some? then Some(s.used.value == Finite(100.0)) else None;
      var remaining := if s.remaining.Some? then Some(s.remaining.value == Finite(0.0)) else None;
      match (used, remaining)
      case (Some(true), Some(false)) => Unknown
      case (Some(false), Some(true)) => Unknown
      case (None, None) => Unknown
      case (Some(true), _) => Exhausted
      case (_, Some(true)) => Exhausted
      case _ => Available
  }

  /** A sample is available only when it is not explicit, some valid percentage is given, and
      none of those given is at its limit. */
  lemma AvailableMeans(s: Sample, now: nat)
    ensures StatusOf(s, now) == Available <==>
      && !s.transientError && (s.resetAt.Some? ==> s.resetAt.value > now) && !s.explicitlyExhausted
      && (s.used.Some? || s.remaining.Some?)
      && (s.used.Some? ==> s.used.value.Finite? && 0.0 <= s.used.value.value < 100.0)
      && (s.remaining.Some? ==> s.remaining.value.Finite? && 0.0 < s.remaining.value.value <= 100.0)
  {}

  /** A sample is exhausted when it is explicit, or when it gives some valid percentage and every
      one it gives is at its limit; two that disagree decide nothing. */
  lemma ExhaustedMeans(s: Sample, now: nat)
    ensures StatusOf(s, now) == Exhausted <==>
      && !s.transientError && (s.resetAt.Some? ==> s.resetAt.value > now)
      && (|| s.explicitlyExhausted
          || (&& (s.used.Some? || s.remaining.Some?)
              && (s.used.Some? ==> s.used.value == Finite(100.0))
              && (s.remaining.Some? ==> s.remaining.value == Finite(0.0))))
  {}

  // The telemetry of one window.

  function Wanted(q: Query, w: Window): Sample -> bool {
    (s: Sample) => s.account == q.account && s.window == w && IsFresh(s.sampledAt, q.now, q.ttl)
  }

  function Time(): Sample -> real {
    (s: Sample) => s.sampledAt as real
  }

  /** The fresh samples of the account and window, oldest first. */
  function Relevant(q: Query, w: Window, samples: seq<Sample>): seq<Sample> {
    StableSort(Filter(samples, Wanted(q, w)), Time())
  }

  function Latest(history: seq<Sample>): Sample
    requires history != []
  {
    history[|history| - 1]
  }

  // Confirmation, stated without an algorithm.

  /** Exhausted, and from the reset epoch of the latest sample. */
  predicate Counts(history: seq<Sample>, i: nat, now: nat)
    requires i < |history|
  {
    history[i].resetAt == Latest(history).resetAt && StatusOf(history[i], now) == Exhausted
  }

  /** Every sample from i to the latest counts. */
  ghost predicate Unbroken(history: seq<Sample>, i: nat, now: nat) {
    i < |history| && forall j :: i <= j < |history| ==> Counts(history, j, now)
  }

  /** Positions, newest first, inside the unbroken run that ends at the latest sample, with
      neighbours at least `gap` apart. */
  ghost predicate Chain(history: seq<Sample>, chain: seq<nat>, gap: nat, now: nat) {
    && (forall k :: 0 <= k < |chain| ==> Unbroken(history, chain[k], now))
    && (forall k :: 0 < k < |chain| ==> history[chain[k]].sampledAt + gap <= history[chain[k - 1]].sampledAt)
  }

  ghost predicate Confirmed(q: Query, history: seq<Sample>) {
    && history != [] && StatusOf(Latest(history), q.now) == Exhausted
    && (|| Latest(history).explicitlyExhausted
        || exists chain :: Chain(history, chain, q.Gap(), q.now) && |chain| >= q.Needed())
  }

  ghost predicate LongestChain(q: Query, history: seq<Sample>, size: nat) {
    && (exists chain :: Chain(history, chain, q.Gap(), q.now) && |chain| == size)
    && (forall chain :: Chain(history, chain, q.Gap(), q.now) ==> |chain| <= size)
  }

  // The backward greedy scan finds a longest chain.

  ghost predicate Ordered(history: seq<Sample>) {
    forall i, j :: 0 <= i < j < |history| ==> history[i].sampledAt <= history[j].sampledAt
  }

  /** What the scan picks among the first n samples, after a pick made at time `confirmed`. */
  function Picks(history: seq<Sample>, n: nat, confirmed: nat, gap: nat, now: nat): seq<nat>
    requires n <= |history|
  {
    if n == 0 || !Counts(history, n - 1, now) then []
    else if SaturatingSub(confirmed, history[n - 1].sampledAt) >= gap
    then [n - 1] + Picks(history, n - 1, history[n - 1].sampledAt, gap, now)
    else Picks(history, n - 1, confirmed, gap, now)
  }

  lemma NoChain(history: seq<Sample>, gap: nat, now: nat)
    ensures Chain(history, [], gap, now)
  {}

  lemma UnbrokenBefore(history: seq<Sample>, n: nat, now: nat)
    requires 0 < n < |history| && Unbroken(history, n, now) && Counts(history, n - 1, now)
    ensures Unbroken(history, n - 1, now)
  {
    hide Counts;
  }

  lemma ChainExtended(history: seq<Sample>, i: nat, rest: seq<nat>, gap: nat, now: nat)
    requires Unbroken(history, i, now) && Chain(history, rest, gap, now)
    requires rest != [] ==> Unbroken(history, rest[0], now) && history[rest[0]].sampledAt + gap <= history[i].sampledAt
    ensures Chain(history, [i] + rest, gap, now)
  {
    hide Counts;
    var chain := [i] + rest;
    assert forall k :: 0 < k < |chain| ==> chain[k] == rest[k - 1];
    assert forall k :: 0 <= k < |chain| ==> Unbroken(history, chain[k], now);
  }

  lemma {:induction false} PicksAreAChain(history: seq<Sample>, n: nat, confirmed: nat, gap: nat, now: nat)
    requires Ordered(history) && gap >= 5 && n < |history| && Unbroken(history, n, now)
    ensures var picks := Picks(history, n, confirmed, gap, now);
      && Chain(history, picks, gap, now)
      && (picks != [] ==> Unbroken(history, picks[0], now) && history[picks[0]].sampledAt + gap <= confirmed)
  {
    hide Counts, Unbroken, Chain, Ordered;
    NoChain(history, gap, now);
    if n > 0 && Counts(history, n - 1, now) {
      UnbrokenBefore(history, n, now);
      var t := history[n - 1].sampledAt;
      if SaturatingSub(confirmed, t) >= gap {
        PicksAreAChain(history, n - 1, t, gap, now);
        ChainExtended(history, n - 1, Picks(history, n - 1, t, gap, now), gap, now);
      } else {
        PicksAreAChain(history, n - 1, confirmed, gap, now);
      }
    }
  }

  /** Times fall along a chain. */
  lemma {:induction false} ChainFalls(history: seq<Sample>, chain: seq<nat>, gap: nat, now: nat, k: nat)
    requires Chain(history, chain, gap, now) && 0 < k < |chain|
    ensures history[chain[k]].sampledAt + gap <= history[chain[0]].sampledAt
  {
    hide Counts;
    if k > 1 { ChainFalls(history, chain, gap, now, k - 1); }
  }

  lemma ChainTail(history: seq<Sample>, chain: seq<nat>, gap: nat, now: nat)
    requires Chain(history, chain, gap, now) && chain != []
    ensures Chain(history, chain[1..], gap, now)
  {
    hide Counts;
    var rest := chain[1..];
    forall k | 0 < k < |rest|
      ensures history[rest[k]].sampledAt + gap <= history[rest[k - 1]].sampledAt
    {
      assert rest[k] == chain[k + 1] && rest[k - 1] == chain[k];
    }
  }

  /** No chain among the first n samples that could follow a pick at `confirmed` is longer. */
  lemma {:induction false} PicksAreLongest(
      history: seq<Sample>, n: nat, confirmed: nat, gap: nat, now: nat, chain: seq<nat>)
    requires Ordered(history) && gap >= 5 && n <= |history| && Chain(history, chain, gap, now)
    requires forall k :: 0 <= k < |chain| ==> chain[k] < n
    requires chain != [] ==> history[chain[0]].sampledAt + gap <= confirmed
    ensures |chain| <= |Picks(history, n, confirmed, gap, now)|
    decreases n
  {
    hide StatusOf;
    if chain != [] {
      assert Unbroken(history, chain[0], now);
      assert Counts(history, n - 1, now);
      var t := history[n - 1].sampledAt;
      if SaturatingSub(confirmed, t) >= gap {
        var rest := chain[1..];
        ChainTail(history, chain, gap, now);
        forall k | 0 <= k < |rest| ensures rest[k] < n - 1 && history[rest[k]].sampledAt + gap <= t {
          ChainFalls(history, chain, gap, now, k + 1);
          assert history[chain[0]].sampledAt <= t;
        }
        PicksAreLongest(history, n - 1, t, gap, now, rest);
      } else {
        forall k | 0 <= k < |chain| ensures chain[k] < n - 1 {
          if k > 0 { ChainFalls(history, chain, gap, now, k); }
        }
        PicksAreLongest(history, n - 1, confirmed, gap, now, chain);
      }
    }
  }

  /** The greedy count is the size of the longest chain. */
  lemma GreedyIsOptimal(q: Query, history: seq<Sample>)
    requires Ordered(history) && history != [] && StatusOf(Latest(history), q.now) == Exhausted
    ensures LongestChain(q, history, 1 + |Picks(history, |history| - 1, Latest(history).sampledAt, q.Gap(), q.now)|)
  {
    hide StatusOf;
    var n, gap := |history| - 1, q.Gap();
    var t := Latest(history).sampledAt;
    var picks := Picks(history, n, t, gap, q.now);
    assert Counts(history, n, q.now);
    assert Unbroken(history, n, q.now);
    PicksAreAChain(history, n, t, gap, q.now);
    ChainExtended(history, n, picks, gap, q.now);
    assert |[n] + picks| == 1 + |picks|;
    forall chain | Chain(history, chain, gap, q.now) ensures |chain| <= 1 + |picks| {
      if chain != [] {
        var rest := chain[1..];
        ChainTail(history, chain, gap, q.now);
        assert Unbroken(history, chain[0], q.now);
        forall k | 0 <= k < |rest| ensures rest[k] < n && history[rest[k]].sampledAt + gap <= t {
          ChainFalls(history, chain, gap, q.now, k + 1);
          assert Unbroken(history, chain[k + 1], q.now);
        }
        PicksAreLongest(history, n, t, gap, q.now, rest);
      }
    }
  }

  /** So the scan's test is the declarative condition. */
  lemma ScanDecides(q: Query, history: seq<Sample>)
    requires Ordered(history) && history != [] && StatusOf(Latest(history), q.now) == Exhausted
    ensures Confirmed(q, history) <==>
      || Latest(history).explicitlyExhausted
      || 1 + |Picks(history, |history| - 1, Latest(history).sampledAt, q.Gap(), q.now)| >= q.Needed()
  {
    GreedyIsOptimal(q, history);
  }

  // The decision over all trigger windows.

  datatype Evidence = Evidence(
    status: Status,
    window: Option<Window>,
    epoch: Option<nat>,
    count: nat,
    lastAt: nat)

  ghost predicate Triggers(q: Query, w: Window, samples: seq<Sample>) {
    Confirmed(q, Relevant(q, w, samples))
  }

  /** The latest fresh sample of the window is available. */
  predicate LooksAvailable(q: Query, w: Window, samples: seq<Sample>) {
    var history := Relevant(q, w, samples);
    history != [] && StatusOf(Latest(history), q.now) == Available
  }

  /** windows[k] is the first confirmed window. */
  ghost predicate FirstTrigger(q: Query, windows: seq<Window>, samples: seq<Sample>, k: nat) {
    && k < |windows| && Triggers(q, windows[k], samples)
    && forall j :: 0 <= j < k ==> !Triggers(q, windows[j], samples)
  }

  /** The newest time among the fresh samples of the windows, or 0. */
  ghost predicate NewestOf(q: Query, windows: seq<Window>, samples: seq<Sample>, t: nat) {
    && (forall w :: w in windows && Relevant(q, w, samples) != [] ==> Latest(Relevant(q, w, samples)).sampledAt <= t)
    && (|| t == 0
        || exists w :: (
             && w in windows && Relevant(q, w, samples) != []
             && Latest(Relevant(q, w, samples)).sampledAt == t))
  }

  /** The evidence is about the window's own latest sample. */
  ghost predicate Reports(q: Query, w: Window, samples: seq<Sample>, e: Evidence) {
    var history := Relevant(q, w, samples);
    && history != [] && e.window == Some(w)
    && e.epoch == Latest(history).resetAt && e.lastAt == Latest(history).sampledAt
    && LongestChain(q, history, e.count)
  }

  /** What a decision must be. */
  ghost predicate Decides(q: Query, windows: seq<Window>, samples: seq<Sample>, e: Evidence) {
    && (e.status == Exhausted <==> exists w :: w in windows && Triggers(q, w, samples))
    && (e.status == Available <==> windows != [] && forall w :: w in windows ==> LooksAvailable(q, w, samples))
    && (e.status == Exhausted ==>
          exists k: nat :: FirstTrigger(q, windows, samples, k) && Reports(q, windows[k], samples, e))
    && (e.status != Exhausted ==>
          && e.window == None && e.epoch == None && e.count == |samples|
          && NewestOf(q, windows, samples, e.lastAt))
  }

  lemma {:induction false} RelevantIsOrdered(q: Query, w: Window, samples: seq<Sample>)
    ensures Ordered(Relevant(q, w, samples))
  {
    hide StableSort, Filter;
    var kept, time := Filter(samples, Wanted(q, w)), Time();
    StableSortIs(kept, time);
    var history := Relevant(q, w, samples);
    assert history == StableSort(kept, time);
    forall i, j | 0 <= i < j < |history| ensures history[i].sampledAt <= history[j].sampledAt {
      assert time(history[i]) <= time(history[j]);
    }
  }

  /** A confirmed window's latest sample is exhausted, so it is not available. */
  lemma TriggersAreNotAvailable(q: Query, w: Window, samples: seq<Sample>)
    ensures Triggers(q, w, samples) ==> !LooksAvailable(q, w, samples)
  {}

  /** One turn of the scan, which breaks off or goes on. */
  lemma PicksStep(history: seq<Sample>, n: nat, confirmed: nat, gap: nat, now: nat)
    requires 0 < n <= |history|
    ensures
      var sample := history[n - 1];
      |Picks(history, n, confirmed, gap, now)| ==
        if sample.resetAt != Latest(history).resetAt || StatusOf(sample, now) != Exhausted then 0
        else if SaturatingSub(confirmed, sample.sampledAt) >= gap
        then 1 + |Picks(history, n - 1, sample.sampledAt, gap, now)|
        else |Picks(history, n - 1, confirmed, gap, now)|
  {
    hide StatusOf;
  }

  /** The scan over the older samples: the longest chain, found in one pass. */
  method CountBack(q: Query, history: seq<Sample>) returns (count: nat)
    requires Ordered(history) && history != [] && StatusOf(Latest(history), q.now) == Exhausted
    ensures LongestChain(q, history, count)
    ensures Latest(history).explicitlyExhausted || count >= q.Needed() <==> Confirmed(q, history)
  {
    hide *;
    GreedyIsOptimal(q, history);
    ScanDecides(q, history);
    ghost var total := 1 + |Picks(history, |history| - 1, Latest(history).sampledAt, q.Gap(), q.now)|;
    var latest := Latest(history);
    var confirmedAt := latest.sampledAt;
    count := 1;
    var i := |history| - 1;
    while i > 0
      invariant 0 <= i < |history|
      invariant total == count + |Picks(history, i, confirmedAt, q.Gap(), q.now)|
    {
      var sample := history[i - 1];
      PicksStep(history, i, confirmedAt, q.Gap(), q.now);
      if sample.resetAt != latest.resetAt || StatusOf(sample, q.now) != Exhausted {
        break;
      }
      if SaturatingSub(confirmedAt, sample.sampledAt) >= q.Gap() {
        count := count + 1;
        confirmedAt := sample.sampledAt;
      }
      i := i - 1;
    }
    if i == 0 { NothingLeft(history, confirmedAt, q.Gap(), q.now); }
  }

  lemma NothingLeft(history: seq<Sample>, confirmed: nat, gap: nat, now: nat)
    ensures Picks(history, 0, confirmed, gap, now) == []
  {}

  /** evaluate_exhaustion */
  method EvaluateExhaustion(q: Query, windows: seq<Window>, samples: seq<Sample>) returns (e: Evidence)
    ensures Decides(q, windows, samples, e)
  {
    hide StatusOf, Relevant, Confirmed, LongestChain, Ordered;
    var lastAt := 0;
    var allAvailable := windows != [];
    var k := 0;
    while k < |windows|
      invariant 0 <= k <= |windows|
      invariant forall j :: 0 <= j < k ==> !Triggers(q, windows[j], samples)
      invariant allAvailable <==> windows != [] && forall j :: 0 <= j < k ==> LooksAvailable(q, windows[j], samples)
      invariant NewestOf(q, windows[..k], samples, lastAt)
    {
      var w := windows[k];
      var history := Relevant(q, w, samples);
      RelevantIsOrdered(q, w, samples);
      NewestStep(q, windows, samples, k, lastAt);
      TriggersAreNotAvailable(q, w, samples);
      ConfirmedNeeds(q, history);
      if history == [] {
        allAvailable := false;
        k := k + 1;
        continue;
      }
      var latest := Latest(history);
      lastAt := Max(lastAt, latest.sampledAt);
      allAvailable := allAvailable && StatusOf(latest, q.now) == Available;
      if StatusOf(latest, q.now) == Exhausted {
        var count := CountBack(q, history);
        if latest.explicitlyExhausted || count >= q.Needed() {
          e := Evidence(Exhausted, Some(w), latest.resetAt, count, latest.sampledAt);
          assert FirstTrigger(q, windows, samples, k);
          return;
        }
      }
      k := k + 1;
    }
    assert windows[..|windows|] == windows;
    e := Evidence(if allAvailable then Available else Unknown, None, None, |samples|, lastAt);
  }

  lemma ConfirmedNeeds(q: Query, history: seq<Sample>)
    ensures Confirmed(q, history) ==> history != [] && StatusOf(Latest(history), q.now) == Exhausted
  {}

  lemma NewestStep(q: Query, windows: seq<Window>, samples: seq<Sample>, k: nat, t: nat)
    requires k < |windows| && NewestOf(q, windows[..k], samples, t)
    ensures
      var history := Relevant(q, windows[k], samples);
      NewestOf(q, windows[..k + 1], samples, if history == [] then t else Max(t, Latest(history).sampledAt))
  {
    hide Relevant;
    var history := Relevant(q, windows[k], samples);
    var before, after := windows[..k], windows[..k + 1];
    assert after == before + [windows[k]];
    assert windows[k] in after;
    if t != 0 {
      var w :| w in before && Relevant(q, w, samples) != [] && Latest(Relevant(q, w, samples)).sampledAt == t;
      assert w in after;
    }
  }

  // What the decision does not depend on.

  /** What the evaluation sees of a sample: its time, its status, and for an exhausted one the
      reset epoch and the explicit flag. */
  predicate Alike(a: Sample, b: Sample, now: nat) {
    && a.sampledAt == b.sampledAt && StatusOf(a, now) == StatusOf(b, now)
    && (StatusOf(a, now) == Exhausted ==> a.resetAt == b.resetAt && a.explicitlyExhausted == b.explicitlyExhausted)
  }

  ghost predicate AlikeHistories(s: seq<Sample>, t: seq<Sample>, now: nat) {
    |s| == |t| && forall i :: 0 <= i < |s| ==> Alike(s[i], t[i], now)
  }

  lemma AlikeIsSymmetric(s: seq<Sample>, t: seq<Sample>, now: nat)
    requires AlikeHistories(s, t, now)
    ensures AlikeHistories(t, s, now)
  {
    hide StatusOf;
  }

  lemma AlikeUnbroken(s: seq<Sample>, t: seq<Sample>, i: nat, now: nat)
    requires AlikeHistories(s, t, now) && Unbroken(s, i, now)
    ensures Unbroken(t, i, now)
  {
    hide StatusOf;
    assert Counts(s, |s| - 1, now);
    forall j | i <= j < |t| ensures Counts(t, j, now) {
      assert Counts(s, j, now) && Alike(s[j], t[j], now);
    }
  }

  lemma AlikeChain(s: seq<Sample>, t: seq<Sample>, chain: seq<nat>, gap: nat, now: nat)
    requires AlikeHistories(s, t, now) && Chain(s, chain, gap, now)
    ensures Chain(t, chain, gap, now)
  {
    hide StatusOf, Unbroken;
    forall k | 0 <= k < |chain| ensures Unbroken(t, chain[k], now) {
      AlikeUnbroken(s, t, chain[k], now);
    }
    forall k | 0 <= k < |chain| ensures chain[k] < |t| && s[chain[k]].sampledAt == t[chain[k]].sampledAt {
      UnbrokenIsInside(s, chain[k], now);
      assert Alike(s[chain[k]], t[chain[k]], now);
    }
  }

  lemma UnbrokenIsInside(history: seq<Sample>, i: nat, now: nat)
    requires Unbroken(history, i, now)
    ensures i < |history|
  {
    hide Counts;
  }

  lemma AlikeConfirmed(q: Query, s: seq<Sample>, t: seq<Sample>)
    requires AlikeHistories(s, t, q.now)
    ensures Confirmed(q, s) ==> Confirmed(q, t)
    ensures forall size :: LongestChain(q, s, size) ==> LongestChain(q, t, size)
  {
    hide StatusOf, Chain;
    AlikeIsSymmetric(s, t, q.now);
    forall chain | Chain(s, chain, q.Gap(), q.now) ensures Chain(t, chain, q.Gap(), q.now) {
      AlikeChain(s, t, chain, q.Gap(), q.now);
    }
    forall chain | Chain(t, chain, q.Gap(), q.now) ensures Chain(s, chain, q.Gap(), q.now) {
      AlikeChain(t, s, chain, q.Gap(), q.now);
    }
    if s != [] { assert Alike(Latest(s), Latest(t), q.now); }
  }

  /** One window of two alike histories. */
  lemma AlikeWindow(q: Query, w: Window, s: seq<Sample>, t: seq<Sample>)
    requires AlikeHistories(Relevant(q, w, s), Relevant(q, w, t), q.now)
    ensures Triggers(q, w, s) <==> Triggers(q, w, t)
    ensures LooksAvailable(q, w, s) <==> LooksAvailable(q, w, t)
    ensures Relevant(q, w, s) == [] <==> Relevant(q, w, t) == []
    ensures Relevant(q, w, s) != [] ==> Latest(Relevant(q, w, s)).sampledAt == Latest(Relevant(q, w, t)).sampledAt
  {
    var a, b := Relevant(q, w, s), Relevant(q, w, t);
    AlikeIsSymmetric(a, b, q.now);
    AlikeConfirmed(q, a, b);
    AlikeConfirmed(q, b, a);
    hide StatusOf, Confirmed, Relevant;
    if a != [] { assert Alike(Latest(a), Latest(b), q.now); }
  }

  lemma AlikeReports(q: Query, w: Window, s: seq<Sample>, t: seq<Sample>, e: Evidence)
    requires AlikeHistories(Relevant(q, w, s), Relevant(q, w, t), q.now)
    requires Triggers(q, w, s) && Reports(q, w, s, e)
    ensures Reports(q, w, t, e)
  {
    var a, b := Relevant(q, w, s), Relevant(q, w, t);
    AlikeConfirmed(q, a, b);
    ConfirmedNeeds(q, a);
    assert Alike(Latest(a), Latest(b), q.now);
    hide StatusOf, Confirmed, Relevant, LongestChain;
  }

  /** Two pieces of evidence about one window agree. */
  lemma ReportsAgree(q: Query, w: Window, samples: seq<Sample>, e: Evidence, f: Evidence)
    requires Reports(q, w, samples, e) && Reports(q, w, samples, f)
    ensures e.window == f.window && e.epoch == f.epoch && e.lastAt == f.lastAt && e.count == f.count
  {
    hide Relevant, Chain;
  }

  lemma NewestIsUnique(q: Query, windows: seq<Window>, s: seq<Sample>, t: seq<Sample>, x: nat, y: nat)
    requires forall w :: w in windows ==> AlikeHistories(Relevant(q, w, s), Relevant(q, w, t), q.now)
    requires NewestOf(q, windows, s, x) && NewestOf(q, windows, t, y)
    ensures x == y
  {
    forall w | w in windows
      ensures Relevant(q, w, s) == [] <==> Relevant(q, w, t) == []
      ensures Relevant(q, w, s) != [] ==> Latest(Relevant(q, w, s)).sampledAt == Latest(Relevant(q, w, t)).sampledAt
    {
      AlikeWindow(q, w, s, t);
    }
    hide Relevant, AlikeHistories;
  }

  /** Two decisions that see alike fresh samples in every window agree. */
  lemma AlikeSamplesSameDecision(
      q: Query, windows: seq<Window>, s: seq<Sample>, t: seq<Sample>, e: Evidence, f: Evidence)
    requires Decides(q, windows, s, e) && Decides(q, windows, t, f)
    requires forall w :: w in windows ==> AlikeHistories(Relevant(q, w, s), Relevant(q, w, t), q.now)
    ensures e.status == f.status && e.window == f.window && e.epoch == f.epoch && e.lastAt == f.lastAt
    ensures e.status == Exhausted || |s| == |t| ==> e.count == f.count
  {
    hide Relevant, AlikeHistories, Triggers, LooksAvailable, NewestOf, Reports;
    forall w | w in windows
      ensures Triggers(q, w, s) == Triggers(q, w, t) && LooksAvailable(q, w, s) == LooksAvailable(q, w, t)
    {
      AlikeWindow(q, w, s, t);
    }
    assert e.status == f.status;
    if e.status == Exhausted {
      var i: nat :| FirstTrigger(q, windows, s, i) && Reports(q, windows[i], s, e);
      var j: nat :| FirstTrigger(q, windows, t, j) && Reports(q, windows[j], t, f);
      assert i == j;
      AlikeReports(q, windows[i], s, t, e);
      ReportsAgree(q, windows[i], t, e, f);
    } else {
      NewestIsUnique(q, windows, s, t, e.lastAt, f.lastAt);
    }
  }

  /** Two decisions with the same fresh samples in every window agree. */
  lemma SameRelevantSameDecision(
      q: Query, windows: seq<Window>, s: seq<Sample>, t: seq<Sample>, e: Evidence, f: Evidence)
    requires Decides(q, windows, s, e) && Decides(q, windows, t, f)
    requires forall w :: w in windows ==> Relevant(q, w, s) == Relevant(q, w, t)
    ensures e.status == f.status && e.window == f.window && e.epoch == f.epoch && e.lastAt == f.lastAt
    ensures e.status == Exhausted ==> e.count == f.count
  {
    hide Relevant, Decides, StatusOf;
    AlikeSamplesSameDecision(q, windows, s, t, e, f);
  }

  /** Stale, future and foreign samples, and samples of unmonitored windows, change nothing. */
  lemma IrrelevantSamplesChangeNothing(
      q: Query, windows: seq<Window>, a: seq<Sample>, x: Sample, b: seq<Sample>, e: Evidence, f: Evidence)
    requires forall w :: w in windows ==> !Wanted(q, w)(x)
    requires Decides(q, windows, a + b, e) && Decides(q, windows, a + [x] + b, f)
    ensures e.status == f.status && e.window == f.window && e.epoch == f.epoch && e.lastAt == f.lastAt
    ensures e.status == Exhausted ==> e.count == f.count
  {
    forall w | w in windows ensures Relevant(q, w, a + b) == Relevant(q, w, a + [x] + b) {
      var keep := Wanted(q, w);
      assert Filter([x], keep) == [];
      FilterConcat(a, b, keep);
      FilterConcat(a + [x], b, keep);
      FilterConcat(a, [x], keep);
      hide StableSort, Filter;
      assert Filter(a, keep) + [] == Filter(a, keep);
    }
    hide *;
    SameRelevantSameDecision(q, windows, a + b, a + [x] + b, e, f);
  }

  /** A sample from the future, one older than the time to live, one of another account or of a
      window that is not monitored changes nothing, wherever it stands. */
  lemma ExpiredSamplesChangeNothing(
      q: Query, windows: seq<Window>, a: seq<Sample>, x: Sample, b: seq<Sample>, e: Evidence, f: Evidence)
    requires
      x.sampledAt > q.now || x.sampledAt + q.ttl < q.now || x.account != q.account || x.window !in windows
    requires Decides(q, windows, a + b, e) && Decides(q, windows, a + [x] + b, f)
    ensures e.status == f.status && e.window == f.window && e.epoch == f.epoch && e.lastAt == f.lastAt
    ensures e.status == Exhausted ==> e.count == f.count
  {
    assert forall w :: w in windows ==> !Wanted(q, w)(x);
    hide *;
    IrrelevantSamplesChangeNothing(q, windows, a, x, b, e, f);
  }

  /** Fresh samples of the window with equal times look alike; copies of one sample do. */
  ghost predicate TiesAgree(q: Query, w: Window, samples: seq<Sample>) {
    forall a, b :: a in samples && b in samples && Wanted(q, w)(a) && Wanted(q, w)(b) && a.sampledAt == b.sampledAt ==>
      Alike(a, b, q.now)
  }

  lemma RelevantAreWanted(q: Query, w: Window, samples: seq<Sample>, x: Sample)
    ensures x in Relevant(q, w, samples) <==> x in samples && Wanted(q, w)(x)
  {
    var kept := Filter(samples, Wanted(q, w));
    StableSortIs(kept, Time());
    FilterCounts(samples, Wanted(q, w), x);
    hide Filter, StableSort;
    assert x in Relevant(q, w, samples) <==> x in multiset(Relevant(q, w, samples));
    assert x in samples <==> x in multiset(samples);
  }

  /** What is weighed for a window: the samples of the account and the window that are neither
      from the future nor older than the time to live. */
  lemma RelevantIff(q: Query, w: Window, samples: seq<Sample>, x: Sample)
    ensures x in Relevant(q, w, samples) <==>
      && x in samples && x.account == q.account && x.window == w
      && x.sampledAt <= q.now <= x.sampledAt + q.ttl
  {
    RelevantAreWanted(q, w, samples, x);
    hide Relevant;
  }

  lemma PermutedHistoriesAreAlike(q: Query, w: Window, s: seq<Sample>, t: seq<Sample>)
    requires multiset(s) == multiset(t) && TiesAgree(q, w, s)
    ensures AlikeHistories(Relevant(q, w, s), Relevant(q, w, t), q.now)
  {
    var a, b := Relevant(q, w, s), Relevant(q, w, t);
    FilterOfPermutation(s, t, Wanted(q, w));
    StableSortIs(Filter(s, Wanted(q, w)), Time());
    StableSortIs(Filter(t, Wanted(q, w)), Time());
    hide Filter, StableSort;
    SortedKeysAgree(a, b, Time());
    hide Sorted;
    forall i | 0 <= i < |a| ensures Alike(a[i], b[i], q.now) {
      assert Time()(a[i]) == Time()(b[i]);
      assert a[i] in a && b[i] in multiset(a) && b[i] in a;
      RelevantAreWanted(q, w, s, a[i]);
      RelevantAreWanted(q, w, s, b[i]);
      hide Alike, Wanted;
    }
  }

  /** When fresh samples of a window with equal times look alike, the order of the samples does
      not matter. */
  lemma OrderDoesNotMatter(q: Query, windows: seq<Window>, s: seq<Sample>, t: seq<Sample>, e: Evidence, f: Evidence)
    requires multiset(s) == multiset(t)
    requires forall w :: w in windows ==> TiesAgree(q, w, s)
    requires Decides(q, windows, s, e) && Decides(q, windows, t, f)
    ensures e == f
  {
    hide *;
    forall w | w in windows ensures AlikeHistories(Relevant(q, w, s), Relevant(q, w, t), q.now) {
      PermutedHistoriesAreAlike(q, w, s, t);
    }
    assert |multiset(s)| == |s| && |multiset(t)| == |t|;
    AlikeSamplesSameDecision(q, windows, s, t, e, f);
  }

  /** A fresh sample of the window that none is newer than. */
  ghost predicate Newest(q: Query, w: Window, samples: seq<Sample>, x: Sample) {
    && x in samples && Wanted(q, w)(x)
    && forall y :: y in samples && Wanted(q, w)(y) ==> y.sampledAt <= x.sampledAt
  }

  /** There are fresh samples of the window, and every newest one is available. */
  ghost predicate AllNewestAvailable(q: Query, w: Window, samples: seq<Sample>) {
    && (exists x :: x in samples && Wanted(q, w)(x))
    && forall x :: Newest(q, w, samples, x) ==> StatusOf(x, q.now) == Available
  }

  lemma LatestIsNewest(q: Query, w: Window, samples: seq<Sample>)
    requires Relevant(q, w, samples) != []
    ensures Newest(q, w, samples, Latest(Relevant(q, w, samples)))
  {
    hide Relevant, Wanted;
    var history := Relevant(q, w, samples);
    RelevantIsOrdered(q, w, samples);
    RelevantAreWanted(q, w, samples, Latest(history));
    forall y | y in samples && Wanted(q, w)(y) ensures y.sampledAt <= Latest(history).sampledAt {
      RelevantAreWanted(q, w, samples, y);
      var i :| 0 <= i < |history| && history[i] == y;
    }
  }

  /** A newest sample listed last becomes the latest. */
  lemma NewestLast(q: Query, w: Window, front: seq<Sample>, x: Sample)
    requires Newest(q, w, front + [x], x)
    ensures Relevant(q, w, front + [x]) != [] && Latest(Relevant(q, w, front + [x])) == x
  {
    var keep := Wanted(q, w);
    FilterConcat(front, [x], keep);
    assert Filter([x], keep) == [x];
    hide Filter, StableSort;
    forall y | y in Filter(front, keep) ensures Time()(y) <= Time()(x) {
      FilterCounts(front, keep, y);
      assert y in multiset(front);
      assert y in front + [x];
    }
    GreatestStaysLast(Filter(front, keep), x, Time());
  }

  lemma MovedLast(samples: seq<Sample>, x: Sample) returns (front: seq<Sample>)
    requires x in samples
    ensures multiset(front + [x]) == multiset(samples)
    ensures forall y :: y in front + [x] <==> y in samples
  {
    var i :| 0 <= i < |samples| && samples[i] == x;
    front := samples[..i] + samples[i + 1..];
    assert samples == samples[..i] + [x] + samples[i + 1..];
  }

  lemma SameElements(s: seq<Sample>, t: seq<Sample>)
    requires multiset(s) == multiset(t)
    ensures forall x :: x in s <==> x in t
  {
    forall x ensures x in s <==> x in t { assert x in multiset(s) <==> x in multiset(t); }
  }

  lemma AllNewestOfPermutation(q: Query, w: Window, s: seq<Sample>, t: seq<Sample>)
    requires forall x :: x in s <==> x in t
    ensures AllNewestAvailable(q, w, s) ==> AllNewestAvailable(q, w, t)
  {
    hide Wanted, StatusOf;
    if AllNewestAvailable(q, w, s) {
      var x :| x in s && Wanted(q, w)(x);
      assert x in t;
      forall y | Newest(q, w, t, y) ensures Newest(q, w, s, y) {}
    }
  }

  /** A window looks available in every order of the samples exactly when every newest fresh
      sample of it is available. */
  lemma AvailableInEveryOrderIff(q: Query, w: Window, samples: seq<Sample>)
    ensures (forall t :: multiset(t) == multiset(samples) ==> LooksAvailable(q, w, t)) <==>
        AllNewestAvailable(q, w, samples)
  {
    hide Relevant, Wanted, StatusOf, Newest;
    if AllNewestAvailable(q, w, samples) {
      forall t | multiset(t) == multiset(samples) ensures LooksAvailable(q, w, t) {
        SameElements(t, samples);
        AllNewestOfPermutation(q, w, samples, t);
        var x :| x in t && Wanted(q, w)(x);
        RelevantAreWanted(q, w, t, x);
        LatestIsNewest(q, w, t);
      }
    } else if forall t :: multiset(t) == multiset(samples) ==> LooksAvailable(q, w, t) {
      assert LooksAvailable(q, w, samples);
      LatestIsNewest(q, w, samples);
      NewestIsWanted(q, w, samples, Latest(Relevant(q, w, samples)));
      var x :| Newest(q, w, samples, x) && StatusOf(x, q.now) != Available;
      NewestIsWanted(q, w, samples, x);
      var front := MovedLast(samples, x);
      NewestOfSame(q, w, samples, front + [x], x);
      NewestLast(q, w, front, x);
      assert !LooksAvailable(q, w, front + [x]);
    }
  }

  lemma NewestIsWanted(q: Query, w: Window, samples: seq<Sample>, x: Sample)
    requires Newest(q, w, samples, x)
    ensures x in samples && Wanted(q, w)(x)
  {}

  lemma NewestOfSame(q: Query, w: Window, s: seq<Sample>, t: seq<Sample>, x: Sample)
    requires Newest(q, w, s, x) && forall y :: y in t <==> y in s
    ensures Newest(q, w, t, x)
  {
    hide Wanted;
  }

  function Reported(exhausted: bool): Sample {
    Sample("a", Weekly, Some(Finite(50.0)), None, None, 100, exhausted, false)
  }

  lemma TiedHistory(q: Query, x: Sample, y: Sample)
    requires q == Query("a", 100, 60, 5, 2) && x in [Reported(true), Reported(false)]
        && y in [Reported(true), Reported(false)]
    ensures Relevant(q, Weekly, [x, y]) == [x, y]
  {
    FilterKeepsAll([x, y], Wanted(q, Weekly));
    SortOfSorted([x, y], Time());
    hide Filter, StableSort;
  }

  lemma SingleWindow(q: Query, w: Window, samples: seq<Sample>, e: Evidence)
    requires Decides(q, [w], samples, e)
    ensures Triggers(q, w, samples) ==> e.status == Exhausted
    ensures LooksAvailable(q, w, samples) ==> e.status == Available
  {
    hide LooksAvailable, Triggers, FirstTrigger, NewestOf;
    assert w in [w];
  }

  lemma TiedDecisions(q: Query)
    requires q == Query("a", 100, 60, 5, 2)
    ensures LooksAvailable(q, Weekly, [Reported(true), Reported(false)])
    ensures Triggers(q, Weekly, [Reported(false), Reported(true)])
  {
    TiedHistory(q, Reported(true), Reported(false));
    TiedHistory(q, Reported(false), Reported(true));
    hide Relevant, Filter, StableSort, Chain;
  }

  /** With equal times it does: the sample listed last counts as the latest. */
  lemma TiedTimesDependOnOrder(e: Evidence, f: Evidence)
    requires
      var q := Query("a", 100, 60, 5, 2);
      && Decides(q, [Weekly], [Reported(true), Reported(false)], e)
      && Decides(q, [Weekly], [Reported(false), Reported(true)], f)
    ensures e.status == Available && f.status == Exhausted
  {
    hide *;
    var q := Query("a", 100, 60, 5, 2);
    TiedDecisions(q);
    SingleWindow(q, Weekly, [Reported(true), Reported(false)], e);
    SingleWindow(q, Weekly, [Reported(false), Reported(true)], f);
  }
}
