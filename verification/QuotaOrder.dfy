/** When the order in which samples arrive can change the quota decision
    (src-tauri/src/cli_pools/quota.rs): the samples are sorted by time, so only the order of samples
    with equal times is open. */
module QuotaOrder {
  import opened Prelude
  import opened Sorting
  import opened QuotaEvidence

  /** Exhausted, and from the reset epoch of x. */
  predicate Good(s: Sample, x: Sample, now: nat) {
    s.resetAt == x.resetAt && StatusOf(s, now) == Exhausted
  }

  ghost predicate FreshIn(q: Query, w: Window, samples: seq<Sample>, y: Sample) {
    y in samples && Wanted(q, w)(y)
  }

  /** Enough fresh samples, newest first, with the required gaps. */
  ghost predicate Spaced(q: Query, w: Window, samples: seq<Sample>, c: seq<Sample>) {
    && |c| >= q.Needed()
    && (forall k :: 0 <= k < |c| ==> FreshIn(q, w, samples, c[k]))
    && (forall k :: 0 < k < |c| ==> c[k].sampledAt + q.Gap() <= c[k - 1].sampledAt)
  }

  function Oldest(c: seq<Sample>): nat {
    if c == [] then 0 else c[|c| - 1].sampledAt
  }

  /** Nothing from the oldest of them on speaks against x. */
  ghost predicate Solid(q: Query, w: Window, samples: seq<Sample>, x: Sample, c: seq<Sample>) {
    && Spaced(q, w, samples, c)
    && forall y :: FreshIn(q, w, samples, y) && y.sampledAt >= Oldest(c) ==> Good(y, x, q.now)
  }

  /** They speak for x, and nothing newer than the oldest of them speaks against it. */
  ghost predicate Possible(q: Query, w: Window, samples: seq<Sample>, x: Sample, c: seq<Sample>) {
    && Spaced(q, w, samples, c)
    && (forall k :: 0 <= k < |c| ==> Good(c[k], x, q.now))
    && forall y :: FreshIn(q, w, samples, y) && y.sampledAt > Oldest(c) ==> Good(y, x, q.now)
  }

  /** The newest sample confirms the window, whichever of several it is. */
  ghost predicate AlwaysTriggers(q: Query, w: Window, samples: seq<Sample>) {
    && (exists x :: FreshIn(q, w, samples, x))
    && forall x :: Newest(q, w, samples, x) ==>
         && StatusOf(x, q.now) == Exhausted
         && (x.explicitlyExhausted || exists c :: Solid(q, w, samples, x, c))
  }

  /** Some newest sample can confirm it. */
  ghost predicate CanTrigger(q: Query, w: Window, samples: seq<Sample>) {
    exists x :: (
      && Newest(q, w, samples, x) && StatusOf(x, q.now) == Exhausted
      && (x.explicitlyExhausted || exists c :: Possible(q, w, samples, x, c)))
  }

  /** In terms of the arguments: at least two samples and as many as are required, of the account
      and the window, within the time to live, and each at least five seconds and the required
      separation older than the one before. */
  lemma SpacedIff(q: Query, w: Window, samples: seq<Sample>, c: seq<Sample>)
    ensures Spaced(q, w, samples, c) <==>
      && |c| >= 2 && |c| >= q.required
      && (forall k :: 0 <= k < |c| ==>
            && c[k] in samples && c[k].account == q.account && c[k].window == w
            && c[k].sampledAt <= q.now <= c[k].sampledAt + q.ttl)
      && (forall k :: 0 < k < |c| ==>
            c[k].sampledAt + 5 <= c[k - 1].sampledAt && c[k].sampledAt + q.separation <= c[k - 1].sampledAt)
  {
    forall k | 0 <= k < |c|
      ensures FreshIn(q, w, samples, c[k]) <==>
        && c[k] in samples && c[k].account == q.account && c[k].window == w
        && c[k].sampledAt <= q.now <= c[k].sampledAt + q.ttl
    {}
  }

  // Samples and positions.

  lemma FreshIsRelevant(q: Query, w: Window, samples: seq<Sample>, y: Sample)
    ensures FreshIn(q, w, samples, y) <==> y in Relevant(q, w, samples)
  {
    RelevantAreWanted(q, w, samples, y);
    hide Relevant, Wanted;
  }

  lemma {:induction false} PositionsOf(history: seq<Sample>, c: seq<Sample>) returns (chain: seq<nat>)
    requires forall k :: 0 <= k < |c| ==> c[k] in history
    ensures |chain| == |c| && forall k :: 0 <= k < |c| ==> chain[k] < |history| && history[chain[k]] == c[k]
  {
    if c == [] {
      chain := [];
    } else {
      var front := PositionsOf(history, c[..|c| - 1]);
      assert c[|c| - 1] in history;
      var i: nat :| i < |history| && history[i] == c[|c| - 1];
      chain := front + [i];
    }
  }

  lemma {:induction false} TimesFall(c: seq<Sample>, gap: nat, k: nat)
    requires k < |c| && forall i :: 0 < i < |c| ==> c[i].sampledAt + gap <= c[i - 1].sampledAt
    ensures c[k].sampledAt >= Oldest(c)
    decreases |c| - k
  {
    if k < |c| - 1 {
      TimesFall(c, gap, k + 1);
      assert c[k + 1].sampledAt + gap <= c[k].sampledAt;
    }
  }

  /** Spaced samples of an unbroken end of the history are a chain. */
  lemma SpacedIsChain(q: Query, w: Window, samples: seq<Sample>, c: seq<Sample>, chain: seq<nat>)
    requires Spaced(q, w, samples, c) && |chain| == |c|
    requires
      var history := Relevant(q, w, samples);
      && (forall k :: 0 <= k < |c| ==> chain[k] < |history| && history[chain[k]] == c[k])
      && (forall k :: 0 <= k < |c| ==> Unbroken(history, chain[k], q.now))
    ensures Chain(Relevant(q, w, samples), chain, q.Gap(), q.now)
  {
    hide Relevant, Unbroken, FreshIn;
    var history := Relevant(q, w, samples);
    forall k | 0 < k < |chain|
      ensures history[chain[k]].sampledAt + q.Gap() <= history[chain[k - 1]].sampledAt
    {
      assert history[chain[k]] == c[k] && history[chain[k - 1]] == c[k - 1];
    }
  }

  // Confirmed in every order.

  lemma SolidIsUnbroken(q: Query, w: Window, samples: seq<Sample>, x: Sample, c: seq<Sample>, i: nat)
    requires Solid(q, w, samples, x, c) && i < |Relevant(q, w, samples)| && Latest(Relevant(q, w, samples)) == x
    requires Relevant(q, w, samples)[i].sampledAt >= Oldest(c)
    ensures Unbroken(Relevant(q, w, samples), i, q.now)
  {
    hide Relevant, FreshIn, Spaced, StatusOf;
    var history := Relevant(q, w, samples);
    RelevantIsOrdered(q, w, samples);
    forall j | i <= j < |history| ensures Counts(history, j, q.now) {
      assert history[j] in history;
      FreshIsRelevant(q, w, samples, history[j]);
      assert history[i].sampledAt <= history[j].sampledAt;
    }
  }

  lemma SolidConfirms(q: Query, w: Window, samples: seq<Sample>, x: Sample, c: seq<Sample>)
    requires Relevant(q, w, samples) != [] && Latest(Relevant(q, w, samples)) == x
    requires StatusOf(x, q.now) == Exhausted && Solid(q, w, samples, x, c)
    ensures Triggers(q, w, samples)
  {
    var history := Relevant(q, w, samples);
    hide Relevant, StatusOf, FreshIn, Unbroken, Chain, Oldest, Good;
    forall k | 0 <= k < |c| ensures c[k] in history { FreshIsRelevant(q, w, samples, c[k]); }
    var chain := PositionsOf(history, c);
    forall k | 0 <= k < |c| ensures Unbroken(history, chain[k], q.now) {
      TimesFall(c, q.Gap(), k);
      SolidIsUnbroken(q, w, samples, x, c, chain[k]);
    }
    SpacedIsChain(q, w, samples, c, chain);
  }

  lemma AlwaysTriggersDoes(q: Query, w: Window, samples: seq<Sample>)
    requires AlwaysTriggers(q, w, samples)
    ensures Triggers(q, w, samples)
  {
    hide Relevant, StatusOf, FreshIn, Newest, Chain, Solid;
    var y :| FreshIn(q, w, samples, y);
    FreshIsRelevant(q, w, samples, y);
    LatestIsNewest(q, w, samples);
    var x := Latest(Relevant(q, w, samples));
    if !x.explicitlyExhausted {
      var c :| Solid(q, w, samples, x, c);
      SolidConfirms(q, w, samples, x, c);
    }
  }

  /** Orders samples by time, and samples of one time by whether they speak for x. */
  function Rank(x: Sample, now: nat, goodFirst: bool): Sample -> real {
    (s: Sample) => (2 * s.sampledAt + if Good(s, x, now) == goodFirst then 0 else 1) as real
  }

  /** An order in which x comes last and, among older samples of one time, those that speak for x
      come all first or all last. */
  ghost predicate Arranged(q: Query, w: Window, t: seq<Sample>, x: Sample, goodFirst: bool) {
    var history := Relevant(q, w, t);
    && history != [] && Latest(history) == x
    && forall j, p ::
         0 <= j < p < |history| - 1 && history[j].sampledAt == history[p].sampledAt ==>
           Good(history[if goodFirst then p else j], x, q.now) ==> Good(history[if goodFirst then j else p], x, q.now)
  }

  lemma RankMeans(x: Sample, now: nat, goodFirst: bool, a: Sample, b: Sample)
    requires Rank(x, now, goodFirst)(a) <= Rank(x, now, goodFirst)(b)
    ensures a.sampledAt <= b.sampledAt
    ensures a.sampledAt == b.sampledAt && Good(if goodFirst then b else a, x, now) ==>
      Good(if goodFirst then a else b, x, now)
  {
    hide Good;
  }

  lemma RankedIsTimed(s: seq<Sample>, x: Sample, now: nat, goodFirst: bool)
    requires Sorted(s, Rank(x, now, goodFirst))
    ensures Sorted(s, Time())
  {
    hide Good, Rank;
    forall i, j | 0 <= i < j < |s| ensures Time()(s[i]) <= Time()(s[j]) {
      assert Rank(x, now, goodFirst)(s[i]) <= Rank(x, now, goodFirst)(s[j]);
      RankMeans(x, now, goodFirst, s[i], s[j]);
    }
  }

  lemma RankedIsArranged(q: Query, w: Window, t: seq<Sample>, x: Sample, goodFirst: bool, front: seq<Sample>)
    requires Relevant(q, w, t) == front + [x] && Sorted(front, Rank(x, q.now, goodFirst))
    ensures Arranged(q, w, t, x, goodFirst)
  {
    hide Relevant, Good, Rank;
    var history := Relevant(q, w, t);
    var rank := Rank(x, q.now, goodFirst);
    forall j, p | 0 <= j < p < |history| - 1 && history[j].sampledAt == history[p].sampledAt
      ensures Good(history[if goodFirst then p else j], x, q.now) ==>
        Good(history[if goodFirst then j else p], x, q.now)
    {
      assert history[j] == front[j] && history[p] == front[p];
      assert rank(front[j]) <= rank(front[p]);
      RankMeans(x, q.now, goodFirst, front[j], front[p]);
    }
  }

  lemma TimedAndNewest(q: Query, w: Window, sorted: seq<Sample>, x: Sample)
    requires Sorted(Filter(sorted, Wanted(q, w)), Time()) && Newest(q, w, sorted + [x], x)
    ensures Sorted(Filter(sorted, Wanted(q, w)) + [x], Time())
  {
    var kept := Filter(sorted, Wanted(q, w));
    forall y | y in multiset(kept) ensures Time()(y) <= Time()(x) {
      assert y in kept;
      FilterIsWithin(sorted, Wanted(q, w), y);
      hide Filter, Wanted, Sorted;
      assert y in sorted + [x];
    }
    hide Filter, Wanted, Sorted, Newest;
    SortedThenGreatest(kept, x, Time());
  }

  lemma KeepsTheLast(q: Query, w: Window, sorted: seq<Sample>, x: Sample)
    requires Newest(q, w, sorted + [x], x)
    ensures Filter(sorted + [x], Wanted(q, w)) == Filter(sorted, Wanted(q, w)) + [x]
  {
    FilterConcat(sorted, [x], Wanted(q, w));
    assert Filter([x], Wanted(q, w)) == [x];
  }

  lemma KeptAreSorted(q: Query, w: Window, sorted: seq<Sample>, x: Sample, goodFirst: bool)
    requires Sorted(sorted, Rank(x, q.now, goodFirst)) && Newest(q, w, sorted + [x], x)
    ensures
      var kept := Filter(sorted, Wanted(q, w));
      Relevant(q, w, sorted + [x]) == kept + [x] && Sorted(kept, Rank(x, q.now, goodFirst))
  {
    hide Filter, StableSort, Rank, Sorted, Newest, Wanted;
    var kept := Filter(sorted, Wanted(q, w));
    FilterOfSorted(sorted, Wanted(q, w), Rank(x, q.now, goodFirst));
    RankedIsTimed(kept, x, q.now, goodFirst);
    KeepsTheLast(q, w, sorted, x);
    TimedAndNewest(q, w, sorted, x);
    SortOfSorted(kept + [x], Time());
  }

  lemma ArrangedOrder(q: Query, w: Window, samples: seq<Sample>, x: Sample, goodFirst: bool) returns (t: seq<Sample>)
    requires Newest(q, w, samples, x)
    ensures multiset(t) == multiset(samples) && (forall y :: y in t <==> y in samples)
    ensures Arranged(q, w, t, x, goodFirst)
  {
    NewestIsWanted(q, w, samples, x);
    hide *;
    var front := MovedLast(samples, x);
    var sorted := StableSort(front, Rank(x, q.now, goodFirst));
    StableSortIs(front, Rank(x, q.now, goodFirst));
    t := sorted + [x];
    assert multiset(t) == multiset(front + [x]);
    SameElements(t, samples);
    NewestOfSame(q, w, samples, t, x);
    KeptAreSorted(q, w, sorted, x, goodFirst);
    RankedIsArranged(q, w, t, x, goodFirst, Filter(sorted, Wanted(q, w)));
  }

  lemma ChainSamples(q: Query, w: Window, samples: seq<Sample>, chain: seq<nat>) returns (c: seq<Sample>)
    requires Chain(Relevant(q, w, samples), chain, q.Gap(), q.now) && |chain| >= q.Needed()
    ensures |c| == |chain| && Spaced(q, w, samples, c)
    ensures forall k :: 0 <= k < |c| ==>
      chain[k] < |Relevant(q, w, samples)| && c[k] == Relevant(q, w, samples)[chain[k]]
  {
    hide Relevant, Counts, FreshIn;
    var history := Relevant(q, w, samples);
    forall k | 0 <= k < |chain| ensures chain[k] < |history| { assert Unbroken(history, chain[k], q.now); }
    c := seq(|chain|, k requires 0 <= k < |chain| => history[chain[k]]);
    forall k | 0 <= k < |c| ensures FreshIn(q, w, samples, c[k]) {
      assert c[k] in history;
      FreshIsRelevant(q, w, samples, c[k]);
    }
  }

  /** The oldest link of a chain of two or more is older than the latest sample. */
  lemma OldestLinkIsOlder(history: seq<Sample>, chain: seq<nat>, gap: nat, now: nat)
    requires Ordered(history) && Chain(history, chain, gap, now) && |chain| >= 2 && gap > 0
    ensures chain[|chain| - 1] < |history| - 1
    ensures history[chain[|chain| - 1]].sampledAt < Latest(history).sampledAt
  {
    hide Counts;
    var p := chain[|chain| - 1];
    assert Unbroken(history, p, now) && Unbroken(history, chain[0], now);
    ChainFalls(history, chain, gap, now, |chain| - 1);
    assert history[chain[0]].sampledAt <= Latest(history).sampledAt;
  }

  lemma ConfirmedHasChain(q: Query, history: seq<Sample>) returns (chain: seq<nat>)
    requires Confirmed(q, history) && !Latest(history).explicitlyExhausted
    ensures Chain(history, chain, q.Gap(), q.now) && |chain| >= q.Needed() >= 2 && q.Gap() > 0
  {
    hide StatusOf, Chain;
    chain :| Chain(history, chain, q.Gap(), q.now) && |chain| >= q.Needed();
  }

  lemma NothingSpeaksAgainst(q: Query, w: Window, t: seq<Sample>, x: Sample, p: nat, y: Sample)
    requires Arranged(q, w, t, x, true) && p < |Relevant(q, w, t)| - 1 && Unbroken(Relevant(q, w, t), p, q.now)
    requires FreshIn(q, w, t, y) && y.sampledAt >= Relevant(q, w, t)[p].sampledAt
    ensures Good(y, x, q.now)
  {
    hide Relevant, FreshIn, Unbroken, Good;
    var history := Relevant(q, w, t);
    RelevantIsOrdered(q, w, t);
    FreshIsRelevant(q, w, t, y);
    var j: nat :| j < |history| && history[j] == y;
    NotBefore(q, history, x, p, j);
  }

  /** Confirmed in the order that is worst for x means solid. */
  lemma WorstIsSolid(q: Query, w: Window, t: seq<Sample>, x: Sample)
    requires Arranged(q, w, t, x, true) && Triggers(q, w, t) && !x.explicitlyExhausted
    ensures exists c :: Solid(q, w, t, x, c)
  {
    var history := Relevant(q, w, t);
    var chain := ConfirmedHasChain(q, history);
    RelevantIsOrdered(q, w, t);
    OldestLinkIsOlder(history, chain, q.Gap(), q.now);
    var p := chain[|chain| - 1];
    assert Unbroken(history, p, q.now);
    var c := ChainSamples(q, w, t, chain);
    hide Relevant, Confirmed, Triggers, Chain, Spaced, Unbroken, Arranged, FreshIn, Good, Ordered;
    assert Oldest(c) == history[p].sampledAt;
    forall y | FreshIn(q, w, t, y) && y.sampledAt >= Oldest(c) ensures Good(y, x, q.now) {
      NothingSpeaksAgainst(q, w, t, x, p, y);
    }
    assert Solid(q, w, t, x, c);
  }

  lemma NotBefore(q: Query, history: seq<Sample>, x: Sample, p: nat, j: nat)
    requires Ordered(history) && p < |history| - 1 && j < |history| && Latest(history) == x
    requires Unbroken(history, p, q.now) && history[j].sampledAt >= history[p].sampledAt
    requires j < p && history[j].sampledAt == history[p].sampledAt && Good(history[p], x, q.now) ==>
      Good(history[j], x, q.now)
    ensures Good(history[j], x, q.now)
  {
    hide StatusOf;
    assert Counts(history, p, q.now);
    if j >= p { assert Counts(history, j, q.now); }
  }

  lemma SolidOfSame(q: Query, w: Window, s: seq<Sample>, t: seq<Sample>, x: Sample, c: seq<Sample>)
    requires forall y :: y in s <==> y in t
    ensures Solid(q, w, s, x, c) ==> Solid(q, w, t, x, c)
    ensures Possible(q, w, s, x, c) ==> Possible(q, w, t, x, c)
  {
    assert forall y :: FreshIn(q, w, s, y) <==> FreshIn(q, w, t, y);
    hide FreshIn, Good, Oldest;
  }

  lemma AlwaysTriggersOfSame(q: Query, w: Window, s: seq<Sample>, t: seq<Sample>)
    requires AlwaysTriggers(q, w, s) && forall y :: y in s <==> y in t
    ensures AlwaysTriggers(q, w, t)
  {
    hide Solid, StatusOf, Wanted;
    var y :| FreshIn(q, w, s, y);
    assert FreshIn(q, w, t, y);
    forall x | Newest(q, w, t, x)
      ensures StatusOf(x, q.now) == Exhausted && (x.explicitlyExhausted || exists c :: Solid(q, w, t, x, c))
    {
      NewestOfSame(q, w, t, s, x);
      if !x.explicitlyExhausted {
        var c :| Solid(q, w, s, x, c);
        SolidOfSame(q, w, s, t, x, c);
      }
    }
  }

  /** Unless the window always triggers, some order of the samples does not confirm it. */
  lemma SomeOrderFails(q: Query, w: Window, samples: seq<Sample>) returns (t: seq<Sample>)
    ensures multiset(t) == multiset(samples)
    ensures Triggers(q, w, t) ==> AlwaysTriggers(q, w, samples)
  {
    hide Relevant, StatusOf, FreshIn, Newest, Solid, Arranged, Chain;
    t := samples;
    if !AlwaysTriggers(q, w, samples) {
      if exists x :: FreshIn(q, w, samples, x) {
        var x :| Newest(q, w, samples, x)
          && !(StatusOf(x, q.now) == Exhausted && (x.explicitlyExhausted || exists c :: Solid(q, w, samples, x, c)));
        t := ArrangedOrder(q, w, samples, x, true);
        if Triggers(q, w, t) { WorstGivesSolid(q, w, samples, t, x); }
      } else {
        NothingToTrigger(q, w, samples);
      }
    }
  }

  lemma WorstGivesSolid(q: Query, w: Window, samples: seq<Sample>, t: seq<Sample>, x: Sample)
    requires Arranged(q, w, t, x, true) && Triggers(q, w, t) && forall y :: y in t <==> y in samples
    ensures StatusOf(x, q.now) == Exhausted && (x.explicitlyExhausted || exists c :: Solid(q, w, samples, x, c))
  {
    ConfirmedNeeds(q, Relevant(q, w, t));
    if !x.explicitlyExhausted {
      hide Relevant, StatusOf, Solid, Confirmed;
      WorstIsSolid(q, w, t, x);
      var c :| Solid(q, w, t, x, c);
      SolidOfSame(q, w, t, samples, x, c);
    }
  }

  lemma NothingToTrigger(q: Query, w: Window, samples: seq<Sample>)
    requires forall x :: !FreshIn(q, w, samples, x)
    ensures !Triggers(q, w, samples)
  {
    var history := Relevant(q, w, samples);
    if history != [] { FreshIsRelevant(q, w, samples, history[0]); }
    hide Relevant, FreshIn, Chain;
  }

  /** A window is confirmed in every order of the samples exactly when it has fresh samples and
      each newest one is exhausted and explicit or solid. */
  lemma TriggersInEveryOrderIff(q: Query, w: Window, samples: seq<Sample>)
    ensures (forall t :: multiset(t) == multiset(samples) ==> Triggers(q, w, t)) <==> AlwaysTriggers(q, w, samples)
  {
    hide *;
    if AlwaysTriggers(q, w, samples) {
      forall t | multiset(t) == multiset(samples) ensures Triggers(q, w, t) {
        SameElements(t, samples);
        AlwaysTriggersOfSame(q, w, samples, t);
        AlwaysTriggersDoes(q, w, t);
      }
    } else {
      var t := SomeOrderFails(q, w, samples);
    }
  }

  // Confirmed in some order.

  lemma PossibleIsUnbroken(q: Query, w: Window, t: seq<Sample>, x: Sample, c: seq<Sample>, i: nat)
    requires Arranged(q, w, t, x, false) && StatusOf(x, q.now) == Exhausted && Possible(q, w, t, x, c)
    requires i < |Relevant(q, w, t)| && Good(Relevant(q, w, t)[i], x, q.now)
    requires Relevant(q, w, t)[i].sampledAt >= Oldest(c)
    ensures Unbroken(Relevant(q, w, t), i, q.now)
  {
    hide Relevant, FreshIn, Spaced, StatusOf;
    var history := Relevant(q, w, t);
    RelevantIsOrdered(q, w, t);
    forall j | i <= j < |history| ensures Counts(history, j, q.now) {
      assert history[i].sampledAt <= history[j].sampledAt;
      if i < j < |history| - 1 && history[j].sampledAt == history[i].sampledAt {
        assert Good(history[j], x, q.now);
      } else if i < j {
        assert history[j] in history;
        FreshIsRelevant(q, w, t, history[j]);
      }
    }
  }

  lemma PossibleConfirms(q: Query, w: Window, t: seq<Sample>, x: Sample, c: seq<Sample>)
    requires Arranged(q, w, t, x, false) && StatusOf(x, q.now) == Exhausted && Possible(q, w, t, x, c)
    ensures Triggers(q, w, t)
  {
    var history := Relevant(q, w, t);
    hide Relevant, StatusOf, FreshIn, Unbroken, Chain, Oldest, Good;
    forall k | 0 <= k < |c| ensures c[k] in history { FreshIsRelevant(q, w, t, c[k]); }
    var chain := PositionsOf(history, c);
    forall k | 0 <= k < |c| ensures Unbroken(history, chain[k], q.now) {
      TimesFall(c, q.Gap(), k);
      PossibleIsUnbroken(q, w, t, x, c, chain[k]);
    }
    SpacedIsChain(q, w, t, c, chain);
  }

  lemma ConfirmedIsPossible(q: Query, w: Window, t: seq<Sample>)
    requires Triggers(q, w, t) && !Latest(Relevant(q, w, t)).explicitlyExhausted
    ensures exists c :: Possible(q, w, t, Latest(Relevant(q, w, t)), c)
  {
    var history := Relevant(q, w, t);
    var x := Latest(history);
    var chain := ConfirmedHasChain(q, history);
    hide Relevant, Confirmed, StatusOf;
    RelevantIsOrdered(q, w, t);
    var c := ChainSamples(q, w, t, chain);
    var p := chain[|chain| - 1];
    forall k | 0 <= k < |c| ensures Good(c[k], x, q.now) {
      assert Unbroken(history, chain[k], q.now);
      assert Counts(history, chain[k], q.now);
    }
    assert Unbroken(history, p, q.now);
    assert Oldest(c) == history[p].sampledAt;
    hide Chain, Spaced;
    forall y | FreshIn(q, w, t, y) && y.sampledAt > Oldest(c) ensures Good(y, x, q.now) {
      FreshIsRelevant(q, w, t, y);
      var j: nat :| j < |history| && history[j] == y;
      assert j > p;
      assert Counts(history, j, q.now);
    }
    assert Possible(q, w, t, x, c);
  }

  lemma SomeOrderWorks(q: Query, w: Window, samples: seq<Sample>) returns (t: seq<Sample>)
    requires CanTrigger(q, w, samples)
    ensures multiset(t) == multiset(samples) && Triggers(q, w, t)
  {
    hide Relevant, StatusOf, Newest, Possible, Chain;
    var x :| Newest(q, w, samples, x) && StatusOf(x, q.now) == Exhausted
      && (x.explicitlyExhausted || exists c :: Possible(q, w, samples, x, c));
    t := ArrangedOrder(q, w, samples, x, false);
    if !x.explicitlyExhausted {
      var c :| Possible(q, w, samples, x, c);
      SolidOfSame(q, w, samples, t, x, c);
      PossibleConfirms(q, w, t, x, c);
    }
  }

  lemma TriggersMeansCanTrigger(q: Query, w: Window, samples: seq<Sample>, t: seq<Sample>)
    requires Triggers(q, w, t) && forall y :: y in t <==> y in samples
    ensures CanTrigger(q, w, samples)
  {
    var x := Latest(Relevant(q, w, t));
    ConfirmedNeeds(q, Relevant(q, w, t));
    LatestIsNewest(q, w, t);
    NewestOfSame(q, w, t, samples, x);
    if !x.explicitlyExhausted { ConfirmedIsPossible(q, w, t); }
    hide Relevant, StatusOf, Newest, Possible, Confirmed;
    if !x.explicitlyExhausted {
      var c :| Possible(q, w, t, x, c);
      SolidOfSame(q, w, t, samples, x, c);
    }
  }

  /** A window is confirmed in some order of the samples exactly when it can be. */
  lemma TriggersInSomeOrderIff(q: Query, w: Window, samples: seq<Sample>)
    ensures (exists t :: multiset(t) == multiset(samples) && Triggers(q, w, t)) <==> CanTrigger(q, w, samples)
  {
    hide *;
    if t :| multiset(t) == multiset(samples) && Triggers(q, w, t) {
      SameElements(t, samples);
      TriggersMeansCanTrigger(q, w, samples, t);
    }
    if CanTrigger(q, w, samples) { var t := SomeOrderWorks(q, w, samples); }
  }

  // The decision over all windows: their samples are different, so their orders are independent.

  function InWindow(w: Window): Sample -> bool {
    (s: Sample) => s.window == w
  }

  /** The five-hour samples of a, the weekly ones of b and the monthly ones of c. */
  function Mixed(a: seq<Sample>, b: seq<Sample>, c: seq<Sample>): seq<Sample> {
    Filter(a, InWindow(FiveHour)) + Filter(b, InWindow(Weekly)) + Filter(c, InWindow(Monthly))
  }

  lemma MixedIsPermutation(samples: seq<Sample>, a: seq<Sample>, b: seq<Sample>, c: seq<Sample>)
    requires multiset(a) == multiset(b) == multiset(c) == multiset(samples)
    ensures multiset(Mixed(a, b, c)) == multiset(samples)
  {
    var f, g, h := Filter(a, InWindow(FiveHour)), Filter(b, InWindow(Weekly)), Filter(c, InWindow(Monthly));
    assert multiset(Mixed(a, b, c)) == multiset(f) + multiset(g) + multiset(h);
    hide Filter;
    forall x ensures (multiset(f) + multiset(g) + multiset(h))[x] == multiset(samples)[x] {
      FilterCounts(a, InWindow(FiveHour), x);
      FilterCounts(b, InWindow(Weekly), x);
      FilterCounts(c, InWindow(Monthly), x);
    }
  }

  lemma OwnWindow(q: Query, w: Window, v: Window, s: seq<Sample>)
    ensures Filter(Filter(s, InWindow(v)), Wanted(q, w)) == if v == w then Filter(s, Wanted(q, w)) else []
  {
    if v == w { FilterTwice(s, InWindow(v), Wanted(q, w)); } else { FilterApart(s, InWindow(v), Wanted(q, w)); }
  }

  lemma OneOfThree<T>(a: seq<T>, b: seq<T>, c: seq<T>)
    ensures b == [] && c == [] ==> a + b + c == a
    ensures a == [] && c == [] ==> a + b + c == b
    ensures a == [] && b == [] ==> a + b + c == c
  {}

  lemma MixedRelevant(q: Query, w: Window, a: seq<Sample>, b: seq<Sample>, c: seq<Sample>)
    ensures Relevant(q, w, Mixed(a, b, c)) ==
      Relevant(q, w, if w == FiveHour then a else if w == Weekly then b else c)
  {
    var f, g, h := Filter(a, InWindow(FiveHour)), Filter(b, InWindow(Weekly)), Filter(c, InWindow(Monthly));
    FilterConcat(f + g, h, Wanted(q, w));
    FilterConcat(f, g, Wanted(q, w));
    OwnWindow(q, w, FiveHour, a);
    OwnWindow(q, w, Weekly, b);
    OwnWindow(q, w, Monthly, c);
    hide Filter, StableSort;
    OneOfThree(Filter(f, Wanted(q, w)), Filter(g, Wanted(q, w)), Filter(h, Wanted(q, w)));
  }

  lemma SameRelevantSameTrigger(q: Query, w: Window, s: seq<Sample>, t: seq<Sample>)
    requires Relevant(q, w, s) == Relevant(q, w, t)
    ensures Triggers(q, w, s) == Triggers(q, w, t)
  {
    hide Relevant, Confirmed;
  }

  ghost predicate SomeTriggers(q: Query, windows: seq<Window>, samples: seq<Sample>) {
    exists w :: w in windows && Triggers(q, w, samples)
  }

  ghost predicate AllLookAvailable(q: Query, windows: seq<Window>, samples: seq<Sample>) {
    windows != [] && forall w :: w in windows ==> LooksAvailable(q, w, samples)
  }

  /** What the two predicates decide. */
  lemma StatusMeans(q: Query, windows: seq<Window>, samples: seq<Sample>, e: Evidence)
    requires Decides(q, windows, samples, e)
    ensures e.status == Exhausted <==> SomeTriggers(q, windows, samples)
    ensures e.status == Available <==> AllLookAvailable(q, windows, samples)
  {
    hide Triggers, LooksAvailable, NewestOf, FirstTrigger;
  }

  /** The decision is Exhausted in every order exactly when one window always triggers: no two
      windows can stand in for each other. */
  lemma ExhaustedInEveryOrderIff(q: Query, windows: seq<Window>, samples: seq<Sample>)
    ensures (forall t :: multiset(t) == multiset(samples) ==> SomeTriggers(q, windows, t))
      <==> exists w :: w in windows && AlwaysTriggers(q, w, samples)
  {
    hide Triggers, AlwaysTriggers, Mixed;
    if w :| w in windows && AlwaysTriggers(q, w, samples) {
      TriggersInEveryOrderIff(q, w, samples);
      forall t | multiset(t) == multiset(samples) ensures SomeTriggers(q, windows, t) {
        assert Triggers(q, w, t);
      }
    } else {
      var t := FailsEverywhere(q, windows, samples);
      assert !SomeTriggers(q, windows, t);
    }
  }

  lemma FailsEverywhere(q: Query, windows: seq<Window>, samples: seq<Sample>) returns (t: seq<Sample>)
    requires forall w :: w in windows ==> !AlwaysTriggers(q, w, samples)
    ensures multiset(t) == multiset(samples) && !SomeTriggers(q, windows, t)
  {
    hide Triggers, AlwaysTriggers, Mixed;
    var a := SomeOrderFails(q, FiveHour, samples);
    var b := SomeOrderFails(q, Weekly, samples);
    var c := SomeOrderFails(q, Monthly, samples);
    t := Mixed(a, b, c);
    MixedIsPermutation(samples, a, b, c);
    forall w | w in windows ensures !Triggers(q, w, t) {
      MixedRelevant(q, w, a, b, c);
      SameRelevantSameTrigger(q, w, t, if w == FiveHour then a else if w == Weekly then b else c);
    }
  }

  /** It is Exhausted in some order exactly when some window can trigger. */
  lemma ExhaustedInSomeOrderIff(q: Query, windows: seq<Window>, samples: seq<Sample>)
    ensures (exists t :: multiset(t) == multiset(samples) && SomeTriggers(q, windows, t))
      <==> exists w :: w in windows && CanTrigger(q, w, samples)
  {
    hide Triggers, CanTrigger;
    if w :| w in windows && CanTrigger(q, w, samples) {
      TriggersInSomeOrderIff(q, w, samples);
      var t :| multiset(t) == multiset(samples) && Triggers(q, w, t);
      assert SomeTriggers(q, windows, t);
    }
    if t :| multiset(t) == multiset(samples) && SomeTriggers(q, windows, t) {
      var w :| w in windows && Triggers(q, w, t);
      TriggersInSomeOrderIff(q, w, samples);
    }
  }

  /** It is Available in every order exactly when there are windows and all newest samples of each
      are available. */
  lemma DecidedAvailableInEveryOrderIff(q: Query, windows: seq<Window>, samples: seq<Sample>)
    ensures (forall t :: multiset(t) == multiset(samples) ==> AllLookAvailable(q, windows, t))
      <==> windows != [] && forall w :: w in windows ==> AllNewestAvailable(q, w, samples)
  {
    hide LooksAvailable, AllNewestAvailable;
    forall w
      ensures (forall t :: multiset(t) == multiset(samples) ==> LooksAvailable(q, w, t)) <==>
        AllNewestAvailable(q, w, samples)
    {
      AvailableInEveryOrderIff(q, w, samples);
    }
    if forall t :: multiset(t) == multiset(samples) ==> AllLookAvailable(q, windows, t) {
      assert AllLookAvailable(q, windows, samples);
      forall w, t | w in windows && multiset(t) == multiset(samples) ensures LooksAvailable(q, w, t) {
        assert AllLookAvailable(q, windows, t);
      }
    }
  }
}
