/** Deduplicating captured accounts and importing them (src/utils/antigravity/capture-import.ts). */
module Captures {
  import opened Prelude
  import opened Accounts
  import opened Sorting

  /** candidateQuality */
  function Quality(a: Account): nat {
    (if a.refreshToken.Some? && a.refreshToken.value != "" then 2 else 0)
    + (if a.email.Some? && a.email.value != "" then 1 else 0)
  }

  /** Of a kept account and the one preferred so far, the better; the kept one on a tie. */
  function Better(kept: Account, preferred: Account): Account {
    if Quality(kept) >= Quality(preferred) then kept else preferred
  }

  function RemoveAt(s: seq<Account>, i: nat): seq<Account>
    requires i < |s|
  {
    s[..i] + s[i + 1..]
  }

  /** The state of the search for matches of one candidate. */
  datatype Search = Search(unique: seq<Account>, preferred: Account, firstMatch: nat, foundAnother: bool)

  /** One pass over the first n kept accounts, last first. */
  function Pass(r: Reading, s: Search, n: nat): (t: Search)
    requires n <= |s.unique|
    ensures |t.unique| <= |s.unique| && (s.foundAnother ==> t.foundAnother)
    ensures t.foundAnother && !s.foundAnother ==> |t.unique| < |s.unique|
    decreases n
  {
    if n == 0 then s
    else if !Match(r, s.unique[n - 1], s.preferred) then Pass(r, s, n - 1)
    else Pass(r, Absorbed(s, n - 1), n - 1)
  }

  function Absorbed(s: Search, i: nat): Search
    requires i < |s.unique|
  {
    Search(RemoveAt(s.unique, i), Better(s.unique[i], s.preferred), Min(s.firstMatch, i), true)
  }

  /** Passes until one finds nothing. */
  function Settle(r: Reading, s: Search): Search
    decreases |s.unique|
  {
    var t := Pass(r, s.(foundAnother := false), |s.unique|);
    if t.foundAnother then Settle(r, t) else t
  }

  function Begin(unique: seq<Account>, candidate: Account): Search {
    Search(unique, candidate, |unique|, true)
  }

  function Merge(r: Reading, unique: seq<Account>, candidate: Account): seq<Account> {
    var s := Settle(r, Begin(unique, candidate));
    var at := Min(s.firstMatch, |s.unique|);
    s.unique[..at] + [s.preferred] + s.unique[at..]
  }

  function Unique(r: Reading, candidates: seq<Account>): seq<Account> {
    if candidates == [] then []
    else Merge(r, Unique(r, candidates[..|candidates| - 1]), candidates[|candidates| - 1])
  }

  // One step of each recursion.

  lemma PassAt(r: Reading, s: Search, n: nat)
    requires n <= |s.unique|
    ensures
      if n == 0 then Pass(r, s, n) == s
      else if Match(r, s.unique[n - 1], s.preferred) then Pass(r, s, n) == Pass(r, Absorbed(s, n - 1), n - 1)
      else Pass(r, s, n) == Pass(r, s, n - 1)
  {}

  lemma SettleAt(r: Reading, s: Search)
    ensures
      var t := Pass(r, s.(foundAnother := false), |s.unique|);
      Settle(r, s) == if t.foundAnother then Settle(r, t) else t
  {}

  // What a settled search looks like.

  /** No kept account with index at least n matches the preferred one. */
  ghost predicate NoneFrom(r: Reading, s: Search, n: nat) {
    forall i :: n <= i < |s.unique| ==> !Match(r, s.unique[i], s.preferred)
  }

  lemma PassFinds(r: Reading, s: Search, n: nat)
    requires 0 < n <= |s.unique| && Match(r, s.unique[n - 1], s.preferred)
    ensures Pass(r, s, n).foundAnother
  {}

  lemma {:induction false} PassWithoutMatch(r: Reading, s: Search, n: nat)
    requires n <= |s.unique| && !s.foundAnother && !Pass(r, s, n).foundAnother
    ensures Pass(r, s, n) == s && forall i :: 0 <= i < n ==> !Match(r, s.unique[i], s.preferred)
  {
    hide Match;
    if n > 0 {
      if Match(r, s.unique[n - 1], s.preferred) { PassFinds(r, s, n); }
      PassWithoutMatch(r, s, n - 1);
    }
  }

  lemma {:induction false} SettledMatchesNothing(r: Reading, s: Search)
    ensures NoneFrom(r, Settle(r, s), 0)
    decreases |s.unique|
  {
    hide Match, Pass;
    var t := Pass(r, s.(foundAnother := false), |s.unique|);
    if t.foundAnother {
      SettledMatchesNothing(r, t);
    } else {
      PassWithoutMatch(r, s.(foundAnother := false), |s.unique|);
    }
  }

  /** The accounts below the insertion index are those that were there, and the index is in
      bounds. */
  ghost predicate Placed(s: Search, unique: seq<Account>) {
    s.firstMatch <= |s.unique| && s.firstMatch <= |unique| && s.unique[..s.firstMatch] == unique[..s.firstMatch]
  }

  lemma AbsorbedIsPlaced(s: Search, i: nat, unique: seq<Account>)
    requires Placed(s, unique) && i < |s.unique|
    ensures Placed(Absorbed(s, i), unique)
  {
    hide Better;
    var t := Absorbed(s, i);
    forall k | 0 <= k < t.firstMatch ensures t.unique[k] == unique[k] {
      assert t.unique[k] == s.unique[k] == s.unique[..s.firstMatch][k];
    }
  }

  lemma {:induction false} PassIsPlaced(r: Reading, s: Search, n: nat, unique: seq<Account>)
    requires n <= |s.unique| && Placed(s, unique)
    ensures Placed(Pass(r, s, n), unique)
    decreases n
  {
    hide Match, Absorbed, Placed;
    if n > 0 {
      if Match(r, s.unique[n - 1], s.preferred) {
        AbsorbedIsPlaced(s, n - 1, unique);
        AbsorbedSize(s, n - 1);
        PassIsPlaced(r, Absorbed(s, n - 1), n - 1, unique);
      } else {
        PassIsPlaced(r, s, n - 1, unique);
      }
    }
  }

  lemma AbsorbedSize(s: Search, i: nat)
    requires i < |s.unique|
    ensures |Absorbed(s, i).unique| == |s.unique| - 1
  {}

  lemma {:induction false} SettleIsPlaced(r: Reading, s: Search, unique: seq<Account>)
    requires Placed(s, unique)
    ensures Placed(Settle(r, s), unique)
    decreases |s.unique|
  {
    hide Match, Pass;
    var t := Pass(r, s.(foundAnother := false), |s.unique|);
    PassIsPlaced(r, s.(foundAnother := false), |s.unique|, unique);
    if t.foundAnother { SettleIsPlaced(r, t, unique); }
  }

  /** The insertion index is in bounds, and the accounts before it stay where they are. */
  lemma MergePlaces(r: Reading, unique: seq<Account>, candidate: Account)
    ensures
      var s := Settle(r, Begin(unique, candidate));
      && s.firstMatch <= |s.unique| && s.firstMatch <= |unique|
      && Merge(r, unique, candidate) == unique[..s.firstMatch] + [s.preferred] + s.unique[s.firstMatch..]
  {
    hide Settle;
    SettleIsPlaced(r, Begin(unique, candidate), unique);
  }

  // Survivors are candidates, and pairwise different accounts.

  ghost predicate Apart(r: Reading, s: seq<Account>) {
    forall i, j :: 0 <= i < j < |s| ==> !Match(r, s[i], s[j])
  }

  /** Kept accounts are taken out, none is added; the preferred one is one of those seen. */
  ghost predicate Within(s: Search, pool: seq<Account>) {
    s.preferred in pool && forall a :: a in s.unique ==> a in pool
  }

  lemma AbsorbedStaysApart(r: Reading, s: Search, i: nat, pool: seq<Account>)
    requires i < |s.unique| && Apart(r, s.unique) && Within(s, pool)
    ensures Apart(r, Absorbed(s, i).unique) && Within(Absorbed(s, i), pool)
  {
    hide Match;
    var t := Absorbed(s, i);
    assert forall k :: 0 <= k < |t.unique| ==> t.unique[k] == s.unique[if k < i then k else k + 1];
  }

  lemma {:induction false} PassStaysApart(r: Reading, s: Search, n: nat, pool: seq<Account>)
    requires n <= |s.unique| && Apart(r, s.unique) && Within(s, pool)
    ensures Apart(r, Pass(r, s, n).unique) && Within(Pass(r, s, n), pool)
    decreases n
  {
    hide Match, Absorbed, Apart, Within;
    if n > 0 {
      if Match(r, s.unique[n - 1], s.preferred) {
        AbsorbedStaysApart(r, s, n - 1, pool);
        AbsorbedSize(s, n - 1);
        PassStaysApart(r, Absorbed(s, n - 1), n - 1, pool);
      } else {
        PassStaysApart(r, s, n - 1, pool);
      }
    }
  }

  lemma {:induction false} SettleStaysApart(r: Reading, s: Search, pool: seq<Account>)
    requires Apart(r, s.unique) && Within(s, pool)
    ensures Apart(r, Settle(r, s).unique) && Within(Settle(r, s), pool)
    decreases |s.unique|
  {
    hide Match, Pass, Apart;
    var t := Pass(r, s.(foundAnother := false), |s.unique|);
    PassStaysApart(r, s.(foundAnother := false), |s.unique|, pool);
    if t.foundAnother { SettleStaysApart(r, t, pool); }
  }

  lemma InsertApart(r: Reading, s: seq<Account>, at: nat, a: Account)
    requires Apart(r, s) && at <= |s| && forall x :: x in s ==> !Match(r, x, a)
    ensures Apart(r, s[..at] + [a] + s[at..])
  {
    var t := s[..at] + [a] + s[at..];
    forall i, j | 0 <= i < j < |t| ensures !Match(r, t[i], t[j]) {
      var x, y := if i < at then i else i - 1, if j < at then j else j - 1;
      if i == at {
        assert t[j] == s[y];
        MatchIsSymmetric(r, t[i], t[j]);
      }
      hide Match;
    }
  }

  lemma MergeStaysApart(r: Reading, unique: seq<Account>, candidate: Account, pool: seq<Account>)
    requires Apart(r, unique) && candidate in pool && forall a :: a in unique ==> a in pool
    ensures
      var merged := Merge(r, unique, candidate);
      Apart(r, merged) && forall a :: a in merged ==> a in pool
  {
    hide Match, Settle, Apart;
    var s := Settle(r, Begin(unique, candidate));
    SettleStaysApart(r, Begin(unique, candidate), pool);
    SettledMatchesNothing(r, Begin(unique, candidate));
    MergePlaces(r, unique, candidate);
    InsertApart(r, s.unique, s.firstMatch, s.preferred);
  }

  /** The survivors are candidates, and no two of them match. */
  lemma {:induction false} SurvivorsAreApart(r: Reading, candidates: seq<Account>)
    ensures Apart(r, Unique(r, candidates))
    ensures forall a :: a in Unique(r, candidates) ==> a in candidates
  {
    hide Match, Merge;
    if candidates != [] {
      var front := candidates[..|candidates| - 1];
      SurvivorsAreApart(r, front);
      MergeStaysApart(r, Unique(r, front), candidates[|candidates| - 1], candidates);
    }
  }

  // No candidate is lost: a chain of matches leads to a survivor at least as good.

  /** Consecutive accounts of the path match, and all come from the pool. */
  ghost predicate Path(r: Reading, pool: seq<Account>, path: seq<Account>, a: Account, b: Account) {
    && path != [] && path[0] == a && path[|path| - 1] == b
    && (forall i :: 0 <= i < |path| ==> path[i] in pool)
    && (forall i :: 0 < i < |path| ==> Match(r, path[i - 1], path[i]))
  }

  ghost predicate Linked(r: Reading, pool: seq<Account>, a: Account, b: Account) {
    exists path :: Path(r, pool, path, a, b)
  }

  ghost predicate Represented(r: Reading, pool: seq<Account>, a: Account, kept: seq<Account>) {
    exists b :: b in kept && Linked(r, pool, a, b) && Quality(b) >= Quality(a)
  }

  lemma LinkOn(r: Reading, pool: seq<Account>, a: Account, b: Account, c: Account)
    requires Linked(r, pool, a, b) && c in pool && Match(r, b, c)
    ensures Linked(r, pool, a, c)
  {
    hide Match;
    var path: seq<Account> :| Path(r, pool, path, a, b);
    assert Path(r, pool, path + [c], a, c);
  }

  lemma AbsorbedRepresents(r: Reading, s: Search, i: nat, pool: seq<Account>, a: Account)
    requires i < |s.unique| && Match(r, s.unique[i], s.preferred) && Within(s, pool)
    requires Represented(r, pool, a, s.unique + [s.preferred])
    ensures Represented(r, pool, a, Absorbed(s, i).unique + [Absorbed(s, i).preferred])
  {
    var kept, best := s.unique[i], s.preferred;
    MatchIsSymmetric(r, kept, best);
    hide Match, Linked, Quality;
    var t := Absorbed(s, i);
    var b :| b in s.unique + [best] && Linked(r, pool, a, b) && Quality(b) >= Quality(a);
    assert t.preferred in t.unique + [t.preferred];
    if b == kept || b == best {
      if t.preferred != b { LinkOn(r, pool, a, b, t.preferred); }
    } else {
      var k :| 0 <= k < |s.unique| && s.unique[k] == b;
      assert t.unique[if k < i then k else k - 1] == b;
    }
  }

  lemma {:induction false} PassRepresents(r: Reading, s: Search, n: nat, pool: seq<Account>, a: Account)
    requires n <= |s.unique| && Apart(r, s.unique) && Within(s, pool)
    requires Represented(r, pool, a, s.unique + [s.preferred])
    ensures Represented(r, pool, a, Pass(r, s, n).unique + [Pass(r, s, n).preferred])
    decreases n
  {
    hide Match, Absorbed, Apart, Within, Represented;
    if n > 0 {
      if Match(r, s.unique[n - 1], s.preferred) {
        AbsorbedStaysApart(r, s, n - 1, pool);
        AbsorbedSize(s, n - 1);
        AbsorbedRepresents(r, s, n - 1, pool, a);
        PassRepresents(r, Absorbed(s, n - 1), n - 1, pool, a);
      } else {
        PassRepresents(r, s, n - 1, pool, a);
      }
    }
  }

  lemma {:induction false} SettleRepresents(r: Reading, s: Search, pool: seq<Account>, a: Account)
    requires Apart(r, s.unique) && Within(s, pool)
    requires Represented(r, pool, a, s.unique + [s.preferred])
    ensures Represented(r, pool, a, Settle(r, s).unique + [Settle(r, s).preferred])
    decreases |s.unique|
  {
    hide Match, Pass, Apart, Represented;
    var u := s.(foundAnother := false);
    var t := Pass(r, u, |s.unique|);
    PassStaysApart(r, u, |s.unique|, pool);
    PassRepresents(r, u, |s.unique|, pool, a);
    if t.foundAnother { SettleRepresents(r, t, pool, a); }
  }

  lemma RepresentedBySameSet(r: Reading, pool: seq<Account>, a: Account, x: seq<Account>, y: seq<Account>)
    requires Represented(r, pool, a, x) && forall b :: b in x ==> b in y
    ensures Represented(r, pool, a, y)
  {
    hide Linked, Quality;
  }

  lemma MergeRepresents(r: Reading, unique: seq<Account>, candidate: Account, pool: seq<Account>, a: Account)
    requires Apart(r, unique) && candidate in pool && forall b :: b in unique ==> b in pool
    requires Represented(r, pool, a, unique + [candidate])
    ensures Represented(r, pool, a, Merge(r, unique, candidate))
  {
    hide Match, Settle, Apart, Represented;
    var s := Settle(r, Begin(unique, candidate));
    SettleRepresents(r, Begin(unique, candidate), pool, a);
    MergePlaces(r, unique, candidate);
    SettleIsPlaced(r, Begin(unique, candidate), unique);
    assert s.unique == s.unique[..s.firstMatch] + s.unique[s.firstMatch..];
    RepresentedBySameSet(r, pool, a, s.unique + [s.preferred], Merge(r, unique, candidate));
  }

  lemma SelfRepresents(r: Reading, pool: seq<Account>, a: Account, kept: seq<Account>)
    requires a in pool && a in kept
    ensures Represented(r, pool, a, kept)
  {
    assert Path(r, pool, [a], a, a);
  }

  lemma LargerPool(r: Reading, p: seq<Account>, q: seq<Account>, a: Account, kept: seq<Account>)
    requires Represented(r, p, a, kept) && forall b :: b in p ==> b in q
    ensures Represented(r, q, a, kept)
  {
    var b :| b in kept && Linked(r, p, a, b) && Quality(b) >= Quality(a);
    var path: seq<Account> :| Path(r, p, path, a, b);
    hide Match, Quality;
    assert Path(r, q, path, a, b);
  }

  /** Every candidate is linked, through candidates, to a survivor of at least its quality. */
  lemma {:induction false} EveryCandidateIsRepresented(r: Reading, candidates: seq<Account>, a: Account)
    requires a in candidates
    ensures Represented(r, candidates, a, Unique(r, candidates))
  {
    hide Match, Merge, Represented, Apart;
    var front, last := candidates[..|candidates| - 1], candidates[|candidates| - 1];
    assert candidates == front + [last];
    var unique := Unique(r, front);
    SurvivorsAreApart(r, front);
    if a in front {
      EveryCandidateIsRepresented(r, front, a);
      LargerPool(r, front, candidates, a, unique);
      RepresentedBySameSet(r, candidates, a, unique, unique + [last]);
    } else {
      SelfRepresents(r, candidates, a, unique + [last]);
    }
    MergeRepresents(r, unique, last, candidates, a);
  }

  // The same in terms of what the accounts hold.

  predicate Filled(text: Option<string>) { text.Some? && text.value != "" }

  /** One account has a refresh token that the other lacks; or both or neither has one, and the
      one has an e-mail address if the other has. */
  predicate AtLeastAsRich(one: Account, other: Account) {
    || (Filled(one.refreshToken) && !Filled(other.refreshToken))
    || ((Filled(one.refreshToken) <==> Filled(other.refreshToken)) && (Filled(other.email) ==> Filled(one.email)))
  }

  lemma QualityMeans(one: Account, other: Account)
    ensures Quality(one) >= Quality(other) <==> AtLeastAsRich(one, other)
  {}

  /** Every candidate is linked to a survivor at least as rich, so one with a refresh token to
      one with a refresh token. */
  ghost predicate NothingRicherIsLost(r: Reading, candidates: seq<Account>, survivors: seq<Account>) {
    && (forall a :: a in candidates ==>
          exists b :: b in survivors && Linked(r, candidates, a, b) && AtLeastAsRich(b, a))
    && (forall a :: a in candidates && Filled(a.refreshToken) ==>
          exists b :: b in survivors && Linked(r, candidates, a, b) && Filled(b.refreshToken))
  }

  lemma RicherSurvivor(r: Reading, candidates: seq<Account>, a: Account) returns (b: Account)
    requires a in candidates
    ensures b in Unique(r, candidates) && Linked(r, candidates, a, b) && AtLeastAsRich(b, a)
    ensures Filled(a.refreshToken) ==> Filled(b.refreshToken)
  {
    hide Unique, Linked, Quality;
    EveryCandidateIsRepresented(r, candidates, a);
    b :| b in Unique(r, candidates) && Linked(r, candidates, a, b) && Quality(b) >= Quality(a);
    QualityMeans(b, a);
  }

  lemma RichestSurvive(r: Reading, candidates: seq<Account>)
    ensures NothingRicherIsLost(r, candidates, Unique(r, candidates))
  {
    hide Unique, Linked, AtLeastAsRich, Filled;
    forall a | a in candidates
      ensures exists b :: b in Unique(r, candidates) && Linked(r, candidates, a, b) && AtLeastAsRich(b, a)
      ensures Filled(a.refreshToken) ==>
        exists b :: b in Unique(r, candidates) && Linked(r, candidates, a, b) && Filled(b.refreshToken)
    {
      var b := RicherSurvivor(r, candidates, a);
    }
  }

  // The common cases, and deduplicating twice.

  lemma {:induction false} PassSkips(r: Reading, s: Search, n: nat, m: nat)
    requires m <= n <= |s.unique| && forall i :: m <= i < n ==> !Match(r, s.unique[i], s.preferred)
    ensures Pass(r, s, n) == Pass(r, s, m)
  {
    hide Match;
    if n > m { PassSkips(r, s, n - 1, m); }
  }

  /** A candidate that matches nothing kept is added at the end. */
  lemma NewIdentityIsAppended(r: Reading, unique: seq<Account>, candidate: Account)
    requires forall a :: a in unique ==> !Match(r, a, candidate)
    ensures Merge(r, unique, candidate) == unique + [candidate]
  {
    hide Match;
    var s := Begin(unique, candidate).(foundAnother := false);
    PassSkips(r, s, |unique|, 0);
    assert Pass(r, s, 0) == s;
    hide Pass;
    assert Settle(r, Begin(unique, candidate)) == s;
    assert unique[..|unique|] == unique;
  }

  lemma OneAbsorbed(r: Reading, s: Search, i: nat)
    requires i < |s.unique| && Match(r, s.unique[i], s.preferred)
    requires forall j :: 0 <= j < |s.unique| && j != i ==> !Match(r, s.unique[j], s.preferred)
    requires forall j :: 0 <= j < i ==> !Match(r, s.unique[j], Better(s.unique[i], s.preferred))
    ensures Pass(r, s, |s.unique|) == Absorbed(s, i)
  {
    PassSkips(r, s, |s.unique|, i + 1);
    PassSkips(r, Absorbed(s, i), i, 0);
    hide Match;
  }

  lemma OneMatchSettles(r: Reading, unique: seq<Account>, candidate: Account, i: nat)
    requires Apart(r, unique) && i < |unique| && Match(r, unique[i], candidate)
    requires forall j :: 0 <= j < |unique| && j != i ==> !Match(r, unique[j], candidate)
    ensures Settle(r, Begin(unique, candidate)) == Search(RemoveAt(unique, i), Better(unique[i], candidate), i, false)
  {
    var best := Better(unique[i], candidate);
    forall j | 0 <= j < |unique| && j != i ensures !Match(r, unique[j], best) {
      MatchIsSymmetric(r, unique[i], unique[j]);
    }
    hide Match, Better, Apart, Pass;
    var s := Begin(unique, candidate).(foundAnother := false);
    OneAbsorbed(r, s, i);
    var t := Absorbed(s, i);
    var u := t.(foundAnother := false);
    forall k | 0 <= k < |u.unique| ensures !Match(r, u.unique[k], best) {
      assert u.unique[k] == unique[if k < i then k else k + 1];
    }
    PassSkips(r, u, |u.unique|, 0);
    PassAt(r, u, 0);
    SettleAt(r, Begin(unique, candidate));
    SettleAt(r, t);
  }

  lemma PutBack(unique: seq<Account>, i: nat, a: Account)
    requires i < |unique|
    ensures |RemoveAt(unique, i)| == |unique| - 1
    ensures RemoveAt(unique, i)[..i] + [a] + RemoveAt(unique, i)[i..] == unique[i := a]
  {}

  /** A candidate that matches one kept account leaves the better of the two in its place. */
  lemma OneMatchKeepsThePlace(r: Reading, unique: seq<Account>, candidate: Account, i: nat)
    requires Apart(r, unique) && i < |unique| && Match(r, unique[i], candidate)
    requires forall j :: 0 <= j < |unique| && j != i ==> !Match(r, unique[j], candidate)
    ensures Merge(r, unique, candidate) == unique[i := Better(unique[i], candidate)]
  {
    hide Match, Apart, Settle, Better, RemoveAt;
    OneMatchSettles(r, unique, candidate, i);
    PutBack(unique, i, Better(unique[i], candidate));
  }

  /** It replaces the kept account exactly when that one is not at least as rich: on a tie the
      kept account stays. */
  lemma OneMatchReplacesIff(r: Reading, unique: seq<Account>, candidate: Account, i: nat)
    requires Apart(r, unique) && i < |unique| && Match(r, unique[i], candidate)
    requires forall j :: 0 <= j < |unique| && j != i ==> !Match(r, unique[j], candidate)
    ensures Merge(r, unique, candidate) ==
      if AtLeastAsRich(unique[i], candidate) then unique else unique[i := candidate]
  {
    hide Match, Apart, Merge, Quality, AtLeastAsRich;
    OneMatchKeepsThePlace(r, unique, candidate, i);
    QualityMeans(unique[i], candidate);
    assert unique[i := unique[i]] == unique;
  }

  lemma SettlesAfterOnePass(r: Reading, s: Search, t: Search)
    requires Pass(r, s.(foundAnother := false), |s.unique|) == t && t.foundAnother && NoneFrom(r, t, 0)
    ensures Settle(r, s) == t.(foundAnother := false)
  {
    hide Match;
    var u := t.(foundAnother := false);
    PassSkips(r, u, |u.unique|, 0);
    PassAt(r, u, 0);
    hide Pass, Settle;
    SettleAt(r, s);
    SettleAt(r, t);
  }

  lemma LaterMatchWins(r: Reading, unique: seq<Account>, candidate: Account, i: nat, j: nat)
    requires Apart(r, unique) && i < j < |unique| && Match(r, unique[i], candidate) && Match(r, unique[j], candidate)
    requires forall k :: 0 <= k < |unique| && k != i && k != j ==> !Match(r, unique[k], candidate)
    requires Better(unique[j], candidate) == unique[j]
    ensures Merge(r, unique, candidate) == unique
  {
    var s := Begin(unique, candidate).(foundAnother := false);
    var t := Absorbed(s, j);
    forall k | 0 <= k < |t.unique| ensures !Match(r, t.unique[k], unique[j]) {
      MatchIsSymmetric(r, unique[j], unique[if k < j then k else k + 1]);
      hide Match;
    }
    hide Match, Pass, Settle;
    PassSkips(r, s, |unique|, j + 1);
    PassAt(r, s, j + 1);
    PassSkips(r, t, j, 0);
    PassAt(r, t, 0);
    SettlesAfterOnePass(r, Begin(unique, candidate), t);
    PutBack(unique, j, unique[j]);
    assert unique[j := unique[j]] == unique;
  }

  lemma BothAreReplaced(r: Reading, unique: seq<Account>, candidate: Account, i: nat, j: nat)
    requires Apart(r, unique) && i < j < |unique| && Match(r, unique[i], candidate) && Match(r, unique[j], candidate)
    requires forall k :: 0 <= k < |unique| && k != i && k != j ==> !Match(r, unique[k], candidate)
    requires Better(unique[j], candidate) == candidate
    ensures Merge(r, unique, candidate) == RemoveAt(unique, j)[i := Better(unique[i], candidate)]
  {
    var s := Begin(unique, candidate).(foundAnother := false);
    var t := Absorbed(s, j);
    var u := Absorbed(t, i);
    var best := Better(unique[i], candidate);
    forall k | 0 <= k < |u.unique| ensures !Match(r, u.unique[k], best) {
      var at := if k < i then k else if k + 1 < j then k + 1 else k + 2;
      assert u.unique[k] == unique[at];
      MatchIsSymmetric(r, unique[i], unique[at]);
      hide Match;
    }
    hide Match, Pass, Settle, Better;
    PassSkips(r, s, |unique|, j + 1);
    PassAt(r, s, j + 1);
    PassSkips(r, t, j, i + 1);
    PassAt(r, t, i + 1);
    forall k | 0 <= k < i ensures !Match(r, u.unique[k], best) {}
    PassSkips(r, u, i, 0);
    PassAt(r, u, 0);
    SettlesAfterOnePass(r, Begin(unique, candidate), u);
    PutBack(t.unique, i, best);
  }

  /** A candidate that matches two kept accounts: if the later one is at least as rich nothing
      changes; otherwise that one goes, and the better of the other two takes the earlier place. */
  lemma BridgeMergesIff(r: Reading, unique: seq<Account>, candidate: Account, i: nat, j: nat)
    requires Apart(r, unique) && i < j < |unique| && Match(r, unique[i], candidate) && Match(r, unique[j], candidate)
    requires forall k :: 0 <= k < |unique| && k != i && k != j ==> !Match(r, unique[k], candidate)
    ensures Merge(r, unique, candidate) ==
      if AtLeastAsRich(unique[j], candidate) then unique
      else (unique[..j] + unique[j + 1..])
        [i := if AtLeastAsRich(unique[i], candidate) then unique[i] else candidate]
  {
    hide Match, Apart, Merge, AtLeastAsRich, Quality;
    QualityMeans(unique[i], candidate);
    QualityMeans(unique[j], candidate);
    if AtLeastAsRich(unique[j], candidate) {
      LaterMatchWins(r, unique, candidate, i, j);
    } else {
      BothAreReplaced(r, unique, candidate, i, j);
    }
  }

  lemma {:induction false} ApartStays(r: Reading, s: seq<Account>)
    requires Apart(r, s)
    ensures Unique(r, s) == s
  {
    hide Match, Merge;
    if s != [] {
      var front, last := s[..|s| - 1], s[|s| - 1];
      ApartStays(r, front);
      NewIdentityIsAppended(r, front, last);
    }
  }

  /** Deduplicating again changes nothing. */
  lemma DedupIsIdempotent(r: Reading, candidates: seq<Account>)
    ensures Unique(r, Unique(r, candidates)) == Unique(r, candidates)
  {
    hide *;
    SurvivorsAreApart(r, candidates);
    ApartStays(r, Unique(r, candidates));
  }

  // One survivor for each group of linked candidates?

  /** No two survivors with an identity are linked. */
  ghost predicate OnePerGroup(r: Reading, candidates: seq<Account>) {
    var unique := Unique(r, candidates);
    forall i, j :: 0 <= i < j < |unique| && Linked(r, candidates, unique[i], unique[j]) ==> !HasIdentity(r, unique[i])
  }

  /** A candidate with an identity and the greatest quality in its group. */
  ghost predicate Best(r: Reading, pool: seq<Account>, t: Account) {
    t in pool && HasIdentity(r, t) && forall x :: x in pool && Linked(r, pool, t, x) ==> Quality(x) <= Quality(t)
  }

  /** Every best candidate of a group matches the whole group. */
  ghost predicate BestMatchTheirGroup(r: Reading, pool: seq<Account>) {
    forall t, x :: Best(r, pool, t) && x in pool && Linked(r, pool, t, x) ==> Match(r, t, x)
  }

  lemma MatchNeedsIdentity(r: Reading, a: Account, b: Account)
    requires Match(r, a, b)
    ensures HasIdentity(r, a) && HasIdentity(r, b)
  {
    MatchIsSymmetric(r, a, b);
  }

  /** Linked accounts are candidates, and either both have an identity or they are the same. */
  lemma LinkedMeans(r: Reading, pool: seq<Account>, a: Account, b: Account)
    requires Linked(r, pool, a, b)
    ensures a in pool && b in pool && (a == b || (HasIdentity(r, a) && HasIdentity(r, b)))
  {
    var path: seq<Account> :| Path(r, pool, path, a, b);
    if |path| > 1 {
      MatchNeedsIdentity(r, path[0], path[1]);
      MatchNeedsIdentity(r, path[|path| - 2], path[|path| - 1]);
    }
    hide Match, HasIdentity;
  }

  lemma LinkedToItself(r: Reading, pool: seq<Account>, a: Account)
    requires a in pool
    ensures Linked(r, pool, a, a)
  {
    assert Path(r, pool, [a], a, a);
  }

  lemma {:induction false} LinkAlong(
      r: Reading, pool: seq<Account>, a: Account, b: Account, c: Account, path: seq<Account>)
    requires Linked(r, pool, a, b) && Path(r, pool, path, b, c)
    ensures Linked(r, pool, a, c)
    decreases |path|
  {
    hide Match, Linked;
    if |path| > 1 {
      var front := path[..|path| - 1];
      assert Path(r, pool, front, b, front[|front| - 1]);
      LinkAlong(r, pool, a, b, front[|front| - 1], front);
      assert Match(r, path[|path| - 2], path[|path| - 1]);
      LinkOn(r, pool, a, front[|front| - 1], c);
    }
  }

  lemma LinkedIsTransitive(r: Reading, pool: seq<Account>, a: Account, b: Account, c: Account)
    requires Linked(r, pool, a, b) && Linked(r, pool, b, c)
    ensures Linked(r, pool, a, c)
  {
    var path: seq<Account> :| Path(r, pool, path, b, c);
    LinkAlong(r, pool, a, b, c, path);
  }

  lemma {:induction false} ReversedPath(r: Reading, pool: seq<Account>, a: Account, b: Account, path: seq<Account>)
    requires Path(r, pool, path, a, b)
    ensures Linked(r, pool, b, a)
    decreases |path|
  {
    hide Match, Linked;
    LinkedToItself(r, pool, b);
    if |path| > 1 {
      var front := path[..|path| - 1];
      var c := front[|front| - 1];
      assert Path(r, pool, front, a, c);
      ReversedPath(r, pool, a, c, front);
      assert Match(r, path[|path| - 2], path[|path| - 1]);
      MatchIsSymmetric(r, c, b);
      LinkOn(r, pool, b, b, c);
      LinkedIsTransitive(r, pool, b, c, a);
    }
  }

  lemma LinkedIsSymmetric(r: Reading, pool: seq<Account>, a: Account, b: Account)
    requires Linked(r, pool, a, b)
    ensures Linked(r, pool, b, a)
  {
    var path: seq<Account> :| Path(r, pool, path, a, b);
    ReversedPath(r, pool, a, b, path);
  }

  /** Only which candidates there are matters for links. */
  lemma LinksOfPermutation(r: Reading, p: seq<Account>, q: seq<Account>)
    requires multiset(p) == multiset(q)
    ensures forall a, b :: Linked(r, p, a, b) <==> Linked(r, q, a, b)
    ensures forall x :: x in p <==> x in q
  {
    forall x ensures x in p <==> x in q { assert x in multiset(p) <==> x in multiset(q); }
    hide Match;
    forall a, b ensures Linked(r, p, a, b) <==> Linked(r, q, a, b) {
      if Linked(r, p, a, b) {
        var path: seq<Account> :| Path(r, p, path, a, b);
        assert Path(r, q, path, a, b);
      }
      if Linked(r, q, a, b) {
        var path: seq<Account> :| Path(r, q, path, a, b);
        assert Path(r, p, path, a, b);
      }
    }
  }

  lemma BestOfPermutation(r: Reading, p: seq<Account>, q: seq<Account>)
    requires multiset(p) == multiset(q)
    ensures BestMatchTheirGroup(r, p) <==> BestMatchTheirGroup(r, q)
  {
    LinksOfPermutation(r, p, q);
    hide Match, Linked, HasIdentity, Quality;
    assert forall t :: Best(r, p, t) <==> Best(r, q, t);
  }

  /** Every account with an identity is linked to a best one of its group. */
  lemma {:induction false} GroupHasBest(r: Reading, pool: seq<Account>, a: Account) returns (t: Account)
    requires a in pool && HasIdentity(r, a)
    ensures Best(r, pool, t) && Linked(r, pool, a, t)
    decreases 3 - Quality(a)
  {
    if x :| x in pool && Linked(r, pool, a, x) && Quality(x) > Quality(a) {
      LinkedMeans(r, pool, a, x);
      t := GroupHasBest(r, pool, x);
      LinkedIsTransitive(r, pool, a, x, t);
    } else {
      t := a;
      LinkedToItself(r, pool, a);
    }
    hide *;
  }

  lemma AtMostOneMatches(r: Reading, unique: seq<Account>, s: Account, i: nat, j: nat)
    requires Apart(r, unique) && s in unique && i < j < |unique|
    ensures !Match(r, s, unique[i]) || !Match(r, s, unique[j])
  {
    var k :| 0 <= k < |unique| && unique[k] == s;
    MatchIsSymmetric(r, s, unique[i]);
    MatchIsSymmetric(r, s, unique[j]);
    hide Match;
    assert k == i || !Match(r, s, unique[i]);
    assert k == j || !Match(r, s, unique[j]);
  }

  /** A best candidate that matches its whole group leaves only one survivor of it. */
  lemma BestLeavesOne(r: Reading, candidates: seq<Account>, i: nat, j: nat)
    requires BestMatchTheirGroup(r, candidates)
    requires i < j < |Unique(r, candidates)| && HasIdentity(r, Unique(r, candidates)[i])
    ensures !Linked(r, candidates, Unique(r, candidates)[i], Unique(r, candidates)[j])
  {
    var unique := Unique(r, candidates);
    var a, b := unique[i], unique[j];
    SurvivorsAreApart(r, candidates);
    if Linked(r, candidates, a, b) {
      var t := GroupHasBest(r, candidates, a);
      LinkedMeans(r, candidates, a, t);
      EveryCandidateIsRepresented(r, candidates, t);
      var s :| s in unique && Linked(r, candidates, t, s) && Quality(s) >= Quality(t);
      LinkedIsTransitive(r, candidates, a, t, s);
      LinkedIsSymmetric(r, candidates, a, s);
      LinkedIsTransitive(r, candidates, s, a, b);
      LinkedMeans(r, candidates, t, s);
      BestIsShared(r, candidates, t, s);
      AtMostOneMatches(r, unique, s, i, j);
    }
  }

  lemma BestIsShared(r: Reading, pool: seq<Account>, t: Account, s: Account)
    requires Best(r, pool, t) && Linked(r, pool, t, s) && s in pool && HasIdentity(r, s) && Quality(s) >= Quality(t)
    ensures Best(r, pool, s)
  {
    hide HasIdentity, Quality;
    forall x | x in pool && Linked(r, pool, s, x) ensures Quality(x) <= Quality(s) {
      LinkedIsTransitive(r, pool, t, s, x);
    }
  }

  // Necessity: a best candidate that comes first is never absorbed away.

  /** The best account is kept or preferred; while it is kept, the preferred one is another. */
  ghost predicate Holds(r: Reading, s: Search, pool: seq<Account>, t: Account) {
    && Apart(r, s.unique) && Within(s, pool)
    && (t in s.unique || (s.preferred == t && forall a :: a in s.unique ==> !Match(r, a, t)))
  }

  lemma AbsorbedHolds(r: Reading, s: Search, i: nat, pool: seq<Account>, t: Account)
    requires i < |s.unique| && Match(r, s.unique[i], s.preferred) && Holds(r, s, pool, t)
    requires Best(r, pool, t)
    ensures Holds(r, Absorbed(s, i), pool, t)
  {
    AbsorbedStaysApart(r, s, i, pool);
    var u := Absorbed(s, i);
    assert s.unique[i] in s.unique;
    if t in s.unique {
      var k :| 0 <= k < |s.unique| && s.unique[k] == t;
      if k == i {
        MatchLinks(r, pool, t, s.preferred);
        assert Quality(t) >= Quality(s.preferred);
        assert u.preferred == t;
        forall a | a in u.unique ensures !Match(r, a, t) {
          var m :| 0 <= m < |u.unique| && u.unique[m] == a;
          MatchIsSymmetric(r, a, t);
          assert a == s.unique[if m < i then m else m + 1];
        }
      } else {
        assert u.unique[if k < i then k else k - 1] == t;
      }
    }
  }

  lemma MatchLinks(r: Reading, pool: seq<Account>, a: Account, b: Account)
    requires a in pool && b in pool && Match(r, a, b)
    ensures Linked(r, pool, a, b)
  {
    LinkedToItself(r, pool, a);
    LinkOn(r, pool, a, a, b);
  }

  lemma {:induction false} PassHolds(r: Reading, s: Search, n: nat, pool: seq<Account>, t: Account)
    requires n <= |s.unique| && Holds(r, s, pool, t) && Best(r, pool, t)
    ensures Holds(r, Pass(r, s, n), pool, t)
    decreases n
  {
    hide Match, Absorbed, Holds, Best;
    if n > 0 {
      if Match(r, s.unique[n - 1], s.preferred) {
        AbsorbedHolds(r, s, n - 1, pool, t);
        AbsorbedSize(s, n - 1);
        PassHolds(r, Absorbed(s, n - 1), n - 1, pool, t);
      } else {
        PassHolds(r, s, n - 1, pool, t);
      }
    }
  }

  lemma {:induction false} SettleHolds(r: Reading, s: Search, pool: seq<Account>, t: Account)
    requires Holds(r, s, pool, t) && Best(r, pool, t)
    ensures Holds(r, Settle(r, s), pool, t)
    decreases |s.unique|
  {
    hide Match, Pass, Apart, Best;
    var u := s.(foundAnother := false);
    PassHolds(r, u, |s.unique|, pool, t);
    var v := Pass(r, u, |s.unique|);
    if v.foundAnother { SettleHolds(r, v, pool, t); }
  }

  lemma MergedContents(r: Reading, unique: seq<Account>, candidate: Account)
    ensures
      var s := Settle(r, Begin(unique, candidate));
      forall a :: a in Merge(r, unique, candidate) <==> a in s.unique || a == s.preferred
  {
    MergePlaces(r, unique, candidate);
    SettleIsPlaced(r, Begin(unique, candidate), unique);
    hide Settle, Begin, Merge;
    var s := Settle(r, Begin(unique, candidate));
    assert s.unique == s.unique[..s.firstMatch] + s.unique[s.firstMatch..];
  }

  /** A kept account and the preferred one stand at two places of the merged list. */
  lemma TwoPlaces(r: Reading, unique: seq<Account>, candidate: Account, a: Account) returns (k: nat, m: nat)
    requires a in Settle(r, Begin(unique, candidate)).unique
    ensures
      var merged := Merge(r, unique, candidate);
      && k < |merged| && m < |merged| && k != m
      && merged[k] == a && merged[m] == Settle(r, Begin(unique, candidate)).preferred
  {
    MergePlaces(r, unique, candidate);
    SettleIsPlaced(r, Begin(unique, candidate), unique);
    hide Settle, Begin, Merge;
    var s := Settle(r, Begin(unique, candidate));
    var i :| 0 <= i < |s.unique| && s.unique[i] == a;
    m := s.firstMatch;
    k := if i < m then i else i + 1;
  }

  /** The first of the candidates, if it is best, survives. */
  lemma {:induction false} FirstBestSurvives(r: Reading, t: Account, rest: seq<Account>, pool: seq<Account>)
    requires Best(r, pool, t) && forall a :: a in [t] + rest ==> a in pool
    ensures t in Unique(r, [t] + rest)
  {
    hide Match, Best, Merge, Settle;
    var all := [t] + rest;
    var front, last := all[..|all| - 1], all[|all| - 1];
    if rest == [] {
      assert front == [] && last == t;
      NewIdentityIsAppended(r, [], t);
    } else {
      assert front == [t] + rest[..|rest| - 1];
      FirstBestSurvives(r, t, rest[..|rest| - 1], pool);
      var unique := Unique(r, front);
      SurvivorsAreApart(r, front);
      assert last in all;
      assert Holds(r, Begin(unique, last), pool, t);
      SettleHolds(r, Begin(unique, last), pool, t);
      MergedContents(r, unique, last);
    }
  }

  /** Where the best candidate comes first and one it does not match last, both groups of
      survivors remain. */
  lemma UnmatchedLastRemains(r: Reading, unique: seq<Account>, t: Account, x: Account, pool: seq<Account>)
    requires Apart(r, unique) && t in unique && x in pool && forall a :: a in unique ==> a in pool
    requires HasIdentity(r, t) && !Match(r, t, x) && Linked(r, pool, t, x)
    ensures
      var s := Settle(r, Begin(unique, x));
      t in s.unique && Linked(r, pool, t, s.preferred)
  {
    assert Staying(r, Begin(unique, x), pool, t) by { hide Match, HasIdentity, Linked; }
    SettleStays(r, Begin(unique, x), pool, t);
  }

  /** The account t is kept, does not match the preferred one, and is linked to it. */
  ghost predicate Staying(r: Reading, s: Search, pool: seq<Account>, t: Account) {
    Apart(r, s.unique) && Within(s, pool) && t in s.unique && !Match(r, t, s.preferred)
      && Linked(r, pool, t, s.preferred)
  }

  lemma AbsorbedStays(r: Reading, s: Search, i: nat, pool: seq<Account>, t: Account)
    requires i < |s.unique| && Match(r, s.unique[i], s.preferred) && Staying(r, s, pool, t)
    ensures Staying(r, Absorbed(s, i), pool, t)
  {
    AbsorbedStaysApart(r, s, i, pool);
    MatchIsSymmetric(r, s.unique[i], s.preferred);
    MatchIsSymmetric(r, s.unique[i], t);
    hide Match, Quality, Linked;
    var k :| 0 <= k < |s.unique| && s.unique[k] == t;
    var u := Absorbed(s, i);
    assert k != i;
    assert u.unique[if k < i then k else k - 1] == t;
    assert s.unique[i] in s.unique;
    LinkOn(r, pool, t, s.preferred, s.unique[i]);
  }

  lemma {:induction false} PassStays(r: Reading, s: Search, n: nat, pool: seq<Account>, t: Account)
    requires n <= |s.unique| && Staying(r, s, pool, t)
    ensures Staying(r, Pass(r, s, n), pool, t)
    decreases n
  {
    hide Match, Absorbed, Staying;
    if n > 0 {
      if Match(r, s.unique[n - 1], s.preferred) {
        AbsorbedStays(r, s, n - 1, pool, t);
        AbsorbedSize(s, n - 1);
        PassStays(r, Absorbed(s, n - 1), n - 1, pool, t);
      } else {
        PassStays(r, s, n - 1, pool, t);
      }
    }
  }

  lemma {:induction false} SettleStays(r: Reading, s: Search, pool: seq<Account>, t: Account)
    requires Staying(r, s, pool, t)
    ensures Staying(r, Settle(r, s), pool, t)
    decreases |s.unique|
  {
    hide Match, Pass, Apart, Linked;
    var u := s.(foundAnother := false);
    PassStays(r, u, |s.unique|, pool, t);
    var v := Pass(r, u, |s.unique|);
    if v.foundAnother { SettleStays(r, v, pool, t); }
  }

  lemma TwoLinkedSurvivors(r: Reading, order: seq<Account>, k: nat, m: nat)
    requires k < |Unique(r, order)| && m < |Unique(r, order)| && k != m
    requires HasIdentity(r, Unique(r, order)[k]) && Linked(r, order, Unique(r, order)[k], Unique(r, order)[m])
    ensures !OnePerGroup(r, order)
  {
    LinkedIsSymmetric(r, order, Unique(r, order)[k], Unique(r, order)[m]);
    LinkedMeans(r, order, Unique(r, order)[k], Unique(r, order)[m]);
    hide Unique, HasIdentity, Linked;
  }

  lemma BadOrder(r: Reading, rest: seq<Account>, t: Account, x: Account)
    requires Best(r, [t] + rest + [x], t) && Linked(r, [t] + rest + [x], t, x) && !Match(r, t, x)
    ensures !OnePerGroup(r, [t] + rest + [x])
  {
    var order := [t] + rest + [x];
    var front := order[..|order| - 1];
    assert front == [t] + rest;
    FirstBestSurvives(r, t, rest, order);
    SurvivorsAreApart(r, front);
    var unique := Unique(r, front);
    assert Unique(r, order) == Merge(r, unique, x);
    hide Match, Linked, Merge, Settle, Quality, Apart, Unique;
    UnmatchedLastRemains(r, unique, t, x, order);
    var k, m := TwoPlaces(r, unique, x, t);
    TwoLinkedSurvivors(r, order, k, m);
  }

  lemma Without(s: seq<Account>, t: Account) returns (rest: seq<Account>)
    requires t in s
    ensures multiset(s) == multiset{t} + multiset(rest)
    ensures forall x :: x in s && x != t ==> x in rest
  {
    var i :| 0 <= i < |s| && s[i] == t;
    rest := s[..i] + s[i + 1..];
    assert s == s[..i] + [t] + s[i + 1..];
  }

  /** Any two different candidates can come first and last. */
  lemma FirstAndLast(candidates: seq<Account>, t: Account, x: Account) returns (rest: seq<Account>)
    requires t in candidates && x in candidates && t != x
    ensures multiset([t] + rest + [x]) == multiset(candidates)
  {
    var more := Without(candidates, t);
    rest := Without(more, x);
  }

  lemma BestLeavesOneInEveryOrder(r: Reading, candidates: seq<Account>, order: seq<Account>)
    requires BestMatchTheirGroup(r, candidates) && multiset(order) == multiset(candidates)
    ensures OnePerGroup(r, order)
  {
    BestOfPermutation(r, order, candidates);
    hide *;
    BestLeavesOneOfEach(r, order);
  }

  lemma SomeOrderLeavesTwo(r: Reading, candidates: seq<Account>) returns (order: seq<Account>)
    requires !BestMatchTheirGroup(r, candidates)
    ensures multiset(order) == multiset(candidates) && !OnePerGroup(r, order)
  {
    hide Linked, Match, Best, OnePerGroup;
    var t, x :| Best(r, candidates, t) && x in candidates && Linked(r, candidates, t, x) && !Match(r, t, x);
    BestMatchesItself(r, candidates, t);
    var rest := FirstAndLast(candidates, t, x);
    order := [t] + rest + [x];
    LinksOfPermutation(r, candidates, order);
    BestOfSameLinks(r, candidates, order, t);
    BadOrder(r, rest, t, x);
  }

  /** Whatever the order of the candidates, each group leaves one survivor: exactly when every
      best candidate of a group matches the whole group. */
  lemma OneSurvivorPerGroupIff(r: Reading, candidates: seq<Account>)
    ensures (forall order :: multiset(order) == multiset(candidates) ==> OnePerGroup(r, order))
      <==> BestMatchTheirGroup(r, candidates)
  {
    hide *;
    if BestMatchTheirGroup(r, candidates) {
      forall order | multiset(order) == multiset(candidates) ensures OnePerGroup(r, order) {
        BestLeavesOneInEveryOrder(r, candidates, order);
      }
    } else {
      var order := SomeOrderLeavesTwo(r, candidates);
    }
  }

  lemma BestLeavesOneOfEach(r: Reading, order: seq<Account>)
    requires BestMatchTheirGroup(r, order)
    ensures OnePerGroup(r, order)
  {
    var unique := Unique(r, order);
    hide Unique, BestMatchTheirGroup, Linked, HasIdentity;
    forall i, j | 0 <= i < j < |unique| && Linked(r, order, unique[i], unique[j]) ensures !HasIdentity(r, unique[i]) {
      if HasIdentity(r, unique[i]) { BestLeavesOne(r, order, i, j); }
    }
  }

  lemma BestMatchesItself(r: Reading, pool: seq<Account>, t: Account)
    requires Best(r, pool, t)
    ensures Match(r, t, t) && t in pool
  {
    MatchIsSymmetric(r, t, t);
  }

  lemma BestOfSameLinks(r: Reading, p: seq<Account>, q: seq<Account>, t: Account)
    requires Best(r, p, t) && forall x :: x in p <==> x in q
    requires forall a, b :: Linked(r, p, a, b) <==> Linked(r, q, a, b)
    ensures Best(r, q, t)
  {
    hide Linked, HasIdentity, Quality;
  }

  ghost predicate MatchIsTransitive(r: Reading, pool: seq<Account>) {
    forall a, b, c :: a in pool && b in pool && c in pool && Match(r, a, b) && Match(r, b, c) ==> Match(r, a, c)
  }

  lemma {:induction false} PathMatches(r: Reading, pool: seq<Account>, path: seq<Account>, a: Account, b: Account)
    requires MatchIsTransitive(r, pool) && Path(r, pool, path, a, b)
    ensures a == b || Match(r, a, b)
    decreases |path|
  {
    hide Match;
    if |path| > 1 {
      var c := path[|path| - 2];
      assert Match(r, path[|path| - 2], path[|path| - 1]);
      assert Path(r, pool, path[..|path| - 1], a, c);
      PathMatches(r, pool, path[..|path| - 1], a, c);
    }
  }

  lemma TransitiveGroupsMatch(r: Reading, pool: seq<Account>)
    requires MatchIsTransitive(r, pool)
    ensures BestMatchTheirGroup(r, pool)
  {
    forall t, x | Best(r, pool, t) && x in pool && Linked(r, pool, t, x) ensures Match(r, t, x) {
      BestMatchesItself(r, pool, t);
      var path: seq<Account> :| Path(r, pool, path, t, x);
      PathMatches(r, pool, path, t, x);
    }
  }

  /** In particular where matching is transitive on the candidates: two linked survivors are then
      copies of one account without an identity. */
  lemma TransitiveGroupsHaveOneSurvivor(r: Reading, candidates: seq<Account>, i: nat, j: nat)
    requires MatchIsTransitive(r, candidates)
    requires i < j < |Unique(r, candidates)|
        && Linked(r, candidates, Unique(r, candidates)[i], Unique(r, candidates)[j])
    ensures Unique(r, candidates)[i] == Unique(r, candidates)[j] && !HasIdentity(r, Unique(r, candidates)[i])
  {
    hide *;
    TransitiveGroupsMatch(r, candidates);
    if HasIdentity(r, Unique(r, candidates)[i]) { BestLeavesOne(r, candidates, i, j); }
    LinkedMeans(r, candidates, Unique(r, candidates)[i], Unique(r, candidates)[j]);
  }

  function Plain(): Reading { Reading(text => text, text => text) }

  function Rich(): Account { Account("", Some("x"), Some("r"), None) }

  function Bridge(): Account { Account("", Some("x"), None, Some("t")) }

  function Bare(): Account { Account("", None, None, Some("t")) }

  lemma BridgeFacts()
    ensures Linked(Plain(), [Bridge(), Rich(), Bare()], Rich(), Bare())
    ensures Match(Plain(), Bridge(), Rich()) && Match(Plain(), Bridge(), Bare()) && !Match(Plain(), Rich(), Bare())
    ensures Better(Bridge(), Rich()) == Rich() && Better(Bridge(), Bare()) == Bridge()
  {
    var r := Plain();
    assert Match(r, Rich(), Bridge()) && Match(r, Bridge(), Bare());
    hide Match;
    assert Path(r, [Bridge(), Rich(), Bare()], [Rich(), Bridge(), Bare()], Rich(), Bare());
  }

  /** In general they can be: what an absorbed account knew is forgotten, so the result can keep
      two accounts that a third one linked, and how many survive depends on the order. */
  lemma AbsorbedIdentityIsForgotten()
    ensures
      && Linked(Plain(), [Bridge(), Rich(), Bare()], Rich(), Bare())
      && Unique(Plain(), [Bridge(), Rich(), Bare()]) == [Rich(), Bare()]
      && Unique(Plain(), [Bridge(), Bare(), Rich()]) == [Rich()]
  {
    var r := Plain();
    assert Apart(r, [Bridge()]);
    hide *;
    BridgeFacts();
    UniqueOfThree(r, Bridge(), Rich(), Bare());
    UniqueOfThree(r, Bridge(), Bare(), Rich());
    NewIdentityIsAppended(r, [], Bridge());
    OneMatchKeepsThePlace(r, [Bridge()], Rich(), 0);
    OneMatchKeepsThePlace(r, [Bridge()], Bare(), 0);
    NewIdentityIsAppended(r, [Rich()], Bare());
  }

  lemma UniqueOfThree(r: Reading, a: Account, b: Account, c: Account)
    ensures Unique(r, [a, b, c]) == Merge(r, Merge(r, Merge(r, [], a), b), c)
  {
    hide Merge;
    assert [a, b, c][..2] == [a, b] && [a, b][..1] == [a] && [a][..0] == [];
    assert Unique(r, [a]) == Merge(r, [], a);
    assert Unique(r, [a, b]) == Merge(r, Unique(r, [a]), b);
  }

  // The loops.

  /** The loops that look for matches of one candidate: downwards, and again until none is found. */
  method FindAll(r: Reading, kept: seq<Account>, candidate: Account) returns (s: Search)
    ensures s == Settle(r, Begin(kept, candidate)) && !s.foundAnother
  {
    hide *;
    var unique, preferred := kept, candidate;
    var firstMatch: nat := |unique|;
    var foundAnother := true;
    BeginIs(kept, candidate);
    while foundAnother
      invariant
        var now := Search(unique, preferred, firstMatch, foundAnother);
        Settle(r, Begin(kept, candidate)) == if foundAnother then Settle(r, now) else now
      decreases |unique|, foundAnother
    {
      SettleAt(r, Search(unique, preferred, firstMatch, foundAnother));
      ghost var size := |unique|;
      ghost var total := Pass(r, Search(unique, preferred, firstMatch, false), |unique|);
      foundAnother := false;
      var index := |unique|;
      while index > 0
        invariant 0 <= index <= |unique| <= size
        invariant foundAnother ==> |unique| < size
        invariant total == Pass(r, Search(unique, preferred, firstMatch, foundAnother), index)
      {
        PassAt(r, Search(unique, preferred, firstMatch, foundAnother), index);
        AbsorbedIs(Search(unique, preferred, firstMatch, foundAnother), index - 1);
        index := index - 1;
        var current := unique[index];
        FindsIffMatched(r, [current], preferred);
        MatchedByOne(r, current, preferred);
        if FindMatch(r, [current], preferred).Some? {
          preferred := Better(current, preferred);
          firstMatch := Min(firstMatch, index);
          unique := RemoveAt(unique, index);
          foundAnother := true;
        }
      }
      PassAt(r, Search(unique, preferred, firstMatch, foundAnother), 0);
    }
    s := Search(unique, preferred, firstMatch, false);
  }

  lemma BeginIs(unique: seq<Account>, candidate: Account)
    ensures Begin(unique, candidate) == Search(unique, candidate, |unique|, true)
  {}

  lemma AbsorbedIs(s: Search, i: nat)
    requires i < |s.unique|
    ensures Absorbed(s, i) ==
        Search(RemoveAt(s.unique, i), Better(s.unique[i], s.preferred), Min(s.firstMatch, i), true)
    ensures |RemoveAt(s.unique, i)| == |s.unique| - 1
  {}

  lemma MatchedByOne(r: Reading, a: Account, candidate: Account)
    ensures MatchedBy(r, [a], candidate) <==> Match(r, a, candidate)
  {
    assert a in [a];
  }

  lemma InsertedWithoutClamping(r: Reading, unique: seq<Account>, candidate: Account)
    ensures
      var s := Settle(r, Begin(unique, candidate));
      && s.firstMatch <= |s.unique|
      && Merge(r, unique, candidate) == s.unique[..s.firstMatch] + [s.preferred] + s.unique[s.firstMatch..]
  {
    hide Settle;
    SettleIsPlaced(r, Begin(unique, candidate), unique);
  }

  lemma UniqueOfPrefix(r: Reading, candidates: seq<Account>, k: nat)
    requires k < |candidates|
    ensures Unique(r, candidates[..k + 1]) == Merge(r, Unique(r, candidates[..k]), candidates[k])
  {
    hide Merge;
    assert candidates[..k + 1][..k] == candidates[..k];
  }

  lemma UniqueFirstAndLast(r: Reading, candidates: seq<Account>)
    ensures Unique(r, candidates[..0]) == [] && candidates[..|candidates|] == candidates
  {}

  /** uniqueCapturedAntigravityAccounts. The insertion index never exceeds the length, so the
      final splice needs no clamping. */
  method UniqueCaptured(r: Reading, candidates: seq<Account>) returns (unique: seq<Account>)
    ensures unique == Unique(r, candidates)
    ensures NothingRicherIsLost(r, candidates, unique)
  {
    hide *;
    RichestSurvive(r, candidates);
    UniqueFirstAndLast(r, candidates);
    unique := [];
    var k := 0;
    while k < |candidates|
      invariant 0 <= k <= |candidates|
      invariant unique == Unique(r, candidates[..k])
    {
      UniqueOfPrefix(r, candidates, k);
      InsertedWithoutClamping(r, unique, candidates[k]);
      var s := FindAll(r, unique, candidates[k]);
      unique := s.unique[..s.firstMatch] + [s.preferred] + s.unique[s.firstMatch..];
      k := k + 1;
    }
  }

  // Importing.

  function Missing(r: Reading, existing: seq<Account>): Account -> bool {
    c => FindMatch(r, existing, c).None?
  }

  /** The survivors that match no existing account. */
  function New(r: Reading, existing: seq<Account>, candidates: seq<Account>): seq<Account> {
    Filter(Unique(r, candidates), Missing(r, existing))
  }

  /** The nth id handed out is createId(n). */
  function WithIds(accounts: seq<Account>, createId: nat -> string): seq<Account> {
    seq(|accounts|, i requires 0 <= i < |accounts| => accounts[i].(id := createId(i)))
  }

  lemma {:induction false} FilterIsWithin(s: seq<Account>, keep: Account -> bool)
    ensures forall a :: a in Filter(s, keep) <==> a in s && keep(a)
  {
    if s != [] {
      FilterIsWithin(s[..|s| - 1], keep);
      assert s == s[..|s| - 1] + [s[|s| - 1]];
    }
  }

  /** Looking up a survivor in the grown list is looking it up among the existing accounts: the
      accounts added before it are apart from it. */
  lemma OnlyExistingMatter(
      r: Reading, existing: seq<Account>, earlier: seq<Account>, createId: nat -> string, c: Account)
    requires forall a :: a in earlier ==> !Match(r, a, c)
    ensures FindMatch(r, existing + WithIds(earlier, createId), c).None? <==> Missing(r, existing)(c)
  {
    var more := WithIds(earlier, createId);
    FindsIffMatched(r, existing, c);
    FindsIffMatched(r, existing + more, c);
    forall a | a in more ensures !Match(r, a, c) {
      var i :| 0 <= i < |more| && more[i] == a;
      IdDoesNotMatter(r, earlier[i], c, createId(i));
    }
    hide Match, FindMatch, WithIds;
    forall a | a in existing ensures a in existing + more {}
  }

  lemma ImportStep(r: Reading, existing: seq<Account>, unique: seq<Account>, createId: nat -> string, k: nat)
    requires Apart(r, unique) && k < |unique|
    ensures
      var keep := Missing(r, existing);
      var kept := Filter(unique[..k], keep);
      && (FindMatch(r, existing + WithIds(kept, createId), unique[k]).None? <==> keep(unique[k]))
      && Filter(unique[..k + 1], keep) == if keep(unique[k]) then kept + [unique[k]] else kept
  {
    var keep := Missing(r, existing);
    var kept := Filter(unique[..k], keep);
    assert unique[..k + 1][..k] == unique[..k];
    hide Match, FindMatch, Missing;
    FilterIsWithin(unique[..k], keep);
    hide Filter;
    forall a | a in kept ensures !Match(r, a, unique[k]) {}
    hide Apart;
    OnlyExistingMatter(r, existing, kept, createId, unique[k]);
  }

  lemma OneMore(kept: seq<Account>, c: Account, createId: nat -> string)
    ensures WithIds(kept + [c], createId) == WithIds(kept, createId) + [c.(id := createId(|kept|))]
    ensures |WithIds(kept, createId)| == |kept|
  {}

  /** What the loop has stored after the first k survivors. */
  ghost predicate Imported(
      r: Reading, existing: seq<Account>, unique: seq<Account>, createId: nat -> string, k: nat,
      accounts: seq<Account>, added: seq<Account>)
    requires k <= |unique|
  {
    && added == WithIds(Filter(unique[..k], Missing(r, existing)), createId)
    && accounts == existing + added
  }

  lemma ImportedNext(
      r: Reading, existing: seq<Account>, unique: seq<Account>, createId: nat -> string, k: nat,
      accounts: seq<Account>, added: seq<Account>)
    requires Apart(r, unique) && k < |unique| && Imported(r, existing, unique, createId, k, accounts, added)
    ensures
      var stored := [unique[k].(id := createId(|added|))];
      if FindMatch(r, accounts, unique[k]).None?
      then Imported(r, existing, unique, createId, k + 1, accounts + stored, added + stored)
      else Imported(r, existing, unique, createId, k + 1, accounts, added)
  {
    hide Apart, FindMatch, Match, Missing, Filter, WithIds;
    ImportStep(r, existing, unique, createId, k);
    var stored := [unique[k].(id := createId(|added|))];
    OneMore(Filter(unique[..k], Missing(r, existing)), unique[k], createId);
    assert existing + (added + stored) == existing + added + stored;
  }

  lemma ImportedFirstAndLast(r: Reading, existing: seq<Account>, unique: seq<Account>, createId: nat -> string)
    ensures Imported(r, existing, unique, createId, 0, existing, [])
    ensures forall accounts, added :: Imported(r, existing, unique, createId, |unique|, accounts, added) ==>
      added == WithIds(Filter(unique, Missing(r, existing)), createId) && accounts == existing + added
  {
    assert WithIds(Filter([], Missing(r, existing)), createId) == [];
    hide Filter, WithIds, Missing;
    assert unique[..0] == [] && unique[..|unique|] == unique;
  }

  /** The candidate is linked to a survivor at least as rich that is added or matches an existing
      account. */
  ghost predicate IsStored(r: Reading, existing: seq<Account>, candidates: seq<Account>, createId: nat -> string,
                           added: seq<Account>, a: Account) {
    exists b :: b in Unique(r, candidates) && Linked(r, candidates, a, b) && AtLeastAsRich(b, a)
      && (MatchedBy(r, existing, b) || exists i :: 0 <= i < |added| && added[i] == b.(id := createId(i)))
  }

  /** An added account is a survivor with the id handed out for its place. */
  ghost predicate IsSurvivor(
      r: Reading, candidates: seq<Account>, createId: nat -> string, added: seq<Account>, i: nat)
    requires i < |added|
  {
    exists b :: b in Unique(r, candidates) && added[i] == b.(id := createId(i))
  }

  /** Every added account is a survivor with its id, and every candidate is stored. */
  ghost predicate Stored(
      r: Reading, existing: seq<Account>, candidates: seq<Account>, createId: nat -> string, added: seq<Account>) {
    && (forall i :: 0 <= i < |added| ==> IsSurvivor(r, candidates, createId, added, i))
    && (forall a :: a in candidates ==> IsStored(r, existing, candidates, createId, added, a))
  }

  lemma UnmatchedIsAdded(
      r: Reading, existing: seq<Account>, candidates: seq<Account>, createId: nat -> string, b: Account)
    requires b in Unique(r, candidates) && !MatchedBy(r, existing, b)
    ensures
      var added := WithIds(New(r, existing, candidates), createId);
      exists i :: 0 <= i < |added| && added[i] == b.(id := createId(i))
  {
    hide Unique, Match, FindMatch, Filter, MatchedBy;
    FilterIsWithin(Unique(r, candidates), Missing(r, existing));
    FindsIffMatched(r, existing, b);
    var kept := New(r, existing, candidates);
    var i :| 0 <= i < |kept| && kept[i] == b;
    assert WithIds(kept, createId)[i] == b.(id := createId(i));
  }

  lemma AddedAreSurvivors(r: Reading, existing: seq<Account>, candidates: seq<Account>, createId: nat -> string, i: nat)
    requires i < |New(r, existing, candidates)|
    ensures
      var b := New(r, existing, candidates)[i];
      b in Unique(r, candidates) && WithIds(New(r, existing, candidates), createId)[i] == b.(id := createId(i))
  {
    hide Unique, Missing, Filter;
    FilterIsWithin(Unique(r, candidates), Missing(r, existing));
    assert New(r, existing, candidates)[i] in New(r, existing, candidates);
  }

  lemma RichestAreStored(r: Reading, existing: seq<Account>, candidates: seq<Account>, createId: nat -> string)
    ensures Stored(r, existing, candidates, createId, WithIds(New(r, existing, candidates), createId))
  {
    hide Unique, Linked, AtLeastAsRich, MatchedBy, New;
    var added := WithIds(New(r, existing, candidates), createId);
    forall i | 0 <= i < |added| ensures IsSurvivor(r, candidates, createId, added, i) {
      AddedAreSurvivors(r, existing, candidates, createId, i);
    }
    forall a | a in candidates ensures IsStored(r, existing, candidates, createId, added, a) {
      var b := RicherSurvivor(r, candidates, a);
      if !MatchedBy(r, existing, b) { UnmatchedIsAdded(r, existing, candidates, createId, b); }
    }
    hide IsStored, IsSurvivor;
  }

  /** importCapturedAntigravityAccounts */
  method ImportCaptured(r: Reading, existing: seq<Account>, candidates: seq<Account>, createId: nat -> string)
    returns (accounts: seq<Account>, unique: seq<Account>, added: seq<Account>)
    ensures unique == Unique(r, candidates)
    ensures accounts == existing + added
    ensures added == WithIds(New(r, existing, candidates), createId)
    ensures Stored(r, existing, candidates, createId, added)
  {
    NewIs(r, existing, candidates);
    hide *;
    RichestAreStored(r, existing, candidates, createId);
    unique := UniqueCaptured(r, candidates);
    SurvivorsAreApart(r, candidates);
    accounts, added := existing, [];
    ImportedFirstAndLast(r, existing, unique, createId);
    var k := 0;
    while k < |unique|
      invariant 0 <= k <= |unique|
      invariant Imported(r, existing, unique, createId, k, accounts, added)
    {
      var candidate := unique[k];
      ImportedNext(r, existing, unique, createId, k, accounts, added);
      if FindMatch(r, accounts, candidate).None? {
        var account := candidate.(id := createId(|added|));
        accounts := accounts + [account];
        added := added + [account];
      }
      k := k + 1;
    }
  }

  lemma NewIs(r: Reading, existing: seq<Account>, candidates: seq<Account>)
    ensures New(r, existing, candidates) == Filter(Unique(r, candidates), Missing(r, existing))
  {}

  /** What is added matches no existing account, and no two added accounts match. */
  lemma AddedAreNew(r: Reading, existing: seq<Account>, candidates: seq<Account>, createId: nat -> string)
    ensures
      var added := WithIds(New(r, existing, candidates), createId);
      && (forall a, e :: a in added && e in existing ==> !Match(r, e, a))
      && Apart(r, added)
  {
    SurvivorsAreApart(r, candidates);
    var kept := New(r, existing, candidates);
    var added := WithIds(kept, createId);
    FilterIsWithin(Unique(r, candidates), Missing(r, existing));
    FilterStaysApart(r, Unique(r, candidates), Missing(r, existing));
    hide Unique, Match;
    forall a, e | a in added && e in existing ensures !Match(r, e, a) {
      var i :| 0 <= i < |added| && added[i] == a;
      FindsIffMatched(r, existing, kept[i]);
      IdDoesNotMatter(r, kept[i], e, createId(i));
      assert kept[i] in kept;
    }
    forall i, j | 0 <= i < j < |added| ensures !Match(r, added[i], added[j]) {
      IdDoesNotMatter(r, kept[i], kept[j], createId(i));
      IdDoesNotMatter(r, kept[j], added[i], createId(j));
    }
  }

  lemma {:induction false} FilterStaysApart(r: Reading, s: seq<Account>, keep: Account -> bool)
    requires Apart(r, s)
    ensures Apart(r, Filter(s, keep))
  {
    hide Match;
    if s != [] {
      var front, last := s[..|s| - 1], s[|s| - 1];
      FilterStaysApart(r, front, keep);
      FilterIsWithin(front, keep);
      forall a | a in front ensures !Match(r, a, last) {}
    }
  }

  // Importing twice.

  lemma {:induction false} PassKeepsTheUnidentified(r: Reading, s: Search, n: nat, a: Account)
    requires n <= |s.unique| && !HasIdentity(r, a) && a in s.unique + [s.preferred]
    ensures a in Pass(r, s, n).unique + [Pass(r, s, n).preferred]
    decreases n
  {
    hide Better;
    if n > 0 {
      if Match(r, s.unique[n - 1], s.preferred) {
        var t := Absorbed(s, n - 1);
        var i :| 0 <= i < |s.unique| && s.unique[i] == a;
        assert i != n - 1;
        assert t.unique[if i < n - 1 then i else i - 1] == a;
        PassKeepsTheUnidentified(r, t, n - 1, a);
      } else {
        PassKeepsTheUnidentified(r, s, n - 1, a);
      }
    }
  }

  lemma {:induction false} SettleKeepsTheUnidentified(r: Reading, s: Search, a: Account)
    requires !HasIdentity(r, a) && a in s.unique + [s.preferred]
    ensures a in Settle(r, s).unique + [Settle(r, s).preferred]
    decreases |s.unique|
  {
    hide HasIdentity, Pass;
    var u := s.(foundAnother := false);
    PassKeepsTheUnidentified(r, u, |s.unique|, a);
    var t := Pass(r, u, |s.unique|);
    if t.foundAnother { SettleKeepsTheUnidentified(r, t, a); }
  }

  /** A candidate with no identity matches nothing and always survives. */
  lemma {:induction false} TheUnidentifiedSurvive(r: Reading, candidates: seq<Account>, a: Account)
    requires a in candidates && !HasIdentity(r, a)
    ensures a in Unique(r, candidates)
  {
    hide HasIdentity, Settle, Merge;
    var front, last := candidates[..|candidates| - 1], candidates[|candidates| - 1];
    assert candidates == front + [last];
    var unique := Unique(r, front);
    if a in front { TheUnidentifiedSurvive(r, front, a); }
    var s := Settle(r, Begin(unique, last));
    SettleKeepsTheUnidentified(r, Begin(unique, last), a);
    MergePlaces(r, unique, last);
    SettleIsPlaced(r, Begin(unique, last), unique);
    assert s.unique == s.unique[..s.firstMatch] + s.unique[s.firstMatch..];
  }

  /** Importing the same candidates again adds nothing exactly when each of them has an e-mail
      address, a refresh token or an access token. */
  lemma SecondImportAddsNothing(r: Reading, existing: seq<Account>, candidates: seq<Account>, createId: nat -> string)
    ensures
      var accounts := existing + WithIds(New(r, existing, candidates), createId);
      New(r, accounts, candidates) == [] <==> forall c :: c in candidates ==> HasIdentity(r, c)
  {
    var kept := New(r, existing, candidates);
    var accounts := existing + WithIds(kept, createId);
    var unique := Unique(r, candidates);
    SurvivorsAreApart(r, candidates);
    FilterIsWithin(unique, Missing(r, existing));
    FilterIsWithin(unique, Missing(r, accounts));
    forall c | c in unique ensures Missing(r, accounts)(c) <==> !HasIdentity(r, c) {
      FoundAgain(r, existing, kept, createId, c);
    }
    forall c | c in candidates && !HasIdentity(r, c) ensures c in unique {
      TheUnidentifiedSurvive(r, candidates, c);
    }
    hide Unique, HasIdentity, Missing, Filter, WithIds;
    if c :| c in candidates && !HasIdentity(r, c) {
      assert c in New(r, accounts, candidates);
    } else if New(r, accounts, candidates) != [] {
      assert New(r, accounts, candidates)[0] in unique;
    }
  }

  lemma FoundAgain(r: Reading, existing: seq<Account>, kept: seq<Account>, createId: nat -> string, c: Account)
    requires Missing(r, existing)(c) ==> c in kept
    ensures Missing(r, existing + WithIds(kept, createId))(c) <==> !HasIdentity(r, c)
  {
    var accounts := existing + WithIds(kept, createId);
    FindsIffMatched(r, existing, c);
    FindsIffMatched(r, accounts, c);
    if HasIdentity(r, c) && Missing(r, existing)(c) {
      var i :| 0 <= i < |kept| && kept[i] == c;
      MatchIsSymmetric(r, c, c);
      IdDoesNotMatter(r, c, c, createId(i));
      assert accounts[|existing| + i] == c.(id := createId(i));
    } else if HasIdentity(r, c) {
      var a :| a in existing && Match(r, a, c);
      assert a in accounts;
    }
  }
}
