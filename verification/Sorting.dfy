/** Filtering and stable sorting of sequences, as the standard libraries provide them. */
module Sorting {

  function Filter<T>(s: seq<T>, keep: T -> bool): (r: seq<T>)
    ensures |r| <= |s|
  {
    if s == [] then [] else Filter(s[..|s| - 1], keep) + if keep(s[|s| - 1]) then [s[|s| - 1]] else []
  }

  /** Puts x behind every element whose key is not greater. */
  function Insert<T>(sorted: seq<T>, x: T, key: T -> real): (r: seq<T>)
    ensures |r| == |sorted| + 1
  {
    if sorted == [] || key(sorted[|sorted| - 1]) <= key(x) then sorted + [x]
    else Insert(sorted[..|sorted| - 1], x, key) + [sorted[|sorted| - 1]]
  }

  /** Elements with equal keys keep their order. */
  function StableSort<T>(s: seq<T>, key: T -> real): (r: seq<T>)
    ensures |r| == |s|
  {
    if s == [] then [] else Insert(StableSort(s[..|s| - 1], key), s[|s| - 1], key)
  }

  ghost predicate Sorted<T>(s: seq<T>, key: T -> real) {
    forall i, j :: 0 <= i < j < |s| ==> key(s[i]) <= key(s[j])
  }

  ghost predicate DistinctKeys<T>(s: seq<T>, key: T -> real) {
    forall i, j :: 0 <= i < j < |s| ==> key(s[i]) != key(s[j])
  }

  lemma {:induction false} FilterConcat<T>(a: seq<T>, b: seq<T>, keep: T -> bool)
    ensures Filter(a + b, keep) == Filter(a, keep) + Filter(b, keep)
  {
    if b == [] {
      assert a + b == a;
    } else {
      FilterConcat(a, b[..|b| - 1], keep);
      assert (a + b)[..|a + b| - 1] == a + b[..|b| - 1];
    }
  }

  lemma {:induction false} FilterCounts<T>(s: seq<T>, keep: T -> bool, x: T)
    ensures multiset(Filter(s, keep))[x] == if keep(x) then multiset(s)[x] else 0
  {
    if s != [] {
      FilterCounts(s[..|s| - 1], keep, x);
      assert s == s[..|s| - 1] + [s[|s| - 1]];
    }
  }

  lemma FilterOfPermutation<T(!new)>(s: seq<T>, t: seq<T>, keep: T -> bool)
    requires multiset(s) == multiset(t)
    ensures multiset(Filter(s, keep)) == multiset(Filter(t, keep))
  {
    hide Filter;
    var a, b := multiset(Filter(s, keep)), multiset(Filter(t, keep));
    forall x: T ensures a[x] == b[x] {
      FilterCounts(s, keep, x);
      FilterCounts(t, keep, x);
    }
    assert a == b;
  }

  lemma SortedThenGreatest<T>(s: seq<T>, x: T, key: T -> real)
    requires Sorted(s, key) && forall y :: y in multiset(s) ==> key(y) <= key(x)
    ensures Sorted(s + [x], key)
  {
    forall i | 0 <= i < |s| ensures key(s[i]) <= key(x) { assert s[i] in multiset(s); }
  }

  lemma LastIsGreatest<T>(s: seq<T>, key: T -> real)
    requires Sorted(s, key) && s != []
    ensures forall x :: x in multiset(s) ==> key(x) <= key(s[|s| - 1])
  {
    forall x | x in multiset(s) ensures key(x) <= key(s[|s| - 1]) { assert x in s; }
  }

  lemma DropLast<T>(s: seq<T>)
    requires s != []
    ensures s == s[..|s| - 1] + [s[|s| - 1]]
    ensures multiset(s) == multiset(s[..|s| - 1]) + multiset{s[|s| - 1]}
  {
    assert s == s[..|s| - 1] + [s[|s| - 1]];
  }

  lemma {:induction false} InsertIs<T>(sorted: seq<T>, x: T, key: T -> real)
    requires Sorted(sorted, key)
    ensures Sorted(Insert(sorted, x, key), key)
    ensures multiset(Insert(sorted, x, key)) == multiset(sorted) + multiset{x}
  {
    if sorted != [] {
      var front, last := sorted[..|sorted| - 1], sorted[|sorted| - 1];
      DropLast(sorted);
      LastIsGreatest(sorted, key);
      if key(last) <= key(x) {
        SortedThenGreatest(sorted, x, key);
      } else {
        InsertIs(front, x, key);
        assert Insert(sorted, x, key) == Insert(front, x, key) + [last];
        SortedThenGreatest(Insert(front, x, key), last, key);
      }
      hide Insert, Sorted;
    }
  }

  lemma {:induction false} StableSortIs<T>(s: seq<T>, key: T -> real)
    ensures Sorted(StableSort(s, key), key)
    ensures multiset(StableSort(s, key)) == multiset(s)
  {
    if s != [] {
      StableSortIs(s[..|s| - 1], key);
      InsertIs(StableSort(s[..|s| - 1], key), s[|s| - 1], key);
      assert s == s[..|s| - 1] + [s[|s| - 1]];
    }
  }

  lemma SameLast<T>(s: seq<T>, t: seq<T>, key: T -> real)
    requires multiset(s) == multiset(t) && Sorted(s, key) && Sorted(t, key) && DistinctKeys(s, key) && s != []
    ensures t != [] && s[|s| - 1] == t[|t| - 1]
  {
    var a := s[|s| - 1];
    assert a in multiset(t);
    var b := t[|t| - 1];
    LastIsGreatest(s, key);
    LastIsGreatest(t, key);
    assert b in multiset(s);
    assert b in s;
  }

  lemma FrontsAlike<T>(s: seq<T>, t: seq<T>, key: T -> real)
    requires s != [] && t != [] && multiset(s) == multiset(t) && s[|s| - 1] == t[|t| - 1]
    requires Sorted(s, key) && Sorted(t, key) && DistinctKeys(s, key)
    ensures multiset(s[..|s| - 1]) == multiset(t[..|t| - 1])
    ensures Sorted(s[..|s| - 1], key) && Sorted(t[..|t| - 1], key) && DistinctKeys(s[..|s| - 1], key)
  {
    DropLast(s);
    DropLast(t);
    FrontIsSorted(s, key);
    FrontIsSorted(t, key);
    hide Sorted, DistinctKeys;
    assert multiset(s[..|s| - 1]) == multiset(s) - multiset{s[|s| - 1]};
    assert multiset(t[..|t| - 1]) == multiset(t) - multiset{t[|t| - 1]};
  }

  lemma FrontIsSorted<T>(s: seq<T>, key: T -> real)
    requires s != []
    ensures Sorted(s, key) ==> Sorted(s[..|s| - 1], key)
    ensures DistinctKeys(s, key) ==> DistinctKeys(s[..|s| - 1], key)
  {}

  /** Sequences with the same elements, sorted by distinct keys, are equal. */
  lemma {:induction false} SortedIsUnique<T>(s: seq<T>, t: seq<T>, key: T -> real)
    requires multiset(s) == multiset(t) && Sorted(s, key) && Sorted(t, key) && DistinctKeys(s, key)
    ensures s == t
    decreases |s|
  {
    if s != [] {
      SameLast(s, t, key);
      FrontsAlike(s, t, key);
      hide *;
      SortedIsUnique(s[..|s| - 1], t[..|t| - 1], key);
      DropLast(s);
      DropLast(t);
    } else {
      assert |multiset(t)| == |t|;
    }
  }

  lemma {:induction false} DistinctKeysOfPermutation<T>(s: seq<T>, t: seq<T>, key: T -> real)
    requires multiset(s) == multiset(t) && DistinctKeys(s, key)
    ensures DistinctKeys(t, key)
  {
    forall i, j | 0 <= i < j < |t| ensures key(t[i]) != key(t[j]) {
      if key(t[i]) == key(t[j]) {
        assert t[i] in multiset(s) && t[j] in multiset(s);
        assert t[i] in s && t[j] in s;
        var x := t[i];
        assert t[i] == t[j];
        TwoOccurrences(t, i, j);
        OneOccurrence(s, key, x);
      }
    }
  }

  lemma TwoOccurrences<T>(t: seq<T>, i: nat, j: nat)
    requires i < j < |t| && t[i] == t[j]
    ensures multiset(t)[t[i]] >= 2
  {
    assert t == t[..j] + [t[j]] + t[j + 1..];
    assert t[i] in t[..j];
  }

  lemma {:induction false} OneOccurrence<T>(s: seq<T>, key: T -> real, x: T)
    requires DistinctKeys(s, key)
    ensures multiset(s)[x] <= 1
  {
    if s != [] {
      OneOccurrence(s[..|s| - 1], key, x);
      assert s == s[..|s| - 1] + [s[|s| - 1]];
      if s[|s| - 1] == x { assert x !in s[..|s| - 1]; }
    }
  }

  /** With distinct keys the order of the input does not matter. */
  lemma SortOfPermutation<T>(s: seq<T>, t: seq<T>, key: T -> real)
    requires multiset(s) == multiset(t) && DistinctKeys(s, key)
    ensures StableSort(s, key) == StableSort(t, key)
  {
    StableSortIs(s, key);
    StableSortIs(t, key);
    DistinctKeysOfPermutation(s, StableSort(s, key), key);
    SortedIsUnique(StableSort(s, key), StableSort(t, key), key);
  }

  lemma FilterLast<T>(s: seq<T>, keep: T -> bool)
    requires s != []
    ensures Filter(s, keep) == Filter(s[..|s| - 1], keep) + if keep(s[|s| - 1]) then [s[|s| - 1]] else []
  {}

  lemma {:induction false} FilterKeepsAll<T>(s: seq<T>, keep: T -> bool)
    requires forall x :: x in s ==> keep(x)
    ensures Filter(s, keep) == s
  {
    if s != [] {
      FilterLast(s, keep);
      hide Filter;
      DropLast(s);
      FilterKeepsAll(s[..|s| - 1], keep);
    }
  }

  lemma SortedFront<T>(s: seq<T>, key: T -> real)
    requires Sorted(s, key) && s != []
    ensures Sorted(s[..|s| - 1], key)
    ensures Insert(s[..|s| - 1], s[|s| - 1], key) == s
  {
    DropLast(s);
  }

  /** Sorting a sorted sequence changes nothing. */
  lemma {:induction false} SortOfSorted<T>(s: seq<T>, key: T -> real)
    requires Sorted(s, key)
    ensures StableSort(s, key) == s
  {
    hide Sorted, Insert;
    if s != [] {
      SortedFront(s, key);
      SortOfSorted(s[..|s| - 1], key);
    }
  }

  function Having<T>(key: T -> real, k: real): T -> bool {
    x => key(x) == k
  }

  lemma NotBoth<T>(x: T, last: T, key: T -> real, k: real)
    requires key(last) > key(x)
    ensures Filter([last], Having(key, k)) == [] || Filter([x], Having(key, k)) == []
  {}

  lemma Swapped<T>(a: seq<T>, b: seq<T>, c: seq<T>)
    requires b == [] || c == []
    ensures a + b + c == a + c + b
  {}

  lemma {:induction false} InsertIsStable<T>(sorted: seq<T>, x: T, key: T -> real, k: real)
    ensures Filter(Insert(sorted, x, key), Having(key, k)) ==
        Filter(sorted, Having(key, k)) + Filter([x], Having(key, k))
  {
    hide Filter, Having;
    var keep := Having(key, k);
    FilterConcat(sorted, [x], keep);
    if sorted != [] && key(sorted[|sorted| - 1]) > key(x) {
      var front, last := sorted[..|sorted| - 1], sorted[|sorted| - 1];
      InsertIsStable(front, x, key, k);
      assert Insert(sorted, x, key) == Insert(front, x, key) + [last];
      hide Insert;
      assert sorted == front + [last];
      NotBoth(x, last, key, k);
      FilterConcat(Insert(front, x, key), [last], keep);
      FilterConcat(front, [last], keep);
      Swapped(Filter(front, keep), Filter([x], keep), Filter([last], keep));
    }
  }

  /** Elements with the same key keep their order. */
  lemma {:induction false} StableSortIsStable<T>(s: seq<T>, key: T -> real, k: real)
    ensures Filter(StableSort(s, key), Having(key, k)) == Filter(s, Having(key, k))
  {
    if s != [] {
      var front, last := s[..|s| - 1], s[|s| - 1];
      StableSortIsStable(front, key, k);
      InsertIsStable(StableSort(front, key), last, key, k);
      assert s == front + [last];
      FilterConcat(front, [last], Having(key, k));
    }
  }

  lemma {:induction false} FilterDropsAll<T>(s: seq<T>, keep: T -> bool)
    requires forall x :: x in s ==> !keep(x)
    ensures Filter(s, keep) == []
  {
    if s != [] {
      FilterLast(s, keep);
      hide Filter;
      DropLast(s);
      FilterDropsAll(s[..|s| - 1], keep);
    }
  }

  function AtMost<T>(key: T -> real, v: real): T -> bool {
    x => key(x) <= v
  }

  /** In a sorted sequence the elements up to a bound are a prefix. */
  lemma CountAtMost<T>(s: seq<T>, key: T -> real, v: real, i: nat)
    requires Sorted(s, key) && i < |s|
    ensures key(s[i]) <= v ==> |Filter(s, AtMost(key, v))| > i
    ensures key(s[i]) > v ==> |Filter(s, AtMost(key, v))| <= i
  {
    hide Filter;
    var keep := AtMost(key, v);
    if key(s[i]) <= v {
      assert s == s[..i + 1] + s[i + 1..];
      assert forall j :: 0 <= j <= i ==> keep(s[j]);
      FilterKeepsAll(s[..i + 1], keep);
      FilterConcat(s[..i + 1], s[i + 1..], keep);
    } else {
      assert s == s[..i] + s[i..];
      assert forall j :: i <= j < |s| ==> !keep(s[j]);
      FilterDropsAll(s[i..], keep);
      FilterConcat(s[..i], s[i..], keep);
    }
  }

  /** Sorted sequences with the same elements have the same keys at the same places. */
  lemma SortedKeysAgree<T(!new)>(s: seq<T>, t: seq<T>, key: T -> real)
    requires multiset(s) == multiset(t) && Sorted(s, key) && Sorted(t, key)
    ensures |s| == |t| && forall i :: 0 <= i < |s| ==> key(s[i]) == key(t[i])
  {
    hide Filter, Sorted;
    assert |multiset(s)| == |s| && |multiset(t)| == |t|;
    forall i | 0 <= i < |s| ensures key(s[i]) == key(t[i]) {
      var v := if key(s[i]) <= key(t[i]) then key(s[i]) else key(t[i]);
      CountAtMost(s, key, v, i);
      CountAtMost(t, key, v, i);
      SameSize(s, t, AtMost(key, v));
    }
  }

  lemma SameSize<T(!new)>(s: seq<T>, t: seq<T>, keep: T -> bool)
    requires multiset(s) == multiset(t)
    ensures |Filter(s, keep)| == |Filter(t, keep)|
  {
    FilterOfPermutation(s, t, keep);
    hide Filter;
    assert |multiset(Filter(s, keep))| == |Filter(s, keep)| && |multiset(Filter(t, keep))| == |Filter(t, keep)|;
  }

  /** An element whose key is greatest comes last when it was last. */
  lemma GreatestStaysLast<T>(front: seq<T>, x: T, key: T -> real)
    requires forall y :: y in front ==> key(y) <= key(x)
    ensures StableSort(front + [x], key) == StableSort(front, key) + [x]
  {
    StableSortIs(front, key);
    var sorted := StableSort(front, key);
    assert (front + [x])[..|front|] == front;
    assert StableSort(front + [x], key) == Insert(sorted, x, key);
    hide StableSort, Sorted;
    if sorted != [] {
      assert sorted[|sorted| - 1] in multiset(sorted);
      assert sorted[|sorted| - 1] in front;
    }
  }

  lemma FilterMembers<T>(s: seq<T>, keep: T -> bool, x: T)
    ensures x in Filter(s, keep) <==> x in s && keep(x)
  {
    FilterCounts(s, keep, x);
    hide Filter;
    assert x in Filter(s, keep) <==> x in multiset(Filter(s, keep));
    assert x in s <==> x in multiset(s);
  }

  lemma FilterIsWithin<T>(s: seq<T>, keep: T -> bool, x: T)
    requires x in Filter(s, keep)
    ensures x in s && keep(x)
  {
    FilterCounts(s, keep, x);
    hide Filter;
    assert x in multiset(Filter(s, keep));
    assert x in multiset(s);
  }

  lemma {:induction false} FilterOfSorted<T>(s: seq<T>, keep: T -> bool, key: T -> real)
    requires Sorted(s, key)
    ensures Sorted(Filter(s, keep), key)
  {
    if s != [] {
      var front, last := s[..|s| - 1], s[|s| - 1];
      FilterLast(s, keep);
      FrontIsSorted(s, key);
      FilterOfSorted(front, keep, key);
      LastIsGreatest(s, key);
      hide Filter, Sorted;
      if keep(last) {
        forall y | y in multiset(Filter(front, keep)) ensures key(y) <= key(last) {
          assert y in Filter(front, keep);
          FilterIsWithin(front, keep, y);
          DropLast(s);
          assert y in multiset(front);
        }
        SortedThenGreatest(Filter(front, keep), last, key);
      }
    }
  }

  /** Keeping more first makes no difference. */
  lemma {:induction false} FilterTwice<T(!new)>(s: seq<T>, first: T -> bool, second: T -> bool)
    requires forall x :: second(x) ==> first(x)
    ensures Filter(Filter(s, first), second) == Filter(s, second)
  {
    if s != [] {
      var front, last := s[..|s| - 1], s[|s| - 1];
      FilterLast(s, first);
      FilterLast(s, second);
      FilterTwice(front, first, second);
      if first(last) { FilterConcat(Filter(front, first), [last], second); }
      assert Filter([last], second) == if second(last) then [last] else [];
      hide Filter;
      assert Filter(front, first) + [] == Filter(front, first);
      assert Filter(front, second) + [] == Filter(front, second);
    }
  }

  /** Keeping what is dropped later leaves nothing. */
  lemma FilterApart<T(!new)>(s: seq<T>, first: T -> bool, second: T -> bool)
    requires forall x :: !(first(x) && second(x))
    ensures Filter(Filter(s, first), second) == []
  {
    hide Filter;
    forall x | x in Filter(s, first) ensures !second(x) { FilterIsWithin(s, first, x); }
    FilterDropsAll(Filter(s, first), second);
  }
}
