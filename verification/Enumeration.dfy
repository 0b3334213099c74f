/** The order in which the adapter lists its keys (src/utils/auth/secure-storage.ts:150-161). */
module Enumeration {
  import opened Prelude
  import opened OrderedMaps
  import opened StorageKeys
  import opened SecureStorage
  import opened StorageAdapter

  lemma WithoutFront(x: string, rest: seq<string>, key: string)
    ensures Without([x] + rest, key) == (if x == key then [] else [x]) + Without(rest, key)
  {
    assert ([x] + rest)[1..] == rest;
  }

  lemma WithoutNothing(key: string)
    ensures Without([], key) == []
  {}

  lemma {:induction false} WithoutConcat(a: seq<string>, b: seq<string>, key: string)
    ensures Without(a + b, key) == Without(a, key) + Without(b, key)
  {
    hide *;
    if a == [] {
      assert a + b == b;
      WithoutNothing(key);
    } else {
      var x, rest := a[0], a[1..];
      assert a == [x] + rest && a + b == [x] + (rest + b);
      WithoutConcat(rest, b, key);
      WithoutFront(x, rest, key);
      WithoutFront(x, rest + b, key);
    }
  }

  lemma {:induction false} WithoutAbsent(keys: seq<string>, key: string)
    requires key !in keys
    ensures Without(keys, key) == keys
  {
    hide *;
    if keys == [] {
      WithoutNothing(key);
    } else {
      assert keys == [keys[0]] + keys[1..];
      WithoutAbsent(keys[1..], key);
      WithoutFront(keys[0], keys[1..], key);
    }
  }

  /** Setting a key again keeps its place, a new one goes to the end, and neither setting nor
      deleting one moves another. */
  lemma MapKeepsTheOrder(m: OrderedMap, key: string, value: string)
    requires m.Valid()
    ensures m.Set(key, value).keys == if m.Get(key).Some? then m.keys else m.keys + [key]
    ensures Without(m.Set(key, value).keys, key) == Without(m.keys, key) == Without(m.Delete(key).keys, key)
  {
    assert m.Set(key, value).keys == if m.Get(key).Some? then m.keys else m.keys + [key];
    assert m.Delete(key).keys == Without(m.keys, key);
    hide *;
    WithoutAbsent(Without(m.keys, key), key);
    WithoutConcat(m.keys, [key], key);
    WithoutFront(key, [], key);
    WithoutNothing(key);
    assert [key] == [key] + [];
  }

  lemma VisibleAfterAWrite(backed: string -> bool, s: State, key: string, value: string)
    ensures
      var native, cache := s.world.native, s.cache;
      && Visible(Step(backed, s, Event.SetItem(key, value))) ==
         (if IsSensitive(key) then native.keys + cache.Set(key, value).keys
          else native.Set(key, value).keys + cache.keys)
      && Visible(Step(backed, s, Event.RemoveItem(key))) ==
         (if IsSensitive(key) then native.keys + cache.Delete(key).keys else native.Delete(key).keys + cache.keys)
  {
    hide IsSensitive, Without;
  }

  lemma PartsAreApart(s: State)
    requires Inv(s)
    ensures s.world.native.Valid() && s.cache.Valid()
    ensures forall k :: k in s.world.native.keys ==> !IsSensitive(k)
    ensures forall k :: k in s.cache.keys ==> IsSensitive(k)
  {}

  lemma WritingInFront(native: OrderedMap, keys: seq<string>, key: string, value: string)
    requires native.Valid()
    ensures
      Without(native.Set(key, value).keys + keys, key) == Without(native.keys + keys, key)
        == Without(native.Delete(key).keys + keys, key)
  {
    hide *;
    MapKeepsTheOrder(native, key, value);
    WithoutConcat(native.keys, keys, key);
    WithoutConcat(native.Set(key, value).keys, keys, key);
    WithoutConcat(native.Delete(key).keys, keys, key);
  }

  lemma WritingBehind(keys: seq<string>, cache: OrderedMap, key: string, value: string)
    requires cache.Valid()
    ensures
      Without(keys + cache.Set(key, value).keys, key) == Without(keys + cache.keys, key)
        == Without(keys + cache.Delete(key).keys, key)
    ensures cache.Get(key).None? ==> keys + cache.Set(key, value).keys == keys + cache.keys + [key]
  {
    hide *;
    MapKeepsTheOrder(cache, key, value);
    WithoutConcat(keys, cache.keys, key);
    WithoutConcat(keys, cache.Set(key, value).keys, key);
    WithoutConcat(keys, cache.Delete(key).keys, key);
    if cache.Get(key).None? { assert keys + (cache.keys + [key]) == keys + cache.keys + [key]; }
  }

  /** A write leaves the other keys in their order.  Writing a readable key again changes nothing,
      and a new credential comes last. */
  lemma WritesKeepTheOrder(backed: string -> bool, s: State, key: string, value: string)
    requires Inv(s)
    ensures
      var t, u := Step(backed, s, Event.SetItem(key, value)), Step(backed, s, Event.RemoveItem(key));
      && Without(Visible(t), key) == Without(Visible(s), key) == Without(Visible(u), key)
      && (Read(s, key).Some? ==> Visible(t) == Visible(s))
      && (Read(s, key).None? && IsSensitive(key) ==> Visible(t) == Visible(s) + [key])
  {
    PartsAreApart(s);
    hide IsSensitive, Inv, Step, Without;
    VisibleAfterAWrite(backed, s, key, value);
    MapKeepsTheOrder(s.world.native, key, value);
    MapKeepsTheOrder(s.cache, key, value);
    if IsSensitive(key) {
      WritingBehind(s.world.native.keys, s.cache, key, value);
    } else {
      WritingInFront(s.world.native, s.cache.keys, key, value);
    }
  }

  /** No plain key is listed behind a credential. */
  lemma CredentialsComeLast(s: State, i: nat, j: nat)
    requires Inv(s) && i < j < |Visible(s)| && IsSensitive(Visible(s)[i])
    ensures IsSensitive(Visible(s)[j])
  {
    PartsAreApart(s);
    hide Inv, IsSensitive;
  }
}
