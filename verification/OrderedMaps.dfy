/** A JavaScript `Map<string, string>`: iteration follows insertion order, and
    setting a key that is already present keeps its place. */
module OrderedMaps {
  import opened Prelude

  datatype OrderedMap = OrderedMap(keys: seq<string>, values: map<string, string>) {

    ghost predicate Valid() {
      && Distinct(keys)
      && (forall k :: k in keys <==> k in values)
    }

    function Get(key: string): Option<string> { Lookup(values, key) }

    function Set(key: string, value: string): (r: OrderedMap)
      ensures r.values == values[key := value]
      ensures Valid() ==> r.Valid()
    {
      OrderedMap(if key in values then keys else keys + [key], values[key := value])
    }

    function Delete(key: string): (r: OrderedMap)
      ensures r.values == values - {key}
      ensures Valid() ==> r.Valid()
    {
      OrderedMap(Without(keys, key), values - {key})
    }
  }

  const EMPTY := OrderedMap([], map[])

  function Without(keys: seq<string>, key: string): (r: seq<string>)
    ensures forall k :: k in r <==> k in keys && k != key
    ensures Distinct(keys) ==> Distinct(r)
  {
    if keys == [] then []
    else
      var rest := Without(keys[1..], key);
      assert forall k :: k in keys <==> k == keys[0] || k in keys[1..];
      assert Distinct(keys) ==> Distinct(keys[1..]) && keys[0] !in keys[1..];
      if keys[0] == key then rest
      else
        assert Distinct(keys) ==> Distinct([keys[0]] + rest) by {
          if Distinct(keys) { assert keys[0] !in rest; }
        }
        [keys[0]] + rest
  }
}
