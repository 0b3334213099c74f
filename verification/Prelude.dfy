/** Small datatypes shared by every module. */
module Prelude {

  datatype Option<+T> = None | Some(value: T)

  /** The outcome of code that may raise an exception instead of returning. */
  datatype Outcome<+T> = Returned(value: T) | Raised

  function Max(a: nat, b: nat): nat { if a >= b then a else b }

  function Min(a: nat, b: nat): nat { if a <= b then a else b }

  ghost predicate Distinct<T(!new)>(s: seq<T>) {
    forall i, j :: 0 <= i < j < |s| ==> s[i] != s[j]
  }

  function Lookup<V>(m: map<string, V>, key: string): Option<V> {
    if key in m then Some(m[key]) else None
  }
}
