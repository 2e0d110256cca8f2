/** The result shapes and small tools the models share. */
module Wrappers {
  datatype Option<+T> = None | Some(value: T)

  /** What a Go function returning (T, error) returns. */
  datatype Result<+T, +E> = Ok(value: T) | Err(error: E)

  /** What a Go map holds at a key, and whether it holds anything. */
  function Lookup<K, V>(m: map<K, V>, k: K): Option<V> {
    if k in m then Some(m[k]) else None
  }

  function Min(a: int, b: int): int {
    if a <= b then a else b
  }

  lemma EmptyOrNot<T>(s: set<T>)
    ensures s == {} || exists x :: x in s
  {
    if !exists x :: x in s {
      assert s == {};
    }
  }

  /** Some element: a scan of rows visits them in no particular order. */
  method AnyOf<T>(s: set<T>) returns (x: T)
    requires s != {}
    ensures x in s
  {
    EmptyOrNot(s);
    x :| x in s;
  }

  /** How many of the first n operations fail, when works says which succeed. */
  ghost function FaultsIn(works: nat -> bool, n: nat): nat {
    if n == 0 then 0 else FaultsIn(works, n - 1) + if works(n - 1) then 0 else 1
  }
}
