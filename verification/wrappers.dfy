/** Optional values, standing for the source's `undefined`-able fields and map lookups. */
module Wrappers {

  datatype Option<+T> = None | Some(value: T)

  /** The value stored under `k`, or None when `k` is not a key of `m`. */
  function Lookup<K, V>(m: map<K, V>, k: K): (r: Option<V>)
    ensures r.Some? <==> k in m
    ensures r.Some? ==> r.value == m[k]
  {
    if k in m then Some(m[k]) else None
  }
}
