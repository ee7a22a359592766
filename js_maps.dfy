/**
 * A JavaScript `Map`: keys with values, iterated in the order the keys were
 * first inserted. `set` on a present key replaces its value and keeps its
 * place; `set` on a new key appends it.
 */
module JsMaps {
  import opened Wrappers

  datatype JsMap<K(==,!new), V> = JsMap(keys: seq<K>, vals: map<K, V>)
  {
    /** Each key once in `keys`, and exactly the keys of `vals`. */
    ghost predicate Valid()
    {
      (forall i, j :: 0 <= i < j < |keys| ==> keys[i] != keys[j])
      && (forall k :: k in vals <==> k in keys)
    }

    /** `map.get(k)`: the value under `k`, `undefined` when there is none. */
    function Get(k: K): Option<V>
    {
      if k in vals then Some(vals[k]) else None
    }

    /** `map.set(k, v)`. */
    function Set(k: K, v: V): (r: JsMap<K, V>)
      ensures Valid() ==> r.Valid()
      ensures r.Get(k) == Some(v)
      ensures forall k' :: k' != k ==> r.Get(k') == Get(k')
      ensures k in vals ==> r.keys == keys
      ensures k !in vals ==> r.keys == keys + [k]
      ensures r.vals == vals[k := v]
    {
      JsMap(if k in vals then keys else keys + [k], vals[k := v])
    }

    /** `[...map.values()]`: the values in key order. */
    function Values(): (r: seq<V>)
      requires Valid()
      ensures |r| == |keys|
      ensures forall i :: 0 <= i < |keys| ==> r[i] == vals[keys[i]]
    {
      seq(|keys|, i requires 0 <= i < |keys| => vals[keys[i]])
    }

    /** `[...map.entries()]`: the pairs in key order. */
    function Entries(): (r: seq<(K, V)>)
      requires Valid()
      ensures |r| == |keys|
      ensures forall i :: 0 <= i < |keys| ==> r[i] == (keys[i], vals[keys[i]])
    {
      seq(|keys|, i requires 0 <= i < |keys| => (keys[i], vals[keys[i]]))
    }
  }

  /** `new Map()`, and what `map.clear()` leaves. */
  function Empty<K(==,!new), V>(): (r: JsMap<K, V>)
    ensures r.Valid() && r.keys == [] && forall k :: r.Get(k) == None
  {
    JsMap([], map[])
  }
}
