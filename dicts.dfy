/**
 * Insertion-ordered string-keyed dictionaries, as Python's `dict` is: a map
 * together with the order in which its keys were first inserted.
 */
module Dicts {

  datatype Dict<V> = Dict(keys: seq<string>, entries: map<string, V>) {

    /** Every key is listed once, and exactly the keys of `entries` are listed. */
    ghost predicate Valid() {
      && (forall a, b :: 0 <= a < b < |keys| ==> keys[a] != keys[b])
      && (forall k :: k in entries <==> k in keys)
    }

    /** `d.get(k, default)` */
    function Get(k: string, default: V): (v: V)
      ensures k in entries ==> v == entries[k]
      ensures k !in entries ==> v == default
    {
      if k in entries then entries[k] else default
    }
  }

  function Empty<V>(): (d: Dict<V>)
    ensures d.Valid() && d.keys == [] && d.entries == map[]
  {
    Dict([], map[])
  }

  /** `d[k] = v`: a new key goes to the end of the order, an old key keeps its place. */
  function Put<V>(d: Dict<V>, k: string, v: V): (r: Dict<V>)
    requires d.Valid()
    ensures r.Valid()
    ensures r.entries == d.entries[k := v]
    ensures r.keys == if k in d.entries then d.keys else d.keys + [k]
  {
    if k in d.entries then Dict(d.keys, d.entries[k := v]) else Dict(d.keys + [k], d.entries[k := v])
  }

  /** `d.setdefault(k, []).append(x)` */
  function SetDefaultAppend<X>(d: Dict<seq<X>>, k: string, x: X): (r: Dict<seq<X>>)
    requires d.Valid()
    ensures r.Valid()
    ensures r.entries == d.entries[k := d.Get(k, []) + [x]]
    ensures r.keys == if k in d.entries then d.keys else d.keys + [k]
  {
    Put(d, k, d.Get(k, []) + [x])
  }
}
