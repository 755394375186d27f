/** A JavaScript `Map`: a finite map whose keys remember the order in which
    they were first inserted. Iteration (`for .. of`, `forEach`) follows `keys`. */
module OrderedMaps {
  import opened Wrappers

  datatype OrderedMap<K(==,!new), V> = OrderedMap(keys: seq<K>, m: map<K, V>) {

    /** Every key occurs once in `keys`, and `keys` lists exactly the keys of `m`. */
    ghost predicate Valid() {
      && (forall i, j :: 0 <= i < j < |keys| ==> keys[i] != keys[j])
      && (forall k :: k in m <==> k in keys)
    }

    /** `Map.prototype.get`, with `None` for `undefined`. */
    function Get(k: K): Option<V> {
      if k in m then Some(m[k]) else None
    }

    /** `Map.prototype.set`: an existing key keeps its position, a new key goes last. */
    function Put(k: K, v: V): (r: OrderedMap<K, V>)
      requires Valid()
      ensures r.Valid()
      ensures r.Get(k) == Some(v)
      ensures forall k' :: k' != k ==> r.Get(k') == Get(k')
      ensures k in m ==> r.keys == keys
      ensures k !in m ==> r.keys == keys + [k]
    {
      OrderedMap(if k in m then keys else keys + [k], m[k := v])
    }

    /** `Map.prototype.size`. */
    function Size(): nat {
      |keys|
    }
  }

  /** `new Map()`. */
  function Empty<K(==,!new), V>(): (r: OrderedMap<K, V>)
    ensures r.Valid() && r.keys == [] && r.Size() == 0
    ensures forall k :: r.Get(k) == None
  {
    OrderedMap([], map[])
  }
}
