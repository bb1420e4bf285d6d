/** A JavaScript object used as a dictionary: its keys in insertion order, and
    an assignment to a key that is already present replaces the value without
    moving the key. */
module Dict {

  datatype Dict<V> = Dict(keys: seq<string>, vals: map<string, V>) {
    ghost predicate Valid() {
      (forall i, j :: 0 <= i < j < |keys| ==> keys[i] != keys[j]) &&
      (forall k :: k in vals <==> k in keys)
    }

    /** `obj[k] = v` */
    function Put(k: string, v: V): (r: Dict<V>)
      requires Valid()
      ensures r.Valid()
      ensures k in r.vals && r.vals[k] == v
      ensures forall k' :: k' != k ==> (k' in r.vals <==> k' in vals)
      ensures forall k' :: k' != k && k' in vals ==> r.vals[k'] == vals[k']
      ensures |keys| <= |r.keys| && r.keys[..|keys|] == keys
      ensures k in vals ==> r.keys == keys
      ensures k !in vals ==> r.keys == keys + [k]
    {
      if k in vals then Dict(keys, vals[k := v]) else Dict(keys + [k], vals[k := v])
    }
  }

  function Empty<V>(): (r: Dict<V>)
    ensures r.Valid() && r.keys == []
  {
    Dict([], map[])
  }
}
