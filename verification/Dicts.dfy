/** A dictionary that remembers the order in which its keys were first inserted. */
module Dicts {

  datatype Dict<!K(==,!new), V> = Dict(keys: seq<K>, items: map<K, V>) {

    ghost predicate Valid() {
      && (forall k :: k in keys <==> k in items)
      && forall i, j :: 0 <= i < j < |keys| ==> keys[i] != keys[j]
    }

    /** `d[k] = v` */
    function Put(k: K, v: V): (d: Dict<K, V>)
      requires Valid()
      ensures d.Valid()
    {
      if k in items then Dict(keys, items[k := v]) else Dict(keys + [k], items[k := v])
    }

    /** `d.setdefault(k, v)` */
    function SetDefault(k: K, v: V): (d: Dict<K, V>)
      requires Valid()
      ensures d.Valid()
    {
      if k in items then this else Put(k, v)
    }

    /** `d.values()`, in insertion order. */
    function Values(): (r: seq<V>)
      requires Valid()
      ensures |r| == |keys|
      ensures forall i :: 0 <= i < |keys| ==> r[i] == items[keys[i]]
    {
      seq(|keys|, i requires 0 <= i < |keys| => assert keys[i] in keys; items[keys[i]])
    }

    /** A new key goes last and leaves the values already there alone. */
    lemma PutAppends(k: K, v: V)
      requires Valid() && k !in items
      ensures Put(k, v).Values() == Values() + [v]
    {
      assert forall i :: 0 <= i < |keys| ==> keys[i] in keys;
    }
  }
}
