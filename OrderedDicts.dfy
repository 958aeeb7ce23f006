/**
 * A Python `dict`: a finite map that also remembers the order in which its
 * keys were first inserted. Iterating over it follows `order`; assigning to a
 * key already present changes its value and keeps its position.
 */
module OrderedDicts {

  datatype ODict<K, V> = ODict(order: seq<K>, entries: map<K, V>)
  {
    /** Each key appears once in `order`, and `order` lists exactly the keys of `entries`. */
    predicate Valid()
    {
      && (forall i, j :: 0 <= i < j < |order| ==> order[i] != order[j])
      && (forall k :: k in entries ==> k in order)
      && (forall i :: 0 <= i < |order| ==> order[i] in entries)
    }

    /** `d[k] = v`. */
    function Put(k: K, v: V): (r: ODict<K, V>)
      requires Valid()
      ensures r.Valid()
      ensures r.entries == entries[k := v]
      ensures k in entries ==> r.order == order
      ensures k !in entries ==> r.order == order + [k]
    {
      if k in entries then ODict(order, entries[k := v]) else ODict(order + [k], entries[k := v])
    }

    /** Assigning to the key at position `i` changes that key's value and nothing else. */
    lemma PutAt(i: nat, v: V)
      requires Valid() && i < |order|
      ensures Put(order[i], v).order == order
      ensures Put(order[i], v).entries[order[i]] == v
      ensures forall m :: 0 <= m < |order| && m != i ==> Put(order[i], v).entries[order[m]] == entries[order[m]]
    {
    }
  }

  /** `{}`. */
  function Empty<K, V>(): (d: ODict<K, V>)
    ensures d.Valid() && d.order == [] && d.entries == map[]
  {
    ODict([], map[])
  }
}
