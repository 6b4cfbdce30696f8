/** `std::unordered_map::insert` semantics, shared by the type, function and scope tables. */
module Maps {

  /** Inserting a key that is already bound keeps the earlier binding. */
  function Insert<K, V>(m: map<K, V>, k: K, v: V): (r: map<K, V>)
    ensures k in r
    ensures k in m ==> r == m
    ensures k !in m ==> r[k] == v
    ensures r.Keys == m.Keys + {k}
    ensures forall j :: j in m ==> r[j] == m[j]
  {
    if k in m then m else m[k := v]
  }

  /** `b` keeps every binding of `a`. */
  predicate Extends<K, V(==)>(a: map<K, V>, b: map<K, V>)
  {
    forall k :: k in a ==> k in b && b[k] == a[k]
  }
}
