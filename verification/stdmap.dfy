/** The two `std::map` writes the program relies on: `insert`, which never
    replaces an existing entry, and `operator[]`, which inserts a
    value-initialised entry for a missing key before returning it. */
module StdMap {
  /** `m.insert({k, v})`: the entry for k is the old one if there was one,
      else v; every other key is untouched. */
  function Insert<K(!new), V>(m: map<K, V>, k: K, v: V): (r: map<K, V>)
    ensures k in r && r[k] == (if k in m then m[k] else v)
    ensures forall j :: j != k ==> (j in r <==> j in m)
    ensures forall j :: j != k && j in m ==> r[j] == m[j]
  {
    if k in m then m else m[k := v]
  }

  /** `m[k]` as an rvalue: returns the stored value, or inserts `zero` (the
      value-initialised V) and returns it. */
  function Subscript<K(!new), V>(m: map<K, V>, k: K, zero: V): (r: (map<K, V>, V))
    ensures r.0 == Insert(m, k, zero)
    ensures r.1 == r.0[k]
    ensures k in m ==> r.0 == m && r.1 == m[k]
    ensures k !in m ==> r.1 == zero && r.0.Keys == m.Keys + {k}
  {
    if k in m then (m, m[k]) else (m[k := zero], zero)
  }

  /** Inserting twice under one key is inserting once. */
  lemma InsertIdempotent<K(!new), V>(m: map<K, V>, k: K, v: V, w: V)
    ensures Insert(Insert(m, k, v), k, w) == Insert(m, k, v)
  {
  }
}
