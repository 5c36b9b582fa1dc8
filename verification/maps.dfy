/** The two std::map / std::unordered_map updates the library relies on. */
module Maps {

  /** `emplace(k, v)`: inserts `v` under `k` only when `k` is absent; an
      existing entry is never overwritten. */
  function Emplace<K, V>(m: map<K, V>, k: K, v: V): (m': map<K, V>)
    ensures m'.Keys == m.Keys + {k}
    ensures k in m ==> m'[k] == m[k]
    ensures k !in m ==> m'[k] == v
    ensures forall j :: j in m ==> m'[j] == m[j]
  {
    if k in m then m else m[k := v]
  }

  /** `erase(k)`: removes the entry under `k`, if there is one. */
  function Erase<K, V>(m: map<K, V>, k: K): (m': map<K, V>)
    ensures m'.Keys == m.Keys - {k}
    ensures forall j :: j in m' ==> m'[j] == m[j]
  {
    m - {k}
  }
}
