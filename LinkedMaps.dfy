/** java.util.LinkedHashMap as far as the race record uses it: a map that also remembers the order
    in which its keys were first inserted. */
module LinkedMaps {

  /** `order` lists the keys in first-insertion order; `entries` holds the current values. */
  datatype LinkedMap<K, V> = LinkedMap(order: seq<K>, entries: map<K, V>)

  /** Every key appears once in `order`, and `order` lists exactly the keys of `entries`. */
  ghost predicate Valid<K, V>(m: LinkedMap<K, V>)
  {
    && (forall i, j :: 0 <= i < j < |m.order| ==> m.order[i] != m.order[j])
    && (set i | 0 <= i < |m.order| :: m.order[i]) == m.entries.Keys
  }

  /** new LinkedHashMap<>(). */
  function Empty<K, V>(): (m: LinkedMap<K, V>)
    ensures Valid(m) && m.order == [] && m.entries == map[]
  {
    LinkedMap([], map[])
  }

  /** put(k, v): a new key goes to the end of the order, an existing key keeps its place and only its
      value is replaced; no other key or value changes. */
  function Put<K, V>(m: LinkedMap<K, V>, k: K, v: V): (r: LinkedMap<K, V>)
    ensures r.order == if k in m.entries then m.order else m.order + [k]
    ensures r.entries == m.entries[k := v]
  {
    if k in m.entries then LinkedMap(m.order, m.entries[k := v])
    else LinkedMap(m.order + [k], m.entries[k := v])
  }

  /** put keeps a well-formed map well formed: a key is appended to the order only when it is new. */
  lemma PutValid<K, V>(m: LinkedMap<K, V>, k: K, v: V)
    requires Valid(m)
    ensures Valid(Put(m, k, v))
  {
    if k !in m.entries {
      var order := m.order + [k];
      assert (set i | 0 <= i < |order| :: order[i]) == (set i | 0 <= i < |m.order| :: m.order[i]) + {k} by {
        assert order[|m.order|] == k;
        assert forall i :: 0 <= i < |m.order| ==> order[i] == m.order[i];
      }
    }
  }
}
