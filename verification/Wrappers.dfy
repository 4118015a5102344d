/** Optional values, the outcome of operations that may throw, and insertion-ordered maps. */
module Wrappers {

  datatype Option<+T> = None | Some(value: T)

  datatype Result<+T, +E> = Ok(value: T) | Err(error: E)

  /** A JavaScript Map: the entries, and the keys in the order they were first set. */
  datatype OrderedMap<K, V> = OrderedMap(order: seq<K>, at: map<K, V>) {

    ghost predicate Valid() {
      && (forall k | k in order :: k in at)
      && (forall k | k in at :: k in order)
      && (forall i, j | 0 <= i < j < |order| :: order[i] != order[j])
    }
  }

  /** Setting a key that is already there keeps its place in the order. */
  function Put<K(==), V>(m: OrderedMap<K, V>, k: K, v: V): (r: OrderedMap<K, V>)
    ensures m.Valid() ==> r.Valid()
    ensures r.at == m.at[k := v]
  {
    OrderedMap(if k in m.at then m.order else m.order + [k], m.at[k := v])
  }
}
