/** Python dictionaries remember the order in which their keys were first inserted, and the
    scripts modelled here depend on that order (chapters are walked last to first, verses in
    insertion order, pages in the order they were seen). */
module Ordered {

  /** An insertion-ordered dictionary: the keys in first-insertion order and the key/value map. */
  datatype OrdMap<K, V> = OrdMap(keys: seq<K>, m: map<K, V>) {

    /** The keys are listed once each, and exactly the keys of the map are listed. */
    ghost predicate Valid() {
      && (forall i, j | 0 <= i < j < |keys| :: keys[i] != keys[j])
      && (forall i | 0 <= i < |keys| :: keys[i] in m)
      && (forall k | k in m :: k in keys)
    }
  }

  /** `{}` */
  function Empty<K, V>(): (d: OrdMap<K, V>)
    ensures d.Valid() && d.keys == [] && d.m == map[]
  {
    OrdMap([], map[])
  }

  /** `d[k] = v`: a key already present keeps its place, a new key goes last. */
  function Put<K, V>(d: OrdMap<K, V>, k: K, v: V): (r: OrdMap<K, V>)
    ensures r.m == d.m[k := v]
    ensures k in d.m ==> r.keys == d.keys
    ensures k !in d.m ==> r.keys == d.keys + [k]
  {
    if k in d.m then OrdMap(d.keys, d.m[k := v]) else OrdMap(d.keys + [k], d.m[k := v])
  }

  /** `Put` keeps the keys listed once each and in step with the map. */
  lemma PutValid<K, V>(d: OrdMap<K, V>, k: K, v: V)
    requires d.Valid()
    ensures Put(d, k, v).Valid()
  {
  }
}
