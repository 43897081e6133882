/** Python's `dict`: a finite map that also remembers the order in which its
    keys were first inserted. Assigning to a key already present replaces its
    value and keeps its place; a new key goes to the end. */
module OrderedMap {

  datatype ODict<K(!new), V> = ODict(keys: seq<K>, values: map<K, V>)
  {
    /** The keys are listed once each, and they are exactly the keys of the
        map. */
    ghost predicate Valid()
    {
      && (forall a, b :: 0 <= a < b < |keys| ==> keys[a] != keys[b])
      && (forall key :: key in values <==> key in keys)
    }
  }

  /** `{}` */
  function Empty<K(!new), V>(): (d: ODict<K, V>)
    ensures d.Valid() && d.keys == [] && d.values == map[]
  {
    ODict([], map[])
  }

  /** `d[key] = v`. */
  function Put<K(!new), V>(d: ODict<K, V>, key: K, v: V): (r: ODict<K, V>)
    requires d.Valid()
    ensures r.Valid()
    ensures r.values == d.values[key := v]
    ensures key in d.values ==> r.keys == d.keys
    ensures key !in d.values ==> r.keys == d.keys + [key]
  {
    ODict(if key in d.values then d.keys else d.keys + [key], d.values[key := v])
  }

  /** `d.items()`: the pairs in insertion order. */
  function Items<K(!new), V>(d: ODict<K, V>): (r: seq<(K, V)>)
    requires d.Valid()
    ensures |r| == |d.keys|
    ensures forall t :: 0 <= t < |r| ==> r[t].0 == d.keys[t] && r[t].1 == d.values[d.keys[t]]
  {
    seq(|d.keys|, t requires 0 <= t < |d.keys| => (d.keys[t], d.values[d.keys[t]]))
  }

  /** Assigning twice to the same key leaves the second value, in the place
      the key first took. */
  lemma PutPut<K(!new), V>(d: ODict<K, V>, key: K, v: V, w: V)
    requires d.Valid()
    ensures Put(Put(d, key, v), key, w) == Put(d, key, w)
  {
  }

  /** Assigning a key its own value changes nothing. */
  lemma PutSame<K(!new), V>(d: ODict<K, V>, key: K)
    requires d.Valid() && key in d.values
    ensures Put(d, key, d.values[key]) == d
  {
    assert d.values[key := d.values[key]] == d.values;
  }

  /** Assigning to a key leaves every other key's value and the relative order
      of the old keys as they were. */
  lemma PutOthers<K(!new), V>(d: ODict<K, V>, key: K, v: V, other: K)
    requires d.Valid() && other != key
    ensures other in Put(d, key, v).values <==> other in d.values
    ensures other in d.values ==> Put(d, key, v).values[other] == d.values[other]
    ensures Put(d, key, v).keys[..|d.keys|] == d.keys
  {
  }
}
