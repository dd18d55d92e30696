/** Small shared containers: an optional value and an insertion-ordered dictionary. */
module Prelude {

  datatype Option<+T> = None | Some(value: T)

  function MapGet<K, V>(m: map<K, V>, k: K): Option<V> {
    if k in m then Some(m[k]) else None
  }

  lemma Regroup<T>(a: seq<T>, b: seq<T>, c: seq<T>)
    ensures a + b + c == a + (b + c)
  {
  }

  ghost predicate Distinct<T>(s: seq<T>) {
    forall i, j :: 0 <= i < j < |s| ==> s[i] != s[j]
  }

  /** A Python dict: the keys in insertion order, and the value under each key. */
  datatype RawDict<K(==, !new), +V> = RawDict(keys: seq<K>, vals: map<K, V>) {
    ghost predicate Valid() {
      && (forall k :: k in keys <==> k in vals)
      && Distinct(keys)
    }
  }

  type Dict<K(==, !new), +V> = d: RawDict<K, V> | d.Valid() witness RawDict([], map[])

  function EmptyDict<K(==, !new), V>(): Dict<K, V> {
    RawDict([], map[])
  }

  /** `d[k] = v`: an existing key keeps its position, a new one goes last. */
  function Put<K(!new), V>(d: Dict<K, V>, k: K, v: V): (r: Dict<K, V>)
    ensures r.vals == d.vals[k := v]
    ensures d.keys <= r.keys
  {
    RawDict(if k in d.vals then d.keys else d.keys + [k], d.vals[k := v])
  }

  function Without<K(==, !new)>(s: seq<K>, k: K): (r: seq<K>)
    ensures forall x :: x in r <==> x in s && x != k
    ensures Distinct(s) ==> Distinct(r)
  {
    if s == [] then []
    else
      var r := Without(s[1..], k);
      assert s == [s[0]] + s[1..];
      assert Distinct(s) ==> Distinct(s[1..]) && s[0] !in s[1..];
      if s[0] == k then r else [s[0]] + r
  }

  /** `d.pop(k, None)`, dropping the value. */
  function Remove<K(!new), V>(d: Dict<K, V>, k: K): (r: Dict<K, V>)
    ensures r.vals == d.vals - {k}
  {
    RawDict(Without(d.keys, k), d.vals - {k})
  }
}
