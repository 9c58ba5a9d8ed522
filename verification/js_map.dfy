/** The JavaScript `Map`: a finite map that remembers the order in which
    keys were first inserted. `set` of a new key appends it, `set` of a
    known key overwrites the value in place, `delete` drops the key, and
    `forEach` visits entries in insertion order. */
module JsMap {
  import opened Base

  datatype JsMap<K, V> = JsMap(keys: seq<K>, vals: map<K, V>)

  /** The key list lists every key of the map exactly once. */
  predicate Valid<K, V>(m: JsMap<K, V>)
  {
    && NoDup(m.keys)
    && (forall k | k in m.keys :: k in m.vals)
    && (forall k | k in m.vals :: k in m.keys)
  }

  function Empty<K, V>(): (r: JsMap<K, V>)
    ensures Valid(r)
    ensures r.vals == map[]
  {
    JsMap([], map[])
  }

  function Get<K, V>(m: JsMap<K, V>, k: K): (r: Option<V>)
    ensures r.Some? <==> k in m.vals
    ensures r.Some? ==> r.value == m.vals[k]
  {
    if k in m.vals then Some(m.vals[k]) else None
  }

  /** `Map.prototype.set`. */
  function Set<K, V>(m: JsMap<K, V>, k: K, v: V): (r: JsMap<K, V>)
    requires Valid(m)
    ensures Valid(r)
    ensures r.vals == m.vals[k := v]
    ensures k in m.vals ==> r.keys == m.keys
    ensures k !in m.vals ==> r.keys == m.keys + [k]
  {
    if k in m.vals then JsMap(m.keys, m.vals[k := v])
    else JsMap(m.keys + [k], m.vals[k := v])
  }

  /** The key list without `k`, order otherwise kept. */
  function Without<K(==)>(s: seq<K>, k: K): (r: seq<K>)
    ensures forall x | x in r :: x in s && x != k
    ensures forall x | x in s && x != k :: x in r
    ensures NoDup(s) ==> NoDup(r)
    ensures |r| <= |s|
  {
    if |s| == 0 then []
    else if s[0] == k then Without(s[1..], k)
    else
      var rest := Without(s[1..], k);
      assert NoDup(s) ==> s[0] !in s[1..];
      [s[0]] + rest
  }

  /** `Map.prototype.delete`. */
  function Delete<K, V>(m: JsMap<K, V>, k: K): (r: JsMap<K, V>)
    requires Valid(m)
    ensures Valid(r)
    ensures r.vals == m.vals - {k}
    ensures k !in m.vals ==> r.keys == m.keys
  {
    if k !in m.vals then m
    else JsMap(Without(m.keys, k), m.vals - {k})
  }

  /** The values in insertion order, as `[...m.values()]` lists them. */
  function Values<K, V>(m: JsMap<K, V>): (r: seq<V>)
    requires Valid(m)
    ensures |r| == |m.keys|
    ensures forall i :: 0 <= i < |r| ==> r[i] == m.vals[m.keys[i]]
  {
    seq(|m.keys|, i requires 0 <= i < |m.keys| => m.vals[m.keys[i]])
  }
}
