/** The default methods of the `MyMap` interface, over the map an
    implementation stands for: a finite map from the keys present to their
    values, where a present key may hold null (`None`). `get`, `put`,
    `remove` and `containsKey` are the implementation's; the defaults are
    written in terms of them exactly as the interface does. A function
    argument that may be null is an `Option` of a Dafny function; a call to
    it that yields null yields `None`. */
module MapDefaults {
  import opened Wrappers

  /** The keys present and what each holds. */
  type AbstractMap<K, V> = map<K, Option<V>>

  // ---------------------------------------------------------------------
  // The implementation's operations

  /** `get(key)`: the value held, null when the key holds null or is
      absent. */
  function Get<K(==), V>(m: AbstractMap<K, V>, key: K): (r: Option<V>)
    ensures r.Some? ==> key in m && m[key] == r
    ensures key !in m ==> r.None?
  {
    if key in m then m[key] else None
  }

  /** `put(key, value)`: the new map and the previous `get(key)`. */
  function Put<K(==), V>(m: AbstractMap<K, V>, key: K, value: Option<V>): (r: (AbstractMap<K, V>, Option<V>))
    ensures r.0.Keys == m.Keys + {key} && r.0[key] == value
    ensures forall k :: k in m && k != key ==> k in r.0 && r.0[k] == m[k]
    ensures r.1 == Get(m, key)
  {
    (m[key := value], Get(m, key))
  }

  /** `remove(key)`: the map without the key, and the previous `get(key)`. */
  function Remove<K(==), V>(m: AbstractMap<K, V>, key: K): (r: (AbstractMap<K, V>, Option<V>))
    ensures r.0.Keys == m.Keys - {key}
    ensures forall k :: k in r.0 ==> r.0[k] == m[k]
    ensures r.1 == Get(m, key)
  {
    (m - {key}, Get(m, key))
  }

  // ---------------------------------------------------------------------
  // The defaults

  /** `getOrDefault`: the stored value, even a stored null, for a present
      key; `defaultValue` only for an absent one. */
  function GetOrDefault<K(==), V>(m: AbstractMap<K, V>, key: K, defaultValue: Option<V>): (r: Option<V>)
    ensures key in m ==> r == m[key]
    ensures key !in m ==> r == defaultValue
  {
    var v := Get(m, key);
    if v.Some? || key in m then v else defaultValue
  }

  /** `putIfAbsent`: puts only when `get` gives null, and returns what `get`
      gave or what the put returned. */
  function PutIfAbsent<K(==), V>(m: AbstractMap<K, V>, key: K, value: Option<V>): (r: (AbstractMap<K, V>, Option<V>))
    ensures Get(m, key).Some? ==> r == (m, Get(m, key))
    ensures Get(m, key).None? ==> r == (m[key := value], None)
  {
    var v := Get(m, key);
    if v.None? then Put(m, key, value) else (m, v)
  }

  /** `remove(key, value)`: removes only a present key whose value equals
      `value` (null equal to null); otherwise false and no change. */
  function RemoveIfEquals<K(==), V(==)>(m: AbstractMap<K, V>, key: K, value: Option<V>): (r: (AbstractMap<K, V>, bool))
    ensures r.1 <==> key in m && m[key] == value
    ensures r.1 ==> r.0 == m - {key}
    ensures !r.1 ==> r.0 == m
  {
    var cur := Get(m, key);
    if cur != value || (cur.None? && key !in m) then (m, false)
    else (Remove(m, key).0, true)
  }

  /** `replace(key, oldValue, newValue)`: stores `newValue` only for a
      present key whose value equals `oldValue`. */
  function ReplaceIfEquals<K(==), V(==)>(m: AbstractMap<K, V>, key: K, oldValue: Option<V>, newValue: Option<V>)
    : (r: (AbstractMap<K, V>, bool))
    ensures r.1 <==> key in m && m[key] == oldValue
    ensures r.1 ==> r.0 == m[key := newValue]
    ensures !r.1 ==> r.0 == m
  {
    var cur := Get(m, key);
    if oldValue != cur || (cur.None? && key !in m) then (m, false)
    else (Put(m, key, newValue).0, true)
  }

  /** `replace(key, value)`: stores only for a present key, and returns the
      value it held. */
  function Replace<K(==), V>(m: AbstractMap<K, V>, key: K, value: Option<V>): (r: (AbstractMap<K, V>, Option<V>))
    ensures key in m ==> r == (m[key := value], m[key])
    ensures key !in m ==> r == (m, None)
  {
    var cur := Get(m, key);
    if cur.Some? || key in m then Put(m, key, value) else (m, cur)
  }

  /** `computeIfAbsent`: throws on a null function; calls it only when
      `get` gives null, and stores a non-null result; a null result changes
      nothing. Returns the value now held, or null. */
  function ComputeIfAbsent<K(==), V>(m: AbstractMap<K, V>, key: K, f: Option<K -> Option<V>>)
    : (r: Result<(AbstractMap<K, V>, Option<V>)>)
    ensures f.None? <==> r.Err?
    ensures r.Err? ==> r.error == NullPointer
    ensures r.Ok? && Get(m, key).Some? ==> r.value == (m, Get(m, key))
    ensures r.Ok? && Get(m, key).None? && f.value(key).None? ==> r.value == (m, None)
    ensures r.Ok? && Get(m, key).None? && f.value(key).Some? ==> r.value == (m[key := f.value(key)], f.value(key))
  {
    if f.None? then Err(NullPointer)
    else
      var v := Get(m, key);
      if v.None? then
        var newValue := f.value(key);
        if newValue.Some? then Ok((Put(m, key, newValue).0, newValue)) else Ok((m, v))
      else Ok((m, v))
  }

  /** `computeIfPresent`: throws on a null function; calls it only when
      `get` gives a non-null value; a non-null result is stored and
      returned, a null one removes the key. */
  function ComputeIfPresent<K(==), V>(m: AbstractMap<K, V>, key: K, f: Option<(K, V) -> Option<V>>)
    : (r: Result<(AbstractMap<K, V>, Option<V>)>)
    ensures f.None? <==> r.Err?
    ensures r.Err? ==> r.error == NullPointer
    ensures r.Ok? && Get(m, key).None? ==> r.value == (m, None)
    ensures r.Ok? && Get(m, key).Some? && f.value(key, Get(m, key).value).Some? ==>
      r.value == (m[key := f.value(key, Get(m, key).value)], f.value(key, Get(m, key).value))
    ensures r.Ok? && Get(m, key).Some? && f.value(key, Get(m, key).value).None? ==>
      r.value == (m - {key}, None)
  {
    if f.None? then Err(NullPointer)
    else
      var oldValue := Get(m, key);
      if oldValue.Some? then
        var newValue := f.value(key, oldValue.value);
        if newValue.Some? then Ok((Put(m, key, newValue).0, newValue))
        else Ok((Remove(m, key).0, None))
      else Ok((m, None))
  }

  /** `compute`: throws on a null function; always calls it with the
      current value (null for an absent key); a null result removes the key
      if present, a non-null one is stored; returns the result. */
  function Compute<K(==), V>(m: AbstractMap<K, V>, key: K, f: Option<(K, Option<V>) -> Option<V>>)
    : (r: Result<(AbstractMap<K, V>, Option<V>)>)
    ensures f.None? <==> r.Err?
    ensures r.Err? ==> r.error == NullPointer
    ensures r.Ok? ==> r.value.1 == f.value(key, Get(m, key))
    ensures r.Ok? && r.value.1.None? ==> r.value.0 == m - {key}
    ensures r.Ok? && r.value.1.Some? ==> r.value.0 == m[key := r.value.1]
  {
    if f.None? then Err(NullPointer)
    else
      var oldValue := Get(m, key);
      var newValue := f.value(key, oldValue);
      if newValue.None? then
        if oldValue.Some? || key in m then Ok((Remove(m, key).0, None))
        else Ok((m, None))
      else Ok((Put(m, key, newValue).0, newValue))
  }

  /** `merge`: throws on a null function or a null value; the new value is
      `value` when the key holds null or is absent, else the function of the
      old value and `value`; a null result removes the key, a non-null one
      is stored; returns the result. */
  function Merge<K(==), V>(m: AbstractMap<K, V>, key: K, value: Option<V>, f: Option<(V, V) -> Option<V>>)
    : (r: Result<(AbstractMap<K, V>, Option<V>)>)
    ensures r.Err? <==> f.None? || value.None?
    ensures r.Err? ==> r.error == NullPointer
    ensures r.Ok? && Get(m, key).None? ==> r.value == (m[key := value], value)
    ensures r.Ok? && Get(m, key).Some? ==> r.value.1 == f.value(Get(m, key).value, value.value)
    ensures r.Ok? && r.value.1.None? ==> r.value.0 == m - {key}
    ensures r.Ok? && r.value.1.Some? ==> r.value.0 == m[key := r.value.1]
  {
    if f.None? || value.None? then Err(NullPointer)
    else
      var oldValue := Get(m, key);
      var newValue := if oldValue.None? then value else f.value(oldValue.value, value.value);
      if newValue.None? then Ok((Remove(m, key).0, newValue))
      else Ok((Put(m, key, newValue).0, newValue))
  }

  // ---------------------------------------------------------------------
  // How the defaults relate

  /** A second `putIfAbsent` of the same key changes nothing more. */
  lemma PutIfAbsentIdempotent<K, V>(m: AbstractMap<K, V>, key: K, value: Option<V>, other: Option<V>)
    requires value.Some?
    ensures var once := PutIfAbsent(m, key, value);
      PutIfAbsent(once.0, key, other) == (once.0, Get(once.0, key))
  {
  }

  /** `computeIfAbsent` with a function that always yields `v` leaves the
      same map as `putIfAbsent(key, v)`; it returns the value now held where
      `putIfAbsent` returns the previous one. */
  lemma ComputeIfAbsentIsPutIfAbsent<K, V>(m: AbstractMap<K, V>, key: K, v: V)
    ensures var c := ComputeIfAbsent(m, key, Some((k: K) => Some(v)));
      var p := PutIfAbsent(m, key, Some(v));
      && c.Ok? && c.value.0 == p.0
      && c.value.1 == (if p.1.Some? then p.1 else Some(v))
  {
  }

  /** `compute` and `computeIfPresent` agree on a key holding a non-null
      value, when `compute`'s function treats that value as
      `computeIfPresent`'s does. */
  lemma ComputeAgreesWhenPresent<K, V>(m: AbstractMap<K, V>, key: K, f: (K, V) -> Option<V>)
    requires Get(m, key).Some?
    ensures var g := (k: K, o: Option<V>) => if o.Some? then f(k, o.value) else None;
      Compute(m, key, Some(g)) == ComputeIfPresent(m, key, Some(f))
  {
  }

  /** `merge` into a key holding nothing is a `put` of the value. */
  lemma MergeAbsentIsPut<K, V>(m: AbstractMap<K, V>, key: K, value: V, f: (V, V) -> Option<V>)
    requires Get(m, key).None?
    ensures Merge(m, key, Some(value), Some(f)) == Ok((Put(m, key, Some(value)).0, Some(value)))
  {
  }

  /** `remove(key, value)` right after `put(key, value)` takes the key out
      again. */
  lemma RemoveAfterPut<K, V>(m: AbstractMap<K, V>, key: K, value: Option<V>)
    ensures RemoveIfEquals(Put(m, key, value).0, key, value) == (m - {key}, true)
  {
    assert Put(m, key, value).0 - {key} == m - {key};
  }

  /** Neither form of `replace` adds or drops a key. */
  lemma ReplaceKeepsKeys<K, V>(m: AbstractMap<K, V>, key: K, oldValue: Option<V>, value: Option<V>)
    ensures Replace(m, key, value).0.Keys == m.Keys
    ensures ReplaceIfEquals(m, key, oldValue, value).0.Keys == m.Keys
  {
  }
}
