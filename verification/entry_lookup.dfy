/** The map a sorted entry sequence stands for. `Lookup` reads the value of
    a key off an in-order reading of the tree, independently of the tree's
    shape: it is the reference the operations of `MyTreeMap` are stated
    against. */
module EntryLookup {
  import opened Wrappers
  import opened KeyOrder

  /** The value of the first entry whose key is `key`; null when there is
      none. */
  ghost function Lookup<K, V>(s: seq<(K, V)>, key: K): (r: Option<V>)
    ensures r.None? <==> Absent(s, key)
    ensures r.Some? ==> (key, r.value) in s
  {
    if |s| == 0 then None
    else if s[0].0 == key then Some(s[0].1)
    else
      assert forall i :: 1 <= i < |s| ==> s[i] == s[1..][i - 1];
      Lookup(s[1..], key)
  }

  /** The value of the last entry whose key is `key`: what a run of puts
      over `s`, front to back, leaves for `key`. */
  ghost function LookupLast<K, V>(s: seq<(K, V)>, key: K): (r: Option<V>)
    ensures r.None? <==> Absent(s, key)
    ensures r.Some? ==> (key, r.value) in s
  {
    if |s| == 0 then None
    else if s[|s| - 1].0 == key then Some(s[|s| - 1].1)
    else LookupLast(s[..|s| - 1], key)
  }

  /** Looking a key up in a concatenation reads the first part first. */
  lemma {:induction false} LookupAppend<K, V>(a: seq<(K, V)>, b: seq<(K, V)>, key: K)
    ensures Lookup(a + b, key) == if Lookup(a, key).Some? then Lookup(a, key) else Lookup(b, key)
    decreases |a|
  {
    if |a| == 0 {
      assert a + b == b;
    } else {
      assert (a + b)[1..] == a[1..] + b;
      LookupAppend(a[1..], b, key);
    }
  }

  /** The last entry for a key, read from the front: the rest wins over
      the first entry. */
  lemma {:induction false} LookupLastCons<K, V>(x: (K, V), rest: seq<(K, V)>, key: K)
    ensures LookupLast([x] + rest, key)
         == if LookupLast(rest, key).Some? then LookupLast(rest, key)
            else if x.0 == key then Some(x.1) else None
    decreases |rest|
  {
    if |rest| > 0 {
      var s := [x] + rest;
      assert s[..|s| - 1] == [x] + rest[..|rest| - 1];
      LookupLastCons(x, rest[..|rest| - 1], key);
    }
  }

  /** Folding the first entry of `s` into a lookup: with `after` the
      value `key` holds once the first entry is stored over `before`, the
      last value of `key` in the rest, else `after`, is the last value of
      `key` in all of `s`, else `before`. */
  lemma LookupLastStep<K, V>(s: seq<(K, V)>, key: K, before: Option<V>, after: Option<V>)
    requires |s| > 0
    requires after == if key == s[0].0 then Some(s[0].1) else before
    ensures (if LookupLast(s[1..], key).Some? then LookupLast(s[1..], key) else after)
         == (if LookupLast(s, key).Some? then LookupLast(s, key) else before)
  {
    assert s == [s[0]] + s[1..];
    LookupLastCons(s[0], s[1..], key);
  }

  /** In a sorted sequence the key at index `i` occurs nowhere else. */
  lemma SortedKeyAlone<K(!new), V>(cmp: (K, K) -> int, s: seq<(K, V)>, i: int)
    requires TotalOrder(cmp) && Sorted(cmp, s) && 0 <= i < |s|
    ensures Absent(s[..i], s[i].0) && Absent(s[i + 1..], s[i].0)
  {
    SortedAround(cmp, s, i);
    assert cmp(s[i].0, s[i].0) == 0;
  }

  /** Every key of a sorted sequence looks up the value stored with it. */
  lemma SortedLookup<K(!new), V>(cmp: (K, K) -> int, s: seq<(K, V)>, i: int)
    requires TotalOrder(cmp) && Sorted(cmp, s) && 0 <= i < |s|
    ensures Lookup(s, s[i].0) == Some(s[i].1)
  {
    SortedKeyAlone(cmp, s, i);
    LookupAt(s, i);
  }

  /** A key absent before index `i` looks up the value at `i`. */
  lemma LookupAt<K, V>(s: seq<(K, V)>, i: int)
    requires 0 <= i < |s| && Absent(s[..i], s[i].0)
    ensures Lookup(s, s[i].0) == Some(s[i].1)
  {
    var a, x, b := s[..i], s[i], s[i + 1..];
    assert s == a + [x] + b;
    LookupSplice(a, x, b, x.0);
  }

  /** Three-part reading of a lookup. */
  lemma LookupSplice<K, V>(a: seq<(K, V)>, x: (K, V), b: seq<(K, V)>, key: K)
    ensures Lookup(a + [x] + b, key)
         == if Lookup(a, key).Some? then Lookup(a, key)
            else if x.0 == key then Some(x.1) else Lookup(b, key)
    ensures Lookup(a + b, key) == if Lookup(a, key).Some? then Lookup(a, key) else Lookup(b, key)
  {
    assert a + [x] + b == a + ([x] + b);
    LookupAppend(a, [x] + b, key);
    LookupAppend([x], b, key);
    LookupAppend(a, b, key);
  }

  /** Removing the entry at `i` of a sorted sequence removes its key from
      the map and nothing else. */
  lemma LookupRemoveAt<K(!new), V>(cmp: (K, K) -> int, s: seq<(K, V)>, i: int, key: K)
    requires TotalOrder(cmp) && Sorted(cmp, s) && 0 <= i < |s|
    ensures Lookup(s[..i] + s[i + 1..], key) == if key == s[i].0 then None else Lookup(s, key)
  {
    SortedKeyAlone(cmp, s, i);
    assert s == s[..i] + [s[i]] + s[i + 1..];
    LookupSplice(s[..i], s[i], s[i + 1..], key);
  }

  /** Replacing the value at `i` of a sorted sequence changes the map at
      that key only. */
  lemma LookupSetAt<K(!new), V>(cmp: (K, K) -> int, s: seq<(K, V)>, i: int, v: V, key: K)
    requires TotalOrder(cmp) && Sorted(cmp, s) && 0 <= i < |s|
    ensures Lookup(s[i := (s[i].0, v)], key) == if key == s[i].0 then Some(v) else Lookup(s, key)
  {
    SortedKeyAlone(cmp, s, i);
    assert s == s[..i] + [s[i]] + s[i + 1..];
    assert s[i := (s[i].0, v)] == s[..i] + [(s[i].0, v)] + s[i + 1..];
    LookupSplice(s[..i], s[i], s[i + 1..], key);
    LookupSplice(s[..i], (s[i].0, v), s[i + 1..], key);
  }

  /** Inserting an entry for a key the sequence lacks adds that key and
      changes nothing else. */
  lemma LookupInsert<K, V>(a: seq<(K, V)>, b: seq<(K, V)>, k: K, v: V, key: K)
    requires Absent(a, k)
    ensures Lookup(a + [(k, v)] + b, key) == if key == k then Some(v) else Lookup(a + b, key)
  {
    LookupSplice(a, (k, v), b, key);
  }

  // ---------------------------------------------------------------------
  // Order of the entries

  /** An entry placed between the keys below it and those above it keeps
      the sequence sorted. */
  lemma SortedInsert<K(!new), V>(cmp: (K, K) -> int, a: seq<(K, V)>, b: seq<(K, V)>, k: K, v: V)
    requires TotalOrder(cmp) && Sorted(cmp, a + b)
    requires AllBelow(cmp, a, k) && AllAbove(cmp, b, k)
    ensures Sorted(cmp, a + [(k, v)] + b)
  {
    var s := a + [(k, v)] + b;
    forall i, j | 0 <= i < j < |s|
      ensures cmp(s[i].0, s[j].0) < 0
    {
      if j < |a| {
        assert s[i] == (a + b)[i] && s[j] == (a + b)[j];
      } else if i > |a| {
        assert s[i] == (a + b)[i - 1] && s[j] == (a + b)[j - 1];
      } else if i == |a| {
        assert s[j] == b[j - |a| - 1];
        assert cmp(b[j - |a| - 1].0, k) > 0;
      } else if j == |a| {
        assert s[i] == a[i];
      } else {
        assert s[i] == a[i] && s[j] == b[j - |a| - 1];
        assert cmp(a[i].0, k) < 0 && cmp(b[j - |a| - 1].0, k) > 0;
      }
    }
  }

  /** Dropping an entry keeps a sequence sorted. */
  lemma SortedRemoveAt<K(!new), V>(cmp: (K, K) -> int, s: seq<(K, V)>, i: int)
    requires Sorted(cmp, s) && 0 <= i < |s|
    ensures Sorted(cmp, s[..i] + s[i + 1..])
  {
    var r := s[..i] + s[i + 1..];
    forall a, b | 0 <= a < b < |r|
      ensures cmp(r[a].0, r[b].0) < 0
    {
      var a' := if a < i then a else a + 1;
      var b' := if b < i then b else b + 1;
      assert r[a] == s[a'] && r[b] == s[b'];
    }
  }

  /** Two sequences with the same keys in the same places are sorted alike. */
  lemma SortedSameKeys<K(!new), V>(cmp: (K, K) -> int, s: seq<(K, V)>, t: seq<(K, V)>)
    requires |s| == |t| && forall i :: 0 <= i < |s| ==> s[i].0 == t[i].0
    requires Sorted(cmp, s)
    ensures Sorted(cmp, t)
  {
    forall i, j | 0 <= i < j < |t|
      ensures cmp(t[i].0, t[j].0) < 0
    {
      assert s[i].0 == t[i].0 && s[j].0 == t[j].0;
    }
  }

  /** The parts of a sorted sequence are sorted. */
  lemma SortedParts<K(!new), V>(cmp: (K, K) -> int, a: seq<(K, V)>, b: seq<(K, V)>)
    requires Sorted(cmp, a + b)
    ensures Sorted(cmp, a) && Sorted(cmp, b)
  {
    forall i, j | 0 <= i < j < |b|
      ensures cmp(b[i].0, b[j].0) < 0
    {
      assert b[i] == (a + b)[|a| + i] && b[j] == (a + b)[|a| + j];
    }
    forall i, j | 0 <= i < j < |a|
      ensures cmp(a[i].0, a[j].0) < 0
    {
      assert a[i] == (a + b)[i] && a[j] == (a + b)[j];
    }
  }
}
