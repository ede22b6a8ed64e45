/** The key ordering of `MyTreeMap`. Both ways the source compares keys (a
    supplied `Comparator`, or the keys' own `compareTo`) are modelled by one
    injected comparison `cmp`, read like Java's: negative, zero or positive. */
module KeyOrder {

  /** `cmp` is a strict total order consistent with equality: the contract
      `Comparator` and `Comparable` place on keys of a sorted map. */
  ghost predicate TotalOrder<K(!new)>(cmp: (K, K) -> int) {
    && (forall a, b :: cmp(a, b) == 0 <==> a == b)
    && (forall a, b :: cmp(a, b) < 0 <==> cmp(b, a) > 0)
    && (forall a, b, c :: cmp(a, b) < 0 && cmp(b, c) < 0 ==> cmp(a, c) < 0)
  }

  /** The keys of an entry sequence strictly increase. */
  ghost predicate Sorted<K(!new), V>(cmp: (K, K) -> int, s: seq<(K, V)>) {
    forall i, j :: 0 <= i < j < |s| ==> cmp(s[i].0, s[j].0) < 0
  }

  /** Every key is less than `key`. */
  ghost predicate AllBelow<K(!new), V>(cmp: (K, K) -> int, s: seq<(K, V)>, key: K) {
    forall i :: 0 <= i < |s| ==> cmp(s[i].0, key) < 0
  }

  /** Every key is at most `key`. */
  ghost predicate AllAtMost<K(!new), V>(cmp: (K, K) -> int, s: seq<(K, V)>, key: K) {
    forall i :: 0 <= i < |s| ==> cmp(s[i].0, key) <= 0
  }

  /** Every key is greater than `key`. */
  ghost predicate AllAbove<K(!new), V>(cmp: (K, K) -> int, s: seq<(K, V)>, key: K) {
    forall i :: 0 <= i < |s| ==> cmp(s[i].0, key) > 0
  }

  /** Every key is at least `key`. */
  ghost predicate AllAtLeast<K(!new), V>(cmp: (K, K) -> int, s: seq<(K, V)>, key: K) {
    forall i :: 0 <= i < |s| ==> cmp(s[i].0, key) >= 0
  }

  /** `key` is not among the keys. */
  ghost predicate Absent<K, V>(s: seq<(K, V)>, key: K) {
    forall i :: 0 <= i < |s| ==> s[i].0 != key
  }

  /** In a sorted sequence, a key below `key` has only keys below `key`
      before it. */
  lemma BelowUpTo<K(!new), V>(cmp: (K, K) -> int, s: seq<(K, V)>, i: int, key: K)
    requires TotalOrder(cmp) && Sorted(cmp, s)
    requires 0 <= i < |s| && cmp(s[i].0, key) < 0
    ensures AllBelow(cmp, s[..i + 1], key)
  {
    forall j | 0 <= j < i + 1
      ensures cmp(s[j].0, key) < 0
    {
      if j < i {
        assert cmp(s[j].0, s[i].0) < 0;
      }
    }
  }

  /** In a sorted sequence, a key at most `key` has only keys at most `key`
      before it. */
  lemma AtMostUpTo<K(!new), V>(cmp: (K, K) -> int, s: seq<(K, V)>, i: int, key: K)
    requires TotalOrder(cmp) && Sorted(cmp, s)
    requires 0 <= i < |s| && cmp(s[i].0, key) <= 0
    ensures AllAtMost(cmp, s[..i + 1], key)
  {
    forall j | 0 <= j < i + 1
      ensures cmp(s[j].0, key) <= 0
    {
      if j < i {
        assert cmp(s[j].0, s[i].0) < 0;
        if cmp(s[i].0, key) == 0 {
          assert s[i].0 == key;
        }
      }
    }
  }

  /** In a sorted sequence, a key above `key` has only keys above `key`
      after it. */
  lemma AboveFrom<K(!new), V>(cmp: (K, K) -> int, s: seq<(K, V)>, i: int, key: K)
    requires TotalOrder(cmp) && Sorted(cmp, s)
    requires 0 <= i < |s| && cmp(s[i].0, key) > 0
    ensures AllAbove(cmp, s[i..], key)
  {
    forall j | i <= j < |s|
      ensures cmp(s[j].0, key) > 0
    {
      if i < j {
        assert cmp(s[i].0, s[j].0) < 0;
        assert cmp(key, s[i].0) < 0;
      }
    }
  }

  /** In a sorted sequence, a key at least `key` has only keys at least `key`
      after it. */
  lemma AtLeastFrom<K(!new), V>(cmp: (K, K) -> int, s: seq<(K, V)>, i: int, key: K)
    requires TotalOrder(cmp) && Sorted(cmp, s)
    requires 0 <= i < |s| && cmp(s[i].0, key) >= 0
    ensures AllAtLeast(cmp, s[i..], key)
  {
    forall j | i <= j < |s|
      ensures cmp(s[j].0, key) >= 0
    {
      if i < j {
        assert cmp(s[i].0, s[j].0) < 0;
        if cmp(s[i].0, key) == 0 {
          assert s[i].0 == key;
        } else {
          assert cmp(key, s[i].0) < 0;
        }
      }
    }
  }

  /** In a sorted sequence every key before index `i` is below the key at `i`
      and every key after it is above. */
  lemma SortedAround<K(!new), V>(cmp: (K, K) -> int, s: seq<(K, V)>, i: int)
    requires TotalOrder(cmp) && Sorted(cmp, s)
    requires 0 <= i < |s|
    ensures AllBelow(cmp, s[..i], s[i].0)
    ensures AllAbove(cmp, s[i + 1..], s[i].0)
  {
    forall j | i + 1 <= j < |s|
      ensures cmp(s[j].0, s[i].0) > 0
    {
      assert cmp(s[i].0, s[j].0) < 0;
    }
  }
}
