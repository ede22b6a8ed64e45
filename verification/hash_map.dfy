/** The parts of `MyHashMap` that have code behind them: the hash spreading,
    `tableSizeFor`, the `(int, float)` constructor and `putVal` on a table
    of chained buckets. `resize`, `treeifyBin` and the `afterNode*` hooks are
    empty in the source, so they change nothing here; `resize` returns null,
    which makes `putVal` on a table that was never allocated dereference
    null.

    A bucket is the chain `tab[i], tab[i].next, ...` read front to back; a
    node's `next` link is its successor in the sequence. Keys are compared
    with `==`, the model of `equals`, and a `null` value is `None`. */
module HashMapModel {
  import opened Wrappers
  import opened JavaInt
  import opened HashBits
  import opened NatBits

  // ---------------------------------------------------------------------
  // The map

  /** A node of a chain: `hash`, `key` and `value`; `next` is the position
      after it in its bucket. */
  datatype HNode<K, V> = HNode(hash: nat, key: K, value: Option<V>)

  /** `Node.setValue(newValue)`: the node with the new value, and the value
      it held before. */
  function SetValue<K, V>(n: HNode<K, V>, newValue: Option<V>): (r: (HNode<K, V>, Option<V>))
    ensures r.0.hash == n.hash && r.0.key == n.key && r.0.value == newValue
    ensures r.1 == n.value
  {
    (n.(value := newValue), n.value)
  }

  /** Setting back the value `setValue` returned restores the node. */
  lemma SetValueUndo<K, V>(n: HNode<K, V>, newValue: Option<V>)
    ensures var r := SetValue(n, newValue);
      SetValue(r.0, r.1) == (n, newValue)
  {
  }

  /** The fields `table` (null is `None`), `size`, `modCount`, `threshold`
      and `loadFactor`. */
  datatype HashMap<K, V> = HashMap(
    table: Option<seq<seq<HNode<K, V>>>>,
    size: int,
    modCount: int,
    threshold: bv32,
    loadFactor: real)

  /** `new MyHashMap(initialCapacity, loadFactor)`: rejects a negative
      capacity and a non-positive load factor, caps the capacity, and keeps
      `tableSizeFor` of it as the threshold: the least power of two at least
      the capacity. The table stays unallocated. */
  function NewHashMap<K, V>(initialCapacity: bv32, loadFactor: real): (r: Result<HashMap<K, V>>)
    ensures r.Err? <==> Negative(initialCapacity) || loadFactor <= 0.0
    ensures r.Err? ==> r.error == IllegalArgument
    ensures r.Ok? ==> r.value.table.None? && r.value.size == 0 && r.value.modCount == 0
    ensures r.Ok? ==> r.value.loadFactor == loadFactor
    ensures r.Ok? ==> IsPowerOfTwo(r.value.threshold) && r.value.threshold <= MAXIMUM_CAPACITY
    ensures r.Ok? && initialCapacity <= MAXIMUM_CAPACITY ==> initialCapacity <= r.value.threshold
    ensures r.Ok? && initialCapacity > MAXIMUM_CAPACITY ==> r.value.threshold == MAXIMUM_CAPACITY
    ensures r.Ok? && 1 <= initialCapacity <= MAXIMUM_CAPACITY ==>
      forall p :: IsPowerOfTwo(p) && initialCapacity <= p ==> r.value.threshold <= p
  {
    if Negative(initialCapacity) then Err(IllegalArgument)
    else
      var cap := if initialCapacity > MAXIMUM_CAPACITY then MAXIMUM_CAPACITY else initialCapacity;
      if loadFactor <= 0.0 then Err(IllegalArgument)
      else
        TableSizeForLeastPowerOfTwo(cap);
        Ok(HashMap(None, 0, 0, TableSizeFor(cap), loadFactor))
  }

  /** `new MyHashMap(initialCapacity)`: the default load factor. */
  function NewHashMapWithCapacity<K, V>(initialCapacity: bv32): (r: Result<HashMap<K, V>>)
    ensures r.Err? <==> Negative(initialCapacity)
    ensures r.Ok? ==> r.value.loadFactor == DEFAULT_LOAD_FACTOR && r.value.table.None?
  {
    NewHashMap(initialCapacity, DEFAULT_LOAD_FACTOR)
  }

  /** `new MyHashMap()`: no table, threshold 0, the default load factor. */
  function NewDefaultHashMap<K, V>(): (r: HashMap<K, V>)
    ensures r.table.None? && r.size == 0 && r.threshold == 0 && r.loadFactor == DEFAULT_LOAD_FACTOR
  {
    HashMap(None, 0, 0, 0, DEFAULT_LOAD_FACTOR)
  }

  // ---------------------------------------------------------------------
  // Buckets

  /** `hash & (n - 1)`: the bucket of a hash in a table of length `n`. The
      mask `n - 1` has a clear sign bit, so the `and` of the patterns is the
      `and` of their unsigned readings, and it lies in the table. */
  function Index(hash: nat, n: int): (i: int)
    requires 1 <= n
    ensures 0 <= i < n
  {
    BitAnd(hash, n - 1)
  }

  /** In a table whose length is `2^k` the bucket is the low `k` bits of the
      hash: its remainder modulo the length. */
  lemma IndexIsRemainder(hash: nat, k: nat)
    ensures Index(hash, Pow2(k)) == LowBits(hash, k)
    ensures Index(hash, Pow2(k)) == hash % Pow2(k)
  {
    AndLowBits(hash, k);
    LowBitsIsRemainder(hash, k);
  }

  /** The node holds `key` with hash `hash`: the test `e.hash == hash &&
      (k = e.key) == key || (k != null && k.equals(key))`, where a stale
      `k` from an earlier node never equals `key` because that node was
      already rejected. */
  predicate Matches<K(==), V>(e: HNode<K, V>, hash: nat, key: K) {
    e.hash == hash && e.key == key
  }

  /** The walk along a chain from position `from`: the first node at or
      after it that holds the key, or none. */
  function FindFrom<K(==), V>(chain: seq<HNode<K, V>>, from: nat, hash: nat, key: K): (r: Option<nat>)
    requires from <= |chain|
    ensures r.None? <==> forall j :: from <= j < |chain| ==> !Matches(chain[j], hash, key)
    ensures r.Some? ==> from <= r.value < |chain| && Matches(chain[r.value], hash, key)
    ensures r.Some? ==> forall j :: from <= j < r.value ==> !Matches(chain[j], hash, key)
    decreases |chain| - from
  {
    if from == |chain| then None
    else if Matches(chain[from], hash, key) then Some(from)
    else FindFrom(chain, from + 1, hash, key)
  }

  /** The first node of a chain holding the key: the head test of `putVal`
      and then its `for` loop. */
  function Find<K(==), V>(chain: seq<HNode<K, V>>, hash: nat, key: K): (r: Option<nat>)
    ensures r.None? <==> forall j :: 0 <= j < |chain| ==> !Matches(chain[j], hash, key)
    ensures r.Some? ==> r.value < |chain| && Matches(chain[r.value], hash, key)
    ensures r.Some? ==> forall j :: 0 <= j < r.value ==> !Matches(chain[j], hash, key)
  {
    FindFrom(chain, 0, hash, key)
  }

  /** No two nodes of a chain hold the same key. */
  ghost predicate Distinct<K, V>(chain: seq<HNode<K, V>>) {
    forall a, b :: 0 <= a < b < |chain| ==> !(chain[a].hash == chain[b].hash && chain[a].key == chain[b].key)
  }

  /** The number of nodes in all buckets. */
  function Count<K, V>(tab: seq<seq<HNode<K, V>>>): nat {
    if |tab| == 0 then 0 else Count(tab[..|tab| - 1]) + |tab[|tab| - 1]|
  }

  /** Replacing one bucket changes the count by the difference of lengths. */
  lemma {:induction false} CountUpdate<K, V>(tab: seq<seq<HNode<K, V>>>, i: int, b: seq<HNode<K, V>>)
    requires 0 <= i < |tab|
    ensures Count(tab[i := b]) == Count(tab) - |tab[i]| + |b|
    decreases |tab|
  {
    var t := tab[i := b];
    if i < |tab| - 1 {
      assert t[..|t| - 1] == tab[..|tab| - 1][i := b];
      CountUpdate(tab[..|tab| - 1], i, b);
    } else {
      assert t[..|t| - 1] == tab[..|tab| - 1];
    }
  }

  /** An allocated table whose nodes sit in the bucket of their hash, with
      no key twice in a bucket, and `size` counting the nodes. */
  ghost predicate WellFormed<K, V>(m: HashMap<K, V>) {
    && m.table.Some? && 1 <= |m.table.value| <= MAX_VALUE
    && (forall i, j :: 0 <= i < |m.table.value| && 0 <= j < |m.table.value[i]| ==>
          Index(m.table.value[i][j].hash, |m.table.value|) == i)
    && (forall i :: 0 <= i < |m.table.value| ==> Distinct(m.table.value[i]))
    && m.size == Count(m.table.value)
  }

  /** What the map holds for a key: no node (`None`), or the value of its
      node, which may be null. */
  function Get<K(==), V>(m: HashMap<K, V>, hash: nat, key: K): (r: Option<Option<V>>)
    requires m.table.Some? && 1 <= |m.table.value|
  {
    var chain := m.table.value[Index(hash, |m.table.value|)];
    match Find(chain, hash, key)
    case None => None
    case Some(j) => Some(chain[j].value)
  }

  // ---------------------------------------------------------------------
  // putVal

  /** The tail of `putVal` for a new mapping: `++modCount`, `++size`; the
      `resize()` the size check may call and `afterNodeInsertion` do
      nothing. */
  function Counted<K, V>(m: HashMap<K, V>): (r: HashMap<K, V>)
    ensures r.size == m.size + 1 && r.modCount == m.modCount + 1 && r.table == m.table
  {
    m.(size := m.size + 1, modCount := m.modCount + 1)
  }

  /** `putVal(hash, key, value, onlyIfAbsent, evict)` as written. On an
      unallocated table `resize()` returns null and reading its length
      throws. An empty bucket gets one node; a chain without the key gets a
      node at its tail (`treeifyBin` does nothing); a node holding the key
      gets the value unless `onlyIfAbsent` and its value is non-null. In that
      last case the method falls through to the new-mapping tail and counts
      a node it never added. */
  function PutVal<K(==), V>(m: HashMap<K, V>, hash: nat, key: K, value: Option<V>, onlyIfAbsent: bool, evict: bool)
    : (r: Result<(HashMap<K, V>, Option<V>)>)
    ensures r.Err? <==> m.table.None? || |m.table.value| == 0
    ensures r.Err? ==> r.error == NullPointer
    ensures r.Ok? ==> r.value.0.table.Some? && |r.value.0.table.value| == |m.table.value|
    ensures r.Ok? && Get(m, hash, key).None? ==>
      r.value.1.None? && r.value.0.size == m.size + 1 && r.value.0.modCount == m.modCount + 1
    ensures r.Ok? && Get(m, hash, key).Some? && (!onlyIfAbsent || Get(m, hash, key).value.None?) ==>
      r.value.1 == Get(m, hash, key).value && r.value.0.size == m.size && r.value.0.modCount == m.modCount
    ensures r.Ok? && Get(m, hash, key).Some? && onlyIfAbsent && Get(m, hash, key).value.Some? ==>
      r.value == (Counted(m), None)
  {
    if m.table.None? || |m.table.value| == 0 then Err(NullPointer)
    else
      var tab := m.table.value;
      var i := Index(hash, |tab|);
      var chain := tab[i];
      if |chain| == 0 then
        Ok((Counted(m.(table := Some(tab[i := [HNode(hash, key, value)]]))), None))
      else
        match Find(chain, hash, key)
        case None =>
          Ok((Counted(m.(table := Some(tab[i := chain + [HNode(hash, key, value)]]))), None))
        case Some(j) =>
          var prev := chain[j].value;
          if !onlyIfAbsent || prev.None? then
            Ok((m.(table := Some(tab[i := chain[j := chain[j].(value := value)]])), prev))
          else
            Ok((Counted(m), None))
  }

  /** `putVal` as evidently intended: a blocked `onlyIfAbsent` returns the
      current value and changes nothing. */
  function PutValCorrected<K(==), V>(m: HashMap<K, V>, hash: nat, key: K, value: Option<V>, onlyIfAbsent: bool, evict: bool)
    : (r: Result<(HashMap<K, V>, Option<V>)>)
    ensures r.Err? <==> m.table.None? || |m.table.value| == 0
  {
    var tab := m.table;
    if tab.Some? && |tab.value| > 0 && onlyIfAbsent then
      var chain := tab.value[Index(hash, |tab.value|)];
      match Find(chain, hash, key)
      case Some(j) =>
        if chain[j].value.Some? then Ok((m, chain[j].value))
        else PutVal(m, hash, key, value, onlyIfAbsent, evict)
      case None => PutVal(m, hash, key, value, onlyIfAbsent, evict)
    else
      PutVal(m, hash, key, value, onlyIfAbsent, evict)
  }

  /** What `putVal` should leave for a key: the new value for the key put,
      unless a non-null value blocks an `onlyIfAbsent` put. */
  function Expected<K(==), V>(m: HashMap<K, V>, hash: nat, key: K, value: Option<V>, onlyIfAbsent: bool, h: nat, k: K)
    : Option<Option<V>>
    requires m.table.Some? && 1 <= |m.table.value|
  {
    var prev := Get(m, hash, key);
    if h == hash && k == key then
      if onlyIfAbsent && prev.Some? && prev.value.Some? then prev else Some(value)
    else Get(m, h, k)
  }

  // ---------------------------------------------------------------------
  // Chains under change

  /** Appending a node that does not hold the key leaves the search for it
      unchanged. */
  lemma FindAppend<K, V>(chain: seq<HNode<K, V>>, x: HNode<K, V>, hash: nat, key: K)
    ensures Find(chain + [x], hash, key)
         == if Find(chain, hash, key).Some? then Find(chain, hash, key)
            else if Matches(x, hash, key) then Some(|chain|) else None
  {
    var c := chain + [x];
    assert forall j :: 0 <= j < |chain| ==> c[j] == chain[j];
    assert c[|chain|] == x;
  }

  /** Changing values only leaves every search unchanged. */
  lemma FindSameKeys<K, V>(a: seq<HNode<K, V>>, b: seq<HNode<K, V>>, hash: nat, key: K)
    requires |a| == |b|
    requires forall j :: 0 <= j < |a| ==> a[j].hash == b[j].hash && a[j].key == b[j].key
    ensures Find(a, hash, key) == Find(b, hash, key)
  {
    assert forall j :: 0 <= j < |a| ==> (Matches(a[j], hash, key) <==> Matches(b[j], hash, key));
  }

  /** A search in a table where only bucket `i` changed, for a key of
      another bucket, is unchanged. */
  lemma GetOtherBucket<K, V>(m: HashMap<K, V>, tab': seq<seq<HNode<K, V>>>, i: int, h: nat, k: K)
    requires m.table.Some? && 1 <= |m.table.value|
    requires |tab'| == |m.table.value| && 0 <= i < |tab'|
    requires forall j :: 0 <= j < |tab'| && j != i ==> tab'[j] == m.table.value[j]
    requires Index(h, |tab'|) != i
    ensures Get(m.(table := Some(tab')), h, k) == Get(m, h, k)
  {
  }

  // ---------------------------------------------------------------------
  // putVal against the map it stands for

  /** Giving the node at `j` of bucket `i` a new value keeps the table well
      formed and changes what the map holds for that node's key only. */
  lemma SetValueInBucket<K, V>(m: HashMap<K, V>, i: int, j: int, value: Option<V>, h: nat, k: K)
    requires WellFormed(m) && 0 <= i < |m.table.value| && 0 <= j < |m.table.value[i]|
    ensures var tab := m.table.value;
      var node := tab[i][j];
      var m' := m.(table := Some(tab[i := tab[i][j := node.(value := value)]]));
      && WellFormed(m')
      && Get(m', h, k) == if h == node.hash && k == node.key then Some(value) else Get(m, h, k)
  {
    var tab := m.table.value;
    var chain := tab[i];
    var node: HNode<K, V> := chain[j];
    var chain' := chain[j := node.(value := value)];
    var tab' := tab[i := chain'];
    var m' := m.(table := Some(tab'));
    CountUpdate(tab, i, chain');
    assert forall a :: 0 <= a < |chain'| ==> chain'[a].hash == chain[a].hash && chain'[a].key == chain[a].key;
    FindSameKeys(chain, chain', h, k);
    if Index(h, |tab|) != i {
      GetOtherBucket(m, tab', i, h, k);
    } else if h == node.hash && k == node.key {
      assert Matches(chain[j], h, k);
      assert Find(chain, h, k) == Some(j);
    }
    assert Distinct(chain');
  }

  /** Appending a node for a key its bucket lacks keeps the table well
      formed, with the count one up, and adds exactly that key. */
  lemma AppendToBucket<K, V>(m: HashMap<K, V>, i: int, x: HNode<K, V>, h: nat, k: K)
    requires WellFormed(m) && 0 <= i < |m.table.value|
    requires Index(x.hash, |m.table.value|) == i && Find(m.table.value[i], x.hash, x.key).None?
    ensures var tab := m.table.value;
      var m' := Counted(m.(table := Some(tab[i := tab[i] + [x]])));
      && WellFormed(m')
      && Get(m', h, k) == if h == x.hash && k == x.key then Some(x.value) else Get(m, h, k)
  {
    var tab := m.table.value;
    var chain := tab[i];
    var chain' := chain + [x];
    var tab' := tab[i := chain'];
    CountUpdate(tab, i, chain');
    FindAppend(chain, x, h, k);
    if Index(h, |tab|) != i {
      GetOtherBucket(m, tab', i, h, k);
    }
    assert forall a :: 0 <= a < |chain| ==> !Matches(chain[a], x.hash, x.key);
    assert Distinct(chain');
  }

  /** The corrected `putVal` keeps the table well formed, `size` counting
      its nodes, returns the previous value, and changes what the map holds
      exactly at the key put. */
  lemma PutValCorrectedUpdates<K, V>(m: HashMap<K, V>, hash: nat, key: K, value: Option<V>,
                                     onlyIfAbsent: bool, evict: bool, h: nat, k: K)
    requires WellFormed(m)
    ensures PutValCorrected(m, hash, key, value, onlyIfAbsent, evict).Ok?
    ensures var r := PutValCorrected(m, hash, key, value, onlyIfAbsent, evict).value;
      && WellFormed(r.0)
      && r.1 == (if Get(m, hash, key).Some? then Get(m, hash, key).value else None)
      && Get(r.0, h, k) == Expected(m, hash, key, value, onlyIfAbsent, h, k)
  {
    var tab := m.table.value;
    var i := Index(hash, |tab|);
    var f := Find(tab[i], hash, key);
    if f.Some? && !(onlyIfAbsent && tab[i][f.value].value.Some?) {
      SetValueInBucket(m, i, f.value, value, h, k);
    } else if f.None? {
      var x := HNode(hash, key, value);
      assert |tab[i]| == 0 ==> tab[i] + [x] == [x];
      AppendToBucket(m, i, x, h, k);
    }
  }

  /** As written, an `onlyIfAbsent` put onto a key holding a non-null value
      adds no node but counts one: `size` no longer counts the nodes. */
  lemma PutValOvercounts<K, V>(m: HashMap<K, V>, hash: nat, key: K, value: Option<V>, evict: bool)
    requires WellFormed(m) && Get(m, hash, key).Some? && Get(m, hash, key).value.Some?
    ensures var r := PutVal(m, hash, key, value, true, evict);
      r.Ok? && r.value.0.table == m.table && r.value.0.size == Count(m.table.value) + 1
      && !WellFormed(r.value.0)
  {
  }

  /** For example: one bucket holding `1 -> 10`, and `putIfAbsent`-style
      `putVal(0, 1, 20, true, true)`; afterwards `size` is 2 with one node. */
  lemma PutValOvercountsExample()
    ensures var m := HashMap(Some([[HNode(0, 1, Some(10))]]), 1, 1, 1, 0.75);
      && WellFormed(m)
      && PutVal(m, 0, 1, Some(20), true, true) == Ok((HashMap(m.table, 2, 2, 1, 0.75), None))
      && PutValCorrected(m, 0, 1, Some(20), true, true) == Ok((m, Some(10)))
  {
    var m := HashMap(Some([[HNode(0, 1, Some(10))]]), 1, 1, 1, 0.75);
    assert Index(0, 1) == 0;
    assert Count(m.table.value) == 1 by {
      assert m.table.value[..0] == [];
    }
    assert Find(m.table.value[0], 0, 1) == Some(0);
  }
}
