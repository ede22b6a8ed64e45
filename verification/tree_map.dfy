/** The public operations of `MyTreeMap` over the tree: `get`, `containsKey`,
    `containsValue`, `put`, `remove`, both `replace` forms, `clear`, the
    first/last queries and polls, the sorted-map constructor and `putAll`.
    A map is its three fields `root`, `size` and `modCount`; the comparator
    is the `cmp` every operation takes. Each operation is stated against
    `Lookup` over the in-order entries, the map the tree stands for.

    The operations use the corrected helpers: `fixAfterInsertion` with the
    root blackened, `fixAfterDeletion` with its final `setColor(x, BLACK)`,
    `getFirstEntry` stopping at the leftmost node, `getEntryUsingComparator`
    guarded by `p != null` (so both searches are `GetEntry`), and
    `buildFromSorted` passing `level + 1` down. */
module TreeMapModel {
  import opened Wrappers
  import opened KeyOrder
  import opened RbTree
  import opened TreeInsertion
  import opened TreeNavigation
  import opened TreeRemoval
  import opened TreeBuild
  import opened EntryLookup

  /** The fields of a `MyTreeMap`. */
  datatype TreeMap<K, V> = TreeMap(root: Tree<K, V>, size: int, modCount: int)

  /** What the class maintains between calls: keys in increasing order, the
      five colour rules, and `size` counting the entries. */
  ghost predicate Valid<K(!new), V>(cmp: (K, K) -> int, m: TreeMap<K, V>) {
    Ordered(cmp, m.root) && IsRedBlack(m.root) && m.size == |Entries(m.root)|
  }

  /** `new MyTreeMap()` and `new MyTreeMap(comparator)`. */
  function Empty<K, V>(): (m: TreeMap<K, V>)
    ensures Entries(m.root) == [] && m.size == 0 && m.modCount == 0
  {
    TreeMap(Nil, 0, 0)
  }

  /** The empty map is valid and maps nothing. */
  lemma EmptyValid<K(!new), V>(cmp: (K, K) -> int, key: K)
    requires TotalOrder(cmp)
    ensures Valid(cmp, Empty<K, V>()) && Lookup(Entries(Empty<K, V>().root), key).None?
  {
  }

  // ---------------------------------------------------------------------
  // Queries

  /** `get(key)`: the value stored under `key`, null when there is none. */
  function Get<K(!new), V>(cmp: (K, K) -> int, m: TreeMap<K, V>, key: K): (r: Option<V>)
    requires Valid(cmp, m)
    ensures r == Lookup(Entries(m.root), key)
  {
    var e := GetEntry(cmp, m.root, key);
    if e.None? then None
    else
      PosEntry(e.value);
      SortedLookup(cmp, Entries(m.root), Pos(e.value));
      Some(e.value.focus.value)
  }

  /** `containsKey(key)`: whether some entry has key `key`. */
  function ContainsKey<K(!new), V>(cmp: (K, K) -> int, m: TreeMap<K, V>, key: K): (r: bool)
    requires Valid(cmp, m)
    ensures r <==> !Absent(Entries(m.root), key)
  {
    GetEntry(cmp, m.root, key).Some?
  }

  /** Some entry from index `lo` on holds `value`. */
  ghost predicate HoldsValueFrom<K, V>(e: seq<(K, V)>, lo: int, value: V) {
    exists i :: 0 <= lo <= i < |e| && e[i].1 == value
  }

  /** The loop of `containsValue` from the node at `z` on, stepping with
      `successor`: whether a value from this entry on equals `value`. */
  function ScanValues<K, V(==)>(z: Zipper<K, V>, value: V): (r: bool)
    requires z.focus.Node?
    ensures Pos(z) < |Entries(Whole(z))|
    ensures r <==> HoldsValueFrom(Entries(Whole(z)), Pos(z), value)
    decreases |Entries(Whole(z))| - Pos(z)
  {
    PosEntry(z);
    if z.focus.value == value then true
    else
      var n := Successor(z);
      if n.None? then false
      else
        var e := Entries(Whole(z));
        assert forall i :: Pos(z) <= i < |e| && e[i].1 == value ==> Pos(n.value) <= i;
        ScanValues(n.value, value)
  }

  /** `containsValue(value)` from the entry `getFirstEntry()` answered. */
  function ContainsValueFrom<K, V(==)>(first: Option<Zipper<K, V>>, value: V): (r: bool)
    requires first.Some? ==> first.value.focus.Node?
    ensures first.None? ==> !r
    ensures first.Some? ==> (r <==> HoldsValueFrom(Entries(Whole(first.value)), Pos(first.value), value))
  {
    if first.None? then false else ScanValues(first.value, value)
  }

  /** `containsValue(value)` with the corrected `getFirstEntry`: whether any
      entry holds `value`. */
  function ContainsValue<K, V(==)>(m: TreeMap<K, V>, value: V): (r: bool)
    ensures r <==> HoldsValueFrom(Entries(m.root), 0, value)
  {
    ContainsValueFrom(GetFirstEntryCorrected(m.root), value)
  }

  /** `containsValue` as written starts from `getFirstEntry`, which is null,
      so it answers false even for a value the map holds. */
  function ContainsValueAsWritten<K, V(==)>(m: TreeMap<K, V>, value: V): (r: bool)
    ensures !r
  {
    ContainsValueFrom(GetFirstEntry(m.root), value)
  }

  /** A map holding `1 -> 7` where `containsValue(7)` as written misses the
      value that the corrected scan finds. */
  lemma ContainsValueAsWrittenMisses()
    ensures var m := TreeMap(Node(Black, Nil, 1, 7, Nil), 1, 1);
      ContainsValue(m, 7) && !ContainsValueAsWritten(m, 7)
  {
    var m := TreeMap(Node(Black, Nil, 1, 7, Nil), 1, 1);
    assert Entries(m.root)[0].1 == 7;
  }

  /** `firstEntry()`: the entry with the least key, null for an empty map. */
  function FirstEntry<K, V>(m: TreeMap<K, V>): (r: Option<(K, V)>)
    ensures r == if |Entries(m.root)| == 0 then None else Some(Entries(m.root)[0])
  {
    match GetFirstEntryCorrected(m.root)
    case None => None
    case Some(z) =>
      PosEntry(z);
      Some((z.focus.key, z.focus.value))
  }

  /** `lastEntry()`: the entry with the greatest key, null for an empty map. */
  function LastEntry<K, V>(m: TreeMap<K, V>): (r: Option<(K, V)>)
    ensures r == if |Entries(m.root)| == 0 then None else Some(Entries(m.root)[|Entries(m.root)| - 1])
  {
    match GetLastEntry(m.root)
    case None => None
    case Some(z) =>
      PosEntry(z);
      Some((z.focus.key, z.focus.value))
  }

  /** `firstKey()`: the least key; `NoSuchElementException` when empty. */
  function FirstKey<K, V>(m: TreeMap<K, V>): (r: Result<K>)
    ensures r.Err? <==> |Entries(m.root)| == 0
    ensures r.Err? ==> r.error == NoSuchElement
    ensures r.Ok? ==> r.value == Entries(m.root)[0].0
  {
    match FirstEntry(m)
    case None => Err(NoSuchElement)
    case Some(e) => Ok(e.0)
  }

  /** `lastKey()`: the greatest key; `NoSuchElementException` when empty. */
  function LastKey<K, V>(m: TreeMap<K, V>): (r: Result<K>)
    ensures r.Err? <==> |Entries(m.root)| == 0
    ensures r.Err? ==> r.error == NoSuchElement
    ensures r.Ok? ==> r.value == Entries(m.root)[|Entries(m.root)| - 1].0
  {
    match LastEntry(m)
    case None => Err(NoSuchElement)
    case Some(e) => Ok(e.0)
  }

  /** With increasing keys, the first key is the least and the last the
      greatest of all keys. */
  lemma FirstKeyLeast<K(!new), V>(cmp: (K, K) -> int, m: TreeMap<K, V>, i: int)
    requires Valid(cmp, m) && 0 <= i < |Entries(m.root)|
    ensures FirstKey(m).Ok? && cmp(FirstKey(m).value, Entries(m.root)[i].0) <= 0
    ensures LastKey(m).Ok? && cmp(Entries(m.root)[i].0, LastKey(m).value) <= 0
  {
    var e := Entries(m.root);
    assert cmp(e[i].0, e[i].0) == 0;
  }

  // ---------------------------------------------------------------------
  // Changing values in place

  /** `p.value = v` (also `setValue`): the node keeps its key, colour and
      place. */
  function SetValue<K, V>(z: Zipper<K, V>, v: V): (t: Tree<K, V>)
    requires z.focus.Node?
  {
    Whole(Rekey(z, z.focus.key, v))
  }

  /** `s[i := x]` is the three-part sequence around `i`. */
  lemma UpdateSplit<T>(s: seq<T>, i: int, x: T)
    requires 0 <= i < |s|
    ensures s[i := x] == s[..i] + [x] + s[i + 1..]
  {
  }

  /** Setting a node's value replaces exactly its entry of the in-order
      reading and keeps the order and the colour rules. */
  lemma SetValueKeeps<K(!new), V>(cmp: (K, K) -> int, z: Zipper<K, V>, v: V)
    requires z.focus.Node? && Ordered(cmp, Whole(z)) && IsRedBlack(Whole(z))
    ensures Pos(z) < |Entries(Whole(z))|
    ensures Entries(SetValue(z, v)) == Entries(Whole(z))[Pos(z) := (z.focus.key, v)]
    ensures Ordered(cmp, SetValue(z, v)) && IsRedBlack(SetValue(z, v))
    ensures SameShape(Whole(z), SetValue(z, v))
  {
    var r := Rekey(z, z.focus.key, v);
    SameShapeRefl(z.focus.left);
    SameShapeRefl(z.focus.right);
    SameShapePlug(z.focus, r.focus, z.path);
    FocusSplit(z);
    FocusSplit(r);
    var e := Entries(Whole(z));
    UpdateSplit(e, Pos(z), (z.focus.key, v));
    assert e[..Pos(z)] + [(z.focus.key, v)] + e[Pos(z) + 1..] == Entries(Whole(r));
    SortedSameKeys(cmp, e, Entries(Whole(r)));
    RekeyKeepsRules(z, z.focus.key, v);
  }

  /** `replace(key, value)`: stores `value` only under a key already present
      and returns the previous value; `modCount` is not touched. */
  function Replace<K(!new), V>(cmp: (K, K) -> int, m: TreeMap<K, V>, key: K, value: V)
    : (r: (TreeMap<K, V>, Option<V>))
    requires Valid(cmp, m)
    ensures Valid(cmp, r.0) && r.0.modCount == m.modCount
    ensures r.1 == Lookup(Entries(m.root), key)
    ensures forall k :: (Lookup(Entries(r.0.root), k)
      == if k == key && r.1.Some? then Some(value) else Lookup(Entries(m.root), k))
    ensures SameShape(m.root, r.0.root)
  {
    var e := GetEntry(cmp, m.root, key);
    if e.None? then SameShapeRefl(m.root); (m, None)
    else
      var z := e.value;
      SetValueKeeps(cmp, z, value);
      PosEntry(z);
      SortedLookup(cmp, Entries(m.root), Pos(z));
      SetAtLookup(cmp, Entries(m.root), Pos(z), value);
      (m.(root := SetValue(z, value)), Some(z.focus.value))
  }

  /** The lookup after `s[i := (s[i].0, v)]`, for every key. */
  lemma SetAtLookup<K(!new), V>(cmp: (K, K) -> int, s: seq<(K, V)>, i: int, v: V)
    requires TotalOrder(cmp) && Sorted(cmp, s) && 0 <= i < |s|
    ensures forall k :: Lookup(s[i := (s[i].0, v)], k) == if k == s[i].0 then Some(v) else Lookup(s, k)
  {
    var t := s[i := (s[i].0, v)];
    forall k
      ensures Lookup(t, k) == if k == s[i].0 then Some(v) else Lookup(s, k)
    {
      LookupSetAt(cmp, s, i, v, k);
    }
  }

  /** `replace(key, oldValue, newValue)`: stores `newValue` only when `key`
      is present with a value equal to `oldValue`. */
  function ReplaceIfEquals<K(!new), V(==)>(cmp: (K, K) -> int, m: TreeMap<K, V>, key: K, oldValue: V, newValue: V)
    : (r: (TreeMap<K, V>, bool))
    requires Valid(cmp, m)
    ensures Valid(cmp, r.0) && r.0.modCount == m.modCount
    ensures r.1 <==> Lookup(Entries(m.root), key) == Some(oldValue)
    ensures !r.1 ==> r.0 == m
    ensures forall k :: (Lookup(Entries(r.0.root), k)
      == if k == key && r.1 then Some(newValue) else Lookup(Entries(m.root), k))
    ensures SameShape(m.root, r.0.root)
  {
    var e := GetEntry(cmp, m.root, key);
    if e.None? then SameShapeRefl(m.root); (m, false)
    else
      var z := e.value;
      PosEntry(z);
      SortedLookup(cmp, Entries(m.root), Pos(z));
      if z.focus.value != oldValue then SameShapeRefl(m.root); (m, false)
      else
        SetValueKeeps(cmp, z, newValue);
        SetAtLookup(cmp, Entries(m.root), Pos(z), newValue);
        (m.(root := SetValue(z, newValue)), true)
  }

  // ---------------------------------------------------------------------
  // put

  /** The new node `new Entry(key, value, parent)` (BLACK) at the null link
      a search stopped on, followed by the corrected `fixAfterInsertion`. */
  function InsertAt<K, V>(p: Path<K, V>, key: K, value: V): (t: Tree<K, V>)
  {
    FixAfterInsertionCorrected(Zipper(Node(Black, Nil, key, value, Nil), p))
  }

  /** Linking a new entry where the search for its key ended puts it between
      the smaller and the larger keys and keeps all rules. */
  lemma InsertAtKeeps<K(!new), V>(cmp: (K, K) -> int, z: Zipper<K, V>, key: K, value: V)
    requires z.focus.Nil? && Ordered(cmp, Whole(z)) && IsRedBlack(Whole(z)) && Bracketed(cmp, z, key)
    ensures Entries(Whole(z)) == Prefix(z.path) + Suffix(z.path)
    ensures Entries(InsertAt(z.path, key, value)) == Prefix(z.path) + [(key, value)] + Suffix(z.path)
    ensures Ordered(cmp, InsertAt(z.path, key, value)) && IsRedBlack(InsertAt(z.path, key, value))
  {
    var p := z.path;
    PlugEntries(Nil, p);
    assert Entries(Whole(z)) == Prefix(p) + Suffix(p);
    PlugEntries(Node(Black, Nil, key, value, Nil), p);
    SortedInsert(cmp, Prefix(p), Suffix(p), key, value);
    FixAfterInsertionCorrectedKeepsRedBlack(p, key, value);
  }

  /** `put(key, value)`: on an empty map, a black root; on a present key,
      only the value changes and the old value is returned; otherwise a new
      node is linked where the search ended, `size` and `modCount` go up and
      null is returned. */
  function Put<K(!new), V>(cmp: (K, K) -> int, m: TreeMap<K, V>, key: K, value: V)
    : (r: (TreeMap<K, V>, Option<V>))
    requires Valid(cmp, m)
    ensures Valid(cmp, r.0)
    ensures r.1 == Lookup(Entries(m.root), key)
    ensures r.1.None? ==> r.0.size == m.size + 1 && r.0.modCount == m.modCount + 1
    ensures r.1.Some? ==> r.0.size == m.size && r.0.modCount == m.modCount
    ensures r.1.Some? ==> SameShape(m.root, r.0.root)
  {
    if m.root.Nil? then
      (TreeMap(Node(Black, Nil, key, value, Nil), 1, m.modCount + 1), None)
    else
      var z := Descend(cmp, Zipper(m.root, Root), key);
      if z.focus.Node? then
        SetValueKeeps(cmp, z, value);
        PosEntry(z);
        SortedLookup(cmp, Entries(m.root), Pos(z));
        (m.(root := SetValue(z, value)), Some(z.focus.value))
      else
        InsertAtKeeps(cmp, z, key, value);
        (TreeMap(InsertAt(z.path, key, value), m.size + 1, m.modCount + 1), None)
  }

  /** After `put(key, value)` the map sends `key` to `value` and every other
      key where it went before. */
  lemma PutUpdates<K(!new), V>(cmp: (K, K) -> int, m: TreeMap<K, V>, key: K, value: V, k: K)
    requires Valid(cmp, m)
    ensures Lookup(Entries(Put(cmp, m, key, value).0.root), k)
         == if k == key then Some(value) else Lookup(Entries(m.root), k)
  {
    if m.root.Nil? {
      assert Entries(Put(cmp, m, key, value).0.root) == [(key, value)];
    } else {
      var z := Descend(cmp, Zipper(m.root, Root), key);
      if z.focus.Node? {
        SetValueKeeps(cmp, z, value);
        SetAtLookup(cmp, Entries(m.root), Pos(z), value);
        PosEntry(z);
      } else {
        InsertAtKeeps(cmp, z, key, value);
        LookupInsert(Prefix(z.path), Suffix(z.path), key, value, k);
      }
    }
  }

  // ---------------------------------------------------------------------
  // remove, poll, clear

  /** `deleteEntry(p)`: `modCount` up, `size` down, and the corrected unlink
      and fix-up. */
  function DeleteAt<K, V>(m: TreeMap<K, V>, z: Zipper<K, V>): (r: TreeMap<K, V>)
    requires z.focus.Node?
  {
    TreeMap(DeleteEntryCorrected(z), m.size - 1, m.modCount + 1)
  }

  /** Deleting the node at `z` removes exactly its entry and keeps the map
      valid. */
  lemma DeleteAtKeeps<K(!new), V>(cmp: (K, K) -> int, m: TreeMap<K, V>, z: Zipper<K, V>)
    requires Valid(cmp, m) && z.focus.Node? && Whole(z) == m.root
    ensures Pos(z) < |Entries(m.root)|
    ensures Entries(DeleteAt(m, z).root) == Without(Entries(m.root), Pos(z))
    ensures Valid(cmp, DeleteAt(m, z))
  {
    var e := Entries(m.root);
    DeleteEntryCorrectedKeepsRules(z);
    SortedRemoveAt(cmp, e, Pos(z));
  }

  /** The lookup after `Without(s, i)`, for every key. */
  lemma WithoutLookup<K(!new), V>(cmp: (K, K) -> int, s: seq<(K, V)>, i: int)
    requires TotalOrder(cmp) && Sorted(cmp, s) && 0 <= i < |s|
    ensures forall k :: Lookup(Without(s, i), k) == if k == s[i].0 then None else Lookup(s, k)
  {
    forall k
      ensures Lookup(Without(s, i), k) == if k == s[i].0 then None else Lookup(s, k)
    {
      LookupRemoveAt(cmp, s, i, k);
    }
  }

  /** `remove(key)`: returns the old value; a present key loses its entry,
      `size` drops and `modCount` rises; an absent key changes nothing. */
  function Remove<K(!new), V>(cmp: (K, K) -> int, m: TreeMap<K, V>, key: K): (r: (TreeMap<K, V>, Option<V>))
    requires Valid(cmp, m)
    ensures Valid(cmp, r.0)
    ensures r.1 == Lookup(Entries(m.root), key)
    ensures r.1.None? ==> r.0 == m
    ensures r.1.Some? ==> r.0.size == m.size - 1 && r.0.modCount == m.modCount + 1
    ensures forall k :: Lookup(Entries(r.0.root), k) == if k == key then None else Lookup(Entries(m.root), k)
  {
    var e := GetEntry(cmp, m.root, key);
    if e.None? then (m, None)
    else
      var z := e.value;
      DeleteAtKeeps(cmp, m, z);
      PosEntry(z);
      SortedLookup(cmp, Entries(m.root), Pos(z));
      WithoutLookup(cmp, Entries(m.root), Pos(z));
      (DeleteAt(m, z), Some(z.focus.value))
  }

  /** The in-order keys after `remove(key)` are the old ones with `key` taken
      out. */
  lemma RemoveKeys<K(!new), V>(cmp: (K, K) -> int, m: TreeMap<K, V>, key: K)
    requires Valid(cmp, m) && !Absent(Entries(m.root), key)
    ensures exists i :: (0 <= i < |Entries(m.root)| && Entries(m.root)[i].0 == key
      && Entries(Remove(cmp, m, key).0.root) == Without(Entries(m.root), i))
  {
    var z := GetEntry(cmp, m.root, key).value;
    DeleteAtKeeps(cmp, m, z);
    PosEntry(z);
  }

  /** `pollFirstEntry()`: the least entry, deleted; null for an empty map. */
  function PollFirstEntry<K(!new), V>(cmp: (K, K) -> int, m: TreeMap<K, V>): (r: (TreeMap<K, V>, Option<(K, V)>))
    requires Valid(cmp, m)
    ensures Valid(cmp, r.0) && r.1 == FirstEntry(m)
    ensures r.1.None? ==> r.0 == m
    ensures r.1.Some? ==> Entries(r.0.root) == Entries(m.root)[1..]
    ensures r.1.Some? ==> r.0.size == m.size - 1 && r.0.modCount == m.modCount + 1
  {
    match GetFirstEntryCorrected(m.root)
    case None => (m, None)
    case Some(z) =>
      DeleteAtKeeps(cmp, m, z);
      (DeleteAt(m, z), Some((z.focus.key, z.focus.value)))
  }

  /** `pollLastEntry()`: the greatest entry, deleted; null for an empty map. */
  function PollLastEntry<K(!new), V>(cmp: (K, K) -> int, m: TreeMap<K, V>): (r: (TreeMap<K, V>, Option<(K, V)>))
    requires Valid(cmp, m)
    ensures Valid(cmp, r.0) && r.1 == LastEntry(m)
    ensures r.1.None? ==> r.0 == m
    ensures r.1.Some? ==> Entries(r.0.root) == Entries(m.root)[..|Entries(m.root)| - 1]
    ensures r.1.Some? ==> r.0.size == m.size - 1 && r.0.modCount == m.modCount + 1
  {
    match GetLastEntry(m.root)
    case None => (m, None)
    case Some(z) =>
      DeleteAtKeeps(cmp, m, z);
      (DeleteAt(m, z), Some((z.focus.key, z.focus.value)))
  }

  /** `clear()`: no entries, one more modification. */
  function Clear<K, V>(m: TreeMap<K, V>): (r: TreeMap<K, V>)
    ensures Entries(r.root) == [] && r.size == 0 && r.modCount == m.modCount + 1
  {
    TreeMap(Nil, 0, m.modCount + 1)
  }

  // ---------------------------------------------------------------------
  // Building

  /** `new MyTreeMap(sortedMap)`: `buildFromSorted` over the source's
      entries in order. */
  function FromSorted<K(!new), V>(cmp: (K, K) -> int, s: seq<(K, V)>): (m: TreeMap<K, V>)
    requires TotalOrder(cmp) && Sorted(cmp, s)
    ensures Valid(cmp, m) && Entries(m.root) == s && m.modCount == 0
  {
    BuildTreeCorrectedIsRedBlack(s);
    TreeMap(BuildTreeCorrected(s), |s|, 0)
  }

  /** The inherited `putAll`: `put` of every entry, in order. */
  function PutEach<K(!new), V>(cmp: (K, K) -> int, m: TreeMap<K, V>, s: seq<(K, V)>): (r: TreeMap<K, V>)
    requires Valid(cmp, m)
    ensures Valid(cmp, r)
    decreases |s|
  {
    if |s| == 0 then m else PutEach(cmp, Put(cmp, m, s[0].0, s[0].1).0, s[1..])
  }

  /** After putting every entry of `s`, a key of `s` maps to its last value
      in `s`; every other key keeps its old value. */
  lemma {:induction false} PutEachUpdates<K(!new), V>(cmp: (K, K) -> int, m: TreeMap<K, V>, s: seq<(K, V)>, k: K)
    requires Valid(cmp, m)
    ensures Lookup(Entries(PutEach(cmp, m, s).root), k)
         == if LookupLast(s, k).Some? then LookupLast(s, k) else Lookup(Entries(m.root), k)
    decreases |s|
  {
    if |s| > 0 {
      var m' := Put(cmp, m, s[0].0, s[0].1).0;
      PutEachUpdates(cmp, m', s[1..], k);
      PutUpdates(cmp, m, s[0].0, s[0].1, k);
      LookupLastStep(s, k, Lookup(Entries(m.root), k), Lookup(Entries(m'.root), k));
    }
  }

  /** `putAll(map)`: into an empty map from a non-empty sorted map with the
      same order, one `buildFromSorted` counted as one modification;
      otherwise `put` of every entry. `s` stands for the source's entries
      in iteration order and `sortedSource` for the branch test; both are
      abstractions. In the source the branch tests `instanceof
      java.util.SortedMap` and then casts to `MySortedMap`, so no map class
      of the repository takes it, and both branches iterate `entrySet()`,
      which `MyTreeMap` and `MyHashMap` still return as null. The model
      describes what the method does once a source supplies its entries. */
  function PutAll<K(!new), V>(cmp: (K, K) -> int, m: TreeMap<K, V>, s: seq<(K, V)>, sortedSource: bool)
    : (r: TreeMap<K, V>)
    requires Valid(cmp, m)
    requires sortedSource ==> Sorted(cmp, s)
    ensures Valid(cmp, r)
  {
    if m.size == 0 && |s| != 0 && sortedSource then
      var b := FromSorted(cmp, s);
      b.(modCount := m.modCount + 1)
    else
      PutEach(cmp, m, s)
  }

  /** In a sorted sequence the first and the last entry of a key are the
      same entry. */
  lemma SortedLookupLast<K(!new), V>(cmp: (K, K) -> int, s: seq<(K, V)>, k: K)
    requires TotalOrder(cmp) && Sorted(cmp, s)
    ensures LookupLast(s, k) == Lookup(s, k)
  {
    if !Absent(s, k) {
      var i :| 0 <= i < |s| && s[i].0 == k;
      SortedKeyAlone(cmp, s, i);
      SortedLookup(cmp, s, i);
      LookupLastAt(s, i);
    }
  }

  /** A key absent after index `i` has its last value at `i`. */
  lemma {:induction false} LookupLastAt<K, V>(s: seq<(K, V)>, i: int)
    requires 0 <= i < |s| && Absent(s[i + 1..], s[i].0)
    ensures LookupLast(s, s[i].0) == Some(s[i].1)
    decreases |s|
  {
    if i < |s| - 1 {
      assert s[|s| - 1] == s[i + 1..][|s| - 1 - (i + 1)];
      var t := s[..|s| - 1];
      assert t[i + 1..] == s[i + 1..][..|s| - 1 - (i + 1)];
      LookupLastAt(t, i);
    }
  }

  /** After `putAll`, the keys of the source map to their values in it and
      every other key keeps its old value. */
  lemma PutAllUpdates<K(!new), V>(cmp: (K, K) -> int, m: TreeMap<K, V>, s: seq<(K, V)>, sortedSource: bool, k: K)
    requires Valid(cmp, m)
    requires sortedSource ==> Sorted(cmp, s)
    ensures Lookup(Entries(PutAll(cmp, m, s, sortedSource).root), k)
         == if LookupLast(s, k).Some? then LookupLast(s, k) else Lookup(Entries(m.root), k)
  {
    if m.size == 0 && |s| != 0 && sortedSource {
      SortedLookupLast(cmp, s, k);
    } else {
      PutEachUpdates(cmp, m, s, k);
    }
  }
}
