/** The read-only walks of `MyTreeMap`: key search (`getEntry`,
    `getEntryUsingComparator`), the four neighbour searches (`getCeilingEntry`,
    `getFloorEntry`, `getHigherEntry`, `getLowerEntry`), the extreme entries
    (`getFirstEntry`, `getLastEntry`) and in-order stepping (`successor`,
    `predecessor`). Each result is characterised against the in-order reading
    `Entries` of the whole tree: a position found is an index into it. */
module TreeNavigation {
  import opened Wrappers
  import opened RbTree
  import opened KeyOrder

  /** The in-order reading around a node position: the entries before it,
      the node's entry at index `Pos(z)`, and the entries after it. */
  lemma FocusSplit<K, V>(z: Zipper<K, V>)
    requires z.focus.Node?
    ensures Pos(z) < |Entries(Whole(z))|
    ensures Entries(Whole(z))[..Pos(z)] == Prefix(z.path) + Entries(z.focus.left)
    ensures Entries(Whole(z))[Pos(z)] == (z.focus.key, z.focus.value)
    ensures Entries(Whole(z))[Pos(z) + 1..] == Entries(z.focus.right) + Suffix(z.path)
  {
    PlugEntries(z.focus, z.path);
    var before := Prefix(z.path) + Entries(z.focus.left);
    var after := Entries(z.focus.right) + Suffix(z.path);
    assert Entries(Whole(z)) == before + [(z.focus.key, z.focus.value)] + after;
  }

  /** The keys before the position are below `key` and those after it
      above: the state of a search for `key` that has reached `z`. */
  ghost predicate Bracketed<K(!new), V>(cmp: (K, K) -> int, z: Zipper<K, V>, key: K) {
    AllBelow(cmp, Prefix(z.path), key) && AllAbove(cmp, Suffix(z.path), key)
  }

  /** A whole tree whose in-order keys increase under a total order. */
  ghost predicate Ordered<K(!new), V>(cmp: (K, K) -> int, t: Tree<K, V>) {
    TotalOrder(cmp) && Sorted(cmp, Entries(t))
  }

  /** Going left from a node whose key is above `key` keeps every key
      after the new position above `key`. */
  lemma StepLeftAbove<K(!new), V>(cmp: (K, K) -> int, z: Zipper<K, V>, key: K)
    requires z.focus.Node? && Ordered(cmp, Whole(z)) && cmp(key, z.focus.key) < 0
    ensures Pos(z) < |Entries(Whole(z))|
    ensures Suffix(DownLeft(z).path) == Entries(Whole(z))[Pos(z)..]
    ensures AllAbove(cmp, Suffix(DownLeft(z).path), key)
  {
    FocusSplit(z);
    var s := Entries(Whole(z));
    AboveFrom(cmp, s, Pos(z), key);
    assert Suffix(DownLeft(z).path) == s[Pos(z)..];
  }

  /** Going left from a node whose key is at least `key` keeps every key
      after the new position at least `key`. */
  lemma StepLeftAtLeast<K(!new), V>(cmp: (K, K) -> int, z: Zipper<K, V>, key: K)
    requires z.focus.Node? && Ordered(cmp, Whole(z)) && cmp(key, z.focus.key) <= 0
    ensures Pos(z) < |Entries(Whole(z))|
    ensures Suffix(DownLeft(z).path) == Entries(Whole(z))[Pos(z)..]
    ensures AllAtLeast(cmp, Suffix(DownLeft(z).path), key)
  {
    FocusSplit(z);
    var s := Entries(Whole(z));
    AtLeastFrom(cmp, s, Pos(z), key);
    assert Suffix(DownLeft(z).path) == s[Pos(z)..];
  }

  /** Going right from a node whose key is below `key` keeps every key
      before the new position below `key`. */
  lemma StepRightBelow<K(!new), V>(cmp: (K, K) -> int, z: Zipper<K, V>, key: K)
    requires z.focus.Node? && Ordered(cmp, Whole(z)) && cmp(key, z.focus.key) > 0
    ensures Pos(z) < |Entries(Whole(z))|
    ensures Prefix(DownRight(z).path) == Entries(Whole(z))[..Pos(z) + 1]
    ensures AllBelow(cmp, Prefix(DownRight(z).path), key)
  {
    FocusSplit(z);
    var s := Entries(Whole(z));
    BelowUpTo(cmp, s, Pos(z), key);
    assert Prefix(DownRight(z).path) == s[..Pos(z) + 1];
  }

  /** Going right from a node whose key is at most `key` keeps every key
      before the new position at most `key`. */
  lemma StepRightAtMost<K(!new), V>(cmp: (K, K) -> int, z: Zipper<K, V>, key: K)
    requires z.focus.Node? && Ordered(cmp, Whole(z)) && cmp(key, z.focus.key) >= 0
    ensures Pos(z) < |Entries(Whole(z))|
    ensures Prefix(DownRight(z).path) == Entries(Whole(z))[..Pos(z) + 1]
    ensures AllAtMost(cmp, Prefix(DownRight(z).path), key)
  {
    FocusSplit(z);
    var s := Entries(Whole(z));
    AtMostUpTo(cmp, s, Pos(z), key);
    assert Prefix(DownRight(z).path) == s[..Pos(z) + 1];
  }

  // ---------------------------------------------------------------------
  // Key search

  /** The search loop of `getEntry` (also the descent of `put`): go left
      while `key` is smaller, right while it is larger, and stop at the node
      holding `key` or at the null link where it would hang. */
  function Descend<K(!new), V>(cmp: (K, K) -> int, z: Zipper<K, V>, key: K): (r: Zipper<K, V>)
    requires Ordered(cmp, Whole(z)) && Bracketed(cmp, z, key)
    ensures Whole(r) == Whole(z)
    ensures Bracketed(cmp, r, key)
    ensures r.focus.Node? ==> r.focus.key == key
    ensures r.focus.Nil? ==> Absent(Entries(Whole(z)), key)
    decreases z.focus
  {
    if z.focus.Nil? then
      PlugEntries(z.focus, z.path);
      z
    else
      var c := cmp(key, z.focus.key);
      if c < 0 then
        StepLeftAbove(cmp, z, key);
        Descend(cmp, DownLeft(z), key)
      else if c > 0 then
        StepRightBelow(cmp, z, key);
        Descend(cmp, DownRight(z), key)
      else
        z
  }

  /** `getEntry` on the `Comparable` path: the node holding `key`, or null
      exactly when no key of the map equals `key`. */
  function GetEntry<K(!new), V>(cmp: (K, K) -> int, root: Tree<K, V>, key: K): (r: Option<Zipper<K, V>>)
    requires Ordered(cmp, root)
    ensures r.None? <==> Absent(Entries(root), key)
    ensures r.Some? ==> Whole(r.value) == root && r.value.focus.Node? && r.value.focus.key == key
  {
    var z := Descend(cmp, Zipper(root, Root), key);
    if z.focus.Nil? then None
    else
      PosEntry(z);
      Some(z)
  }

  /** `getEntryUsingComparator` as written: its loop tests `root != null`
      instead of `p != null`, so on a non-empty tree a search that runs off
      the bottom dereferences null. Only an empty tree or a present key
      return normally. */
  function GetEntryUsingComparator<K(!new), V>(cmp: (K, K) -> int, root: Tree<K, V>, key: K)
    : (r: Result<Option<Zipper<K, V>>>)
    requires Ordered(cmp, root)
    ensures root.Nil? ==> r == Ok(None)
    ensures root.Node? && Absent(Entries(root), key) ==> r == Err(NullPointer)
    ensures !Absent(Entries(root), key) ==>
      r.Ok? && r.value.Some? && Whole(r.value.value) == root && r.value.value.focus.Node? && r.value.value.focus.key == key
  {
    if root.Nil? then Ok(None)
    else
      var z := Descend(cmp, Zipper(root, Root), key);
      if z.focus.Nil? then Err(NullPointer)
      else
        PosEntry(z);
        Ok(Some(z))
  }

  /** The comparator search as evidently intended (the loop guarded by
      `p != null`) is exactly the `Comparable` search. */
  lemma GetEntryUsingComparatorCorrected<K(!new), V>(cmp: (K, K) -> int, root: Tree<K, V>, key: K)
    requires Ordered(cmp, root)
    ensures var r := GetEntryUsingComparator(cmp, root, key);
      r.Ok? ==> r.value == GetEntry(cmp, root, key)
    ensures root.Node? && Absent(Entries(root), key) ==>
      GetEntryUsingComparator(cmp, root, key).Err? && GetEntry(cmp, root, key).None?
  {
  }

  // ---------------------------------------------------------------------
  // Climbing and sliding

  /** The climb at the end of `successor`: walk up while the position is a
      right child; the parent reached from a left child holds the first entry
      after the subtree, and there is none when the climb passes the root. */
  function NextAncestor<K, V>(z: Zipper<K, V>): (r: Option<Zipper<K, V>>)
    ensures r.None? <==> Suffix(z.path) == []
    ensures r.Some? ==> r.value.focus.Node? && Whole(r.value) == Whole(z)
    ensures r.Some? ==> Pos(r.value) == |Prefix(z.path)| + |Entries(z.focus)|
    decreases z.path
  {
    match z.path
    case Root => None
    case LeftOf(_, _, _, _, _) => Some(Up(z))
    case RightOf(_, _, _, _, _) => NextAncestor(Up(z))
  }

  /** The climb at the end of `predecessor`, mirrored: the parent reached
      from a right child holds the last entry before the subtree. */
  function PrevAncestor<K, V>(z: Zipper<K, V>): (r: Option<Zipper<K, V>>)
    ensures r.None? <==> Prefix(z.path) == []
    ensures r.Some? ==> r.value.focus.Node? && Whole(r.value) == Whole(z)
    ensures r.Some? ==> Pos(r.value) + 1 == |Prefix(z.path)|
    decreases z.path
  {
    match z.path
    case Root => None
    case LeftOf(_, _, _, _, _) => PrevAncestor(Up(z))
    case RightOf(_, _, _, _, _) => Some(Up(z))
  }

  /** `while (p.left != null) p = p.left`: the first entry of the subtree. */
  function Leftmost<K, V>(z: Zipper<K, V>): (r: Zipper<K, V>)
    requires z.focus.Node?
    ensures r.focus.Node? && r.focus.left.Nil? && Whole(r) == Whole(z)
    ensures Pos(r) == |Prefix(z.path)|
    decreases z.focus
  {
    if z.focus.left.Nil? then z else Leftmost(DownLeft(z))
  }

  /** `while (p.right != null) p = p.right`: the last entry of the subtree. */
  function Rightmost<K, V>(z: Zipper<K, V>): (r: Zipper<K, V>)
    requires z.focus.Node?
    ensures r.focus.Node? && r.focus.right.Nil? && Whole(r) == Whole(z)
    ensures Pos(r) + 1 == |Prefix(z.path)| + |Entries(z.focus)|
    decreases z.focus
  {
    if z.focus.right.Nil? then z else Rightmost(DownRight(z))
  }

  /** `successor(t)`: the node holding the next entry in key order, or null
      for the last one. */
  function Successor<K, V>(z: Zipper<K, V>): (r: Option<Zipper<K, V>>)
    requires z.focus.Node?
    ensures r.None? <==> Pos(z) + 1 == |Entries(Whole(z))|
    ensures r.Some? ==> r.value.focus.Node? && Whole(r.value) == Whole(z)
    ensures r.Some? ==> Pos(r.value) == Pos(z) + 1
  {
    PlugEntries(z.focus, z.path);
    if z.focus.right.Node? then Some(Leftmost(DownRight(z)))
    else NextAncestor(z)
  }

  /** `predecessor(t)`: the node holding the previous entry in key order, or
      null for the first one. */
  function Predecessor<K, V>(z: Zipper<K, V>): (r: Option<Zipper<K, V>>)
    requires z.focus.Node?
    ensures r.None? <==> Pos(z) == 0
    ensures r.Some? ==> r.value.focus.Node? && Whole(r.value) == Whole(z)
    ensures r.Some? ==> Pos(r.value) + 1 == Pos(z)
  {
    if z.focus.left.Node? then Some(Rightmost(DownLeft(z)))
    else PrevAncestor(z)
  }

  /** Stepping forward then back returns to the same entry. */
  lemma {:induction false} SuccessorThenPredecessor<K, V>(z: Zipper<K, V>)
    requires z.focus.Node? && Successor(z).Some?
    ensures Predecessor(Successor(z).value).Some?
    ensures var w := Predecessor(Successor(z).value).value;
      Whole(w) == Whole(z) && w.focus.key == z.focus.key && w.focus.value == z.focus.value
  {
    var w := Predecessor(Successor(z).value).value;
    PosEntry(w);
    PosEntry(z);
  }

  // ---------------------------------------------------------------------
  // First and last

  /** `getLastEntry`: the node holding the greatest key, null for an empty
      tree. */
  function GetLastEntry<K, V>(root: Tree<K, V>): (r: Option<Zipper<K, V>>)
    ensures r.None? <==> root.Nil?
    ensures r.Some? ==> r.value.focus.Node? && Whole(r.value) == root
    ensures r.Some? ==> Pos(r.value) + 1 == |Entries(root)|
  {
    if root.Nil? then None else Some(Rightmost(Zipper(root, Root)))
  }

  /** The loop of `getFirstEntry` as written: it runs until `p` itself is
      null rather than until `p.left` is. */
  function RunLeftToNull<K, V>(z: Zipper<K, V>): (r: Option<Zipper<K, V>>)
    ensures r.None?
    decreases z.focus
  {
    if z.focus.Nil? then None else RunLeftToNull(DownLeft(z))
  }

  /** `getFirstEntry` as written: null for every tree, so `firstKey` throws
      `NoSuchElementException`, `firstEntry` and `pollFirstEntry` answer null
      and `containsValue` never finds anything. */
  function GetFirstEntry<K, V>(root: Tree<K, V>): (r: Option<Zipper<K, V>>)
    ensures r.None?
  {
    if root.Nil? then None else RunLeftToNull(Zipper(root, Root))
  }

  /** A non-empty tree has a first entry that the code misses. */
  lemma GetFirstEntryMissesFirst<K, V>(root: Tree<K, V>)
    requires root.Node?
    ensures GetFirstEntry(root).None? && |Entries(root)| > 0
  {
    PlugEntries(root, Root);
  }

  /** `getFirstEntry` as evidently intended: stop at the node whose left
      link is null, the node holding the least key. */
  function GetFirstEntryCorrected<K, V>(root: Tree<K, V>): (r: Option<Zipper<K, V>>)
    ensures r.None? <==> root.Nil?
    ensures r.Some? ==> r.value.focus.Node? && Whole(r.value) == root && Pos(r.value) == 0
  {
    if root.Nil? then None else Some(Leftmost(Zipper(root, Root)))
  }

  /** Climbing from a node without a right child reaches the node right
      after it, whose key is the first key after the subtree. */
  lemma ClimbAfter<K, V>(z: Zipper<K, V>)
    requires z.focus.Node? && z.focus.right.Nil?
    ensures Pos(z) < |Entries(Whole(z))|
    ensures NextAncestor(z).None? ==> Entries(Whole(z)) == Entries(Whole(z))[..Pos(z) + 1]
    ensures NextAncestor(z).Some? ==>
      && Pos(NextAncestor(z).value) == Pos(z) + 1
      && Pos(NextAncestor(z).value) < |Entries(Whole(z))|
      && NextAncestor(z).value.focus.key == Suffix(z.path)[0].0
  {
    FocusSplit(z);
    var r := NextAncestor(z);
    if r.Some? {
      FocusSplit(r.value);
    }
  }

  /** Climbing from a node without a left child reaches the node right
      before it, whose key is the last key before the subtree. */
  lemma ClimbBefore<K, V>(z: Zipper<K, V>)
    requires z.focus.Node? && z.focus.left.Nil?
    ensures Pos(z) < |Entries(Whole(z))|
    ensures PrevAncestor(z).None? ==> Entries(Whole(z)) == Entries(Whole(z))[Pos(z)..]
    ensures PrevAncestor(z).Some? ==>
      && Pos(PrevAncestor(z).value) + 1 == Pos(z)
      && Pos(PrevAncestor(z).value) < |Entries(Whole(z))|
      && |Prefix(z.path)| > 0
      && PrevAncestor(z).value.focus.key == Prefix(z.path)[|Prefix(z.path)| - 1].0
  {
    FocusSplit(z);
    var r := PrevAncestor(z);
    if r.Some? {
      FocusSplit(r.value);
    }
  }

  // ---------------------------------------------------------------------
  // Neighbour searches

  /** `r` is the entry with the least key at least `key`, or null when every
      key is below `key`. */
  ghost predicate IsCeiling<K(!new), V>(cmp: (K, K) -> int, t: Tree<K, V>, key: K, r: Option<Zipper<K, V>>) {
    match r
    case None => AllBelow(cmp, Entries(t), key)
    case Some(z) =>
      && z.focus.Node? && Whole(z) == t && Pos(z) < |Entries(t)|
      && cmp(z.focus.key, key) >= 0 && AllBelow(cmp, Entries(t)[..Pos(z)], key)
  }

  /** `r` is the entry with the greatest key at most `key`, or null when
      every key is above `key`. */
  ghost predicate IsFloor<K(!new), V>(cmp: (K, K) -> int, t: Tree<K, V>, key: K, r: Option<Zipper<K, V>>) {
    match r
    case None => AllAbove(cmp, Entries(t), key)
    case Some(z) =>
      && z.focus.Node? && Whole(z) == t && Pos(z) < |Entries(t)|
      && cmp(z.focus.key, key) <= 0 && AllAbove(cmp, Entries(t)[Pos(z) + 1..], key)
  }

  /** `r` is the entry with the least key above `key`, or null when every
      key is at most `key`. */
  ghost predicate IsHigher<K(!new), V>(cmp: (K, K) -> int, t: Tree<K, V>, key: K, r: Option<Zipper<K, V>>) {
    match r
    case None => AllAtMost(cmp, Entries(t), key)
    case Some(z) =>
      && z.focus.Node? && Whole(z) == t && Pos(z) < |Entries(t)|
      && cmp(z.focus.key, key) > 0 && AllAtMost(cmp, Entries(t)[..Pos(z)], key)
  }

  /** `r` is the entry with the greatest key below `key`, or null when every
      key is at least `key`. */
  ghost predicate IsLower<K(!new), V>(cmp: (K, K) -> int, t: Tree<K, V>, key: K, r: Option<Zipper<K, V>>) {
    match r
    case None => AllAtLeast(cmp, Entries(t), key)
    case Some(z) =>
      && z.focus.Node? && Whole(z) == t && Pos(z) < |Entries(t)|
      && cmp(z.focus.key, key) < 0 && AllAtLeast(cmp, Entries(t)[Pos(z) + 1..], key)
  }

  /** The loop of `getCeilingEntry` from the node at `z`. */
  function CeilingFrom<K(!new), V>(cmp: (K, K) -> int, z: Zipper<K, V>, key: K): (r: Option<Zipper<K, V>>)
    requires z.focus.Node? && Ordered(cmp, Whole(z)) && Bracketed(cmp, z, key)
    ensures IsCeiling(cmp, Whole(z), key, r)
    decreases z.focus
  {
    var c := cmp(key, z.focus.key);
    if c < 0 then
      StepLeftAbove(cmp, z, key);
      if z.focus.left.Node? then CeilingFrom(cmp, DownLeft(z), key)
      else
        FocusSplit(z);
        Some(z)
    else if c > 0 then
      StepRightBelow(cmp, z, key);
      if z.focus.right.Node? then CeilingFrom(cmp, DownRight(z), key)
      else
        ClimbAfter(z);
        NextAncestor(z)
    else
      FocusSplit(z);
      SortedAround(cmp, Entries(Whole(z)), Pos(z));
      Some(z)
  }

  /** `getCeilingEntry`: the entry with the least key at least `key`. */
  function GetCeilingEntry<K(!new), V>(cmp: (K, K) -> int, root: Tree<K, V>, key: K): (r: Option<Zipper<K, V>>)
    requires Ordered(cmp, root)
    ensures IsCeiling(cmp, root, key, r)
  {
    if root.Nil? then None else CeilingFrom(cmp, Zipper(root, Root), key)
  }

  /** The loop of `getFloorEntry` from the node at `z`. */
  function FloorFrom<K(!new), V>(cmp: (K, K) -> int, z: Zipper<K, V>, key: K): (r: Option<Zipper<K, V>>)
    requires z.focus.Node? && Ordered(cmp, Whole(z)) && Bracketed(cmp, z, key)
    ensures IsFloor(cmp, Whole(z), key, r)
    decreases z.focus
  {
    var c := cmp(key, z.focus.key);
    if c < 0 then
      StepLeftAbove(cmp, z, key);
      if z.focus.left.Node? then FloorFrom(cmp, DownLeft(z), key)
      else
        ClimbBefore(z);
        PrevAncestor(z)
    else if c > 0 then
      StepRightBelow(cmp, z, key);
      if z.focus.right.Node? then FloorFrom(cmp, DownRight(z), key)
      else
        FocusSplit(z);
        Some(z)
    else
      FocusSplit(z);
      SortedAround(cmp, Entries(Whole(z)), Pos(z));
      Some(z)
  }

  /** `getFloorEntry`: the entry with the greatest key at most `key`. */
  function GetFloorEntry<K(!new), V>(cmp: (K, K) -> int, root: Tree<K, V>, key: K): (r: Option<Zipper<K, V>>)
    requires Ordered(cmp, root)
    ensures IsFloor(cmp, root, key, r)
  {
    if root.Nil? then None else FloorFrom(cmp, Zipper(root, Root), key)
  }

  /** The loop of `getHigherEntry` from the node at `z`: keys before the
      position are at most `key`, keys after it above. */
  function HigherFrom<K(!new), V>(cmp: (K, K) -> int, z: Zipper<K, V>, key: K): (r: Option<Zipper<K, V>>)
    requires z.focus.Node? && Ordered(cmp, Whole(z))
    requires AllAtMost(cmp, Prefix(z.path), key) && AllAbove(cmp, Suffix(z.path), key)
    ensures IsHigher(cmp, Whole(z), key, r)
    decreases z.focus
  {
    var c := cmp(key, z.focus.key);
    if c < 0 then
      StepLeftAbove(cmp, z, key);
      if z.focus.left.Node? then HigherFrom(cmp, DownLeft(z), key)
      else
        FocusSplit(z);
        Some(z)
    else
      StepRightAtMost(cmp, z, key);
      if z.focus.right.Node? then HigherFrom(cmp, DownRight(z), key)
      else
        ClimbAfter(z);
        NextAncestor(z)
  }

  /** `getHigherEntry`: the entry with the least key above `key`. */
  function GetHigherEntry<K(!new), V>(cmp: (K, K) -> int, root: Tree<K, V>, key: K): (r: Option<Zipper<K, V>>)
    requires Ordered(cmp, root)
    ensures IsHigher(cmp, root, key, r)
  {
    if root.Nil? then None else HigherFrom(cmp, Zipper(root, Root), key)
  }

  /** The loop of `getLowerEntry` from the node at `z`: keys before the
      position are below `key`, keys after it at least `key`. */
  function LowerFrom<K(!new), V>(cmp: (K, K) -> int, z: Zipper<K, V>, key: K): (r: Option<Zipper<K, V>>)
    requires z.focus.Node? && Ordered(cmp, Whole(z))
    requires AllBelow(cmp, Prefix(z.path), key) && AllAtLeast(cmp, Suffix(z.path), key)
    ensures IsLower(cmp, Whole(z), key, r)
    decreases z.focus
  {
    var c := cmp(key, z.focus.key);
    if c > 0 then
      StepRightBelow(cmp, z, key);
      if z.focus.right.Node? then LowerFrom(cmp, DownRight(z), key)
      else
        FocusSplit(z);
        Some(z)
    else
      StepLeftAtLeast(cmp, z, key);
      if z.focus.left.Node? then LowerFrom(cmp, DownLeft(z), key)
      else
        ClimbBefore(z);
        PrevAncestor(z)
  }

  /** `getLowerEntry`: the entry with the greatest key below `key`. */
  function GetLowerEntry<K(!new), V>(cmp: (K, K) -> int, root: Tree<K, V>, key: K): (r: Option<Zipper<K, V>>)
    requires Ordered(cmp, root)
    ensures IsLower(cmp, root, key, r)
  {
    if root.Nil? then None else LowerFrom(cmp, Zipper(root, Root), key)
  }
}
