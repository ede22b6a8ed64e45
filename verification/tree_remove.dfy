/** `deleteEntry` of `MyTreeMap`: a node with two children first takes over
    its successor's key and value, and the successor's node is unlinked
    instead; the unlinked node's only child (or nothing) takes its place,
    and `fixAfterDeletion` runs when the unlinked node was black.

    Java runs the fix-up on a black leaf while the leaf is still linked and
    unlinks it afterwards. The loop never reads anything of `x` but its
    colour (black) and on which side of its parent it hangs, and no case
    moves `x` away from its parent, so the model unlinks the leaf first and
    starts the loop from the empty position it leaves; the resulting tree is
    the same. */
module TreeRemoval {
  import opened RbTree
  import opened TreeInsertion
  import opened TreeDeletion
  import opened TreeNavigation

  /** The entries of `s` without the one at index `i`. */
  function Without<T>(s: seq<T>, i: nat): (r: seq<T>)
    requires i < |s|
    ensures |r| + 1 == |s|
  {
    s[..i] + s[i + 1..]
  }

  /** `p.key = s.key; p.value = s.value`: the node keeps its place and colour. */
  function Rekey<K, V>(z: Zipper<K, V>, k: K, v: V): (r: Zipper<K, V>)
    requires z.focus.Node?
    ensures r.path == z.path && r.focus.Node?
    ensures r.focus.key == k && r.focus.value == v
    ensures r.focus.color == z.focus.color
    ensures r.focus.left == z.focus.left && r.focus.right == z.focus.right
  {
    z.(focus := z.focus.(key := k, value := v))
  }

  /** Changing the key and value of a node changes neither colour rule. */
  lemma RekeyKeepsRules<K, V>(z: Zipper<K, V>, k: K, v: V)
    requires z.focus.Node?
    ensures Relaxed(Whole(Rekey(z, k, v))) == Relaxed(Whole(z))
    ensures z.path != Root ==> ColorOf(Whole(Rekey(z, k, v))) == ColorOf(Whole(z))
  {
    var r := Rekey(z, k, v);
    PlugNoRedRed(z.focus, z.path);
    PlugNoRedRed(r.focus, r.path);
    PlugBalanced(z.focus, z.path);
    PlugBalanced(r.focus, r.path);
    if z.path != Root {
      RootColorOfPlug(z.focus, r.focus, z.path);
    }
  }

  /** The node that is physically unlinked: `p` itself when it has at most
      one child; otherwise its successor, once the successor's key and value
      have been copied into `p`. Taking out the unlinked node's entry
      leaves exactly the entries of the tree without `p`'s entry. */
  function UnlinkTarget<K, V>(z: Zipper<K, V>): (r: Zipper<K, V>)
    requires z.focus.Node?
    ensures r.focus.Node? && (r.focus.left.Nil? || r.focus.right.Nil?)
    ensures Pos(r) < |Entries(Whole(r))| && Pos(z) < |Entries(Whole(z))|
    ensures Without(Entries(Whole(r)), Pos(r)) == Without(Entries(Whole(z)), Pos(z))
    ensures Relaxed(Whole(r)) == Relaxed(Whole(z))
    ensures ColorOf(Whole(r)) == ColorOf(Whole(z))
  {
    PosEntry(z);
    if z.focus.left.Node? && z.focus.right.Node? then
      var s := Leftmost(DownRight(z)).focus;
      var z' := Rekey(z, s.key, s.value);
      var r := Leftmost(DownRight(z'));
      SuccessorIsFirstOfRight(z);
      assert Pos(r) == Pos(z') + 1;
      SuccessorSwap(z, z', r);
      RekeyKeepsRules(z, s.key, s.value);
      r
    else
      z
  }

  /** Dropping the element between two parts leaves the parts. */
  lemma WithoutMiddle<T>(a: seq<T>, x: T, b: seq<T>)
    ensures Without(a + [x] + b, |a|) == a + b
  {
    assert (a + [x] + b)[..|a|] == a;
    assert (a + [x] + b)[|a| + 1..] == b;
  }

  /** The whole tree's entries around a node. */
  lemma FocusEntries<K, V>(z: Zipper<K, V>)
    requires z.focus.Node?
    ensures Entries(Whole(z))
         == (Prefix(z.path) + Entries(z.focus.left)) + [(z.focus.key, z.focus.value)]
            + (Entries(z.focus.right) + Suffix(z.path))
    ensures Pos(z) == |Prefix(z.path) + Entries(z.focus.left)|
  {
    PlugEntries(z.focus, z.path);
  }

  /** Dropping a node's entry leaves everything around it in order. */
  lemma WithoutFocus<K, V>(z: Zipper<K, V>)
    requires z.focus.Node?
    ensures Pos(z) < |Entries(Whole(z))|
    ensures Without(Entries(Whole(z)), Pos(z))
         == Prefix(z.path) + Entries(z.focus.left) + Entries(z.focus.right) + Suffix(z.path)
  {
    var a := Prefix(z.path) + Entries(z.focus.left);
    var b := Entries(z.focus.right) + Suffix(z.path);
    var x := (z.focus.key, z.focus.value);
    assert Entries(Whole(z)) == a + [x] + b by {
      PlugEntries(z.focus, z.path);
    }
    WithoutMiddle(a, x, b);
  }

  /** The successor of a node with a right child is the first entry of that
      child. */
  lemma SuccessorIsFirstOfRight<K, V>(z: Zipper<K, V>)
    requires z.focus.Node? && z.focus.right.Node?
    ensures
      var s := Leftmost(DownRight(z)).focus;
      Entries(z.focus.right)[0] == (s.key, s.value)
  {
    var zs := Leftmost(DownRight(z));
    assert Pos(zs) == |Prefix(DownRight(z).path)|;
    PosEntry(zs);
    FocusSplit(z);
  }

  /** Copying the successor's entry into `p` and dropping the successor's
      own entry leaves the entries without `p`'s. */
  lemma SuccessorSwap<K, V>(z: Zipper<K, V>, z': Zipper<K, V>, r: Zipper<K, V>)
    requires z.focus.Node? && z.focus.right.Node?
    requires z'.path == z.path && z'.focus.Node?
    requires z'.focus.left == z.focus.left && z'.focus.right == z.focus.right
    requires (z'.focus.key, z'.focus.value) == Entries(z.focus.right)[0]
    requires r.focus.Node? && Whole(r) == Whole(z') && Pos(r) == Pos(z') + 1
    ensures Pos(r) < |Entries(Whole(r))| && Pos(z) < |Entries(Whole(z))|
    ensures Without(Entries(Whole(r)), Pos(r)) == Without(Entries(Whole(z)), Pos(z))
  {
    var a := Prefix(z.path) + Entries(z.focus.left);
    var rt, suf := Entries(z.focus.right), Suffix(z.path);
    var x := (z.focus.key, z.focus.value);
    var y := (z'.focus.key, z'.focus.value);
    var e, e' := Entries(Whole(z)), Entries(Whole(r));
    FocusEntries(z);
    FocusEntries(z');
    SwapSeq(e, e', a, x, rt, suf);
  }

  /** Overwriting the element at `|a|` with the first element of what
      follows and then dropping that element is the same as dropping the
      element at `|a|`. */
  lemma SwapSeq<T>(e: seq<T>, e': seq<T>, a: seq<T>, x: T, rt: seq<T>, suf: seq<T>)
    requires |rt| > 0
    requires e == a + [x] + (rt + suf) && e' == a + [rt[0]] + (rt + suf)
    ensures |a| < |e| && |a| + 1 < |e'|
    ensures Without(e', |a| + 1) == Without(e, |a|)
  {
    var y, rest := rt[0], rt[1..] + suf;
    assert rt + suf == [y] + rest;
    WithoutMiddle(a, x, [y] + rest);
    WithoutMiddle(a + [y], y, rest);
  }

  /** `deleteEntry(p)` as written, with `fixAfterDeletion` as written. */
  function DeleteEntry<K, V>(z: Zipper<K, V>): (r: Tree<K, V>)
    requires z.focus.Node?
    ensures Pos(z) < |Entries(Whole(z))|
    ensures Entries(r) == Without(Entries(Whole(z)), Pos(z))
  {
    var p := UnlinkTarget(z);
    UnlinkEntries(p);
    var replacement := if p.focus.left.Node? then p.focus.left else p.focus.right;
    if replacement.Node? then
      var x := Zipper(replacement, p.path);
      if p.focus.color == Black then FixAfterDeletion(x) else Whole(x)
    else if p.path == Root then
      Nil
    else
      var x := Zipper(Nil, p.path);
      if p.focus.color == Black then FixAfterDeletion(x) else Whole(x)
  }

  /** `deleteEntry(p)` with the corrected fix-up. */
  function DeleteEntryCorrected<K, V>(z: Zipper<K, V>): (r: Tree<K, V>)
    requires z.focus.Node?
    ensures Pos(z) < |Entries(Whole(z))|
    ensures Entries(r) == Without(Entries(Whole(z)), Pos(z))
  {
    var p := UnlinkTarget(z);
    UnlinkEntries(p);
    var replacement := if p.focus.left.Node? then p.focus.left else p.focus.right;
    if replacement.Node? then
      var x := Zipper(replacement, p.path);
      if p.focus.color == Black then FixAfterDeletionCorrected(x) else Whole(x)
    else if p.path == Root then
      Nil
    else
      var x := Zipper(Nil, p.path);
      if p.focus.color == Black then FixAfterDeletionCorrected(x) else Whole(x)
  }

  /** Splicing out a node with at most one child removes exactly its entry. */
  lemma UnlinkEntries<K, V>(p: Zipper<K, V>)
    requires p.focus.Node? && (p.focus.left.Nil? || p.focus.right.Nil?)
    ensures Pos(p) < |Entries(Whole(p))|
    ensures
      var replacement := if p.focus.left.Node? then p.focus.left else p.focus.right;
      Entries(Whole(Zipper(replacement, p.path))) == Without(Entries(Whole(p)), Pos(p))
  {
    var replacement := if p.focus.left.Node? then p.focus.left else p.focus.right;
    FocusSplit(p);
    PlugEntries(replacement, p.path);
    var e := Entries(Whole(p));
    assert Entries(replacement) == Entries(p.focus.left) + Entries(p.focus.right);
  }

  /** After a node with at most one child is spliced out of a tree obeying
      both rules: when the node was red, the tree still obeys them; when it
      was black, the position the child moved into satisfies the deletion
      loop's invariant. */
  lemma UnlinkKeepsRules<K, V>(p: Zipper<K, V>)
    requires p.focus.Node? && (p.focus.left.Nil? || p.focus.right.Nil?)
    requires Relaxed(Whole(p))
    ensures
      var replacement := if p.focus.left.Node? then p.focus.left else p.focus.right;
      var x := Zipper(replacement, p.path);
      && (p.focus.color == Red ==> Relaxed(Whole(x)))
      && (p.focus.color == Black ==> DeleteInvariant(x))
  {
    var replacement := if p.focus.left.Node? then p.focus.left else p.focus.right;
    PlugNoRedRed(p.focus, p.path);
    PlugBalanced(p.focus, p.path);
    PlugNoRedRed(replacement, p.path);
    PlugBalanced(replacement, p.path);
    assert BlackHeight(replacement) == BlackHeight(p.focus.left);
    if p.focus.color == Red {
      assert replacement.Nil?;
      PathNoRedRedAnyChild(p.path, Red);
    }
  }

  /** The corrected deletion keeps both colour rules, and a black root
      stays black. */
  lemma DeleteEntryCorrectedKeepsRules<K, V>(z: Zipper<K, V>)
    requires z.focus.Node? && Relaxed(Whole(z))
    ensures Relaxed(DeleteEntryCorrected(z))
    ensures IsRedBlack(Whole(z)) ==> IsRedBlack(DeleteEntryCorrected(z))
  {
    var p := UnlinkTarget(z);
    UnlinkKeepsRules(p);
    var replacement := if p.focus.left.Node? then p.focus.left else p.focus.right;
    var x := Zipper(replacement, p.path);
    if p.path != Root {
      RootColorOfPlug(replacement, p.focus, p.path);
    }
    if p.focus.color == Black {
      FixAfterDeletionCorrectedRestores(x);
    }
  }

  /** Without the final `setColor(x, BLACK)`, deleting the black node 3 of
      the valid tree 2(1, 3(-, 4)) (4 red, the rest black) splices the red 4
      into its place and leaves it red: the left side of 2 has one black
      node, the right side none. The corrected deletion blackens 4. */
  lemma DeleteEntryUnbalances()
    ensures
      var four := Node(Red, Nil, 4, 4, Nil);
      var t: Tree<int, int> := Node(Black, Node(Black, Nil, 1, 1, Nil), 2, 2, Node(Black, Nil, 3, 3, four));
      var z := DownRight(Zipper(t, Root));
      && IsRedBlack(t) && z.focus.Node? && z.focus.key == 3
      && !Balanced(DeleteEntry(z))
      && IsRedBlack(DeleteEntryCorrected(z))
  {
    var four := Node(Red, Nil, 4, 4, Nil);
    var t: Tree<int, int> := Node(Black, Node(Black, Nil, 1, 1, Nil), 2, 2, Node(Black, Nil, 3, 3, four));
    var z := DownRight(Zipper(t, Root));
    var x := Zipper(four, RightOf(Node(Black, Nil, 1, 1, Nil), Black, 2, 2, Root));
    assert UnlinkTarget(z) == z;
    assert DeleteLoop(x) == x;
    assert DeleteEntry(z) == Whole(x);
    DeleteEntryCorrectedKeepsRules(z);
  }
}
