/** The node structure of `MyTreeMap`: red-black tree entries with their
    parent chain, the in-order reading of a tree, the colour rules, and the
    two rotations.

    A Java `Entry` holds `left`, `right` and `parent` links. Here a subtree is
    the value `Tree`, and a node together with its parent links is a `Zipper`:
    the subtree rooted at the node (`focus`) plus the chain of its ancestors
    (`path`, innermost first), each ancestor recorded with its colour, entry
    and the other child. Walking `parent` links is `Up`, following `left` /
    `right` is `DownLeft` / `DownRight`, and `Plug` rebuilds the whole tree, so
    parent back-links always agree with child links. */
module RbTree {

  datatype Color = Red | Black

  datatype Tree<K, V> =
    | Nil
    | Node(color: Color, left: Tree<K, V>, key: K, value: V, right: Tree<K, V>)

  /** The ancestors of a position, innermost first. `LeftOf` records that the
      position is the left child of the recorded node, `RightOf` that it is
      the right child; `Root` that the position is the root. */
  datatype Path<K, V> =
    | Root
    | LeftOf(color: Color, key: K, value: V, right: Tree<K, V>, up: Path<K, V>)
    | RightOf(left: Tree<K, V>, color: Color, key: K, value: V, up: Path<K, V>)

  /** A position in a tree: the subtree found there and its ancestors. */
  datatype Zipper<K, V> = Zipper(focus: Tree<K, V>, path: Path<K, V>)

  // ---------------------------------------------------------------------
  // Null-tolerant accessors (`colorOf`, `leftOf`, `rightOf`, `setColor`)

  /** `colorOf`: a null link counts as BLACK. */
  function ColorOf<K, V>(t: Tree<K, V>): Color {
    if t.Nil? then Black else t.color
  }

  /** `leftOf`: the left child, null for null. */
  function LeftOrNil<K, V>(t: Tree<K, V>): Tree<K, V> {
    if t.Nil? then Nil else t.left
  }

  /** `rightOf`: the right child, null for null. */
  function RightOrNil<K, V>(t: Tree<K, V>): Tree<K, V> {
    if t.Nil? then Nil else t.right
  }

  /** `setColor`: recolours the node, does nothing to null. */
  function SetColor<K, V>(t: Tree<K, V>, c: Color): (r: Tree<K, V>)
    ensures t.Node? ==> r.Node? && r.color == c && r.left == t.left && r.right == t.right
    ensures t.Node? ==> r.key == t.key && r.value == t.value
    ensures t.Nil? ==> r.Nil?
  {
    if t.Nil? then Nil else t.(color := c)
  }

  // ---------------------------------------------------------------------
  // In-order reading

  /** The entries of a tree in in-order (the map's iteration order). */
  function Entries<K, V>(t: Tree<K, V>): seq<(K, V)> {
    match t
    case Nil => []
    case Node(_, l, k, v, r) => Entries(l) + [(k, v)] + Entries(r)
  }

  /** The entries with their colours, in in-order. Two trees with the same
      coloured entries hold the same entries and every node kept its colour. */
  function Coloured<K, V>(t: Tree<K, V>): seq<(K, V, Color)> {
    match t
    case Nil => []
    case Node(c, l, k, v, r) => Coloured(l) + [(k, v, c)] + Coloured(r)
  }

  /** The number of entries of a tree. */
  function Size<K, V>(t: Tree<K, V>): nat {
    match t
    case Nil => 0
    case Node(_, l, _, _, r) => Size(l) + 1 + Size(r)
  }

  lemma {:induction false} SizeIsEntries<K, V>(t: Tree<K, V>)
    ensures Size(t) == |Entries(t)|
  {
    match t
    case Nil =>
    case Node(_, l, _, _, r) =>
      SizeIsEntries(l);
      SizeIsEntries(r);
  }

  /** Dropping the colours of the coloured reading gives the entries. */
  lemma {:induction false} ColouredEntries<K, V>(t: Tree<K, V>)
    ensures |Coloured(t)| == |Entries(t)|
    ensures forall i :: 0 <= i < |Coloured(t)| ==>
      (Coloured(t)[i].0, Coloured(t)[i].1) == Entries(t)[i]
  {
    match t
    case Nil =>
    case Node(c, l, k, v, r) =>
      ColouredEntries(l);
      ColouredEntries(r);
  }

  /** Two trees with the same coloured reading have the same entries. */
  lemma SameColouredSameEntries<K, V>(a: Tree<K, V>, b: Tree<K, V>)
    requires Coloured(a) == Coloured(b)
    ensures Entries(a) == Entries(b)
  {
    ColouredEntries(a);
    ColouredEntries(b);
  }

  // ---------------------------------------------------------------------
  // Parent links

  /** The number of ancestors of a position. */
  function Depth<K, V>(p: Path<K, V>): nat {
    match p
    case Root => 0
    case LeftOf(_, _, _, _, up) => 1 + Depth(up)
    case RightOf(_, _, _, _, up) => 1 + Depth(up)
  }

  /** Hangs `t` under the innermost ancestor recorded in `p`. */
  function Attach<K, V>(p: Path<K, V>, t: Tree<K, V>): Tree<K, V>
    requires p != Root
  {
    match p
    case LeftOf(c, k, v, r, _) => Node(c, t, k, v, r)
    case RightOf(l, c, k, v, _) => Node(c, l, k, v, t)
  }

  /** The whole tree that `t` sits in when placed at the position `p`. */
  function Plug<K, V>(t: Tree<K, V>, p: Path<K, V>): Tree<K, V>
    decreases p
  {
    match p
    case Root => t
    case LeftOf(_, _, _, _, up) => Plug(Attach(p, t), up)
    case RightOf(_, _, _, _, up) => Plug(Attach(p, t), up)
  }

  /** The whole tree a zipper points into. */
  function Whole<K, V>(z: Zipper<K, V>): Tree<K, V> {
    Plug(z.focus, z.path)
  }

  /** `parentOf`: moves to the parent position. */
  function Up<K, V>(z: Zipper<K, V>): (r: Zipper<K, V>)
    requires z.path != Root
    ensures Whole(r) == Whole(z)
    ensures Depth(r.path) + 1 == Depth(z.path)
  {
    Zipper(Attach(z.path, z.focus), z.path.up)
  }

  /** `leftOf`: moves to the left child. */
  function DownLeft<K, V>(z: Zipper<K, V>): (r: Zipper<K, V>)
    requires z.focus.Node?
    ensures Whole(r) == Whole(z)
    ensures Depth(r.path) == Depth(z.path) + 1
    ensures r.focus == z.focus.left
  {
    var n := z.focus;
    Zipper(n.left, LeftOf(n.color, n.key, n.value, n.right, z.path))
  }

  /** `rightOf`: moves to the right child. */
  function DownRight<K, V>(z: Zipper<K, V>): (r: Zipper<K, V>)
    requires z.focus.Node?
    ensures Whole(r) == Whole(z)
    ensures Depth(r.path) == Depth(z.path) + 1
    ensures r.focus == z.focus.right
  {
    var n := z.focus;
    Zipper(n.right, RightOf(n.left, n.color, n.key, n.value, z.path))
  }

  /** Moves all the way up: the position of the root. */
  function ToRoot<K, V>(z: Zipper<K, V>): (r: Zipper<K, V>)
    ensures r.path == Root && r.focus == Whole(z)
  {
    Zipper(Whole(z), Root)
  }

  /** The entries that come before the subtree at position `p`. */
  function Prefix<K, V>(p: Path<K, V>): seq<(K, V)> {
    match p
    case Root => []
    case LeftOf(_, _, _, _, up) => Prefix(up)
    case RightOf(l, _, k, v, up) => Prefix(up) + Entries(l) + [(k, v)]
  }

  /** The entries that come after the subtree at position `p`. */
  function Suffix<K, V>(p: Path<K, V>): seq<(K, V)> {
    match p
    case Root => []
    case LeftOf(_, k, v, r, up) => [(k, v)] + Entries(r) + Suffix(up)
    case RightOf(_, _, _, _, up) => Suffix(up)
  }

  /** The in-order reading of a plugged tree is the entries before the
      position, the subtree's own entries, then the entries after it. */
  lemma {:induction false} PlugEntries<K, V>(t: Tree<K, V>, p: Path<K, V>)
    ensures Entries(Plug(t, p)) == Prefix(p) + Entries(t) + Suffix(p)
    decreases p
  {
    if p != Root {
      PlugEntries(Attach(p, t), p.up);
      AttachEntries(p, t);
    }
  }

  /** One step up: the reading around the parent position, with `t` hung
      under the parent, is the reading around `t`'s own position. */
  lemma AttachEntries<K, V>(p: Path<K, V>, t: Tree<K, V>)
    requires p != Root
    ensures Prefix(p.up) + Entries(Attach(p, t)) + Suffix(p.up) == Prefix(p) + Entries(t) + Suffix(p)
  {
    var pre, post, e := Prefix(p.up), Suffix(p.up), Entries(t);
    match p
    case LeftOf(c, k, v, r, up) =>
      var after := [(k, v)] + Entries(r);
      assert Entries(Attach(p, t)) == e + after;
      Regroup(pre, e, after, post);
    case RightOf(l, c, k, v, up) =>
      var before := Entries(l) + [(k, v)];
      assert Entries(Attach(p, t)) == before + e;
      Regroup(pre, before, e, post);
  }

  /** Concatenation regrouped. */
  lemma Regroup<T>(a: seq<T>, b: seq<T>, c: seq<T>, d: seq<T>)
    ensures a + (b + c) + d == a + b + (c + d) == (a + b) + c + d
  {
  }

  /** Replacing the subtree at a position by one with the same in-order
      reading leaves the in-order reading of the whole tree unchanged. */
  lemma SameEntriesPlug<K, V>(a: Tree<K, V>, b: Tree<K, V>, p: Path<K, V>)
    requires Entries(a) == Entries(b)
    ensures Entries(Plug(a, p)) == Entries(Plug(b, p))
  {
    PlugEntries(a, p);
    PlugEntries(b, p);
  }

  /** Two trees with the same links, keys and colours: at most the values
      stored in the nodes differ. */
  ghost predicate SameShape<K, V>(a: Tree<K, V>, b: Tree<K, V>) {
    match a
    case Nil => b.Nil?
    case Node(c, l, k, _, r) =>
      b.Node? && b.color == c && b.key == k && SameShape(l, b.left) && SameShape(r, b.right)
  }

  /** Every tree has its own shape. */
  lemma {:induction false} SameShapeRefl<K, V>(t: Tree<K, V>)
    ensures SameShape(t, t)
  {
    match t
    case Nil =>
    case Node(_, l, _, _, r) =>
      SameShapeRefl(l);
      SameShapeRefl(r);
  }

  /** Placing two subtrees of the same shape at the same position gives
      whole trees of the same shape. */
  lemma {:induction false} SameShapePlug<K, V>(a: Tree<K, V>, b: Tree<K, V>, p: Path<K, V>)
    requires SameShape(a, b)
    ensures SameShape(Plug(a, p), Plug(b, p))
    decreases p
  {
    match p
    case Root =>
    case LeftOf(_, _, _, r, up) =>
      SameShapeRefl(r);
      SameShapePlug(Attach(p, a), Attach(p, b), up);
    case RightOf(l, _, _, _, up) =>
      SameShapeRefl(l);
      SameShapePlug(Attach(p, a), Attach(p, b), up);
  }

  /** The in-order index of the node at a zipper's focus. */
  function Pos<K, V>(z: Zipper<K, V>): nat
    requires z.focus.Node?
  {
    |Prefix(z.path)| + |Entries(z.focus.left)|
  }

  /** The focus entry sits at index `Pos(z)` of the whole tree's reading. */
  lemma PosEntry<K, V>(z: Zipper<K, V>)
    requires z.focus.Node?
    ensures Pos(z) < |Entries(Whole(z))|
    ensures Entries(Whole(z))[Pos(z)] == (z.focus.key, z.focus.value)
  {
    PlugEntries(z.focus, z.path);
  }

  // ---------------------------------------------------------------------
  // Rotations

  /** `rotateLeft(p)` on the subtree rooted at `p`: the right child `r` takes
      `p`'s place, `p` becomes `r`'s left child and adopts `r`'s old left
      subtree. Every node keeps its colour. */
  function RotateLeft<K, V>(t: Tree<K, V>): (u: Tree<K, V>)
    requires t.Node? && t.right.Node?
    ensures u.Node? && u.left.Node?
    ensures Coloured(u) == Coloured(t)
    ensures u.key == t.right.key && u.left.key == t.key
  {
    var r := t.right;
    Node(r.color, Node(t.color, t.left, t.key, t.value, r.left), r.key, r.value, r.right)
  }

  /** `rotateRight(p)`: the mirror image of `RotateLeft`. */
  function RotateRight<K, V>(t: Tree<K, V>): (u: Tree<K, V>)
    requires t.Node? && t.left.Node?
    ensures u.Node? && u.right.Node?
    ensures Coloured(u) == Coloured(t)
    ensures u.key == t.left.key && u.right.key == t.key
  {
    var l := t.left;
    Node(l.color, l.left, l.key, l.value, Node(t.color, l.right, t.key, t.value, t.right))
  }

  /** Rotations undo each other. */
  lemma RotationsInverse<K, V>(t: Tree<K, V>)
    requires t.Node? && t.right.Node?
    ensures RotateRight(RotateLeft(t)) == t
  {
  }

  /** Replacing the subtree at a position by one with the same coloured
      reading keeps the coloured reading of the whole tree. */
  lemma {:induction false} SameColouredPlug<K, V>(a: Tree<K, V>, b: Tree<K, V>, p: Path<K, V>)
    requires Coloured(a) == Coloured(b)
    ensures Coloured(Plug(a, p)) == Coloured(Plug(b, p))
    decreases p
  {
    match p
    case Root =>
    case LeftOf(c, k, v, r, up) =>
      SameColouredPlug(Attach(p, a), Attach(p, b), up);
    case RightOf(l, c, k, v, up) =>
      SameColouredPlug(Attach(p, a), Attach(p, b), up);
  }

  /** `rotateLeft` applied to the node at a position, inside the whole tree:
      the in-order reading and every colour are unchanged; when the pivot was
      the root, the root is repointed to its former right child. */
  function RotateLeftAt<K, V>(z: Zipper<K, V>): (r: Zipper<K, V>)
    requires z.focus.Node? && z.focus.right.Node?
    ensures Coloured(Whole(r)) == Coloured(Whole(z))
    ensures Entries(Whole(r)) == Entries(Whole(z))
    ensures r.path == z.path
    ensures z.path == Root ==> Whole(r).key == z.focus.right.key
  {
    SameColouredPlug(z.focus, RotateLeft(z.focus), z.path);
    SameColouredSameEntries(Whole(z), Whole(z.(focus := RotateLeft(z.focus))));
    z.(focus := RotateLeft(z.focus))
  }

  /** `rotateRight` applied to the node at a position, inside the whole tree. */
  function RotateRightAt<K, V>(z: Zipper<K, V>): (r: Zipper<K, V>)
    requires z.focus.Node? && z.focus.left.Node?
    ensures Coloured(Whole(r)) == Coloured(Whole(z))
    ensures Entries(Whole(r)) == Entries(Whole(z))
    ensures r.path == z.path
    ensures z.path == Root ==> Whole(r).key == z.focus.left.key
  {
    SameColouredPlug(z.focus, RotateRight(z.focus), z.path);
    SameColouredSameEntries(Whole(z), Whole(z.(focus := RotateRight(z.focus))));
    z.(focus := RotateRight(z.focus))
  }

  /** `setColor` applied to the node at a position, inside the whole tree:
      only that node's colour changes, so the in-order reading is kept. */
  function Recolor<K, V>(z: Zipper<K, V>, c: Color): (r: Zipper<K, V>)
    ensures r.path == z.path
    ensures Entries(Whole(r)) == Entries(Whole(z))
    ensures r.focus.Node? <==> z.focus.Node?
    ensures r.focus.Node? ==> r.focus.color == c
  {
    SameEntriesPlug(z.focus, SetColor(z.focus, c), z.path);
    z.(focus := SetColor(z.focus, c))
  }

  // ---------------------------------------------------------------------
  // Colour rules

  /** Rule 4: a red node has no red child. */
  predicate NoRedRed<K, V>(t: Tree<K, V>) {
    match t
    case Nil => true
    case Node(c, l, _, _, r) =>
      && NoRedRed(l) && NoRedRed(r)
      && (c == Red ==> ColorOf(l) == Black && ColorOf(r) == Black)
  }

  /** The number of black nodes on the leftmost path down to a null link. */
  function BlackHeight<K, V>(t: Tree<K, V>): nat {
    match t
    case Nil => 0
    case Node(c, l, _, _, _) => BlackHeight(l) + (if c == Black then 1 else 0)
  }

  /** Rule 5: from every node, every path down to a null link passes the same
      number of black nodes. */
  predicate Balanced<K, V>(t: Tree<K, V>) {
    match t
    case Nil => true
    case Node(_, l, _, _, r) =>
      Balanced(l) && Balanced(r) && BlackHeight(l) == BlackHeight(r)
  }

  /** All five rules of a red-black tree (rules 1 and 3 hold by construction). */
  predicate IsRedBlack<K, V>(t: Tree<K, V>) {
    NoRedRed(t) && Balanced(t) && ColorOf(t) == Black
  }

  /** Rule 5 for everything around a position whose subtree has black height
      `h`: each sibling subtree met on the way up is balanced with the black
      height of the subtree beside it. */
  predicate PathBalanced<K, V>(p: Path<K, V>, h: nat) {
    match p
    case Root => true
    case LeftOf(c, _, _, r, up) =>
      Balanced(r) && BlackHeight(r) == h && PathBalanced(up, h + (if c == Black then 1 else 0))
    case RightOf(l, c, _, _, up) =>
      Balanced(l) && BlackHeight(l) == h && PathBalanced(up, h + (if c == Black then 1 else 0))
  }

  /** Rule 4 for everything around a position whose subtree root has colour
      `c`, including the link between that root and its parent. */
  predicate PathNoRedRed<K, V>(p: Path<K, V>, c: Color) {
    match p
    case Root => true
    case LeftOf(pc, _, _, r, up) =>
      && NoRedRed(r)
      && (pc == Red ==> c == Black && ColorOf(r) == Black)
      && PathNoRedRed(up, pc)
    case RightOf(l, pc, _, _, up) =>
      && NoRedRed(l)
      && (pc == Red ==> c == Black && ColorOf(l) == Black)
      && PathNoRedRed(up, pc)
  }

  /** A plugged tree is balanced exactly when the subtree is balanced and
      the surroundings are balanced around its black height. */
  lemma {:induction false} PlugBalanced<K, V>(t: Tree<K, V>, p: Path<K, V>)
    ensures Balanced(Plug(t, p)) <==> Balanced(t) && PathBalanced(p, BlackHeight(t))
    decreases p
  {
    match p
    case Root =>
    case LeftOf(c, k, v, r, up) =>
      PlugBalanced(Attach(p, t), up);
    case RightOf(l, c, k, v, up) =>
      PlugBalanced(Attach(p, t), up);
  }

  /** A plugged tree has no red-red link exactly when the subtree has none
      and the surroundings have none given the subtree root's colour. */
  lemma {:induction false} PlugNoRedRed<K, V>(t: Tree<K, V>, p: Path<K, V>)
    ensures NoRedRed(Plug(t, p)) <==> NoRedRed(t) && PathNoRedRed(p, ColorOf(t))
    decreases p
  {
    match p
    case Root =>
    case LeftOf(c, k, v, r, up) =>
      PlugNoRedRed(Attach(p, t), up);
    case RightOf(l, c, k, v, up) =>
      PlugNoRedRed(Attach(p, t), up);
  }

  /** Below a black parent the colour of the subtree root does not matter. */
  lemma PathNoRedRedBlackParent<K, V>(p: Path<K, V>)
    requires p != Root && p.color == Black
    requires PathNoRedRed(p, Black)
    ensures PathNoRedRed(p, Red)
  {
  }

  /** Below the root, the colour of the whole tree does not depend on what
      hangs at the position. */
  lemma {:induction false} RootColorOfPlug<K, V>(a: Tree<K, V>, b: Tree<K, V>, p: Path<K, V>)
    requires p != Root
    ensures ColorOf(Plug(a, p)) == ColorOf(Plug(b, p))
    decreases p
  {
    if p.up != Root {
      RootColorOfPlug(Attach(p, a), Attach(p, b), p.up);
    }
  }

  /** The colour of the whole tree is the same for two subtrees at a
      position below the root, or for two subtrees of the same colour. */
  lemma PlugTopColor<K, V>(a: Tree<K, V>, b: Tree<K, V>, p: Path<K, V>)
    requires p != Root || ColorOf(a) == ColorOf(b)
    ensures ColorOf(Plug(a, p)) == ColorOf(Plug(b, p))
  {
    if p != Root {
      RootColorOfPlug(a, b, p);
    }
  }
}
