/** `fixAfterInsertion` of `MyTreeMap`: the recolouring and rotations that
    follow linking a new node into the tree. The model follows the Java loop
    step by step, with the node `x` as a zipper position. */
module TreeInsertion {
  import opened RbTree

  /** What the loop condition `x != root && x.parent.color == RED` reads. */
  predicate ParentIsRed<K, V>(z: Zipper<K, V>) {
    z.path != Root && z.path.color == Red
  }

  /** The loop's progress measure: `x` moves up, or stays put while its
      parent turns black. */
  function InsertMeasure<K, V>(z: Zipper<K, V>): nat {
    Depth(z.path) + if ParentIsRed(z) then 1 else 0
  }

  /** `parentOf(x) == leftOf(parentOf(parentOf(x)))`: the parent exists and
      is the left child of a grandparent. */
  predicate ParentIsLeftChild<K, V>(z: Zipper<K, V>) {
    z.path != Root && z.path.up.LeftOf?
  }

  /** `leftOf(parentOf(parentOf(x)))` in the branch where the parent is not a
      left child: the grandparent's left child, null without a grandparent. */
  function LeftUncle<K, V>(z: Zipper<K, V>): Tree<K, V>
    requires z.path != Root && !ParentIsLeftChild(z)
  {
    if z.path.up.RightOf? then z.path.up.left else Nil
  }

  /** One pass of the loop body of `fixAfterInsertion`, for `x` at `z` with
      a red parent; the result is the position `x` refers to afterwards. */
  function InsertStep<K, V>(z: Zipper<K, V>): (r: Zipper<K, V>)
    requires z.focus.Node? && ParentIsRed(z)
    ensures r.focus.Node?
    ensures Entries(Whole(r)) == Entries(Whole(z))
    ensures InsertMeasure(r) < InsertMeasure(z)
  {
    if ParentIsLeftChild(z) then
      if ColorOf(z.path.up.right) == Red then
        // red uncle y: parent and y turn black, the grandparent red, x := grandparent
        var zp := Recolor(Up(z), Black);
        var zy := Recolor(DownRight(Up(zp)), Black);
        Recolor(Up(zy), Red)
      else
        // x a right child: x := parent, rotateLeft(x)
        var zx := if z.path.RightOf? then DownLeft(RotateLeftAt(Up(z))) else z;
        var zp := Recolor(Up(zx), Black);
        var zg := Recolor(Up(zp), Red);
        DownLeft(RotateRightAt(zg))
    else
      if ColorOf(LeftUncle(z)) == Red then
        var zp := Recolor(Up(z), Black);
        var zg := Recolor(Up(zp), Red);
        var zl := Recolor(DownLeft(zg), Black);
        Up(zl)
      else
        // x a left child: x := parent, rotateRight(x)
        var zx := if z.path.LeftOf? then DownRight(RotateRightAt(Up(z))) else z;
        var zp := Recolor(Up(zx), Black);
        if zp.path == Root then
          // no grandparent: setColor and rotateLeft on null do nothing
          DownRight(zp)
        else
          var zg := Recolor(Up(zp), Red);
          DownRight(RotateLeftAt(zg))
  }

  /** The `while` loop of `fixAfterInsertion`. */
  function InsertLoop<K, V>(z: Zipper<K, V>): (r: Zipper<K, V>)
    requires z.focus.Node?
    ensures r.focus.Node? && !ParentIsRed(r)
    ensures Entries(Whole(r)) == Entries(Whole(z))
    decreases InsertMeasure(z)
  {
    if !ParentIsRed(z) then z else InsertLoop(InsertStep(z))
  }

  /** `fixAfterInsertion(x)` as written: colour the new node red and run the
      loop. The root is not recoloured afterwards. */
  function FixAfterInsertion<K, V>(z: Zipper<K, V>): (r: Tree<K, V>)
    requires z.focus.Node?
    ensures Entries(r) == Entries(Whole(z))
  {
    Whole(InsertLoop(Recolor(z, Red)))
  }

  /** `fixAfterInsertion` with the final `root.color = BLACK` that the
      red-black rules need. */
  function FixAfterInsertionCorrected<K, V>(z: Zipper<K, V>): (r: Tree<K, V>)
    requires z.focus.Node?
    ensures Entries(r) == Entries(Whole(z))
    ensures ColorOf(r) == Black
  {
    SetColor(FixAfterInsertion(z), Black)
  }

  // ---------------------------------------------------------------------
  // The colour rules across the loop

  /** The loop invariant: `x` is red, its subtree obeys both rules, and the
      rest of the tree obeys them too except that `x`'s parent may be red. */
  ghost predicate InsertInvariant<K, V>(z: Zipper<K, V>) {
    && z.focus.Node? && z.focus.color == Red
    && NoRedRed(z.focus) && PathNoRedRed(z.path, Black)
    && Balanced(z.focus) && PathBalanced(z.path, BlackHeight(z.focus))
  }

  /** Both rules except that the root may be red. */
  ghost predicate Relaxed<K, V>(t: Tree<K, V>) {
    NoRedRed(t) && Balanced(t)
  }

  /** Turning a node black keeps both rules inside it and adds one to its
      black height when it was red. */
  lemma Blacken<K, V>(t: Tree<K, V>)
    requires t.Node? && NoRedRed(t) && Balanced(t)
    ensures NoRedRed(SetColor(t, Black)) && Balanced(SetColor(t, Black))
    ensures BlackHeight(SetColor(t, Black)) == BlackHeight(t) + if t.color == Red then 1 else 0
  {
  }

  /** The child of the innermost ancestor on the other side of the
      position: the sibling, or, one level up, the uncle. */
  function Sibling<K, V>(p: Path<K, V>): Tree<K, V>
    requires p != Root
  {
    if p.LeftOf? then p.right else p.left
  }

  /** What the invariant says about `x`, its sibling and its parent when the
      parent is red. */
  lemma ParentContext<K, V>(z: Zipper<K, V>)
    requires InsertInvariant(z) && ParentIsRed(z)
    ensures ColorOf(z.focus.left) == Black && ColorOf(z.focus.right) == Black
    ensures BlackHeight(z.focus.left) == BlackHeight(z.focus.right) == BlackHeight(z.focus)
    ensures NoRedRed(Sibling(z.path)) && ColorOf(Sibling(z.path)) == Black
    ensures Balanced(Sibling(z.path)) && BlackHeight(Sibling(z.path)) == BlackHeight(z.focus)
    ensures PathNoRedRed(z.path.up, Red) && PathBalanced(z.path.up, BlackHeight(z.focus))
  {
  }

  /** What the invariant says about the grandparent and the uncle: a red
      parent has a black parent. */
  lemma GrandparentContext<K, V>(z: Zipper<K, V>)
    requires InsertInvariant(z) && ParentIsRed(z) && z.path.up != Root
    ensures z.path.up.color == Black
    ensures NoRedRed(Sibling(z.path.up)) && Balanced(Sibling(z.path.up))
    ensures BlackHeight(Sibling(z.path.up)) == BlackHeight(z.focus)
    ensures PathNoRedRed(z.path.up.up, Black)
    ensures PathBalanced(z.path.up.up, BlackHeight(z.focus) + 1)
  {
    ParentContext(z);
  }

  /** The parent is a red root: it turns black, after a right rotation at
      the parent when `x` is its left child. */
  lemma StepParentIsRoot<K, V>(z: Zipper<K, V>)
    requires InsertInvariant(z) && ParentIsRed(z) && z.path.up == Root
    ensures InsertInvariant(InsertStep(z))
  {
    ParentContext(z);
  }

  /** Red uncle: recolouring moves the violation two levels up. */
  lemma StepRedUncle<K, V>(z: Zipper<K, V>)
    requires InsertInvariant(z) && ParentIsRed(z) && z.path.up != Root
    requires ColorOf(Sibling(z.path.up)) == Red
    ensures InsertInvariant(InsertStep(z))
  {
    ParentContext(z);
    GrandparentContext(z);
    Blacken(Sibling(z.path.up));
  }

  /** Black uncle, parent a left child: at most two rotations end the loop. */
  lemma StepBlackUncleLeft<K, V>(z: Zipper<K, V>)
    requires InsertInvariant(z) && ParentIsRed(z) && z.path.up.LeftOf?
    requires ColorOf(Sibling(z.path.up)) == Black
    ensures InsertInvariant(InsertStep(z))
  {
    ParentContext(z);
    GrandparentContext(z);
  }

  /** Black uncle, parent a right child: the mirror image. */
  lemma StepBlackUncleRight<K, V>(z: Zipper<K, V>)
    requires InsertInvariant(z) && ParentIsRed(z) && z.path.up.RightOf?
    requires ColorOf(Sibling(z.path.up)) == Black
    ensures InsertInvariant(InsertStep(z))
  {
    ParentContext(z);
    GrandparentContext(z);
  }

  /** One pass of the loop keeps the invariant. */
  lemma InsertStepKeepsInvariant<K, V>(z: Zipper<K, V>)
    requires InsertInvariant(z) && ParentIsRed(z)
    ensures InsertInvariant(InsertStep(z))
  {
    if z.path.up == Root {
      StepParentIsRoot(z);
    } else if ColorOf(Sibling(z.path.up)) == Red {
      StepRedUncle(z);
    } else if z.path.up.LeftOf? {
      StepBlackUncleLeft(z);
    } else {
      StepBlackUncleRight(z);
    }
  }

  /** A black parent also accepts a black child. */
  lemma PathNoRedRedAnyChild<K, V>(p: Path<K, V>, c: Color)
    requires PathNoRedRed(p, c)
    ensures PathNoRedRed(p, Black)
  {
  }

  /** When the loop stops, the whole tree obeys both rules except possibly
      rule 2 at the root. */
  lemma {:induction false} InsertLoopKeepsRules<K, V>(z: Zipper<K, V>)
    requires InsertInvariant(z)
    ensures Relaxed(Whole(InsertLoop(z)))
    decreases InsertMeasure(z)
  {
    if !ParentIsRed(z) {
      if z.path != Root {
        PathNoRedRedBlackParent(z.path);
      }
      PlugNoRedRed(z.focus, z.path);
      PlugBalanced(z.focus, z.path);
    } else {
      InsertStepKeepsInvariant(z);
      InsertLoopKeepsRules(InsertStep(z));
    }
  }

  /** A new node linked in at a null link of a tree that obeys both rules
      (the root possibly red) leaves, after `fixAfterInsertion` as written,
      a tree that again obeys them with the root possibly red. */
  lemma FixAfterInsertionKeepsRules<K, V>(p: Path<K, V>, key: K, value: V)
    requires Relaxed(Plug(Nil, p))
    ensures Relaxed(FixAfterInsertion(Zipper(Node(Black, Nil, key, value, Nil), p)))
  {
    PlugNoRedRed(Nil, p);
    PlugBalanced(Nil, p);
    var z := Recolor(Zipper(Node(Black, Nil, key, value, Nil), p), Red);
    assert InsertInvariant(z);
    InsertLoopKeepsRules(z);
  }

  /** With the root blackened at the end, insertion keeps all five rules. */
  lemma FixAfterInsertionCorrectedKeepsRedBlack<K, V>(p: Path<K, V>, key: K, value: V)
    requires Relaxed(Plug(Nil, p))
    ensures IsRedBlack(FixAfterInsertionCorrected(Zipper(Node(Black, Nil, key, value, Nil), p)))
  {
    var t := FixAfterInsertion(Zipper(Node(Black, Nil, key, value, Nil), p));
    FixAfterInsertionKeepsRules(p, key, value);
    if t.Node? {
      Blacken(t);
    }
  }

  /** As written, inserting 4 into the red-black tree 2(1, 3) with red
      leaves recolours the root red and stops: rule 2 is broken. */
  lemma FixAfterInsertionLeavesRedRoot()
    ensures var before := Node(Black, Node(Red, Nil, 1, 1, Nil), 2, 2, Node(Red, Nil, 3, 3, Nil));
      var p := RightOf(Nil, Red, 3, 3, RightOf(Node(Red, Nil, 1, 1, Nil), Black, 2, 2, Root));
      && IsRedBlack(before) && Plug(Node(Red, Nil, 3, 3, Nil), p.up) == before
      && ColorOf(FixAfterInsertion(Zipper(Node(Black, Nil, 4, 4, Nil), p))) == Red
  {
    var p := RightOf(Nil, Red, 3, 3, RightOf(Node(Red, Nil, 1, 1, Nil), Black, 2, 2, Root));
    var z := Recolor(Zipper(Node(Black, Nil, 4, 4, Nil), p), Red);
    assert InsertStep(z).path == Root;
    assert InsertLoop(z) == InsertLoop(InsertStep(z));
  }
}
