/** `deleteEntry` and `fixAfterDeletion` of `MyTreeMap`. The model follows
    the Java loop step by step, with the node `x` as a zipper position.

    When the node `p` to unlink is a black leaf, the Java code runs the
    fix-up with `x = p` still linked and unlinks `p` afterwards. The fix-up
    reads only `p`'s colour (black) and which child of its parent it is, and
    never recolours `p`, so the model unlinks first and runs the fix-up from
    the null link left behind (whose colour also reads as black). */
module TreeDeletion {
  import opened RbTree
  import opened TreeInsertion

  /** The loop condition `x != root && colorOf(x) == BLACK`. */
  predicate NeedsFix<K, V>(z: Zipper<K, V>) {
    z.path != Root && ColorOf(z.focus) == Black
  }

  /** The loop's progress measure: `x` moves up, or stops on a red node. */
  function DeleteMeasure<K, V>(z: Zipper<K, V>): nat {
    Depth(z.path) + if ColorOf(z.focus) == Black then 1 else 0
  }

  // Left-hand branch (`x == leftOf(parentOf(x))`), one function per case
  // of the loop body; `sib` is `rightOf(parentOf(x))`.

  /** Red sibling: the sibling turns black, the parent red, and
      `rotateLeft(parentOf(x))` makes the sibling's left child the new one. */
  function SiblingRedLeft<K, V>(z: Zipper<K, V>): (r: Zipper<K, V>)
    requires NeedsFix(z) && z.path.LeftOf? && ColorOf(z.path.right) == Red
    ensures r.focus == z.focus && r.path.LeftOf? && r.path.color == Red
    ensures Depth(r.path) == Depth(z.path) + 1
    ensures Entries(Whole(r)) == Entries(Whole(z))
  {
    var zs := Recolor(DownRight(Up(z)), Black);
    var zp := Recolor(Up(zs), Red);
    DownLeft(DownLeft(RotateLeftAt(zp)))
  }

  /** Both of the sibling's children black: the sibling turns red and `x`
      moves to the parent. */
  function NephewsBlackLeft<K, V>(z: Zipper<K, V>): (r: Zipper<K, V>)
    requires z.path.LeftOf?
    ensures Depth(r.path) + 1 == Depth(z.path) && ColorOf(r.focus) == z.path.color
    ensures Entries(Whole(r)) == Entries(Whole(z))
  {
    var zs := Recolor(DownRight(Up(z)), Red);
    Up(zs)
  }

  /** Far nephew black, near nephew red: the near nephew turns black, the
      sibling red, and `rotateRight(sib)` makes the near nephew the sibling. */
  function NearNephewRedLeft<K, V>(z: Zipper<K, V>): (r: Zipper<K, V>)
    requires z.path.LeftOf? && z.path.right.Node? && z.path.right.left.Node?
    ensures r.focus == z.focus && r.path.LeftOf? && r.path.color == z.path.color
    ensures Depth(r.path) == Depth(z.path)
    ensures Entries(Whole(r)) == Entries(Whole(z))
  {
    var zn := Recolor(DownLeft(DownRight(Up(z))), Black);
    var zs := Recolor(Up(zn), Red);
    DownLeft(Up(RotateRightAt(zs)))
  }

  /** Far nephew red: the sibling takes the parent's colour, the parent and
      the far nephew turn black, `rotateLeft(parentOf(x))`, and `x` becomes
      the root, which ends the loop. */
  function FarNephewRedLeft<K, V>(z: Zipper<K, V>): (r: Zipper<K, V>)
    requires z.path.LeftOf? && z.path.right.Node?
    ensures r.path == Root
    ensures Entries(Whole(r)) == Entries(Whole(z))
  {
    var zs := Recolor(DownRight(Up(z)), ColorOf(Up(z).focus));
    var zp := Recolor(Up(zs), Black);
    var zf := Recolor(DownRight(DownRight(zp)), Black);
    ToRoot(RotateLeftAt(Up(Up(zf))))
  }

  /** The left-hand branch of the loop body; the result is the position `x`
      refers to afterwards. */
  function DeleteStepLeft<K, V>(z: Zipper<K, V>): (r: Zipper<K, V>)
    requires NeedsFix(z) && z.path.LeftOf?
    ensures Entries(Whole(r)) == Entries(Whole(z))
    ensures DeleteMeasure(r) < DeleteMeasure(z)
  {
    var z1 := if ColorOf(z.path.right) == Red then SiblingRedLeft(z) else z;
    var sib := z1.path.right;
    if ColorOf(LeftOrNil(sib)) == Black && ColorOf(RightOrNil(sib)) == Black then
      NephewsBlackLeft(z1)
    else
      var z2 := if ColorOf(RightOrNil(sib)) == Black then NearNephewRedLeft(z1) else z1;
      FarNephewRedLeft(z2)
  }

  // Right-hand branch: the mirror image; `sib` is `leftOf(parentOf(x))`.

  /** Red sibling, mirrored: `rotateRight(parentOf(x))`. */
  function SiblingRedRight<K, V>(z: Zipper<K, V>): (r: Zipper<K, V>)
    requires NeedsFix(z) && z.path.RightOf? && ColorOf(z.path.left) == Red
    ensures r.focus == z.focus && r.path.RightOf? && r.path.color == Red
    ensures Depth(r.path) == Depth(z.path) + 1
    ensures Entries(Whole(r)) == Entries(Whole(z))
  {
    var zs := Recolor(DownLeft(Up(z)), Black);
    var zp := Recolor(Up(zs), Red);
    DownRight(DownRight(RotateRightAt(zp)))
  }

  /** Both nephews black, mirrored. */
  function NephewsBlackRight<K, V>(z: Zipper<K, V>): (r: Zipper<K, V>)
    requires z.path.RightOf?
    ensures Depth(r.path) + 1 == Depth(z.path) && ColorOf(r.focus) == z.path.color
    ensures Entries(Whole(r)) == Entries(Whole(z))
  {
    var zs := Recolor(DownLeft(Up(z)), Red);
    Up(zs)
  }

  /** Far nephew black, near nephew red, mirrored: `rotateLeft(sib)`. */
  function NearNephewRedRight<K, V>(z: Zipper<K, V>): (r: Zipper<K, V>)
    requires z.path.RightOf? && z.path.left.Node? && z.path.left.right.Node?
    ensures r.focus == z.focus && r.path.RightOf? && r.path.color == z.path.color
    ensures Depth(r.path) == Depth(z.path)
    ensures Entries(Whole(r)) == Entries(Whole(z))
  {
    var zn := Recolor(DownRight(DownLeft(Up(z))), Black);
    var zs := Recolor(Up(zn), Red);
    DownRight(Up(RotateLeftAt(zs)))
  }

  /** Far nephew red, mirrored: `rotateRight(parentOf(x))`, `x := root`. */
  function FarNephewRedRight<K, V>(z: Zipper<K, V>): (r: Zipper<K, V>)
    requires z.path.RightOf? && z.path.left.Node?
    ensures r.path == Root
    ensures Entries(Whole(r)) == Entries(Whole(z))
  {
    var zs := Recolor(DownLeft(Up(z)), ColorOf(Up(z).focus));
    var zp := Recolor(Up(zs), Black);
    var zf := Recolor(DownLeft(DownLeft(zp)), Black);
    ToRoot(RotateRightAt(Up(Up(zf))))
  }

  /** The right-hand branch of the loop body. */
  function DeleteStepRight<K, V>(z: Zipper<K, V>): (r: Zipper<K, V>)
    requires NeedsFix(z) && z.path.RightOf?
    ensures Entries(Whole(r)) == Entries(Whole(z))
    ensures DeleteMeasure(r) < DeleteMeasure(z)
  {
    var z1 := if ColorOf(z.path.left) == Red then SiblingRedRight(z) else z;
    var sib := z1.path.left;
    if ColorOf(RightOrNil(sib)) == Black && ColorOf(LeftOrNil(sib)) == Black then
      NephewsBlackRight(z1)
    else
      var z2 := if ColorOf(LeftOrNil(sib)) == Black then NearNephewRedRight(z1) else z1;
      FarNephewRedRight(z2)
  }

  /** One pass of the loop body of `fixAfterDeletion`. */
  function DeleteStep<K, V>(z: Zipper<K, V>): (r: Zipper<K, V>)
    requires NeedsFix(z)
    ensures Entries(Whole(r)) == Entries(Whole(z))
    ensures DeleteMeasure(r) < DeleteMeasure(z)
  {
    if z.path.LeftOf? then DeleteStepLeft(z) else DeleteStepRight(z)
  }

  /** The `while` loop of `fixAfterDeletion`. */
  function DeleteLoop<K, V>(z: Zipper<K, V>): (r: Zipper<K, V>)
    ensures !NeedsFix(r)
    ensures Entries(Whole(r)) == Entries(Whole(z))
    decreases DeleteMeasure(z)
  {
    if !NeedsFix(z) then z else DeleteLoop(DeleteStep(z))
  }

  /** `fixAfterDeletion(x)` as written: the loop alone. The final
      `setColor(x, BLACK)` of the red-black deletion algorithm is missing. */
  function FixAfterDeletion<K, V>(z: Zipper<K, V>): (r: Tree<K, V>)
    ensures Entries(r) == Entries(Whole(z))
  {
    Whole(DeleteLoop(z))
  }

  /** `fixAfterDeletion` with the final `setColor(x, BLACK)`. */
  function FixAfterDeletionCorrected<K, V>(z: Zipper<K, V>): (r: Tree<K, V>)
    ensures Entries(r) == Entries(Whole(z))
  {
    Whole(Recolor(DeleteLoop(z), Black))
  }

  // ---------------------------------------------------------------------
  // The colour rules across the loop

  /** The loop invariant: the tree obeys both rules if `x` is counted as
      carrying one extra black. Paths through `x` are one black short, `x`
      obeys rule 4 once blackened, and everything around `x` accepts a black
      `x`. */
  ghost predicate DeleteInvariant<K, V>(z: Zipper<K, V>) {
    && Balanced(z.focus) && PathBalanced(z.path, BlackHeight(z.focus) + 1)
    && NoRedRed(SetColor(z.focus, Black)) && PathNoRedRed(z.path, Black)
  }

  /** What the invariant says about `x`, its sibling and its parent while
      the loop runs. */
  lemma DeleteContext<K, V>(z: Zipper<K, V>)
    requires DeleteInvariant(z) && NeedsFix(z)
    ensures NoRedRed(z.focus)
    ensures Sibling(z.path).Node? && Balanced(Sibling(z.path)) && NoRedRed(Sibling(z.path))
    ensures BlackHeight(Sibling(z.path)) == BlackHeight(z.focus) + 1
    ensures z.path.color == Red ==> ColorOf(Sibling(z.path)) == Black
    ensures PathNoRedRed(z.path.up, z.path.color)
    ensures PathBalanced(z.path.up, BlackHeight(z.focus) + 1 + if z.path.color == Black then 1 else 0)
  {
  }

  /** Case 1 leaves `x` black under a red parent with a black sibling. */
  lemma SiblingRedLeftKeeps<K, V>(z: Zipper<K, V>)
    requires DeleteInvariant(z) && NeedsFix(z) && z.path.LeftOf? && ColorOf(z.path.right) == Red
    ensures DeleteInvariant(SiblingRedLeft(z)) && NeedsFix(SiblingRedLeft(z))
    ensures ColorOf(SiblingRedLeft(z).path.right) == Black
  {
    DeleteContext(z);
  }

  /** Case 2 moves the missing black up to the parent. */
  lemma NephewsBlackLeftKeeps<K, V>(z: Zipper<K, V>)
    requires DeleteInvariant(z) && NeedsFix(z) && z.path.LeftOf? && ColorOf(z.path.right) == Black
    requires ColorOf(LeftOrNil(z.path.right)) == Black && ColorOf(RightOrNil(z.path.right)) == Black
    ensures DeleteInvariant(NephewsBlackLeft(z))
  {
    DeleteContext(z);
    PathNoRedRedAnyChild(z.path.up, z.path.color);
  }

  /** Case 3 turns the near red nephew into a black sibling with a red far
      child. */
  lemma NearNephewRedLeftKeeps<K, V>(z: Zipper<K, V>)
    requires DeleteInvariant(z) && NeedsFix(z) && z.path.LeftOf? && ColorOf(z.path.right) == Black
    requires ColorOf(LeftOrNil(z.path.right)) == Red && ColorOf(RightOrNil(z.path.right)) == Black
    ensures DeleteInvariant(NearNephewRedLeft(z)) && NeedsFix(NearNephewRedLeft(z))
    ensures ColorOf(NearNephewRedLeft(z).path.right) == Black
    ensures ColorOf(RightOrNil(NearNephewRedLeft(z).path.right)) == Red
  {
    DeleteContext(z);
    var LeftOf(pc, pk, pv, sib, up) := z.path;
    var Node(_, near, sk, sv, far) := sib;
    var Node(_, a, nk, nv, b) := near;
    assert BlackHeight(a) == BlackHeight(b) == BlackHeight(far) == BlackHeight(z.focus);
    assert ColorOf(a) == Black && ColorOf(b) == Black;
    assert Balanced(a) && Balanced(b) && Balanced(far);
    assert NoRedRed(a) && NoRedRed(b) && NoRedRed(far);
    var inner := Node(Red, b, sk, sv, far);
    assert BlackHeight(inner) == BlackHeight(b) && Balanced(inner) && NoRedRed(inner);
    var sib' := Node(Black, a, nk, nv, inner);
    assert BlackHeight(sib') == BlackHeight(a) + 1;
    assert Balanced(sib') && NoRedRed(sib');
    assert NearNephewRedLeft(z) == Zipper(z.focus, LeftOf(pc, pk, pv, sib', up));
  }

  /** Case 4 restores both rules in the whole tree. */
  lemma FarNephewRedLeftKeeps<K, V>(z: Zipper<K, V>)
    requires DeleteInvariant(z) && NeedsFix(z) && z.path.LeftOf? && ColorOf(z.path.right) == Black
    requires ColorOf(RightOrNil(z.path.right)) == Red
    ensures Relaxed(Whole(FarNephewRedLeft(z)))
  {
    DeleteContext(z);
    var LeftOf(pc, pk, pv, sib, up) := z.path;
    var Node(_, near, sk, sv, far) := sib;
    var h := BlackHeight(z.focus);
    assert BlackHeight(near) == BlackHeight(far) == h;
    assert Balanced(near) && NoRedRed(near) && Balanced(far) && NoRedRed(far);
    Blacken(far);
    var far' := SetColor(far, Black);
    assert Balanced(far') && NoRedRed(far') && BlackHeight(far') == h + 1;
    var left := Node(Black, z.focus, pk, pv, near);
    assert Balanced(left) && NoRedRed(left) && BlackHeight(left) == h + 1;
    var t := Node(pc, left, sk, sv, far');
    assert Balanced(t) && NoRedRed(t) && ColorOf(t) == pc;
    assert BlackHeight(t) == h + 1 + if pc == Black then 1 else 0;
    FarNephewRedLeftShape(z);
    PlugNoRedRed(t, up);
    PlugBalanced(t, up);
  }

  /** Case 4 rebuilds the parent's subtree as the former sibling over the
      blackened parent and the blackened far nephew. */
  lemma FarNephewRedLeftShape<K, V>(z: Zipper<K, V>)
    requires z.path.LeftOf? && z.path.right.Node?
    ensures Whole(FarNephewRedLeft(z)) == Plug(Node(z.path.color,
      Node(Black, z.focus, z.path.key, z.path.value, z.path.right.left),
      z.path.right.key, z.path.right.value, SetColor(z.path.right.right, Black)), z.path.up)
  {
  }

  /** Case 1, mirrored. */
  lemma SiblingRedRightKeeps<K, V>(z: Zipper<K, V>)
    requires DeleteInvariant(z) && NeedsFix(z) && z.path.RightOf? && ColorOf(z.path.left) == Red
    ensures DeleteInvariant(SiblingRedRight(z)) && NeedsFix(SiblingRedRight(z))
    ensures ColorOf(SiblingRedRight(z).path.left) == Black
  {
    DeleteContext(z);
  }

  /** Case 2, mirrored. */
  lemma NephewsBlackRightKeeps<K, V>(z: Zipper<K, V>)
    requires DeleteInvariant(z) && NeedsFix(z) && z.path.RightOf? && ColorOf(z.path.left) == Black
    requires ColorOf(RightOrNil(z.path.left)) == Black && ColorOf(LeftOrNil(z.path.left)) == Black
    ensures DeleteInvariant(NephewsBlackRight(z))
  {
    DeleteContext(z);
    PathNoRedRedAnyChild(z.path.up, z.path.color);
  }

  /** Case 3, mirrored. */
  lemma NearNephewRedRightKeeps<K, V>(z: Zipper<K, V>)
    requires DeleteInvariant(z) && NeedsFix(z) && z.path.RightOf? && ColorOf(z.path.left) == Black
    requires ColorOf(RightOrNil(z.path.left)) == Red && ColorOf(LeftOrNil(z.path.left)) == Black
    ensures DeleteInvariant(NearNephewRedRight(z)) && NeedsFix(NearNephewRedRight(z))
    ensures ColorOf(NearNephewRedRight(z).path.left) == Black
    ensures ColorOf(LeftOrNil(NearNephewRedRight(z).path.left)) == Red
  {
    DeleteContext(z);
    var RightOf(sib, pc, pk, pv, up) := z.path;
    var Node(_, far, sk, sv, near) := sib;
    var Node(_, a, nk, nv, b) := near;
    assert BlackHeight(a) == BlackHeight(b) == BlackHeight(far) == BlackHeight(z.focus);
    assert ColorOf(a) == Black && ColorOf(b) == Black;
    assert Balanced(a) && Balanced(b) && Balanced(far);
    assert NoRedRed(a) && NoRedRed(b) && NoRedRed(far);
    var inner := Node(Red, far, sk, sv, a);
    assert BlackHeight(inner) == BlackHeight(far) && Balanced(inner) && NoRedRed(inner);
    var sib' := Node(Black, inner, nk, nv, b);
    assert BlackHeight(sib') == BlackHeight(far) + 1;
    assert Balanced(sib') && NoRedRed(sib');
    assert NearNephewRedRight(z) == Zipper(z.focus, RightOf(sib', pc, pk, pv, up));
  }

  /** Case 4, mirrored. */
  lemma FarNephewRedRightKeeps<K, V>(z: Zipper<K, V>)
    requires DeleteInvariant(z) && NeedsFix(z) && z.path.RightOf? && ColorOf(z.path.left) == Black
    requires ColorOf(LeftOrNil(z.path.left)) == Red
    ensures Relaxed(Whole(FarNephewRedRight(z)))
  {
    DeleteContext(z);
    var RightOf(sib, pc, pk, pv, up) := z.path;
    var Node(_, far, sk, sv, near) := sib;
    var h := BlackHeight(z.focus);
    assert BlackHeight(near) == BlackHeight(far) == h;
    assert Balanced(near) && NoRedRed(near) && Balanced(far) && NoRedRed(far);
    Blacken(far);
    var far' := SetColor(far, Black);
    assert Balanced(far') && NoRedRed(far') && BlackHeight(far') == h + 1;
    var right := Node(Black, near, pk, pv, z.focus);
    assert Balanced(right) && NoRedRed(right) && BlackHeight(right) == h + 1;
    var t := Node(pc, far', sk, sv, right);
    assert Balanced(t) && NoRedRed(t) && ColorOf(t) == pc;
    assert BlackHeight(t) == h + 1 + if pc == Black then 1 else 0;
    FarNephewRedRightShape(z);
    PlugNoRedRed(t, up);
    PlugBalanced(t, up);
  }

  /** Case 4, mirrored: the former sibling over the blackened far nephew and
      the blackened parent. */
  lemma FarNephewRedRightShape<K, V>(z: Zipper<K, V>)
    requires z.path.RightOf? && z.path.left.Node?
    ensures Whole(FarNephewRedRight(z)) == Plug(Node(z.path.color,
      SetColor(z.path.left.left, Black), z.path.left.key, z.path.left.value,
      Node(Black, z.path.left.right, z.path.key, z.path.value, z.focus)), z.path.up)
  {
  }

  /** Whole trees that obey both rules satisfy the invariant at the root. */
  lemma RelaxedAtRoot<K, V>(t: Tree<K, V>)
    requires Relaxed(t)
    ensures DeleteInvariant(Zipper(t, Root))
  {
    if t.Node? {
      Blacken(t);
    }
  }

  /** One pass of the loop keeps the invariant. */
  lemma DeleteStepKeepsInvariant<K, V>(z: Zipper<K, V>)
    requires DeleteInvariant(z) && NeedsFix(z)
    ensures DeleteInvariant(DeleteStep(z))
    ensures ColorOf(Whole(DeleteStep(z))) == ColorOf(Whole(z))
  {
    if z.path.LeftOf? {
      DeleteStepLeftKeeps(z);
    } else {
      DeleteStepRightKeeps(z);
    }
  }

  /** The left-hand branch keeps the invariant and the root's colour. */
  lemma DeleteStepLeftKeeps<K, V>(z: Zipper<K, V>)
    requires DeleteInvariant(z) && NeedsFix(z) && z.path.LeftOf?
    ensures DeleteInvariant(DeleteStepLeft(z))
    ensures ColorOf(Whole(DeleteStepLeft(z))) == ColorOf(Whole(z))
  {
    var z1 := if ColorOf(z.path.right) == Red then SiblingRedLeft(z) else z;
    if ColorOf(z.path.right) == Red {
      SiblingRedLeftKeeps(z);
      SiblingRedLeftRoot(z);
    }
    DeleteContext(z1);
    var sib := z1.path.right;
    if ColorOf(LeftOrNil(sib)) == Black && ColorOf(RightOrNil(sib)) == Black {
      NephewsBlackLeftKeeps(z1);
      NephewsBlackRoot(z1);
    } else {
      var z2 := if ColorOf(RightOrNil(sib)) == Black then NearNephewRedLeft(z1) else z1;
      if ColorOf(RightOrNil(sib)) == Black {
        NearNephewRedLeftKeeps(z1);
        NearNephewRedRoot(z1);
      }
      DeleteContext(z2);
      FarNephewRedRoot(z2);
      FarNephewRedLeftKeeps(z2);
      RelaxedAtRoot(Whole(FarNephewRedLeft(z2)));
    }
  }

  /** The right-hand branch keeps the invariant and the root's colour. */
  lemma DeleteStepRightKeeps<K, V>(z: Zipper<K, V>)
    requires DeleteInvariant(z) && NeedsFix(z) && z.path.RightOf?
    ensures DeleteInvariant(DeleteStepRight(z))
    ensures ColorOf(Whole(DeleteStepRight(z))) == ColorOf(Whole(z))
  {
    var z1 := if ColorOf(z.path.left) == Red then SiblingRedRight(z) else z;
    if ColorOf(z.path.left) == Red {
      SiblingRedRightKeeps(z);
      SiblingRedRightRoot(z);
    }
    DeleteContext(z1);
    var sib := z1.path.left;
    if ColorOf(RightOrNil(sib)) == Black && ColorOf(LeftOrNil(sib)) == Black {
      NephewsBlackRightKeeps(z1);
      NephewsBlackRoot(z1);
    } else {
      var z2 := if ColorOf(LeftOrNil(sib)) == Black then NearNephewRedRight(z1) else z1;
      if ColorOf(LeftOrNil(sib)) == Black {
        NearNephewRedRightKeeps(z1);
        NearNephewRedRoot(z1);
      }
      DeleteContext(z2);
      FarNephewRedRoot(z2);
      FarNephewRedRightKeeps(z2);
      RelaxedAtRoot(Whole(FarNephewRedRight(z2)));
    }
  }

  /** The loop keeps the invariant and the colour of the root. */
  lemma {:induction false} DeleteLoopKeepsInvariant<K, V>(z: Zipper<K, V>)
    requires DeleteInvariant(z)
    ensures DeleteInvariant(DeleteLoop(z))
    ensures ColorOf(Whole(DeleteLoop(z))) == ColorOf(Whole(z))
    decreases DeleteMeasure(z)
  {
    if NeedsFix(z) {
      DeleteStepKeepsInvariant(z);
      DeleteLoopKeepsInvariant(DeleteStep(z));
    }
  }

  /** With the final `setColor(x, BLACK)`, the fix-up restores both rules
      from any state satisfying the invariant, and the root ends black
      when it was black or when `x` starts at the root. */
  lemma FixAfterDeletionCorrectedRestores<K, V>(z: Zipper<K, V>)
    requires DeleteInvariant(z)
    ensures Relaxed(FixAfterDeletionCorrected(z))
    ensures z.path == Root || ColorOf(Whole(z)) == Black ==> ColorOf(FixAfterDeletionCorrected(z)) == Black
  {
    var r := DeleteLoop(z);
    DeleteLoopKeepsInvariant(z);
    var b := Recolor(r, Black);
    assert b.focus == SetColor(r.focus, Black);
    assert Balanced(b.focus);
    PlugNoRedRed(b.focus, b.path);
    PlugBalanced(b.focus, b.path);
    if r.path != Root {
      RootColorOfPlug(b.focus, r.focus, r.path);
    }
  }

  // ---------------------------------------------------------------------
  // The colour of the root across the loop

  /** Case 1 keeps the root's colour: below the root the rotation is
      invisible there, and at the root the red sibling's parent was black. */
  lemma SiblingRedLeftRoot<K, V>(z: Zipper<K, V>)
    requires DeleteInvariant(z) && NeedsFix(z) && z.path.LeftOf? && ColorOf(z.path.right) == Red
    ensures ColorOf(Whole(SiblingRedLeft(z))) == ColorOf(Whole(z))
  {
    DeleteContext(z);
    var LeftOf(pc, pk, pv, sib, up) := z.path;
    var Node(_, a, sk, sv, b) := sib;
    var t := Node(Black, Node(Red, z.focus, pk, pv, a), sk, sv, b);
    assert Whole(SiblingRedLeft(z)) == Plug(t, up);
    PlugTopColor(Node(pc, z.focus, pk, pv, sib), t, up);
  }

  /** Case 1, mirrored. */
  lemma SiblingRedRightRoot<K, V>(z: Zipper<K, V>)
    requires DeleteInvariant(z) && NeedsFix(z) && z.path.RightOf? && ColorOf(z.path.left) == Red
    ensures ColorOf(Whole(SiblingRedRight(z))) == ColorOf(Whole(z))
  {
    DeleteContext(z);
    var RightOf(sib, pc, pk, pv, up) := z.path;
    var Node(_, a, sk, sv, b) := sib;
    var t := Node(Black, a, sk, sv, Node(Red, b, pk, pv, z.focus));
    assert Whole(SiblingRedRight(z)) == Plug(t, up);
    PlugTopColor(Node(pc, sib, pk, pv, z.focus), t, up);
  }

  /** Case 2 recolours only the sibling, which is never the root. */
  lemma NephewsBlackRoot<K, V>(z: Zipper<K, V>)
    requires z.path != Root
    ensures z.path.LeftOf? ==> ColorOf(Whole(NephewsBlackLeft(z))) == ColorOf(Whole(z))
    ensures z.path.RightOf? ==> ColorOf(Whole(NephewsBlackRight(z))) == ColorOf(Whole(z))
  {
    var t := Attach(z.path, z.focus);
    assert Whole(z) == Plug(t, z.path.up);
    if z.path.LeftOf? {
      var LeftOf(pc, pk, pv, sib, up) := z.path;
      var t' := Node(pc, z.focus, pk, pv, SetColor(sib, Red));
      assert Whole(NephewsBlackLeft(z)) == Plug(t', up);
      PlugTopColor(t, t', up);
    } else {
      var RightOf(sib, pc, pk, pv, up) := z.path;
      var t' := Node(pc, SetColor(sib, Red), pk, pv, z.focus);
      assert Whole(NephewsBlackRight(z)) == Plug(t', up);
      PlugTopColor(t, t', up);
    }
  }

  /** Case 3 rotates at the sibling, below the parent. */
  lemma NearNephewRedRoot<K, V>(z: Zipper<K, V>)
    requires z.path != Root && Sibling(z.path).Node?
    ensures z.path.LeftOf? && z.path.right.left.Node? ==>
      ColorOf(Whole(NearNephewRedLeft(z))) == ColorOf(Whole(z))
    ensures z.path.RightOf? && z.path.left.right.Node? ==>
      ColorOf(Whole(NearNephewRedRight(z))) == ColorOf(Whole(z))
  {
    var t := Attach(z.path, z.focus);
    assert Whole(z) == Plug(t, z.path.up);
    if z.path.LeftOf? && z.path.right.left.Node? {
      var r := NearNephewRedLeft(z);
      assert Whole(r) == Plug(Attach(r.path, r.focus), r.path.up);
      PlugTopColor(t, Attach(r.path, r.focus), z.path.up);
    }
    if z.path.RightOf? && z.path.left.right.Node? {
      var r := NearNephewRedRight(z);
      assert Whole(r) == Plug(Attach(r.path, r.focus), r.path.up);
      PlugTopColor(t, Attach(r.path, r.focus), z.path.up);
    }
  }

  /** Case 4 hands the parent's colour to the sibling that replaces it. */
  lemma FarNephewRedRoot<K, V>(z: Zipper<K, V>)
    requires z.path != Root && Sibling(z.path).Node?
    ensures z.path.LeftOf? && z.path.right.right.Node? ==>
      ColorOf(Whole(FarNephewRedLeft(z))) == ColorOf(Whole(z))
    ensures z.path.RightOf? && z.path.left.left.Node? ==>
      ColorOf(Whole(FarNephewRedRight(z))) == ColorOf(Whole(z))
  {
    var t := Attach(z.path, z.focus);
    assert Whole(z) == Plug(t, z.path.up);
    if z.path.LeftOf? && z.path.right.right.Node? {
      var LeftOf(pc, pk, pv, sib, up) := z.path;
      var Node(_, near, sk, sv, far) := sib;
      var t' := Node(pc, Node(Black, z.focus, pk, pv, near), sk, sv, SetColor(far, Black));
      assert Whole(FarNephewRedLeft(z)) == Plug(t', up);
      PlugTopColor(t, t', up);
    }
    if z.path.RightOf? && z.path.left.left.Node? {
      var RightOf(sib, pc, pk, pv, up) := z.path;
      var Node(_, far, sk, sv, near) := sib;
      var t' := Node(pc, SetColor(far, Black), sk, sv, Node(Black, near, pk, pv, z.focus));
      assert Whole(FarNephewRedRight(z)) == Plug(t', up);
      PlugTopColor(t, t', up);
    }
  }
}
