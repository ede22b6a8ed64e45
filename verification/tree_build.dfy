/** `buildFromSorted` of `MyTreeMap`: the linear-time construction of a tree
    from entries already in key order, used by the `SortedMap` constructor
    and by `putAll` into an empty map.

    The recursion splits the range `lo..hi` at `mid = (lo + hi) >>> 1`,
    builds the left part, takes the next entry from the iterator for the
    middle node, then builds the right part. Because the iterator is read in
    exactly this in-order sequence, the middle node of range `lo..hi`
    receives entry number `mid`; the model reads it as `s[mid]`. The shift
    `>>> 1` treats the sum as unsigned, so it is the exact half even when
    `lo + hi` exceeds `Integer.MAX_VALUE`. */
module TreeBuild {
  import opened JavaInt
  import opened RbTree
  import opened TreeInsertion

  /** The loop of `computeRedLevel`, started at `m`: one level per round
      while `m >= 0`, then `m = m / 2 - 1`. With `m = n - 1` the count is the
      number of complete levels of a tree of `n` nodes, floor(log2(n + 1)). */
  function RedLevelFrom(m: int): nat
    requires m >= -1
    decreases m + 1
  {
    if m < 0 then 0 else 1 + RedLevelFrom(m / 2 - 1)
  }

  /** `computeRedLevel(sz)`: the depth (root at 0) of the lowest level,
      which is the only one that may be incomplete. */
  function ComputeRedLevel(sz: nat): nat {
    RedLevelFrom(sz - 1)
  }

  /** The loop counts floor(log2(m + 2)) rounds. */
  lemma {:induction false} RedLevelFromBounds(m: int)
    requires m >= -1
    ensures Pow2(RedLevelFrom(m)) <= m + 2 < Pow2(RedLevelFrom(m) + 1)
    decreases m + 1
  {
    if m >= 0 {
      RedLevelFromBounds(m / 2 - 1);
    }
  }

  /** `computeRedLevel(sz)` is floor(log2(sz + 1)): the number of complete
      levels of a tree of `sz` nodes. */
  lemma ComputeRedLevelBounds(sz: nat)
    ensures Pow2(ComputeRedLevel(sz)) <= sz + 1 < Pow2(ComputeRedLevel(sz) + 1)
  {
    RedLevelFromBounds(sz - 1);
  }

  /** The depth of the deepest null link of the tree the recursion builds
      over `n` entries: the right part, of `n / 2` entries, is the larger
      one. */
  ghost function MaxLevel(n: nat): nat {
    if n == 0 then 0 else 1 + MaxLevel(n / 2)
  }

  /** `MaxLevel(n)` is ceil(log2(n + 1)). */
  lemma {:induction false} MaxLevelBounds(n: nat)
    ensures n + 1 <= Pow2(MaxLevel(n))
    ensures n >= 1 ==> MaxLevel(n) >= 1 && Pow2(MaxLevel(n) - 1) < n + 1
  {
    if n >= 1 {
      MaxLevelBounds(n / 2);
    }
  }

  /** `buildFromSorted(level, lo, hi, redLevel, …)` as written: a null link
      for an empty range, otherwise a node over entry `mid` between the two
      parts built by the recursive calls. */
  function BuildFromSorted<K, V>(level: nat, lo: int, hi: int, redLevel: nat, s: seq<(K, V)>): Tree<K, V>
    requires 0 <= lo <= hi + 1 <= |s|
    decreases hi - lo + 1, 1
  {
    if hi < lo then Nil
    else
      var mid := (lo + hi) / 2;
      Node(if level == redLevel then Red else Black,
           BuildLeft(level, lo, hi, redLevel, s), s[mid].0, s[mid].1,
           BuildRight(level, lo, hi, redLevel, s))
  }

  /** The left part of a non-empty range: built only when `lo < mid`, and
      as written with `level` unchanged. */
  function BuildLeft<K, V>(level: nat, lo: int, hi: int, redLevel: nat, s: seq<(K, V)>): Tree<K, V>
    requires 0 <= lo <= hi < |s|
    decreases hi - lo + 1, 0
  {
    var mid := (lo + hi) / 2;
    if lo < mid then BuildFromSorted(level, lo, mid - 1, redLevel, s) else Nil
  }

  /** The right part of a non-empty range: built only when `mid < hi`, and
      as written with `level` unchanged. */
  function BuildRight<K, V>(level: nat, lo: int, hi: int, redLevel: nat, s: seq<(K, V)>): Tree<K, V>
    requires 0 <= lo <= hi < |s|
    decreases hi - lo + 1, 0
  {
    var mid := (lo + hi) / 2;
    if mid < hi then BuildFromSorted(level, mid + 1, hi, redLevel, s) else Nil
  }

  /** The in-order reading of the tree built over `lo..hi` is that range of
      the input. */
  lemma {:induction false} BuildFromSortedEntries<K, V>(level: nat, lo: int, hi: int, redLevel: nat, s: seq<(K, V)>)
    requires 0 <= lo <= hi + 1 <= |s|
    ensures Entries(BuildFromSorted(level, lo, hi, redLevel, s)) == s[lo..hi + 1]
    decreases hi - lo + 1, 1
  {
    if lo <= hi {
      BuildLeftEntries(level, lo, hi, redLevel, s);
      BuildRightEntries(level, lo, hi, redLevel, s);
      NodeEntries(s, lo, (lo + hi) / 2, hi, BuildLeft(level, lo, hi, redLevel, s),
                  if level == redLevel then Red else Black, BuildRight(level, lo, hi, redLevel, s));
    }
  }

  /** The left part reads the entries before `mid`. */
  lemma {:induction false} BuildLeftEntries<K, V>(level: nat, lo: int, hi: int, redLevel: nat, s: seq<(K, V)>)
    requires 0 <= lo <= hi < |s|
    ensures Entries(BuildLeft(level, lo, hi, redLevel, s)) == s[lo..(lo + hi) / 2]
    decreases hi - lo + 1, 0
  {
    if lo < (lo + hi) / 2 {
      BuildFromSortedEntries(level, lo, (lo + hi) / 2 - 1, redLevel, s);
    }
  }

  /** The right part reads the entries after `mid`. */
  lemma {:induction false} BuildRightEntries<K, V>(level: nat, lo: int, hi: int, redLevel: nat, s: seq<(K, V)>)
    requires 0 <= lo <= hi < |s|
    ensures Entries(BuildRight(level, lo, hi, redLevel, s)) == s[(lo + hi) / 2 + 1..hi + 1]
    decreases hi - lo + 1, 0
  {
    if (lo + hi) / 2 < hi {
      BuildFromSortedEntries(level, (lo + hi) / 2 + 1, hi, redLevel, s);
    }
  }

  /** A node over the middle entry of a range, between trees reading the
      two halves, reads the whole range. */
  lemma NodeEntries<K, V>(s: seq<(K, V)>, lo: int, mid: int, hi: int, left: Tree<K, V>, c: Color, right: Tree<K, V>)
    requires 0 <= lo <= mid <= hi < |s|
    requires Entries(left) == s[lo..mid] && Entries(right) == s[mid + 1..hi + 1]
    ensures Entries(Node(c, left, s[mid].0, s[mid].1, right)) == s[lo..hi + 1]
  {
    assert s[lo..hi + 1] == s[lo..mid] + [s[mid]] + s[mid + 1..hi + 1];
  }

  /** `buildFromSorted(level, lo, hi, redLevel, …)` with `level + 1` passed
      to the recursive calls, so that the nodes on level `redLevel` turn
      red. */
  function BuildFromSortedCorrected<K, V>(level: nat, lo: int, hi: int, redLevel: nat, s: seq<(K, V)>): Tree<K, V>
    requires 0 <= lo <= hi + 1 <= |s|
    decreases hi - lo + 1, 1
  {
    if hi < lo then Nil
    else
      var mid := (lo + hi) / 2;
      Node(if level == redLevel then Red else Black,
           CorrectedLeft(level, lo, hi, redLevel, s), s[mid].0, s[mid].1,
           CorrectedRight(level, lo, hi, redLevel, s))
  }

  /** The left part of a non-empty range, built one level down. */
  function CorrectedLeft<K, V>(level: nat, lo: int, hi: int, redLevel: nat, s: seq<(K, V)>): Tree<K, V>
    requires 0 <= lo <= hi < |s|
    decreases hi - lo + 1, 0
  {
    var mid := (lo + hi) / 2;
    if lo < mid then BuildFromSortedCorrected(level + 1, lo, mid - 1, redLevel, s) else Nil
  }

  /** The right part of a non-empty range, built one level down. */
  function CorrectedRight<K, V>(level: nat, lo: int, hi: int, redLevel: nat, s: seq<(K, V)>): Tree<K, V>
    requires 0 <= lo <= hi < |s|
    decreases hi - lo + 1, 0
  {
    var mid := (lo + hi) / 2;
    if mid < hi then BuildFromSortedCorrected(level + 1, mid + 1, hi, redLevel, s) else Nil
  }

  /** The in-order reading of the corrected tree built over `lo..hi` is that
      range of the input. */
  lemma {:induction false} BuildFromSortedCorrectedEntries<K, V>(level: nat, lo: int, hi: int, redLevel: nat, s: seq<(K, V)>)
    requires 0 <= lo <= hi + 1 <= |s|
    ensures Entries(BuildFromSortedCorrected(level, lo, hi, redLevel, s)) == s[lo..hi + 1]
    decreases hi - lo + 1, 1
  {
    if lo <= hi {
      CorrectedLeftEntries(level, lo, hi, redLevel, s);
      CorrectedRightEntries(level, lo, hi, redLevel, s);
      NodeEntries(s, lo, (lo + hi) / 2, hi, CorrectedLeft(level, lo, hi, redLevel, s),
                  if level == redLevel then Red else Black, CorrectedRight(level, lo, hi, redLevel, s));
    }
  }

  /** The corrected left part reads the entries before `mid`. */
  lemma {:induction false} CorrectedLeftEntries<K, V>(level: nat, lo: int, hi: int, redLevel: nat, s: seq<(K, V)>)
    requires 0 <= lo <= hi < |s|
    ensures Entries(CorrectedLeft(level, lo, hi, redLevel, s)) == s[lo..(lo + hi) / 2]
    decreases hi - lo + 1, 0
  {
    if lo < (lo + hi) / 2 {
      BuildFromSortedCorrectedEntries(level + 1, lo, (lo + hi) / 2 - 1, redLevel, s);
    }
  }

  /** The corrected right part reads the entries after `mid`. */
  lemma {:induction false} CorrectedRightEntries<K, V>(level: nat, lo: int, hi: int, redLevel: nat, s: seq<(K, V)>)
    requires 0 <= lo <= hi < |s|
    ensures Entries(CorrectedRight(level, lo, hi, redLevel, s)) == s[(lo + hi) / 2 + 1..hi + 1]
    decreases hi - lo + 1, 0
  {
    if (lo + hi) / 2 < hi {
      BuildFromSortedCorrectedEntries(level + 1, (lo + hi) / 2 + 1, hi, redLevel, s);
    }
  }

  /** `buildFromSorted(size, it, …)` as written: the whole sequence, from
      level 0, with the red level of its size. */
  function BuildTree<K, V>(s: seq<(K, V)>): (t: Tree<K, V>)
    ensures Entries(t) == s && Size(t) == |s|
  {
    BuildFromSortedEntries(0, 0, |s| - 1, ComputeRedLevel(|s|), s);
    SizeIsEntries(BuildFromSorted(0, 0, |s| - 1, ComputeRedLevel(|s|), s));
    BuildFromSorted(0, 0, |s| - 1, ComputeRedLevel(|s|), s)
  }

  /** `buildFromSorted(size, it, …)` over the corrected recursion. */
  function BuildTreeCorrected<K, V>(s: seq<(K, V)>): (t: Tree<K, V>)
    ensures Entries(t) == s && Size(t) == |s|
  {
    BuildFromSortedCorrectedEntries(0, 0, |s| - 1, ComputeRedLevel(|s|), s);
    SizeIsEntries(BuildFromSortedCorrected(0, 0, |s| - 1, ComputeRedLevel(|s|), s));
    BuildFromSortedCorrected(0, 0, |s| - 1, ComputeRedLevel(|s|), s)
  }

  // ---------------------------------------------------------------------
  // As written: every node is black

  /** Every node of the tree is black. */
  ghost predicate AllBlack<K, V>(t: Tree<K, V>) {
    match t
    case Nil => true
    case Node(c, l, _, _, r) => c == Black && AllBlack(l) && AllBlack(r)
  }

  /** With the level never changing, a level other than `redLevel` colours
      every node black. */
  lemma {:induction false} BuildFromSortedAllBlack<K, V>(level: nat, lo: int, hi: int, redLevel: nat, s: seq<(K, V)>)
    requires 0 <= lo <= hi + 1 <= |s| && level != redLevel
    ensures AllBlack(BuildFromSorted(level, lo, hi, redLevel, s))
    decreases hi - lo + 1
  {
    if lo <= hi {
      var mid := (lo + hi) / 2;
      if lo < mid {
        BuildFromSortedAllBlack(level, lo, mid - 1, redLevel, s);
      }
      if mid < hi {
        BuildFromSortedAllBlack(level, mid + 1, hi, redLevel, s);
      }
    }
  }

  /** The top-level call starts at level 0 and the red level of a non-empty
      map is at least 1, so no node is ever red. */
  lemma BuildTreeAllBlack<K, V>(s: seq<(K, V)>)
    ensures AllBlack(BuildTree(s))
  {
    if |s| > 0 {
      assert ComputeRedLevel(|s|) >= 1;
      BuildFromSortedAllBlack(0, 0, |s| - 1, ComputeRedLevel(|s|), s);
    }
  }

  /** An all-black tree with equal black heights is perfect: it holds one
      less than a power of two entries. */
  lemma {:induction false} AllBlackBalancedIsPerfect<K, V>(t: Tree<K, V>)
    ensures AllBlack(t) && Balanced(t) ==> Size(t) + 1 == Pow2(BlackHeight(t))
  {
    match t
    case Nil =>
    case Node(_, l, _, _, r) =>
      AllBlackBalancedIsPerfect(l);
      AllBlackBalancedIsPerfect(r);
  }

  /** As written, the built tree breaks rule 5 for every size that is not
      one less than a power of two, for example for two entries. */
  lemma BuildTreeUnbalanced<K, V>(s: seq<(K, V)>)
    requires forall k: nat :: Pow2(k) != |s| + 1
    ensures !Balanced(BuildTree(s))
  {
    BuildTreeAllBlack(s);
    AllBlackBalancedIsPerfect(BuildTree(s));
  }

  /** Two entries: the root is black with a null left link and a black
      right child. */
  lemma BuildTreeOfTwo()
    ensures
      var s: seq<(int, int)> := [(1, 1), (2, 2)];
      BuildTree(s) == Node(Black, Nil, 1, 1, Node(Black, Nil, 2, 2, Nil))
      && !Balanced(BuildTree(s))
      && IsRedBlack(BuildTreeCorrected(s))
  {
    var s: seq<(int, int)> := [(1, 1), (2, 2)];
    assert ComputeRedLevel(2) == 1;
    BuildTreeCorrectedIsRedBlack(s);
  }

  // ---------------------------------------------------------------------
  // Corrected: a valid red-black tree

  /** Fewer entries never need more levels. */
  lemma RedLevelMonotone(a: nat, b: nat)
    requires a <= b
    ensures ComputeRedLevel(a) <= ComputeRedLevel(b)
  {
    var ra, rb := ComputeRedLevel(a), ComputeRedLevel(b);
    ComputeRedLevelBounds(a);
    ComputeRedLevelBounds(b);
    if ra > rb {
      Pow2Monotone(rb + 1, ra);
    }
  }

  /** Fewer entries never reach deeper. */
  lemma {:induction false} MaxLevelMonotone(a: nat, b: nat)
    requires a <= b
    ensures MaxLevel(a) <= MaxLevel(b)
  {
    if a > 0 {
      MaxLevelMonotone(a / 2, b / 2);
    }
  }

  /** The deepest null link is at most one level below the complete levels. */
  lemma MaxLevelBound(n: nat)
    ensures MaxLevel(n) <= ComputeRedLevel(n) + 1
  {
    var m, r := MaxLevel(n), ComputeRedLevel(n);
    MaxLevelBounds(n);
    ComputeRedLevelBounds(n);
    if m > r + 1 {
      Pow2Monotone(r + 1, m - 1);
    }
  }

  /** The tree built over `n` entries from `level` has its null links on
      levels `redLevel` and `redLevel + 1` only: then exactly the nodes on
      level `redLevel` are red, they have no children, and every path from
      the subtree's root passes `redLevel - level` black nodes. */
  lemma {:induction false} BuildCorrectedRules<K, V>(level: nat, lo: int, hi: int, redLevel: nat, s: seq<(K, V)>)
    requires 0 <= lo <= hi + 1 <= |s|
    requires level + ComputeRedLevel(hi - lo + 1) >= redLevel
    requires level + MaxLevel(hi - lo + 1) <= redLevel + 1
    ensures NoRedRed(BuildFromSortedCorrected(level, lo, hi, redLevel, s))
    ensures Balanced(BuildFromSortedCorrected(level, lo, hi, redLevel, s))
    ensures BlackHeight(BuildFromSortedCorrected(level, lo, hi, redLevel, s))
         == if level <= redLevel then redLevel - level else 0
    decreases hi - lo + 1, 1
  {
    if lo <= hi {
      var mid := (lo + hi) / 2;
      ChildBounds(level, redLevel, hi - lo + 1, mid - lo, hi - mid);
      CorrectedLeftRules(level, lo, hi, redLevel, s);
      CorrectedRightRules(level, lo, hi, redLevel, s);
      NodeRules(level, redLevel, CorrectedLeft(level, lo, hi, redLevel, s), s[mid].0, s[mid].1,
                CorrectedRight(level, lo, hi, redLevel, s));
    }
  }

  /** The corrected left part keeps the rules, one level down. */
  lemma {:induction false} CorrectedLeftRules<K, V>(level: nat, lo: int, hi: int, redLevel: nat, s: seq<(K, V)>)
    requires 0 <= lo <= hi < |s|
    requires level + 1 + ComputeRedLevel((lo + hi) / 2 - lo) >= redLevel
    requires level + 1 + MaxLevel((lo + hi) / 2 - lo) <= redLevel + 1
    ensures NoRedRed(CorrectedLeft(level, lo, hi, redLevel, s))
    ensures Balanced(CorrectedLeft(level, lo, hi, redLevel, s))
    ensures BlackHeight(CorrectedLeft(level, lo, hi, redLevel, s))
         == if level + 1 <= redLevel then redLevel - level - 1 else 0
    decreases hi - lo + 1, 0
  {
    if lo < (lo + hi) / 2 {
      BuildCorrectedRules(level + 1, lo, (lo + hi) / 2 - 1, redLevel, s);
    }
  }

  /** The corrected right part keeps the rules, one level down. */
  lemma {:induction false} CorrectedRightRules<K, V>(level: nat, lo: int, hi: int, redLevel: nat, s: seq<(K, V)>)
    requires 0 <= lo <= hi < |s|
    requires level + 1 + ComputeRedLevel(hi - (lo + hi) / 2) >= redLevel
    requires level + 1 + MaxLevel(hi - (lo + hi) / 2) <= redLevel + 1
    ensures NoRedRed(CorrectedRight(level, lo, hi, redLevel, s))
    ensures Balanced(CorrectedRight(level, lo, hi, redLevel, s))
    ensures BlackHeight(CorrectedRight(level, lo, hi, redLevel, s))
         == if level + 1 <= redLevel then redLevel - level - 1 else 0
    decreases hi - lo + 1, 0
  {
    if (lo + hi) / 2 < hi {
      BuildCorrectedRules(level + 1, (lo + hi) / 2 + 1, hi, redLevel, s);
    }
  }

  /** A node on a level above the red level is black over two subtrees of
      equal black height; on the red level it is a red leaf. Either way the
      subtree it roots keeps rules 4 and 5. */
  lemma NodeRules<K, V>(level: nat, redLevel: nat, left: Tree<K, V>, k: K, v: V, right: Tree<K, V>)
    requires level <= redLevel
    requires NoRedRed(left) && NoRedRed(right) && Balanced(left) && Balanced(right)
    requires level == redLevel ==> left == Nil && right == Nil
    requires level < redLevel ==> BlackHeight(left) == redLevel - level - 1 && BlackHeight(right) == redLevel - level - 1
    ensures var t := Node(if level == redLevel then Red else Black, left, k, v, right);
      NoRedRed(t) && Balanced(t) && BlackHeight(t) == redLevel - level
  {
  }

  /** The complete levels of a range are one more than those of its left
      half, which has no more of them than its right half. */
  lemma RedLevelSplit(n: nat, nl: nat, nr: nat)
    requires n >= 1 && nl == (n - 1) / 2 && nr == n / 2
    ensures ComputeRedLevel(n) == 1 + ComputeRedLevel(nl) <= 1 + ComputeRedLevel(nr)
  {
    assert ComputeRedLevel(n) == 1 + RedLevelFrom((n - 1) / 2 - 1);
    RedLevelMonotone(nl, nr);
  }

  /** The deepest null link of a range lies one level below that of its
      right half, which reaches at least as deep as its left half. */
  lemma MaxLevelSplit(n: nat, nl: nat, nr: nat)
    requires n >= 1 && nl == (n - 1) / 2 && nr == n / 2
    ensures MaxLevel(nl) <= MaxLevel(nr) && MaxLevel(n) == 1 + MaxLevel(nr)
  {
    MaxLevelMonotone(nl, nr);
  }

  /** The bounds on null-link levels carry over to both halves, and a node
      on the red level has no children. */
  lemma ChildBounds(level: nat, redLevel: nat, n: nat, nl: nat, nr: nat)
    requires n >= 1 && nl == (n - 1) / 2 && nr == n / 2
    requires level + ComputeRedLevel(n) >= redLevel
    requires level + MaxLevel(n) <= redLevel + 1
    ensures level + 1 + ComputeRedLevel(nl) >= redLevel && level + 1 + ComputeRedLevel(nr) >= redLevel
    ensures level + 1 + MaxLevel(nl) <= redLevel + 1 && level + 1 + MaxLevel(nr) <= redLevel + 1
    ensures level <= redLevel
    ensures level == redLevel ==> nl == 0 && nr == 0
  {
    RedLevelSplit(n, nl, nr);
    MaxLevelSplit(n, nl, nr);
  }

  /** With the level passed down, the built tree is a red-black tree. */
  lemma BuildTreeCorrectedIsRedBlack<K, V>(s: seq<(K, V)>)
    ensures IsRedBlack(BuildTreeCorrected(s))
  {
    var n := |s|;
    MaxLevelBound(n);
    BuildCorrectedRules(0, 0, n - 1, ComputeRedLevel(n), s);
    if n > 0 {
      assert ComputeRedLevel(n) >= 1;
    }
  }
}
