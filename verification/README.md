# A red-black tree map, a hash map's building blocks, and `java.lang` helpers in Dafny

This project models the core of a hand-written re-implementation of pieces of
`java.util` and `java.lang`, and proves what each piece computes:

- `MyTreeMap`, a red-black tree map, covering:
  - lookup;
  - ordered insertion with `fixAfterInsertion`;
  - deletion by successor copy with `fixAfterDeletion`;
  - the rotations;
  - the one-descent navigation queries (ceiling, floor, higher, lower);
  - `successor` and `predecessor`, and the first and last entries;
  - `replace`, `clear` and `putAll`;
  - `buildFromSorted` with `computeRedLevel`.
- `MyHashMap`, covering:
  - the hash spreading;
  - `tableSizeFor`;
  - the constructors;
  - the bucket index;
  - the chain path of `putVal`;
  - `Node.setValue`.
- The default methods of the `MyMap` interface:
  - `getOrDefault`, `putIfAbsent`, `remove(key, value)`;
  - both `replace` forms;
  - `computeIfAbsent`, `computeIfPresent`, `compute`, `merge`.
- `MyInteger`:
  - the 32-bit bit operations;
  - the decimal rendering (`toString`, `getChars`, `stringSize`);
  - `formatUnsignedInt`.
- `MyAbstractStringBuilder`, a `char[]` plus a count:
  - capacity growth;
  - `setLength`, `charAt`, `setCharAt`;
  - `append` and `appendNull`;
  - `delete` and `deleteCharAt`.
- The three array constructors of `MyString`, with their bounds checks.

## How the Java is represented

- **Tree nodes as a functional tree.** A tree is `Nil | Node(color, left, key, value, right)`.
  - A Java reference to a node is a zipper (`rb_tree.dfy`): the subtree at the node, plus the path of ancestors above it, innermost first.
  - `parentOf`, `leftOf` and `rightOf` are zipper moves, and so are a rotation or a recolouring at a node.
  - `Whole(z)` is the tree the reference points into. Parent links therefore always agree with child links.
  - The abstraction of a tree is its in-order entry sequence `Entries(t)`, and `Pos(z)` is a node's index in it.
  - A map is its root, `size` and `modCount`.
- **Keys.** Keys are compared by one function `cmp`, assumed to be a strict total order consistent with equality (`KeyOrder.TotalOrder`). It stands for both the `Comparator` path and the `Comparable` path, except where the comparator search `getEntryUsingComparator` goes wrong: the lookups of the map model follow the corrected search (see "## Findings" and "## Left out"). What a map holds for a key is `EntryLookup.Lookup` over the in-order entries.
- **`null` and exceptions.**
  - `null` is `Option.None`.
  - A thrown exception is `Result.Err` carrying the exception's kind. The object's state at the moment of the throw is not kept.
- **Integers.**
  - A Java `int` in `MyInteger` and in the hash code is a `bv32`.
  - In the string builder's capacity arithmetic it is an exact integer, with the 32-bit wrap-around written out (`JavaInt.Wrap`).
- **Arrays and library calls.**
  - A `char[]` is a `seq<char>`.
  - `Arrays.copyOf`, `Arrays.copyOfRange`, `Arrays.fill` and `System.arraycopy` are loop methods in `java_arrays.dfy`. Each throws what the library throws.
- **Hash codes and the load factor.** A key's `hashCode` is a function parameter, and the load factor is a `real`.
- **Corrected versions.** Several methods of the source do not do what their own comments and the red-black algorithm promise (see "## Findings"). Each is modelled twice:
  - once as written, with a lemma exhibiting the defect;
  - once corrected, with the intended property proved.

  The map-level operations (`Get`, `ContainsKey`, `Replace`, `ReplaceIfEquals`, `Put`, `Remove`, `PollFirstEntry`, `PollLastEntry`, `FirstEntry`, `FirstKey`, `ContainsValue`, `FromSorted`, `PutAll`) are built on the corrected versions, so that the map invariant can be stated and kept.

Modules, one file each:

| module | file |
|---|---|
| `Wrappers`, `JavaInt`, `JavaArrays`, `NatBits` | `wrappers.dfy`, `java_int.dfy`, `java_arrays.dfy`, `nat_bits.dfy` |
| `KeyOrder`, `EntryLookup` | `key_order.dfy`, `entry_lookup.dfy` |
| `RbTree` (nodes, zipper, rotations, colour rules) | `rb_tree.dfy` |
| `TreeNavigation`, `TreeInsertion`, `TreeDeletion`, `TreeRemoval`, `TreeBuild` | `tree_navigation.dfy`, `tree_insert.dfy`, `tree_delete.dfy`, `tree_remove.dfy`, `tree_build.dfy` |
| `TreeMapModel` (the public operations) | `tree_map.dfy` |
| `HashBits`, `HashMapModel`, `MapDefaults` | `hash_bits.dfy`, `hash_map.dfy`, `map_defaults.dfy` |
| `IntegerBits`, `IntegerDecimal` | `integer_bits.dfy`, `integer_decimal.dfy` |
| `StringBuilderModel`, `JavaString` | `string_builder.dfy`, `string.dfy` |

## Model

| member | source | states |
|---|---|---|
| RbTree.SetColor | src/myutil/MyTreeMap.java:1008-1010 | recolouring a node changes its colour only: children, key and value stay; a null link stays null; the neighbouring accessors `colorOf`, `leftOf`, `rightOf` are the functions `RbTree.ColorOf`, `RbTree.LeftOrNil`, `RbTree.RightOrNil`, which read a null link as black with null children |
| RbTree.SizeIsEntries | src/myutil/MyTreeMap.java:83-85 | the node count of a tree equals the length of its in-order entry sequence |
| RbTree.Up | src/myutil/MyTreeMap.java:1004-1006 | `parentOf` stays inside the same tree, one level higher |
| RbTree.DownLeft | src/myutil/MyTreeMap.java:1012-1014 | `leftOf` stays inside the same tree, one level lower, at the left child |
| RbTree.DownRight | src/myutil/MyTreeMap.java:1016-1018 | `rightOf` stays inside the same tree, one level lower, at the right child |
| RbTree.PlugEntries | src/myutil/MyTreeMap.java:27-31 | the in-order reading of a tree is the entries before a node's subtree, the subtree's own entries, then the entries after it |
| RbTree.PosEntry | src/myutil/MyTreeMap.java:27-31 | the entry of the node a reference points at sits at index `Pos` of the whole tree's in-order reading |
| RbTree.SameEntriesPlug | src/myutil/MyTreeMap.java:1021-1066 | replacing a subtree by one with the same in-order reading keeps the whole tree's in-order reading |
| RbTree.RotateLeft | src/myutil/MyTreeMap.java:1021-1043 | a left rotation keeps every entry in in-order position and every node's colour; the former right child becomes the subtree root, with the pivot as its left child |
| RbTree.RotateRight | src/myutil/MyTreeMap.java:1044-1066 | the mirror image: in-order entries and colours kept; the former left child becomes the subtree root |
| RbTree.RotationsInverse | src/myutil/MyTreeMap.java:1021-1066 | a right rotation undoes a left rotation |
| RbTree.SameColouredPlug | src/myutil/MyTreeMap.java:1021-1066 | a colour-preserving change of a subtree keeps the colours of the whole tree, read in order |
| RbTree.RotateLeftAt | src/myutil/MyTreeMap.java:1021-1043 | `rotateLeft(p)` inside the whole tree keeps its in-order entries and all colours; when `p` was the root, the root becomes `p`'s former right child |
| RbTree.RotateRightAt | src/myutil/MyTreeMap.java:1044-1066 | `rotateRight(p)` inside the whole tree keeps its in-order entries and all colours; when `p` was the root, the root becomes `p`'s former left child |
| RbTree.Recolor | src/myutil/MyTreeMap.java:1008-1010 | recolouring a node in place keeps the whole tree's in-order entries and sets that node's colour |
| RbTree.SameShapePlug | src/myutil/MyTreeMap.java:897-901 | changing only values inside a subtree leaves the whole tree with the same links, keys and colours |
| RbTree.PlugBalanced | src/myutil/MyTreeMap.java:32-37 | rule 5 holds for a whole tree exactly when it holds inside a subtree and around it, for that subtree's black height |
| RbTree.PlugNoRedRed | src/myutil/MyTreeMap.java:32-37 | rule 4 holds for a whole tree exactly when it holds inside a subtree and around it, given the subtree root's colour |
| RbTree.PlugTopColor | src/myutil/MyTreeMap.java:32-37 | the root's colour depends only on the subtree at a non-root position, or on its colour at the root |
| KeyOrder.SortedAround | src/myutil/MyTreeMap.java:27-31 | in increasing key order, every key before an entry is below it and every key after is above it |
| EntryLookup.Lookup | src/myutil/MyTreeMap.java:103-106 | the value a key maps to is absent exactly when no entry has the key; otherwise it is the value of an entry with the key |
| EntryLookup.LookupLast | src/myutil/MyAbstractMap.java:122-126 | the value a run of puts leaves for a key: absent exactly when no entry has the key, else the value of one of its entries |
| EntryLookup.SortedLookup | src/myutil/MyTreeMap.java:103-106 | in a sorted map every key looks up the value stored with it |
| EntryLookup.LookupRemoveAt | src/myutil/MyTreeMap.java:408-416 | removing one entry of a sorted sequence unmaps that entry's key and leaves every other key's value |
| EntryLookup.LookupSetAt | src/myutil/MyTreeMap.java:897-901 | replacing one entry's value changes the lookup of that key only |
| EntryLookup.LookupInsert | src/myutil/MyTreeMap.java:394-399 | inserting an entry for a missing key maps that key and changes no other |
| EntryLookup.SortedInsert | src/myutil/MyTreeMap.java:394-399 | an entry placed between the keys below and above it keeps the keys increasing |
| EntryLookup.SortedRemoveAt | src/myutil/MyTreeMap.java:1138-1183 | dropping an entry keeps the keys increasing |
| TreeNavigation.FocusSplit | src/myutil/MyTreeMap.java:27-31 | around a node, the in-order reading is the entries before it, the node's own entry at index `Pos`, then the entries after it |
| TreeNavigation.StepLeftAbove | src/myutil/MyTreeMap.java:161-162 | going left from a key above the search key keeps every key after the position above the search key |
| TreeNavigation.StepRightBelow | src/myutil/MyTreeMap.java:164-165 | going right from a key below the search key keeps every key before the position below the search key |
| TreeNavigation.Descend | src/myutil/MyTreeMap.java:158-170 | the search loop stays in the same tree and stops either at the node holding the key, or at a null link exactly when the key is absent |
| TreeNavigation.GetEntry | src/myutil/MyTreeMap.java:145-172 | `getEntry` gives null exactly when no key equals the argument; otherwise the node holding that key |
| TreeNavigation.GetEntryUsingComparator | src/myutil/MyTreeMap.java:175-195 | as written: an empty tree gives null, and a present key gives its node; an absent key in a non-empty tree throws `NullPointerException` |
| TreeNavigation.GetEntryUsingComparatorCorrected | src/myutil/MyTreeMap.java:175-195 | wherever the comparator search returns, it agrees with `getEntry`; where it throws, the intended answer is null |
| TreeNavigation.NextAncestor | src/myutil/MyTreeMap.java:961-968 | the climb in `successor` reaches the node right after the subtree in key order, and none exactly when nothing follows |
| TreeNavigation.PrevAncestor | src/myutil/MyTreeMap.java:985-993 | the climb in `predecessor` reaches the node right before the subtree in key order, and none exactly when nothing precedes |
| TreeNavigation.Leftmost | src/myutil/MyTreeMap.java:953-956 | running left to the end reaches the first entry of the subtree |
| TreeNavigation.Rightmost | src/myutil/MyTreeMap.java:978-981 | running right to the end reaches the last entry of the subtree |
| TreeNavigation.Successor | src/myutil/MyTreeMap.java:947-970 | `successor` returns the node at the next in-order index, and null exactly for the last entry |
| TreeNavigation.Predecessor | src/myutil/MyTreeMap.java:973-994 | `predecessor` returns the node at the previous in-order index, and null exactly for the first entry |
| TreeNavigation.SuccessorThenPredecessor | src/myutil/MyTreeMap.java:947-994 | the predecessor of the successor is the original entry |
| TreeNavigation.ClimbAfter | src/myutil/MyTreeMap.java:961-968 | from a node without a right child the climb lands on the next key in order, or passes the root when the node holds the last key |
| TreeNavigation.ClimbBefore | src/myutil/MyTreeMap.java:985-992 | from a node without a left child the climb lands on the previous key in order, or passes the root when the node holds the first key |
| TreeNavigation.GetLastEntry | src/myutil/MyTreeMap.java:936-944 | null exactly for an empty tree; otherwise the node holding the last, greatest, entry |
| TreeNavigation.RunLeftToNull | src/myutil/MyTreeMap.java:929-931 | the loop as written, running until `p` itself is null, always ends with null |
| TreeNavigation.GetFirstEntry | src/myutil/MyTreeMap.java:926-934 | as written, `getFirstEntry` is null for every tree |
| TreeNavigation.GetFirstEntryMissesFirst | src/myutil/MyTreeMap.java:926-934 | a non-empty tree has a first entry, which `getFirstEntry` as written does not return |
| TreeNavigation.GetFirstEntryCorrected | src/myutil/MyTreeMap.java:926-934 | stopping at the node without a left child: null exactly for an empty tree, else the node at in-order index 0 |
| TreeNavigation.CeilingFrom | src/myutil/MyTreeMap.java:203-235 | the ceiling loop from any node reached by the search returns the least key at least the argument, or null when every key is below it |
| TreeNavigation.GetCeilingEntry | src/myutil/MyTreeMap.java:198-237 | the least key at least the argument, or null when there is none |
| TreeNavigation.FloorFrom | src/myutil/MyTreeMap.java:242-270 | the floor loop from any node reached by the search returns the greatest key at most the argument, or null |
| TreeNavigation.GetFloorEntry | src/myutil/MyTreeMap.java:238-272 | the greatest key at most the argument, or null when there is none |
| TreeNavigation.HigherFrom | src/myutil/MyTreeMap.java:277-307 | the higher loop returns the least key above the argument, or null |
| TreeNavigation.GetHigherEntry | src/myutil/MyTreeMap.java:273-309 | the least key strictly above the argument, or null when there is none |
| TreeNavigation.LowerFrom | src/myutil/MyTreeMap.java:314-337 | the lower loop returns the greatest key below the argument, or null |
| TreeNavigation.GetLowerEntry | src/myutil/MyTreeMap.java:310-339 | the greatest key strictly below the argument, or null when there is none |
| TreeInsertion.InsertStep | src/myutil/MyTreeMap.java:1081-1126 | one pass of the loop keeps the in-order entries and makes progress: `x` moves up, or its parent turns black |
| TreeInsertion.InsertLoop | src/myutil/MyTreeMap.java:1080-1127 | the loop ends with `x` at the root or under a black parent, and the in-order entries are unchanged |
| TreeInsertion.FixAfterInsertion | src/myutil/MyTreeMap.java:1077-1128 | the fix-up as written keeps the in-order entries |
| TreeInsertion.FixAfterInsertionCorrected | src/myutil/MyTreeMap.java:1077-1128 | with the final blackening of the root, the in-order entries are kept and the root is black |
| TreeInsertion.Blacken | src/myutil/MyTreeMap.java:1008-1010 | blackening a node keeps rules 4 and 5 in its subtree, and its black height grows by one if it was red |
| TreeInsertion.StepParentIsRoot | src/myutil/MyTreeMap.java:1093-1104 | when the red parent is the root, one pass keeps the loop invariant |
| TreeInsertion.StepRedUncle | src/myutil/MyTreeMap.java:1085-1091 | with a red uncle, recolouring keeps the loop invariant, moving the possible red-red link two levels up |
| TreeInsertion.StepBlackUncleLeft | src/myutil/MyTreeMap.java:1093-1105 | with a black uncle and the parent a left child, the rotations keep the loop invariant |
| TreeInsertion.StepBlackUncleRight | src/myutil/MyTreeMap.java:1117-1125 | the mirror case keeps the loop invariant |
| TreeInsertion.InsertStepKeepsInvariant | src/myutil/MyTreeMap.java:1081-1126 | every pass of the loop keeps the invariant: rules 4 and 5 everywhere except a possible red-red link at `x` |
| TreeInsertion.InsertLoopKeepsRules | src/myutil/MyTreeMap.java:1080-1127 | when the loop stops, the whole tree obeys rules 4 and 5 |
| TreeInsertion.FixAfterInsertionKeepsRules | src/myutil/MyTreeMap.java:1077-1128 | as written, a node linked in at a null link leaves rules 4 and 5 intact, but the root may be red |
| TreeInsertion.FixAfterInsertionCorrectedKeepsRedBlack | src/myutil/MyTreeMap.java:1077-1128 | with the root blackened afterwards, insertion keeps all five colour rules |
| TreeInsertion.FixAfterInsertionLeavesRedRoot | src/myutil/MyTreeMap.java:1080-1127 | inserting 4 into the valid tree 2(1, 3), with red leaves, ends with a red root |
| TreeDeletion.SiblingRedLeft | src/myutil/MyTreeMap.java:1194-1199 | the red-sibling case keeps the in-order entries and leaves `x` under a red parent, one level deeper |
| TreeDeletion.NephewsBlackLeft | src/myutil/MyTreeMap.java:1202-1205 | the black-nephews case keeps the in-order entries and moves `x` to its parent |
| TreeDeletion.NearNephewRedLeft | src/myutil/MyTreeMap.java:1208-1213 | the near-nephew case keeps the in-order entries, `x`'s place and its parent's colour |
| TreeDeletion.FarNephewRedLeft | src/myutil/MyTreeMap.java:1214-1218 | the far-nephew case keeps the in-order entries and moves `x` to the root |
| TreeDeletion.DeleteStepLeft | src/myutil/MyTreeMap.java:1190-1220 | the left-hand branch keeps the in-order entries and makes progress |
| TreeDeletion.SiblingRedRight | src/myutil/MyTreeMap.java:1224-1229 | the mirrored red-sibling case keeps the in-order entries and leaves `x` under a red parent |
| TreeDeletion.NephewsBlackRight | src/myutil/MyTreeMap.java:1231-1234 | the mirrored black-nephews case keeps the in-order entries and moves `x` up |
| TreeDeletion.NearNephewRedRight | src/myutil/MyTreeMap.java:1236-1241 | the mirrored near-nephew case keeps the in-order entries and `x`'s place |
| TreeDeletion.FarNephewRedRight | src/myutil/MyTreeMap.java:1242-1246 | the mirrored far-nephew case keeps the in-order entries and moves `x` to the root |
| TreeDeletion.DeleteStepRight | src/myutil/MyTreeMap.java:1221-1248 | the right-hand branch keeps the in-order entries and makes progress |
| TreeDeletion.DeleteStep | src/myutil/MyTreeMap.java:1189-1248 | one pass of the loop keeps the in-order entries and makes progress |
| TreeDeletion.DeleteLoop | src/myutil/MyTreeMap.java:1188-1249 | the loop ends with `x` at the root or red, with the in-order entries unchanged |
| TreeDeletion.FixAfterDeletion | src/myutil/MyTreeMap.java:1186-1250 | the fix-up as written keeps the in-order entries |
| TreeDeletion.FixAfterDeletionCorrected | src/myutil/MyTreeMap.java:1186-1250 | with the final blackening of `x`, the fix-up keeps the in-order entries |
| TreeDeletion.DeleteContext | src/myutil/MyTreeMap.java:1188-1191 | while the loop runs, `x`'s sibling exists and carries one more black than `x` |
| TreeDeletion.SiblingRedLeftKeeps | src/myutil/MyTreeMap.java:1194-1199 | the red-sibling case keeps the loop invariant, and the new sibling is black |
| TreeDeletion.NephewsBlackLeftKeeps | src/myutil/MyTreeMap.java:1202-1205 | the black-nephews case keeps the loop invariant |
| TreeDeletion.NearNephewRedLeftKeeps | src/myutil/MyTreeMap.java:1208-1213 | the near-nephew case keeps the invariant and leaves a black sibling with a red far child |
| TreeDeletion.FarNephewRedLeftKeeps | src/myutil/MyTreeMap.java:1214-1218 | the far-nephew case restores rules 4 and 5 in the whole tree |
| TreeDeletion.SiblingRedRightKeeps | src/myutil/MyTreeMap.java:1224-1229 | the mirrored red-sibling case keeps the loop invariant |
| TreeDeletion.NephewsBlackRightKeeps | src/myutil/MyTreeMap.java:1231-1234 | the mirrored black-nephews case keeps the loop invariant |
| TreeDeletion.NearNephewRedRightKeeps | src/myutil/MyTreeMap.java:1236-1241 | the mirrored near-nephew case keeps the invariant |
| TreeDeletion.FarNephewRedRightKeeps | src/myutil/MyTreeMap.java:1242-1246 | the mirrored far-nephew case restores rules 4 and 5 |
| TreeDeletion.DeleteStepKeepsInvariant | src/myutil/MyTreeMap.java:1189-1248 | every pass of the loop keeps its invariant (the tree obeys both rules if `x` carries one extra black) and the root's colour |
| TreeDeletion.DeleteLoopKeepsInvariant | src/myutil/MyTreeMap.java:1188-1249 | the whole loop keeps the invariant and the root's colour |
| TreeDeletion.FixAfterDeletionCorrectedRestores | src/myutil/MyTreeMap.java:1186-1250 | with the final blackening, the fix-up restores rules 4 and 5, and a black root stays black |
| TreeRemoval.Rekey | src/myutil/MyTreeMap.java:1144-1145 | copying the successor's key and value into `p` keeps `p`'s place, children and colour |
| TreeRemoval.UnlinkTarget | src/myutil/MyTreeMap.java:1142-1147 | the node actually unlinked has at most one child; dropping its entry leaves exactly the entries without `p`'s |
| TreeRemoval.SuccessorIsFirstOfRight | src/myutil/MyTreeMap.java:1142-1143 | the successor of a node with two children holds the first entry of its right subtree |
| TreeRemoval.SuccessorSwap | src/myutil/MyTreeMap.java:1142-1147 | after the successor copy, removing the successor's entry is removing `p`'s |
| TreeRemoval.UnlinkEntries | src/myutil/MyTreeMap.java:1149-1182 | splicing out a node with at most one child removes exactly its entry from the in-order reading |
| TreeRemoval.UnlinkKeepsRules | src/myutil/MyTreeMap.java:1149-1182 | after the splice, a red node's removal keeps both rules, and a black node's leaves the fix-up's invariant at the replacement |
| TreeRemoval.DeleteEntry | src/myutil/MyTreeMap.java:1138-1183 | as written, `deleteEntry(p)` removes exactly `p`'s entry from the in-order reading |
| TreeRemoval.DeleteEntryCorrected | src/myutil/MyTreeMap.java:1138-1183 | with the corrected fix-up, exactly `p`'s entry is removed |
| TreeRemoval.DeleteEntryCorrectedKeepsRules | src/myutil/MyTreeMap.java:1138-1183 | the corrected deletion keeps rules 4 and 5, and keeps a red-black tree a red-black tree |
| TreeRemoval.DeleteEntryUnbalances | src/myutil/MyTreeMap.java:1163-1165 | deleting the black node 3 of the valid tree 2(1, 3(-, 4 red)) as written breaks rule 5; the corrected deletion does not |
| TreeBuild.ComputeRedLevelBounds | src/myutil/MyTreeMap.java:1361-1366 | `computeRedLevel(sz)`, the function `ComputeRedLevel`, is floor(log2(sz + 1)), the number of complete levels of a tree of `sz` nodes |
| TreeBuild.MaxLevelBounds | src/myutil/MyTreeMap.java:1312-1358 | the recursion reaches depth ceil(log2(n + 1)) over `n` entries |
| TreeBuild.BuildFromSortedEntries | src/myutil/MyTreeMap.java:1312-1358 | as written (`BuildFromSorted`), the tree built over `lo..hi` reads exactly those entries of the input in order |
| TreeBuild.BuildFromSortedCorrectedEntries | src/myutil/MyTreeMap.java:1312-1358 | with the level passed down (`BuildFromSortedCorrected`), the tree built over `lo..hi` still reads exactly those entries in order |
| TreeBuild.BuildTree | src/myutil/MyTreeMap.java:1294-1298 | as written, the built tree reads the input in order and has as many nodes as entries |
| TreeBuild.BuildTreeCorrected | src/myutil/MyTreeMap.java:1294-1298 | with the level passed down, the built tree reads the input in order and has as many nodes as entries |
| TreeBuild.BuildFromSortedAllBlack | src/myutil/MyTreeMap.java:1344-1346 | with `level` never changing, a start level other than the red level makes every node black |
| TreeBuild.BuildTreeAllBlack | src/myutil/MyTreeMap.java:1294-1298 | as written, every node of the built tree is black |
| TreeBuild.AllBlackBalancedIsPerfect | src/myutil/MyTreeMap.java:32-37 | an all-black tree obeying rule 5 holds one less than a power of two entries |
| TreeBuild.BuildTreeUnbalanced | src/myutil/MyTreeMap.java:1294-1358 | as written, the built tree breaks rule 5 for every size that is not one less than a power of two |
| TreeBuild.BuildTreeOfTwo | src/myutil/MyTreeMap.java:1294-1358 | two entries give a black root with one black child, breaking rule 5; the corrected build is a red-black tree |
| TreeBuild.BuildCorrectedRules | src/myutil/MyTreeMap.java:1312-1358 | with the level passed down, the tree over `n` entries from `level` obeys rules 4 and 5, with `redLevel - level` blacks on every path |
| TreeBuild.BuildTreeCorrectedIsRedBlack | src/myutil/MyTreeMap.java:1294-1298 | the corrected build yields a red-black tree |
| TreeMapModel.Empty | src/myutil/MyTreeMap.java:57-63 | a new map has no entries, size 0 and modCount 0 |
| TreeMapModel.EmptyValid | src/myutil/MyTreeMap.java:57-63 | a new map satisfies the map invariant and maps no key |
| TreeMapModel.Get | src/myutil/MyTreeMap.java:103-106 | `get` returns what the in-order entries map the key to, null when absent |
| TreeMapModel.ContainsKey | src/myutil/MyTreeMap.java:87-89 | true exactly when some entry has the key |
| TreeMapModel.ScanValues | src/myutil/MyTreeMap.java:93-98 | the successor loop finds the value exactly when an entry at or after the start holds it |
| TreeMapModel.ContainsValueFrom | src/myutil/MyTreeMap.java:91-100 | from a null first entry the answer is false; otherwise it is whether an entry from there on holds the value |
| TreeMapModel.ContainsValue | src/myutil/MyTreeMap.java:91-100 | with the corrected `getFirstEntry`, true exactly when some entry holds the value |
| TreeMapModel.ContainsValueAsWritten | src/myutil/MyTreeMap.java:91-100 | as written, `containsValue` is false for every value |
| TreeMapModel.ContainsValueAsWrittenMisses | src/myutil/MyTreeMap.java:91-100 | the map `1 -> 7` holds 7, yet `containsValue(7)` as written is false |
| TreeMapModel.FirstEntry | src/myutil/MyTreeMap.java:456-458 | the entry with the least key, null exactly for an empty map |
| TreeMapModel.LastEntry | src/myutil/MyTreeMap.java:461-463 | the entry with the greatest key, null exactly for an empty map |
| TreeMapModel.FirstKey | src/myutil/MyTreeMap.java:112-114 | the least key, or `NoSuchElementException` exactly for an empty map |
| TreeMapModel.LastKey | src/myutil/MyTreeMap.java:116-118 | the greatest key, or `NoSuchElementException` exactly for an empty map |
| TreeMapModel.FirstKeyLeast | src/myutil/MyTreeMap.java:112-118 | the first key is at most, and the last key at least, every key of the map |
| TreeMapModel.SetValueKeeps | src/myutil/MyTreeMap.java:897-901 | setting a node's value (`SetValue`) replaces exactly its entry, keeps key order and colour rules, and leaves the tree's shape, keys and colours as they were |
| TreeMapModel.Replace | src/myutil/MyTreeMap.java:596-604 | `replace(key, value)` returns the previous value; only a present key gets the new value; every other key is unchanged; modCount is untouched; the tree keeps its shape, keys and colours |
| TreeMapModel.ReplaceIfEquals | src/myutil/MyTreeMap.java:586-593 | true exactly when the key holds a value equal to `oldValue`; then only that key gets `newValue`, otherwise nothing changes; the shape, keys and colours stay |
| TreeMapModel.InsertAtKeeps | src/myutil/MyTreeMap.java:394-399 | a new node linked where the search for its key ended lands between the smaller and larger keys, and, with the corrected `fixAfterInsertion`, all rules hold afterwards (`InsertAt` is the link-and-fix-up step) |
| TreeMapModel.Put | src/myutil/MyTreeMap.java:341-404 | `put` keeps the map invariant and returns the previous value; a new key raises size and modCount by one; a present key leaves both, and the tree keeps its links, keys and colours, only the value changing |
| TreeMapModel.PutUpdates | src/myutil/MyTreeMap.java:341-404 | after `put(key, value)` the key maps to `value` and every other key to what it mapped to before |
| TreeMapModel.DeleteAtKeeps | src/myutil/MyTreeMap.java:1138-1183 | deleting a node (`DeleteAt`) removes exactly its entry and, with the corrected fix-up, keeps the map invariant |
| TreeMapModel.WithoutLookup | src/myutil/MyTreeMap.java:408-416 | without one entry of a sorted sequence its key is unmapped and no other key changes |
| TreeMapModel.Remove | src/myutil/MyTreeMap.java:408-416 | `remove` returns the previous value; an absent key changes nothing; a present key drops size by one, raises modCount, and unmaps only that key |
| TreeMapModel.RemoveKeys | src/myutil/MyTreeMap.java:408-416 | the in-order entries after `remove(key)` are the old ones with the entry for `key` taken out |
| TreeMapModel.PollFirstEntry | src/myutil/MyTreeMap.java:466-474 | returns the first entry and deletes it: the remaining entries are the rest in order; an empty map is unchanged |
| TreeMapModel.PollLastEntry | src/myutil/MyTreeMap.java:476-484 | returns the last entry and deletes it; an empty map is unchanged; the map invariant is kept with the corrected fix-up |
| TreeMapModel.Clear | src/myutil/MyTreeMap.java:418-422 | no entries, size 0, one more modification |
| TreeMapModel.FromSorted | src/myutil/MyTreeMap.java:72-81 | a map built from a sorted source satisfies the invariant and holds exactly the source's entries in order |
| TreeMapModel.PutEach | src/myutil/MyAbstractMap.java:122-126 | putting entries one by one keeps the map invariant, each put using the corrected fix-up |
| TreeMapModel.PutEachUpdates | src/myutil/MyAbstractMap.java:122-126 | after putting every entry, a key of the source maps to its last value there; other keys keep their values |
| TreeMapModel.PutAll | src/myutil/MyTreeMap.java:120-141 | `putAll` keeps the map invariant, through `buildFromSorted` or through `put` of each entry |
| TreeMapModel.SortedLookupLast | src/myutil/MyTreeMap.java:120-141 | in a sorted source the last and the first value for a key agree |
| TreeMapModel.PutAllUpdates | src/myutil/MyTreeMap.java:120-141 | after `putAll` every key of the source maps to its value there and every other key keeps its value, whichever path ran |
| HashBits.Spread | src/myutil/MyHashMap.java:92 | `h ^ (h >>> 16)` keeps the high 16 bits and XORs them into the low 16 |
| HashBits.Hash | src/myutil/MyHashMap.java:89-93 | `hash(null)` is 0; otherwise the high half of `hashCode` is kept and the low half is the XOR of both halves |
| HashBits.SpreadInvolution | src/myutil/MyHashMap.java:89-93 | spreading twice gives the hash code back |
| HashBits.SpreadInjective | src/myutil/MyHashMap.java:89-93 | different hash codes give different hashes |
| HashBits.SmearBelow | src/myutil/MyHashMap.java:97-103 | below 2^30 the smear is one less than a power of two, at least the input, with the same top bit |
| HashBits.SmearHigh | src/myutil/MyHashMap.java:97-103 | from 2^30 up, the smear is all ones below the sign, or all 32 ones for a negative input |
| HashBits.TableSizeFor | src/myutil/MyHashMap.java:96-106 | 1 for 0 and for negatives other than `MIN_VALUE`; `MAXIMUM_CAPACITY` above it and for `MIN_VALUE`, whose `cap - 1` wraps; always a power of two at most 2^30 |
| HashBits.TableSizeForLeastPowerOfTwo | src/myutil/MyHashMap.java:96-106 | for 1 to 2^30, `tableSizeFor` is the least power of two at least the capacity |
| HashMapModel.SetValue | src/myutil/MyHashMap.java:63-67 | the node keeps its hash and key, takes the new value, and returns the old one |
| HashMapModel.SetValueUndo | src/myutil/MyHashMap.java:63-67 | setting back the returned value restores the node |
| HashMapModel.NewHashMap | src/myutil/MyHashMap.java:123-136 | throws exactly for a negative capacity or a non-positive load factor; otherwise no table, size 0, the load factor kept, and a threshold that is the least power of two at least the capacity, capped at 2^30 |
| HashMapModel.NewHashMapWithCapacity | src/myutil/MyHashMap.java:138-140 | throws exactly for a negative capacity; uses the default load factor |
| HashMapModel.NewDefaultHashMap | src/myutil/MyHashMap.java:142-144 | no table, threshold 0, the default load factor |
| HashMapModel.Index | src/myutil/MyHashMap.java:181 | `hash & (n - 1)` lies in `[0, n)` |
| HashMapModel.IndexIsRemainder | src/myutil/MyHashMap.java:181 | for a table of length 2^k the bucket is the hash modulo the length |
| HashMapModel.Find | src/myutil/MyHashMap.java:190-212 | the head test plus the chain loop find the first node holding the key, or none exactly when no node does |
| HashMapModel.CountUpdate | src/myutil/MyHashMap.java:225 | replacing one bucket changes the node count by the change in its length |
| HashMapModel.PutVal | src/myutil/MyHashMap.java:172-232 | as written: NPE exactly when the table is missing or empty; an absent key adds a node and returns null; a replaceable value is swapped and the old one returned; a blocked `onlyIfAbsent` counts a node and returns null |
| HashMapModel.PutValCorrected | src/myutil/MyHashMap.java:172-232 | the corrected `putVal` throws exactly as written does |
| HashMapModel.FindAppend | src/myutil/MyHashMap.java:198-207 | appending a node at a chain's tail leaves the search for every other key unchanged |
| HashMapModel.SetValueInBucket | src/myutil/MyHashMap.java:215-220 | a new value for a node keeps the table well formed and changes what the map holds for that key only |
| HashMapModel.AppendToBucket | src/myutil/MyHashMap.java:198-207 | appending a node for a missing key keeps the table well formed, one node more, and adds exactly that key |
| HashMapModel.PutValCorrectedUpdates | src/myutil/MyHashMap.java:172-232 | the corrected `putVal` keeps the table well formed with `size` counting nodes, returns the previous value, and changes the map exactly at the key put |
| HashMapModel.PutValOvercounts | src/myutil/MyHashMap.java:215-226 | as written, a blocked `onlyIfAbsent` adds no node but raises `size`, so `size` stops counting the nodes |
| HashMapModel.PutValOvercountsExample | src/myutil/MyHashMap.java:215-226 | one bucket `1 -> 10`, then `putVal(0, 1, 20, true, true)`: size 2, one node, null returned; the corrected version returns 10 and changes nothing |
| MapDefaults.Get | src/myutil/MyMap.java:25 | a non-null result is the value stored under a present key; an absent key gives null |
| MapDefaults.Put | src/myutil/MyMap.java:31 | the key maps to the new value and every other key is unchanged; the previous `get` is returned |
| MapDefaults.Remove | src/myutil/MyMap.java:33 | the key is gone and every other key is unchanged; the previous `get` is returned |
| MapDefaults.GetOrDefault | src/myutil/MyMap.java:93-97 | a present key gives its stored value, even null; only an absent key gives the default |
| MapDefaults.PutIfAbsent | src/myutil/MyMap.java:139-145 | a non-null current value leaves the map and is returned; otherwise the value is put and null returned |
| MapDefaults.RemoveIfEquals | src/myutil/MyMap.java:147-154 | true exactly when the key is present with an equal value, and then only that key is removed; otherwise no change |
| MapDefaults.ReplaceIfEquals | src/myutil/MyMap.java:158-165 | true exactly when the key is present with a value equal to `oldValue`, and then only that key gets `newValue` |
| MapDefaults.Replace | src/myutil/MyMap.java:167-173 | a present key gets the value and its old value is returned; an absent key is never inserted |
| MapDefaults.ComputeIfAbsent | src/myutil/MyMap.java:175-186 | NPE exactly for a null function; the function runs only when `get` is null; a non-null result is stored and returned; a null result changes nothing |
| MapDefaults.ComputeIfPresent | src/myutil/MyMap.java:188-205 | NPE exactly for a null function; runs only on a non-null value; a non-null result is stored; a null result removes the key |
| MapDefaults.Compute | src/myutil/MyMap.java:207-224 | NPE exactly for a null function; the result is returned; null removes the key, non-null is stored |
| MapDefaults.Merge | src/myutil/MyMap.java:226-238 | NPE exactly for a null function or value; a null or absent old value takes `value`; else the merged result; a null result removes the key |
| MapDefaults.PutIfAbsentIdempotent | src/myutil/MyMap.java:139-145 | a second `putIfAbsent` of a key given a non-null value changes nothing |
| MapDefaults.ComputeIfAbsentIsPutIfAbsent | src/myutil/MyMap.java:175-186 | with a constant function, `computeIfAbsent` leaves the map `putIfAbsent` leaves |
| MapDefaults.ComputeAgreesWhenPresent | src/myutil/MyMap.java:188-224 | on a key holding a non-null value, `compute` and `computeIfPresent` agree for matching functions |
| MapDefaults.MergeAbsentIsPut | src/myutil/MyMap.java:226-238 | merging into a key holding nothing is a `put` of the value |
| MapDefaults.RemoveAfterPut | src/myutil/MyMap.java:147-154 | `remove(key, value)` right after `put(key, value)` removes the key |
| MapDefaults.ReplaceKeepsKeys | src/myutil/MyMap.java:158-173 | neither `replace` form adds or drops a key |
| IntegerBits.HighestOneBitIsTop | src/mylang/MyInteger.java:190-199 | `highestOneBit` (the function `HighestOneBit`): `highestOneBit(0)` is 0; otherwise it is a single bit, set in `i`, with nothing of `i` above it |
| IntegerBits.LowestOneBit | src/mylang/MyInteger.java:202-205 | `i & -i` is 0 exactly for 0; otherwise a single bit set in `i` with no bit of `i` below it |
| IntegerBits.NumberOfLeadingZeros | src/mylang/MyInteger.java:208-235 | 32 exactly for 0; otherwise the number of zero bits above the highest set bit |
| IntegerBits.NumberOfTrailingZeros | src/mylang/MyInteger.java:238-266 | 32 exactly for 0; otherwise the number of zero bits below the lowest set bit |
| IntegerBits.HighestOneBitLeadingZeros | src/mylang/MyInteger.java:190-235 | the highest one bit is the sign bit shifted right by the leading-zero count |
| IntegerBits.LowestOneBitTrailingZeros | src/mylang/MyInteger.java:202-266 | the lowest one bit is 1 shifted left by the trailing-zero count |
| IntegerBits.BitCount | src/mylang/MyInteger.java:269-277 | at most 32, and 0 exactly for 0 |
| IntegerBits.BitCountOne | src/mylang/MyInteger.java:269-277 | the count is 1 exactly for a single set bit |
| IntegerBits.RotateInverse | src/mylang/MyInteger.java:280-286 | `rotateRight` (`RotateRight`) by the distance just used by `rotateLeft` (`RotateLeft`) restores the value, for every distance |
| IntegerBits.RotateByMultipleOf32 | src/mylang/MyInteger.java:280-286 | a distance that is a multiple of 32 leaves the value alone |
| IntegerBits.RotateLeftIsRightNegated | src/mylang/MyInteger.java:280-286 | a left rotation is a right rotation by the negated distance |
| IntegerBits.ReverseSingleBit | src/mylang/MyInteger.java:306-313 | `reverse` moves bit `j` to bit `31 - j` |
| IntegerBits.ReverseOr | src/mylang/MyInteger.java:306-313 | `reverse` acts on each bit separately |
| IntegerBits.ReverseInvolution | src/mylang/MyInteger.java:306-313 | `reverse` (the function `Reverse`) applied twice gives the value back |
| IntegerBits.MyReverseStep | src/mylang/MyInteger.java:293-301 | one pass of the loop adds the mirror of bit `j` to the total: the total is the reverse of the low `j + 1` bits |
| IntegerBits.MyReverse | src/mylang/MyInteger.java:289-304 | the bit-at-a-time `myReverse` computes the same as `reverse` |
| IntegerBits.Signum | src/mylang/MyInteger.java:316-319 | 0 for 0, 1 for a positive pattern, -1 for a negative one |
| IntegerBits.SignumIsSign | src/mylang/MyInteger.java:316-319 | the signed value of `signum(i)` is the sign of `i`'s value |
| IntegerBits.ReverseBytesMovesBytes | src/mylang/MyInteger.java:322-324 | `reverseBytes` (the function `ReverseBytes`): byte `k` of the result is byte `3 - k` of the input |
| IntegerBits.ReverseBytesInvolution | src/mylang/MyInteger.java:322-324 | reversing the bytes twice gives the value back |
| IntegerDecimal.DigitValueOfDigit | src/mylang/MyInteger.java:21-22 | reading back a digit of `digits` gives its value |
| IntegerDecimal.ValueOfNumeral | src/mylang/MyInteger.java:85-94 | the numeral of a number in any radix from 2 to 36 reads back as the number |
| IntegerDecimal.NumeralNoLeadingZero | src/mylang/MyInteger.java:107-115 | a numeral is non-empty, starts with '0' only for zero, and never with '-' |
| IntegerDecimal.DecimalRoundTrip | src/mylang/MyInteger.java:107-115 | the decimal rendering of any integer parses back to it |
| IntegerDecimal.NumeralLength | src/mylang/MyInteger.java:178-187 | a decimal numeral has at most `k` digits exactly when the number is below 10^k |
| IntegerDecimal.SizeTableEntry | src/mylang/MyInteger.java:178 | the table's entries are 10^(j+1) - 1, and the last one, `Integer.MAX_VALUE`, is below 10^10 |
| IntegerDecimal.StringSize | src/mylang/MyInteger.java:181-187 | for a non-negative `x`, the number of its decimal digits; a negative `x` gives 1 |
| IntegerDecimal.DivideByTen | src/mylang/MyInteger.java:165 | `(i * 52429) >>> 19` is `i / 10` for `0 <= i < 65536`, overflow included |
| IntegerDecimal.TwoDigits | src/mylang/MyInteger.java:156-158 | the shift-and-add step gives the quotient and remainder by 100 |
| IntegerDecimal.OneDigit | src/mylang/MyInteger.java:165-166 | the multiply-and-shift step gives the quotient and remainder by 10 |
| IntegerDecimal.NumeralLastTwo | src/mylang/MyInteger.java:156-161 | the last two decimal digits are the `DigitTens` and `DigitOnes` entries of the value mod 100 |
| IntegerDecimal.WriteTwoDigits | src/mylang/MyInteger.java:155-162 | one pass of the first loop writes the last two digits before `charPos` and leaves the rest of the buffer |
| IntegerDecimal.WriteOneDigit | src/mylang/MyInteger.java:164-170 | one pass of the second loop writes the last digit before `charPos` and leaves the rest |
| IntegerDecimal.WriteDigitPairs | src/mylang/MyInteger.java:155-162 | the first loop leaves a value below 65536, and the digits written plus its numeral make up the starting numeral |
| IntegerDecimal.WriteDigits | src/mylang/MyInteger.java:164-170 | the second loop writes the whole numeral ending before `charPos` and nothing else |
| IntegerDecimal.GetChars | src/mylang/MyInteger.java:143-175 | the decimal rendering of `i`, sign included, ends just before `index`, and the rest of the buffer is untouched |
| IntegerDecimal.MinValueDecimal | src/mylang/MyInteger.java:108-110 | the constant returned for `MIN_VALUE` is its decimal rendering |
| IntegerDecimal.ToString | src/mylang/MyInteger.java:107-115 | `toString(i)` is the decimal rendering of `i` for every `int`, `MIN_VALUE` included |
| IntegerDecimal.FormatDigit | src/mylang/MyInteger.java:89-92 | one pass writes the last digit in radix 2^shift and divides the value by the radix |
| IntegerDecimal.Radix | src/mylang/MyInteger.java:87 | `1 << shift` for shifts 1 to 5 is a radix from 2 to 32 |
| IntegerDecimal.FormatUnsignedInt | src/mylang/MyInteger.java:85-94 | the digits in radix 2^shift end at `offset + len`; if they fit, the returned position is `len` less their count; otherwise 0, with the low `len` digits written; nothing else changes |
| JavaArrays.NewArray | src/mylang/MyAbstractStringBuilder.java:20-22 | `new char[n]` is `n` NULs, or `NegativeArraySizeException` exactly for a negative `n` |
| JavaArrays.CopyOf | src/mylang/MyAbstractStringBuilder.java:56 | a new array of the requested length: the original's prefix, then NULs; a negative length throws |
| JavaArrays.CopyOfRange | src/mylang/MyString.java:41 | the chars from `from` on, NUL past the end; illegal argument for `from > to`, index error for `from` outside |
| JavaArrays.ArrayCopy | src/mylang/MyAbstractStringBuilder.java:162 | the destination with exactly the range copied over it, reading the source as it was; out-of-range throws |
| JavaArrays.Fill | src/mylang/MyAbstractStringBuilder.java:73 | exactly `[from, to)` set to the char, the rest kept; bad ranges throw |
| StringBuilderModel.Length | src/mylang/MyAbstractStringBuilder.java:25-27 | the length is the number of chars held |
| StringBuilderModel.NewBuilder | src/mylang/MyAbstractStringBuilder.java:20-22 | empty with the requested capacity; a negative capacity throws |
| StringBuilderModel.NewCapacityCases | src/mylang/MyAbstractStringBuilder.java:45-57 | `newCapacity` (the function `NewCapacity`): without overflow the new capacity is max(2 * capacity + 2, min); on overflow a non-negative `min` gets `min` or `Integer.MAX_VALUE`; a negative `min` throws `OutOfMemoryError` |
| StringBuilderModel.GrownKeepsContent | src/mylang/MyAbstractStringBuilder.java:45-57 | growing keeps the content |
| StringBuilderModel.ExpandCapacity | src/mylang/MyAbstractStringBuilder.java:45-57 | throws only for a negative `min`; a `min` above the capacity gives a grown builder with the old chars first |
| StringBuilderModel.EnsureCapacityInternal | src/mylang/MyAbstractStringBuilder.java:39-42 | a minimum the array meets, by wrapped difference, changes nothing; a larger one grows; a far-negative one throws |
| StringBuilderModel.EnsureCapacity | src/mylang/MyAbstractStringBuilder.java:35-37 | a minimum at most the capacity, non-positive ones included, changes nothing; a larger one grows; the content stays and the capacity never shrinks |
| StringBuilderModel.TrimToSize | src/mylang/MyAbstractStringBuilder.java:60-64 | capacity becomes the count and the content stays |
| StringBuilderModel.SetLength | src/mylang/MyAbstractStringBuilder.java:67-76 | a negative length throws; otherwise the length is `n`, a shorter content is cut and a longer one NUL-padded, and the capacity never shrinks |
| StringBuilderModel.CharAt | src/mylang/MyAbstractStringBuilder.java:79-82 | the char at `index` of the content; throws exactly outside `[0, count)` |
| StringBuilderModel.SetCharAt | src/mylang/MyAbstractStringBuilder.java:109-114 | as written: succeeds exactly for `0 <= index <= count` inside the array; below the count exactly one char changes; at the count the content does not change |
| StringBuilderModel.SetCharAtPastContent | src/mylang/MyAbstractStringBuilder.java:110 | on an empty builder `setCharAt(0, 'x')` returns normally, yet the content stays empty and `charAt(0)` throws |
| StringBuilderModel.SetCharAtChecked | src/mylang/MyAbstractStringBuilder.java:109-114 | with the guard `index >= count`, defined exactly on `[0, count)`, where exactly the char at `index` changes |
| StringBuilderModel.CharAtAfterSetCharAt | src/mylang/MyAbstractStringBuilder.java:79-114 | after the checked `setCharAt(i, ch)`, `charAt(i)` gives `ch` and every other position is unchanged |
| StringBuilderModel.Store | src/mylang/MyAbstractStringBuilder.java:113 | an array store changes exactly that slot, and throws outside the array |
| StringBuilderModel.OverflowedMinimum | src/mylang/MyAbstractStringBuilder.java:121 | an overflowed `count + len` wraps to a negative minimum that never makes the array grow |
| StringBuilderModel.AppendNull | src/mylang/MyAbstractStringBuilder.java:139-149 | appends "null" when the count stays an `int`; throws otherwise |
| StringBuilderModel.Append | src/mylang/MyAbstractStringBuilder.java:116-125 | the content becomes the old content followed by the string, "null" for null; throws when the length overflows |
| StringBuilderModel.Delete | src/mylang/MyAbstractStringBuilder.java:156-166 | `end` clamped to the count; throws exactly for `start < 0` or `start` past the clamped end; otherwise exactly `[start, end)` is removed |
| StringBuilderModel.DeleteCharAt | src/mylang/MyAbstractStringBuilder.java:169-174 | throws exactly outside `[0, count)`; otherwise exactly the char at `index` is removed |
| StringBuilderModel.DeleteUndoesAppend | src/mylang/MyAbstractStringBuilder.java:116-166 | deleting what an append added restores the content |
| StringBuilderModel.SetLengthUndoesAppend | src/mylang/MyAbstractStringBuilder.java:67-125 | cutting the length back to the old count after an append restores the content |
| StringBuilderModel.DeleteCharAtIsDelete | src/mylang/MyAbstractStringBuilder.java:156-174 | `deleteCharAt(i)` and `delete(i, i + 1)` leave the same content |
| JavaString.NewString | src/mylang/MyString.java:18-20 | the string is empty with hash 0 |
| JavaString.FromString | src/mylang/MyString.java:22-25 | same chars and same cached hash as the original; a null original throws NPE |
| JavaString.FromChars | src/mylang/MyString.java:27-29 | exactly the array's chars, hash 0; a null array throws NPE |
| JavaString.FromRange | src/mylang/MyString.java:31-42 | a negative offset or count throws `StringIndexOutOfBoundsException`, even for a null array; then a null array throws NPE; an overrun throws; otherwise exactly `value[offset..offset + count]` |
| JavaString.WholeRangeIsCopy | src/mylang/MyString.java:27-42 | the range constructor over the whole array builds the same string as the array constructor |

## Left out

- I/O and serialization:
  - the stream-reading branch of `buildFromSorted`;
  - `writeObject`/`readObject`;
  - `MyStringBuffer`'s serialization and `toString` cache.
- The key-only branch of `buildFromSorted` (keys from the iterator with `defaultVal`). Only `addAllFromTreeSet` uses it; the entry-iterator branch is modelled.
- The navigable and sorted views, submaps, key and entry sets, iterators and spliterators of `MyTreeMap`. They are stubs returning null, or iteration machinery outside the tree.
- `clone` of `MyTreeMap`, which depends on the null `entrySet`.
- `forEach` and `replaceAll` of `MyTreeMap` and `MyMap`: `entrySet` iteration.
- The `comparingBy*` comparators of `MyMap.Entry`.
- TreeMapModel.PutAll: the source list `s` and the flag `sortedSource` are abstractions. In the source, the sorted branch tests `instanceof java.util.SortedMap` and then casts to `MySortedMap`, so no map of the repository reaches `buildFromSorted`. Both branches iterate `entrySet()`, which `MyTreeMap` and `MyHashMap` return as null. The model states what `putAll` does once a source supplies its entries.
- The interfaces `MyNavigableMap` and `MySortedMap` (their comments are the navigation contract the lemmas state), `MyAbstractMap` beyond its `putAll` loop, and `MyLinkedHashMap`.
- Comparator casts and `ClassCastException`. Keys are compared by one total order `cmp`, and a key's `hashCode` is an uninterpreted parameter.
- Null keys in the tree map, which Java rejects through the comparator.
- The public wrappers `lowerEntry`, `floorKey` and the like. They export what the `get*Entry` functions return.
- TreeMapModel.Put: the search and the new node use `Descend` and `InsertAt`. The comparator-versus-`Comparable` split and the null-key check of the source are covered by the single order `cmp`.
- TreeMapModel.FirstEntry, TreeMapModel.FirstKey, TreeMapModel.PollFirstEntry and TreeMapModel.ContainsValue: these follow the corrected `getFirstEntry`. As written they see an empty map (see "## Findings").
- TreeMapModel.Get, TreeMapModel.ContainsKey, TreeMapModel.Replace, TreeMapModel.ReplaceIfEquals, TreeMapModel.Remove: these search with the corrected `getEntryUsingComparator`, which is `TreeNavigation.GetEntry`. As written, a map built with a `Comparator` throws `NullPointerException` for an absent key whenever it is non-empty (see "## Findings"); the model returns null there, as the `Comparable` search does.
- TreeMapModel.Put, TreeMapModel.Remove, TreeMapModel.PollFirstEntry, TreeMapModel.PollLastEntry, TreeMapModel.InsertAtKeeps, TreeMapModel.DeleteAtKeeps, TreeMapModel.PutEach, TreeMapModel.FromSorted and TreeMapModel.PutAll: these use the corrected fix-ups and the corrected `buildFromSorted`, so that the map invariant holds. As written, an insertion can leave a red root (`TreeInsertion.FixAfterInsertionLeavesRedRoot`), and a deletion can break rule 5 (`TreeRemoval.DeleteEntryUnbalances`; `pollLastEntry` on the tree 2(1, 4(3 red, -)) is such a case). The as-written versions are `TreeInsertion.FixAfterInsertion`, `TreeRemoval.DeleteEntry` and `TreeBuild.BuildTree`.
- The `MyHashMap` stubs:
  - `resize()` returns null, so `PutVal` on an unallocated table is an NPE, and the resize after a new mapping is a no-op;
  - `treeifyBin` is a no-op;
  - `put`, `TreeNode`, the copy constructor and the `afterNode*` hooks are not modelled.
- `newNode`: inlined in `PutVal` as the node value `HNode(hash, key, value)`. The `next` link is the chain order of a bucket's sequence.
- The load factor's `Float.isNaN` test. The load factor is a `real`, and there is no NaN.
- `MyInteger.toString(int, radix)` for a radix in 2..36 other than 10 (radix 10 and radixes outside that range go to `toString(int)`, which is modelled). The digit loop never updates its argument. So for |i| > radix it stores the same digit at ever lower positions until `buf[charPos--]` throws `ArrayIndexOutOfBoundsException`. For |i| < radix the loop is skipped and the single store `digits[-i]` writes the right digit. At |i| = radix that store reads `digits[radix]`, a digit the radix does not have; for radix 36 this is past the end of the table. This operation is left out because, for every value but those below the radix, it throws or returns a wrong digit.
- `toUnsignedString0`, which returns null. Its digit loop `formatUnsignedInt` is modelled.
- The `Long`-, `Math`- and `Number`-based members of `MyInteger`: library calls, the plain `a + b` of `sum`, or stubs returning 0.
- IntegerBits.BitCount: the contract states the bounds, zero exactly for zero and (through `BitCountOne`) one exactly for a single bit. It does not state that the count equals the number of set bits for every pattern; that statement is too expensive for the bit-vector solver.
- IntegerBits.RotateLeft: no lemma says where each bit goes. The proved properties are the inverse, the multiple-of-32 and the negated-distance laws.
- IntegerDecimal.GetChars: requires `i != Integer.MIN_VALUE`, as every caller in the source guarantees. Negating `MIN_VALUE` overflows, and `toString` handles it by a constant.
- `MyAbstractStringBuilder` itself:
  - `reverse`: it never reverses the content. When a surrogate is present it only swaps each surrogate with a high surrogate right after it (`reverseAllVaildSurrogatePairs`);
  - `getChars` (it copies `srcEnd - srcEnd` = 0 chars);
  - `codePointAt`, which delegates to `Character`;
  - the no-argument constructor, whose array stays null.
- StringBuilderModel.Append: `append(StringBuffer)` has the same body as `append(String)` and is the same member. The `getChars` of the appended string is the copy `JavaArrays.ArrayCopy`.
- StringBuilderModel.AppendNull, StringBuilderModel.Append: on overflow the contract says only that the call throws, not which exception. The state after the throw is not kept.
- Every operation that throws: the model returns the exception kind and drops the object's state at the moment of the throw. Java may have changed fields before throwing, for example `modCount` in `deleteEntry`, which is never reached with bad input.
- The fail-fast `modCount` checks of iterators.

## Findings

| source | as written | input that shows it | evidently intended | confidence | as-written member | corrected member |
|---|---|---|---|---|---|---|
| src/myutil/MyTreeMap.java:926-934 | `while (p != null) p = p.left` runs past the leftmost node, so `getFirstEntry` returns null for every tree; `firstKey` throws, and `firstEntry`, `pollFirstEntry` and `containsValue` see nothing | the map `1 -> 7`: `containsValue(7)` is false | loop while `p.left != null` and return the leftmost node | not executed | TreeNavigation.GetFirstEntryMissesFirst | TreeNavigation.GetFirstEntryCorrected |
| src/myutil/MyTreeMap.java:175-195 | the search loop tests `root != null` instead of `p != null`, so a missing key in a non-empty map dereferences null | a comparator map holding `1`; `get(2)` throws `NullPointerException` | stop at a null link and return null, as `getEntry` does | not executed | TreeNavigation.GetEntryUsingComparator | TreeNavigation.GetEntry, TreeNavigation.GetEntryUsingComparatorCorrected |
| src/myutil/MyTreeMap.java:1077-1128 | `fixAfterInsertion` never blackens the root after the loop | insert 4 into the valid tree 2 (black) with red children 1 and 3: the root ends red | `root.color = BLACK` after the loop | not executed | TreeInsertion.FixAfterInsertionLeavesRedRoot | TreeInsertion.FixAfterInsertionCorrectedKeepsRedBlack |
| src/myutil/MyTreeMap.java:1186-1250 | `fixAfterDeletion` lacks the final `setColor(x, BLACK)`, so a red replacement of a deleted black node stays red | the tree 2(1, 3(-, 4)) with only 4 red; `remove(3)`: the two sides of 2 carry 1 and 0 black nodes | `setColor(x, BLACK)` after the loop | not executed | TreeRemoval.DeleteEntryUnbalances | TreeRemoval.DeleteEntryCorrectedKeepsRules |
| src/myutil/MyTreeMap.java:1312-1358 | the recursive calls pass `level` instead of `level + 1`, so `level == redLevel` (line 1344) never holds and every node is black | build from a sorted map of two entries: a black root with one black child, black heights 1 and 2 | pass `level + 1` so that the last, incomplete level is red | not executed | TreeBuild.BuildTreeOfTwo | TreeBuild.BuildTreeCorrectedIsRedBlack |
| src/myutil/MyHashMap.java:215-226 | when `onlyIfAbsent` blocks the update of a non-null value, control falls through to `++modCount; ++size` and returns null | one bucket holding `1 -> 10`; `putVal(0, 1, 20, true, true)`: size 2 with one node, null returned | return the current value and change nothing | not executed | HashMapModel.PutValOvercountsExample | HashMapModel.PutValCorrectedUpdates |
| src/mylang/MyAbstractStringBuilder.java:109-114 | the guard rejects only `index > count`, so `setCharAt(count, ch)` returns normally and writes a slot outside the content | an empty builder of capacity 16; `setCharAt(0, 'x')` returns, but `charAt(0)` still throws | reject `index >= count`, as `charAt` does | not executed | StringBuilderModel.SetCharAtPastContent | StringBuilderModel.SetCharAtChecked |
