# s21_containers in Dafny

A model of the s21 container library: the `AVLTree<Key, Value>` self-balancing search tree and the
`set`, `map` and `multiset` facades built on it, the sentinel-ring doubly linked `list`, the growable
`vector` and its `stack` and `queue` adapters, and the fixed-size `array<T, N>`.

Element, key and mapped types are instantiated with `int` (sets and multisets store the tree value
`()`; map values are `int` with default value `0`). Each container keeps the form it has in the
library:

- **Tree** (`avl_nodes.dfy`, `avl_balance.dfy`, `avl_iterator.dfy`, `avl_tree.dfy`). The node
  helpers that take and return subtree roots (`height`, `balance_factor`, `rotate_left`,
  `rotate_right`, `balance`, `insert`, `mul_insert`, `find_min`, `erase`, `clone`, `size`) are pure
  functions on a `Tree` datatype whose nodes cache their height (a new node has height 1, an absent
  node counts 0). `Elements(t)` is the in-order sequence of `(key, value)` pairs. `Avl` says every
  cached height is right and every balance factor lies in -1..1. `Ascending`/`StrictlyAscending`
  say the keys are in order (multi-key or unique-key tree). The class `AVLTree` holds the `root`
  field that every public modifier replaces. An iterator is `End` (the null `current`) or `At(path)`,
  the left/right path from the root to its node: the parent pointers that drive `++` are the
  prefixes of that path, and `++` is "climb until arriving from a left child". Its position is the
  in-order index of its node.
- **Facades** (`sets.dfy`, `maps.dfy`, `multisets.dfy`). Classes holding a `const tree: AVLTree`,
  whose methods forward to it in the mode the facade fixes (`merge(..., false)` for set and map,
  `merge(..., true)` for multiset). `Contents()` is the key sequence (set, multiset) or pair
  sequence (map) in iteration order.
- **List** (`list.dfy`, `list_seqs.dfy`). Heap `Node` objects with `next`, `prev` and `data`, joined
  in a ring through a sentinel `tail` node, as in the library. The ghost sequence `nodes` lists the
  ring from `begin()` to the sentinel, `Contents` lists the data, and `Valid()` ties `list_sz`, the
  ring links and the footprint `Repr` together. `links_insert`/`links_erase` are the node methods
  `Node.LinksInsert`/`Node.LinksErase`, and the list operations perform exactly that pointer
  surgery. `merge`, `unique`, `reverse` and `sort` are specified by sequence functions (`MergeSeq`,
  `Dedup`, `Rev`, sorted permutation) whose properties are proved in `list_seqs.dfy`.
- **Vector, stack, queue** (`vector.dfy`, `stack.dfy`, `queue.dfy`). `Vector` has the fields
  `size`, `capacity` and `arr` (an `array?<int>` that is null when nothing is allocated) and keeps
  `size <= capacity`. `Stack` and `Queue` hold one `const data: Vector`.
- **Array** (`array.dfy`). `FixedArray` holds `n` (the template parameter `N`) and a buffer
  `elements` of exactly `n` slots.

Operations that throw `std::out_of_range` return `Result.OutOfRange` instead (`common.dfy`).
Variadic `insert_many*` take a sequence of arguments.

## Model

| member | source | states |
|---|---|---|
| AvlNodes.AvlHeight | src/s21_containers/s21_avltree.h:20-25 | in a well-formed AVL tree the height is 0 exactly for the empty tree and never negative |
| AvlNodes.AvlBalanceFactor | src/s21_containers/s21_avltree.h:46-47 | every node a path reaches in a well-formed AVL tree roots an AVL subtree whose balance factor is in -1..1 |
| AvlNodes.Size | src/s21_containers/s21_avltree.h:58 | the recursive node count equals the number of elements in-order iteration yields |
| AvlNodes.Clone | src/s21_containers/s21_avltree.h:56 | a clone has the same shape, keys, values and heights as the original |
| AvlBalance.RotateRight | src/s21_containers/s21_avltree.h:48 | a right rotation returns a new subtree root with the same in-order elements |
| AvlBalance.RotateLeft | src/s21_containers/s21_avltree.h:49 | a left rotation returns a new subtree root with the same in-order elements |
| AvlBalance.Balance | src/s21_containers/s21_avltree.h:50 | rebalancing preserves the in-order elements |
| AvlBalance.BalanceAvl | src/s21_containers/s21_avltree.h:50 | rebalancing a node whose children are AVL and differ in height by at most 2 yields an AVL tree, whose height is one more than the taller child when no rotation was needed |
| AvlBalance.LeftLeftAvl | src/s21_containers/s21_avltree.h:48 | the single right rotation repairs a left-left imbalance |
| AvlBalance.LeftRightAvl | src/s21_containers/s21_avltree.h:48-49 | the left-then-right double rotation repairs a left-right imbalance |
| AvlBalance.RightRightAvl | src/s21_containers/s21_avltree.h:49 | the single left rotation repairs a right-right imbalance |
| AvlBalance.RightLeftAvl | src/s21_containers/s21_avltree.h:48-49 | the right-then-left double rotation repairs a right-left imbalance |
| AvlBalance.InsertAvl | src/s21_containers/s21_avltree.h:51-52 | unique-mode insertion keeps the tree AVL and grows its height by at most one |
| AvlBalance.InsertElements | src/s21_containers/s21_avltree.h:51-52 | unique-mode insertion leaves the elements unchanged when the key is present, and otherwise puts the new pair before the first larger key |
| AvlBalance.InsertKeepsStrict | src/s21_containers/s21_avltree.h:51-52 | unique-mode insertion keeps the keys strictly ascending |
| AvlBalance.InsertKeepsAscending | src/s21_containers/s21_avltree.h:51-52 | unique-mode insertion keeps the keys non-decreasing |
| AvlBalance.MulInsertAvl | src/s21_containers/s21_avltree.h:145-146 | duplicate-permitting insertion keeps the tree AVL and grows its height by at most one |
| AvlBalance.MulInsertElements | src/s21_containers/s21_avltree.h:145-146 | duplicate-permitting insertion always adds the pair, after every key not greater than it |
| AvlBalance.MulInsertKeepsAscending | src/s21_containers/s21_avltree.h:145-146 | duplicate-permitting insertion keeps the keys non-decreasing |
| AvlBalance.FindMin | src/s21_containers/s21_avltree.h:53 | the minimum of a non-empty subtree is its first in-order element |
| AvlBalance.RemoveMinElements | src/s21_containers/s21_avltree.h:53-54 | removing the leftmost node drops exactly the first in-order element |
| AvlBalance.RemoveMinAvl | src/s21_containers/s21_avltree.h:53-54 | removing the leftmost node keeps the tree AVL and lowers the height by at most one |
| AvlBalance.EraseAvl | src/s21_containers/s21_avltree.h:54 | erasing a key keeps the tree AVL and lowers the height by at most one |
| AvlBalance.EraseElements | src/s21_containers/s21_avltree.h:54 | erasing a key absent from the tree changes nothing; otherwise exactly the element at the node the key search reaches is removed |
| AvlBalance.EraseTwoChildren | src/s21_containers/s21_avltree.h:53-54 | erasing a node with two children (its in-order successor takes its place) leaves exactly the elements of both subtrees |
| AvlBalance.EraseKeepsOrder | src/s21_containers/s21_avltree.h:54 | erasure keeps non-decreasing keys non-decreasing and strictly ascending keys strictly ascending |
| AvlNodes.FindPath | src/s21_containers/s21_avltree.h:141 | a key search that succeeds ends at a node holding the key |
| AvlNodes.FindPathComplete | src/s21_containers/s21_avltree.h:141-142 | in an ordered tree the key search fails exactly when no element has the key |
| AvlNodes.LowerIndexSplits | src/s21_containersplus/s21_multiset.h:48 | the lower-bound position splits the elements into keys below k and keys at least k |
| AvlNodes.UpperIndexSplits | src/s21_containersplus/s21_multiset.h:49 | the upper-bound position splits the elements into keys at most k and keys above k |
| AvlNodes.LowerBelowUpper | src/s21_containersplus/s21_multiset.h:50 | the lower-bound position never lies after the upper-bound position |
| AvlNodes.UpdateAtSpec | src/s21_containers/s21_map.h:37 | writing a value through a node changes only that element's value; heights and balance are unchanged |
| AvlNodes.ElementAt | src/s21_containers/s21_avltree.h:90 | the node a path names holds the element at that path's in-order index |
| AvlNodes.StrictRemoveAtMembers | src/s21_containers/s21_avltree.h:136 | in a unique-key sequence, removing one element removes exactly the pairs with its key |
| AvlIterator.Deref | src/s21_containers/s21_avltree.h:90 | `*it` is the element at the iterator's in-order position |
| AvlIterator.PositionInjective | src/s21_containers/s21_avltree.h:89 | two node iterators at the same position name the same node, so equality is node identity |
| AvlIterator.Begin | src/s21_containers/s21_avltree.h:122 | begin() sits at position 0 (it is end() for the empty tree) |
| AvlIterator.LeftmostFirst | src/s21_containers/s21_avltree.h:122 | the leftmost node holds the first in-order element |
| AvlIterator.AscendSpec | src/s21_containers/s21_avltree.h:78 | climbing until arriving from a left child reaches the node just after the whole subtree, or end() when that subtree ends the sequence |
| AvlIterator.NextAdvances | src/s21_containers/s21_avltree.h:78 | `++` moves a node iterator exactly one in-order position forward |
| AvlIterator.WalkFromBegin | src/s21_containers/s21_avltree.h:76-92 | walking k steps from begin() reaches element k, and reaches end() exactly after every element |
| AvlIterator.IteratorAt | src/s21_containers/s21_avltree.h:76-77 | every position from 0 to size has an iterator |
| AvlIterator.LowerBoundPosition | src/s21_containersplus/s21_multiset.h:48 | the lower-bound descent yields the iterator at the lower-bound position |
| AvlIterator.UpperBoundPosition | src/s21_containersplus/s21_multiset.h:49 | the upper-bound descent yields the iterator at the upper-bound position |
| AvlTree.AVLTree.constructor | src/s21_containers/s21_avltree.h:109 | a new tree is empty |
| AvlTree.AVLTree.Copy | src/s21_containers/s21_avltree.h:111 | a copy holds the same tree |
| AvlTree.AVLTree.Move | src/s21_containers/s21_avltree.h:112 | a move takes the other tree and leaves it empty |
| AvlTree.AVLTree.CopyAssign | src/s21_containers/s21_avltree.h:118 | copy assignment makes this tree equal to the other |
| AvlTree.AVLTree.MoveAssign | src/s21_containers/s21_avltree.h:119 | assignment from a different tree takes its nodes and empties it; self-assignment changes nothing |
| AvlTree.AVLTree.Begin | src/s21_containers/s21_avltree.h:122 | begin() is at position 0 |
| AvlTree.AVLTree.End | src/s21_containers/s21_avltree.h:123 | end() is at position size() |
| AvlTree.AVLTree.Empty | src/s21_containers/s21_avltree.h:128 | empty() holds exactly when there are no elements |
| AvlTree.AVLTree.Size | src/s21_containers/s21_avltree.h:129 | size() is the number of elements |
| AvlTree.AVLTree.Clear | src/s21_containers/s21_avltree.h:133 | clear() leaves the empty tree |
| AvlTree.AVLTree.Insert | src/s21_containers/s21_avltree.h:134-135 | unique mode: an existing key gives (iterator to it, false) with the tree unchanged; a new key, or any key in multi mode, gives (iterator to the new pair, true) with the pair inserted in key order; the tree stays AVL and ordered |
| AvlTree.AVLTree.Erase | src/s21_containers/s21_avltree.h:136 | exactly one element with the key at pos is removed; in a unique-key tree it is the element at pos; the tree stays AVL and ordered |
| AvlTree.AVLTree.SetValue | src/s21_containers/s21_avltree.h:90 | writing through `*it` changes only that element's value |
| AvlTree.AVLTree.Swap | src/s21_containers/s21_avltree.h:137 | the two trees exchange their contents |
| AvlTree.AVLTree.Merge | src/s21_containers/s21_avltree.h:138 | multi mode moves every element over (contents add up as multisets) and empties other; unique mode moves exactly the pairs whose key is new here and leaves the rest, in order, in other |
| AvlTree.AVLTree.Find | src/s21_containers/s21_avltree.h:141 | find(k) names an element with key k, or is end() exactly when k is absent |
| AvlTree.AVLTree.Contains | src/s21_containers/s21_avltree.h:142 | contains(k) holds exactly when some element has key k |
| AvlTree.UniqueMergeDone | src/s21_containers/s21_avltree.h:138 | after offering every element of other in unique mode, this tree holds its old pairs plus the new-key pairs, and other holds exactly its pairs with a key already here |
| AvlTree.MergeUniqueNext | src/s21_containers/s21_avltree.h:138 | offering one more element in unique mode keeps the merge invariant |
| AvlTree.MergeMultiInserted | src/s21_containers/s21_avltree.h:138 | in multi mode each moved element adds exactly one occurrence here |
| Sets.Set.Get | src/s21_containers/s21_set.h:35 | `*it` is the key at the iterator's position |
| Sets.Set.FromSeq | src/s21_containers/s21_set.h:56 | built from a list with repeats, the set holds each listed key once, in ascending order |
| Sets.Set.Copy | src/s21_containers/s21_set.h:57 | a copy has equal contents |
| Sets.Set.Move | src/s21_containers/s21_set.h:58 | a move takes the contents and leaves the source empty |
| Sets.Set.MoveAssign | src/s21_containers/s21_set.h:64 | move assignment takes the contents and empties the source |
| Sets.Set.Begin | src/s21_containers/s21_set.h:67 | begin() is at position 0 |
| Sets.Set.End | src/s21_containers/s21_set.h:68 | end() is at position size() |
| Sets.Set.Empty | src/s21_containers/s21_set.h:73 | empty() iff there are no keys |
| Sets.Set.Size | src/s21_containers/s21_set.h:74 | size() is the number of keys |
| Sets.Set.Clear | src/s21_containers/s21_set.h:78 | clear() leaves size 0 |
| Sets.Set.Insert | src/s21_containers/s21_set.h:79 | inserted is true exactly for a new key; the key set grows by that key only; size grows by one exactly when inserted; the iterator names the key |
| Sets.Set.Erase | src/s21_containers/s21_set.h:80 | only `*pos` is removed; every other key stays |
| Sets.Set.Swap | src/s21_containers/s21_set.h:81 | the two sets exchange contents |
| Sets.Set.Merge | src/s21_containers/s21_set.h:82 | this set gets the union; other keeps exactly the keys both sets held |
| Sets.Set.Find | src/s21_containers/s21_set.h:85 | find(k) dereferences to k, or is end() exactly when k is absent |
| Sets.Set.Contains | src/s21_containers/s21_set.h:86 | contains(k) iff k is in the set |
| Sets.Set.InsertMany | src/s21_containers/s21_set.h:89-90 | one result per argument, in argument order; an argument reports true exactly when it is new and not an earlier argument; every result iterator names its argument |
| Sets.FindThenNext | src/s21_containers/s21_set.h:35 | `++` on find(k) reaches the next larger key, or end() when k is the largest |
| Sets.IncreasingUnique | src/s21_containers/s21_set.h:56 | two ascending duplicate-free key lists with the same members are equal |
| Maps.Map.FromSeq | src/s21_containers/s21_map.h:25 | built from a list of pairs, the map holds every listed key, with the first listed value for each |
| Maps.Map.Copy | src/s21_containers/s21_map.h:26 | a copy has equal contents |
| Maps.Map.Move | src/s21_containers/s21_map.h:27 | a move takes the contents and leaves the source empty |
| Maps.Map.MoveAssign | src/s21_containers/s21_map.h:33 | move assignment takes the contents and empties the source |
| Maps.Map.At | src/s21_containers/s21_map.h:36 | at(k) returns the value mapped to k, or out_of_range exactly when k is absent |
| Maps.Map.Subscript | src/s21_containers/s21_map.h:37 | operator[] on a present key changes nothing; on an absent key it adds (k, 0), so size grows by one; the iterator names key k |
| Maps.Map.Assign | src/s21_containers/s21_map.h:37 | writing through the reference operator[] returns replaces only that key's value |
| Maps.Map.Begin | src/s21_containers/s21_map.h:40 | begin() is at position 0 |
| Maps.Map.End | src/s21_containers/s21_map.h:41 | end() is at position size() |
| Maps.Map.Empty | src/s21_containers/s21_map.h:46 | empty() iff there are no pairs |
| Maps.Map.Size | src/s21_containers/s21_map.h:47 | size() is the number of pairs |
| Maps.Map.Clear | src/s21_containers/s21_map.h:51 | clear() leaves size 0 |
| Maps.Map.Insert | src/s21_containers/s21_map.h:52-53 | a new key gives (iterator to (k, v), true) with size + 1; an existing key gives (iterator to it, false) with nothing changed |
| Maps.Map.InsertOrAssign | src/s21_containers/s21_map.h:54 | afterwards k maps to v and nothing else changed; size grows exactly when k was absent |
| Maps.Map.Erase | src/s21_containers/s21_map.h:55 | only the pair at pos is removed; every other pair stays |
| Maps.Map.Swap | src/s21_containers/s21_map.h:56 | the two maps exchange contents |
| Maps.Map.Merge | src/s21_containers/s21_map.h:57 | pairs whose key is new here move in; pairs whose key is shared stay in other |
| Maps.Map.Contains | src/s21_containers/s21_map.h:60 | contains(k) iff some pair has key k |
| Maps.Map.Find | src/s21_containers/s21_map.h:63 | find(k) names the pair with key k, or is end() exactly when k is absent |
| Maps.Map.InsertMany | src/s21_containers/s21_map.h:66-67 | one result per argument, in argument order; true exactly for an argument whose key is new and not an earlier argument's; the old pairs stay, the keys become the union, every result names its argument's key |
| Maps.InsertManyDone | src/s21_containers/s21_map.h:66-67 | after the last argument the per-argument flags and final contents are as insert_many reports them |
| Multisets.Multiset.Get | src/s21_containers/s21_set.h:35 | `*it` is the key at the iterator's position |
| Multisets.Multiset.FromSeq | src/s21_containersplus/s21_multiset.h:21 | built from a list, the multiset holds every listed key with its multiplicity, in non-decreasing order |
| Multisets.Multiset.Copy | src/s21_containersplus/s21_multiset.h:22 | a copy has equal contents |
| Multisets.Multiset.Move | src/s21_containersplus/s21_multiset.h:23 | a move takes the contents and leaves the source empty |
| Multisets.Multiset.MoveAssign | src/s21_containersplus/s21_multiset.h:25 | move assignment takes the contents and empties the source |
| Multisets.Multiset.Begin | src/s21_containersplus/s21_multiset.h:28 | begin() is at position 0 |
| Multisets.Multiset.End | src/s21_containersplus/s21_multiset.h:29 | end() is at position size() |
| Multisets.Multiset.Empty | src/s21_containersplus/s21_multiset.h:34 | empty() iff there are no keys |
| Multisets.Multiset.Size | src/s21_containersplus/s21_multiset.h:35 | size() is the number of stored keys |
| Multisets.Multiset.Clear | src/s21_containersplus/s21_multiset.h:39 | clear() leaves size 0 |
| Multisets.Multiset.Insert | src/s21_containersplus/s21_multiset.h:40 | insert always adds one occurrence (size + 1), after every equal key, so duplicates are adjacent; the iterator names the new key |
| Multisets.Multiset.Erase | src/s21_containersplus/s21_multiset.h:41 | exactly one occurrence of `*pos` is removed |
| Multisets.Multiset.Swap | src/s21_containersplus/s21_multiset.h:42 | the two multisets exchange contents |
| Multisets.Multiset.Merge | src/s21_containersplus/s21_multiset.h:43 | every element moves in, duplicates included (the multiplicities add up), and other ends empty |
| Multisets.Multiset.Find | src/s21_containersplus/s21_multiset.h:46 | find(k) names a stored k, or is end() exactly when k is absent |
| Multisets.Multiset.Contains | src/s21_containersplus/s21_multiset.h:47 | contains(k) iff at least one k is stored |
| Multisets.Multiset.LowerBound | src/s21_containersplus/s21_multiset.h:48 | lower_bound(k) is the first element not less than k |
| Multisets.Multiset.UpperBound | src/s21_containersplus/s21_multiset.h:49 | upper_bound(k) is the first element greater than k |
| Multisets.Multiset.EqualRange | src/s21_containersplus/s21_multiset.h:50 | equal_range(k) spans only elements equal to k, exactly count(k) of them |
| Multisets.Multiset.Count | src/s21_containersplus/s21_multiset.h:51 | count(k) is the multiplicity of k |
| Multisets.Multiset.InsertMany | src/s21_containersplus/s21_multiset.h:54-55 | every argument is added, repeats included, and reports true with an iterator naming it |
| Multisets.CountBetween | src/s21_containersplus/s21_multiset.h:50-51 | in an ordered key sequence, the run between the two bounds has length equal to the multiplicity of k |
| Multisets.SortedRemoveSame | src/s21_containersplus/s21_multiset.h:41 | in an ordered key sequence, removing any one copy of a key gives the same result, so erasing by `find(*pos)` equals erasing at pos |
| Lists.Node.Sentinel | src/s21_containers/s21_list.h:80 | a default node is a one-element ring: next and prev are the node itself |
| Lists.Node.constructor | src/s21_containers/s21_list.h:81-82 | a value node starts unlinked and holds the value |
| Lists.Node.LinksInsert | src/s21_containers/s21_list.h:85-90 | the new node goes immediately before this one; only the four links named change |
| Lists.Node.LinksErase | src/s21_containers/s21_list.h:92-97 | the neighbours point to each other and this node is left self-looped |
| Lists.RingLinkBefore | src/s21_containers/s21_list.h:85-90 | on a well-formed ring, links_insert puts the node into the ring just before pos and the data just before pos's element |
| Lists.RingUnlink | src/s21_containers/s21_list.h:92-97 | on a well-formed ring, links_erase removes exactly that node and its element |
| Lists.TurnedRing | src/s21_containers/s21_list.h:64 | swapping next and prev on every node of a ring leaves a well-formed ring of the reversed data |
| Lists.List.constructor | src/s21_containers/s21_list.h:27 | a new list is empty |
| Lists.List.Sized | src/s21_containers/s21_list.h:28 | list(n) holds n zeros |
| Lists.List.FromSeq | src/s21_containers/s21_list.h:29 | list(initializer_list) holds the listed values in order |
| Lists.List.Copy | src/s21_containers/s21_list.h:30 | a copy has equal contents in nodes of its own |
| Lists.List.Move | src/s21_containers/s21_list.h:31 | a move takes the nodes and leaves the source a valid empty list |
| Lists.List.CopyAssign | src/s21_containers/s21_list.h:35 | copy assignment makes the contents equal to the other list's, which is unchanged |
| Lists.List.MoveAssign | src/s21_containers/s21_list.h:36 | move assignment takes the other list's contents and empties it; self-assignment changes nothing |
| Lists.List.Front | src/s21_containers/s21_list.h:39 | front() is the first element |
| Lists.List.Back | src/s21_containers/s21_list.h:40 | back() is the last element |
| Lists.List.Begin | src/s21_containers/s21_list.h:43 | begin() is the node of the first element (the sentinel when empty) |
| Lists.List.End | src/s21_containers/s21_list.h:45 | end() is the sentinel, after the last element |
| Lists.List.EmptyIffBeginIsEnd | src/s21_containers/s21_list.h:43-50 | the list is empty exactly when begin() == end() |
| Lists.List.Empty | src/s21_containers/s21_list.h:49 | empty() iff there are no elements |
| Lists.List.Size | src/s21_containers/s21_list.h:50 | size() is the number of elements |
| Lists.List.Clear | src/s21_containers/s21_list.h:54 | clear() leaves the list empty |
| Lists.List.Insert | src/s21_containers/s21_list.h:55 | the value goes immediately before pos, the result names it, pos moves one place on, size grows by one |
| Lists.List.Erase | src/s21_containers/s21_list.h:56 | only the element at pos is removed |
| Lists.List.PushBack | src/s21_containers/s21_list.h:57 | the value becomes the last element; the others are unchanged |
| Lists.List.PushFront | src/s21_containers/s21_list.h:58 | the value becomes the first element; the others are unchanged |
| Lists.List.PopBack | src/s21_containers/s21_list.h:59 | only the last element goes |
| Lists.List.PopFront | src/s21_containers/s21_list.h:60 | only the first element goes |
| Lists.List.Swap | src/s21_containers/s21_list.h:61 | the two lists exchange contents and nodes |
| Lists.List.Merge | src/s21_containers/s21_list.h:62 | the result is the stable ascending merge of both lists and other ends empty; sorted inputs give a sorted permutation of both (MergeSeqSorted, MergeSeqMultiset) |
| Lists.List.Splice | src/s21_containers/s21_list.h:63 | all of other, in order, goes immediately before pos and other ends empty |
| Lists.List.Reverse | src/s21_containers/s21_list.h:64 | the contents are reversed, using the same nodes |
| Lists.List.Unique | src/s21_containers/s21_list.h:65 | consecutive duplicates are dropped (Dedup) |
| Lists.List.Sort | src/s21_containers/s21_list.h:66 | the contents become an ascending permutation of the old contents, using the same nodes |
| Lists.List.InsertMany | src/s21_containers/s21_list.h:69-70 | the arguments go before pos in argument order; the result names the first inserted node, or pos when there are none |
| Lists.List.InsertManyBack | src/s21_containers/s21_list.h:71-72 | the arguments are appended in argument order |
| Lists.List.InsertManyFront | src/s21_containers/s21_list.h:73-74 | the arguments are prepended in argument order |
| Lists.List.Deref | src/s21_containers/s21_list.h:113 | `*it` is the element at the node's position |
| Lists.List.Next | src/s21_containers/s21_list.h:115-118 | `++` moves to the next position, from end() round to begin() |
| Lists.List.Prev | src/s21_containers/s21_list.h:120-123 | `--` moves to the previous position, from begin() round to end() |
| Lists.List.NextPrevInverse | src/s21_containers/s21_list.h:115-123 | on a well-formed ring `++` then `--`, and `--` then `++`, return to the same node |
| Lists.List.IndexOfUnique | src/s21_containers/s21_list.h:137-139 | a node has one position, so iterator equality (node identity) is position equality |
| ListSeqs.MergeSeqSorted | src/s21_containers/s21_list.h:62 | merging two ascending sequences gives an ascending sequence |
| ListSeqs.MergeSeqMultiset | src/s21_containers/s21_list.h:62 | merging keeps every element of both sequences, with multiplicity |
| ListSeqs.DedupNoAdjacent | src/s21_containers/s21_list.h:65 | after unique no two neighbouring elements are equal |
| ListSeqs.DedupMembers | src/s21_containers/s21_list.h:65 | unique keeps the same set of values |
| ListSeqs.DedupIdentity | src/s21_containers/s21_list.h:65 | unique leaves a list without adjacent duplicates unchanged |
| ListSeqs.DedupIdempotent | src/s21_containers/s21_list.h:65 | applying unique twice is the same as once |
| ListSeqs.RevRev | src/s21_containers/s21_list.h:64 | reversing twice gives back the list |
| ListSeqs.RevMultiset | src/s21_containers/s21_list.h:64 | reversing keeps every element with multiplicity |
| ListSeqs.SortStep | src/s21_containers/s21_list.h:66 | moving the next element before the first greater one extends the sorted prefix and keeps the multiset |
| Vectors.Vector.constructor | src/s21_containers/s21_vector.h:38 | a default vector is empty with capacity 0 |
| Vectors.Vector.Sized | src/s21_containers/s21_vector.h:41-42 | vector(n) has size = capacity = n and n zeros |
| Vectors.Vector.FromSeq | src/s21_containers/s21_vector.h:45 | vector(initializer_list) holds the listed values, capacity equal to their number |
| Vectors.Vector.Copy | src/s21_containers/s21_vector.h:47-50 | a copy has equal size, capacity and elements, in a buffer of its own |
| Vectors.Vector.Move | src/s21_containers/s21_vector.h:52-55 | a move takes the elements and capacity and leaves the source a valid empty vector with capacity 0 |
| Vectors.Vector.MoveAssign | src/s21_containers/s21_vector.h:60 | move assignment takes the other vector's elements and empties it; self-assignment changes nothing |
| Vectors.Vector.At | src/s21_containers/s21_vector.h:63-64 | at(pos) and operator[](pos) give element pos, or out_of_range exactly when pos is not below size |
| Vectors.Vector.Put | src/s21_containers/s21_vector.h:63 | writing through at(pos) changes only slot pos, or reports out_of_range and changes nothing |
| Vectors.Vector.Front | src/s21_containers/s21_vector.h:65 | front() is element 0 |
| Vectors.Vector.Back | src/s21_containers/s21_vector.h:66 | back() is the last element |
| Vectors.Vector.Empty | src/s21_containers/s21_vector.h:76 | empty() iff size is 0 |
| Vectors.Vector.Size | src/s21_containers/s21_vector.h:77 | size() is the number of elements |
| Vectors.Vector.Reserve | src/s21_containers/s21_vector.h:79 | reserve(n) sets capacity to n when n exceeds it and otherwise leaves it; size and elements stay |
| Vectors.Vector.ShrinkToFit | src/s21_containers/s21_vector.h:81 | capacity becomes size; elements stay |
| Vectors.Vector.Clear | src/s21_containers/s21_vector.h:84 | clear() leaves no elements and keeps the capacity |
| Vectors.Vector.Insert | src/s21_containers/s21_vector.h:85 | insert(pos, v) puts v at pos, shifting the tail up by one, or reports out_of_range beyond the end and changes nothing |
| Vectors.Vector.Erase | src/s21_containers/s21_vector.h:86 | erase(pos) removes element pos, shifting the tail down, or reports out_of_range and changes nothing |
| Vectors.Vector.PushBack | src/s21_containers/s21_vector.h:87 | the value is appended; earlier elements are unchanged |
| Vectors.Vector.PopBack | src/s21_containers/s21_vector.h:88 | the last element goes; earlier elements and capacity are unchanged |
| Vectors.Vector.Swap | src/s21_containers/s21_vector.h:89 | the two vectors exchange elements and capacities |
| Vectors.Vector.InsertMany | src/s21_containers/s21_vector.h:92-93 | the arguments go before pos in argument order and the result is pos (the first inserted element, or pos when there are none), or out_of_range beyond the end |
| Vectors.Vector.InsertManyBack | src/s21_containers/s21_vector.h:94-95 | the arguments are appended in argument order |
| Vectors.Vector.Grow | src/s21_containers/s21_vector.h:32 | growing makes room for one more element and keeps size and elements |
| Vectors.RemoveAfterInsert | src/s21_containers/s21_vector.h:85-86 | erase at pos undoes insert at pos |
| Vectors.InsertAfterRemove | src/s21_containers/s21_vector.h:85-86 | inserting the erased element back at its position undoes erase |
| Vectors.Vector.MoveAsWritten | src/s21_containers/s21_vector.h:52-55 | the move constructor as written: the source keeps its capacity with no buffer, breaking size <= capacity backed by a buffer |
| Vectors.MovedFromKeepsCapacity | src/s21_containers/s21_vector.h:52-55 | moving from {1, 2, 3} as written leaves a source with size 0, capacity 3 and a null buffer |
| Stacks.Stack.constructor | src/s21_containers/s21_stack.h:20 | a new stack is empty |
| Stacks.Stack.FromSeq | src/s21_containers/s21_stack.h:21 | the listed values from bottom to top, so the last listed is on top and size is their number |
| Stacks.Stack.Copy | src/s21_containers/s21_stack.h:22 | a copy has equal contents |
| Stacks.Stack.MoveAsWritten | src/s21_containers/s21_stack.h:23 | the move constructor as written: the contents move over, and the source's vector keeps its capacity with no buffer, so a source that had room is no longer valid |
| Stacks.MovedFromStackKeepsCapacity | src/s21_containers/s21_stack.h:23 | moving from stack{1, 2, 3} as written leaves a source whose vector has size 0, capacity 3 and no buffer |
| Stacks.Stack.Move | src/s21_containers/s21_stack.h:23 | with the corrected vector move, a move takes the contents and leaves the source a valid empty stack |
| Stacks.Stack.MoveAssign | src/s21_containers/s21_stack.h:29 | move assignment takes the contents and empties the source |
| Stacks.Stack.Top | src/s21_containers/s21_stack.h:32 | top() is the most recently pushed element still present |
| Stacks.Stack.Empty | src/s21_containers/s21_stack.h:35 | empty() iff no elements |
| Stacks.Stack.Size | src/s21_containers/s21_stack.h:36 | size() is the element count |
| Stacks.Stack.Push | src/s21_containers/s21_stack.h:39 | the value goes on top |
| Stacks.Stack.Pop | src/s21_containers/s21_stack.h:40 | only the top goes |
| Stacks.Stack.Swap | src/s21_containers/s21_stack.h:41 | the two stacks exchange contents |
| Stacks.Stack.InsertManyFront | src/s21_containers/s21_stack.h:44-45 | the arguments go beneath the existing elements in argument order |
| Stacks.Stack.PushPop | src/s21_containers/s21_stack.h:39-40 | push then pop restores the stack, and top() in between is the pushed value |
| Queues.Queue.constructor | src/s21_containers/s21_queue.h:20 | a new queue is empty |
| Queues.Queue.FromSeq | src/s21_containers/s21_queue.h:21 | the listed values from front to back, so the first listed is the front |
| Queues.Queue.Copy | src/s21_containers/s21_queue.h:22 | a copy has equal contents |
| Queues.Queue.MoveAsWritten | src/s21_containers/s21_queue.h:23 | the move constructor as written: the contents move over, and the source's vector keeps its capacity with no buffer, so a source that had room is no longer valid |
| Queues.MovedFromQueueKeepsCapacity | src/s21_containers/s21_queue.h:23 | moving from queue{1, 2, 3} as written leaves a source whose vector has size 0, capacity 3 and no buffer |
| Queues.Queue.Move | src/s21_containers/s21_queue.h:23 | with the corrected vector move, a move takes the contents and leaves the source a valid empty queue |
| Queues.Queue.MoveAssign | src/s21_containers/s21_queue.h:29 | move assignment takes the contents and empties the source |
| Queues.Queue.Front | src/s21_containers/s21_queue.h:32 | front() is the earliest pushed element still present |
| Queues.Queue.Back | src/s21_containers/s21_queue.h:33 | back() is the latest pushed element |
| Queues.Queue.Empty | src/s21_containers/s21_queue.h:36 | empty() iff no elements |
| Queues.Queue.Size | src/s21_containers/s21_queue.h:37 | size() is the element count |
| Queues.Queue.Push | src/s21_containers/s21_queue.h:40 | the value joins at the back |
| Queues.Queue.Pop | src/s21_containers/s21_queue.h:41 | only the front element goes |
| Queues.Queue.Swap | src/s21_containers/s21_queue.h:42 | the two queues exchange contents |
| Queues.Queue.InsertManyBack | src/s21_containers/s21_queue.h:45-46 | the arguments join at the back in argument order; no arguments change nothing |
| Queues.Queue.Drain | src/s21_containers/s21_queue.h:41 | popping until empty hands out the elements in the order they were pushed and leaves the queue empty |
| Arrays.FixedArray.constructor | src/s21_containersplus/s21_array.h:18 | a default array holds N zeros |
| Arrays.FixedArray.FromSeq | src/s21_containersplus/s21_array.h:19 | array(initializer_list) holds the listed values followed by zeros |
| Arrays.FixedArray.Copy | src/s21_containersplus/s21_array.h:20 | a copy has equal elements |
| Arrays.FixedArray.CopyAssign | src/s21_containersplus/s21_array.h:23 | assignment copies every slot |
| Arrays.FixedArray.At | src/s21_containersplus/s21_array.h:27-30 | at(pos) and operator[](pos) give element pos, or out_of_range exactly when pos is not below N |
| Arrays.FixedArray.Put | src/s21_containersplus/s21_array.h:27-30 | writing through at(pos) or operator[](pos) changes only slot pos, or reports out_of_range and changes nothing |
| Arrays.FixedArray.Front | src/s21_containersplus/s21_array.h:31-32 | front() is element 0 |
| Arrays.FixedArray.Back | src/s21_containersplus/s21_array.h:33-34 | back() is element N - 1 |
| Arrays.FixedArray.Begin | src/s21_containersplus/s21_array.h:39-40 | begin() is slot 0 |
| Arrays.FixedArray.End | src/s21_containersplus/s21_array.h:41-42 | end() is begin() + N |
| Arrays.FixedArray.Empty | src/s21_containersplus/s21_array.h:45 | empty() iff N is 0 |
| Arrays.FixedArray.Size | src/s21_containersplus/s21_array.h:46 | size() is N |
| Arrays.FixedArray.MaxSize | src/s21_containersplus/s21_array.h:47 | max_size() equals size() |
| Arrays.FixedArray.Fill | src/s21_containersplus/s21_array.h:50 | every slot becomes the value |
| Arrays.FixedArray.Swap | src/s21_containersplus/s21_array.h:51 | the two arrays exchange all N values |

## Left out

- Memory management: `new`/`delete`, destructors and node freeing. Dafny's heap is garbage
  collected, so erasing a node or a buffer just drops it.
- `max_size()` of the tree containers, list and vector: the value is an implementation-defined limit.
- The vector growth policy (`reserve_more_capacity`): its body is not part of this model.
  `Vectors.Vector.Grow` promises only room for one more element, and `PushBack`/`Insert` promise
  nothing about the new capacity.
- `data()` of vector and array: raw pointers are not modelled; slots are reached by index.
- `cbegin`/`cend`, the `ConstIterator` classes and the non-const list `begin() const`: the model
  has one read iterator per container. `ConstIterator` re-declaring its own `current`, and the
  misspelt `Constiterator` in the multiset, are not modelled.
- Element types other than `int`: the containers are generic in the library; the model fixes
  `int` elements and keys ordered by `<`, and map values `int` with default `0`.
- Variadic templates: every `insert_many*` takes a sequence of arguments.
- The `.tpp` bodies of the tree, set, map, multiset, list and vector members are not part of this
  model. Where a declared operation's body is not visible, its algorithm is the textbook one the
  declarations describe (AVL insertion and rebalancing, erasure replacing a two-child node by its
  in-order successor, insertion-sort-like list `sort`, pointer-swapping list `reverse`), and the
  contracts state results, not those choices.
- `AVLTree(initializer_list)`: not modelled separately; the facades' list constructors insert the
  items one by one through `AVLTree.Insert`.
- AvlTree.AVLTree.Merge: unique mode is specified only for two trees whose keys are already
  distinct, which every set and map tree is.
- AvlTree.AVLTree.Erase, Sets.Set.Erase, Maps.Map.Erase, Multisets.Multiset.Erase: `erase(end())`
  is excluded by the precondition; the facades dereference `pos` to find the key, which is
  undefined for `end()`, and what the tree's own erase does with `end()` is not part of this model.
- AvlTree.AVLTree.Merge, Sets.Set.Merge, Maps.Map.Merge, Multisets.Multiset.Merge: merging a
  container with itself is excluded by the precondition; only two distinct containers are modelled.
- AvlTree.AVLTree.Erase: in a multi-key tree the model names one element with the key of `pos`
  (any copy gives the same key sequence), not which copy the library unlinks.
- Sets.Set.InsertMany, Maps.Map.InsertMany, Multisets.Multiset.InsertMany: result iterators are
  stated for the final tree (a later rebalancing would make a path-based iterator stale); node
  identity is not modelled for the tree containers.
- Multisets.Multiset.Find: which duplicate `find` picks is not stated; the iterator names some copy
  of the key, and `++` from it reaches the next element in order.
- Vectors.Vector.Erase: `erase(end())` is reported as `out_of_range`, as for every position not
  below size.
- Lists.List.Erase: `erase(end())` (erasing the sentinel) is excluded by its precondition.
- Lists.List.Deref: dereferencing `end()` (the sentinel's default data) is excluded.
- Lists.List.CopyAssign, Lists.List.Merge, Lists.List.Splice: the two lists must be distinct
  (disjoint node sets); `merge`/`splice` of a list with itself are not modelled.
- Lists.List.Swap: states the exchanged contents and node sequences, not the exchanged footprints.
- Front, back, top and the pops of every container require a non-empty container; the library
  leaves those calls undefined.
- Arrays.FixedArray: the move constructor and move assignment are the copy ones, because moving
  `int` elements copies them.

## Findings

| source | as written | input that shows it | evidently intended | confidence | as-written member | corrected member |
|---|---|---|---|---|---|---|
| src/s21_containers/s21_vector.h:52-55 | the move constructor nulls the source's `arr_` and zeroes its `size_` but leaves its `capacity_` | moving from `vector{1, 2, 3}` leaves a source with `capacity() == 3` and no buffer, so the source claims room for three elements while owning no buffer | the source's `capacity_` is reset to 0 with the buffer, leaving a valid empty vector | not executed | Vectors.Vector.MoveAsWritten, Vectors.MovedFromKeepsCapacity | Vectors.Vector.Move |
| src/s21_containers/s21_stack.h:23 | the move constructor moves `data_` with the vector move constructor above | moving from `stack{1, 2, 3}` leaves a source stack whose vector has `capacity_ == 3` and a null buffer | the source is left a valid empty stack | not executed | Stacks.Stack.MoveAsWritten, Stacks.MovedFromStackKeepsCapacity | Stacks.Stack.Move |
| src/s21_containers/s21_queue.h:23 | the move constructor moves `data_` with the vector move constructor above | moving from `queue{1, 2, 3}` leaves a source queue whose vector has `capacity_ == 3` and a null buffer | the source is left a valid empty queue | not executed | Queues.Queue.MoveAsWritten, Queues.MovedFromQueueKeepsCapacity | Queues.Queue.Move |
