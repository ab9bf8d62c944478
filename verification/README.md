# Binary search tree with parent links, in Dafny

This project models `BinarySearchTree<Key, Value>`, an unbalanced binary search
tree. Its nodes carry `left_`, `right_` and `parent_` pointers, and it accepts
duplicate keys. Equal keys are routed to the right. Search stops at the first
equal key on the way down.

The model has two layers.

- **The functional layer** is written over an immutable value
  `Tree<V> = Leaf | Node(left, key, value, right)`. It covers the recursive
  algorithms and states the tree's promises about entries, ordering, in-order
  sequence and height. The modules are `Trees`, `Lookup`, `Insertion` and
  `Removal`, with `KeyOrder` for the `std::string` ordering.
- **The linked layer** is written over a node store. A store is a sequence of
  cells `Cell(key, value, left, right, parent)` addressed by index, with
  `Null` (-1) as the null pointer. A tree object is `Linked(cells, root)`.
  The predicate `Repr` ties a store back to a functional tree: it says the
  reachable cells form a finite tree of distinct nodes with that shape and
  those entries, and that every parent link points back at the node owning
  it. The modules `LinkedSearch`, `LinkedInsert`, `LinkedRemove` and
  `LinkedCopy` contain the pointer algorithms as written. This includes
  `insertIterative`'s loop, `remove(node)`'s successor walk and in-place
  copy, `replaceChild`, `makeCopy` and `clear`.
- **Positions** (module `Positions`) name a node by its path of left/right
  steps. They say where a pointer operation acts.

Keys are strings ordered lexicographically, as in the demonstration program's
`BinarySearchTree<std::string, double>`. Values are a type parameter.

The ordering invariant `Trees.Ordered` follows the code. A key in a node's
left subtree is strictly less than the node's key, and a key in its right
subtree is greater than or equal to it. This is what `insert`'s
"left iff strictly less" produces: `insert` never puts an equal key on the
left, so the invariant is strict on the left.

The two compile-time variants, `USING_ITERATIVE_FUNCTIONS` and
`USING_RECURSIVE_FUNCTIONS`, become a run-time flag `iterative`. Both
variants are modelled and proved to agree. This applies to `search`,
`insert` and `remove(key)`.

## Model

| member | source | states |
|---|---|---|
| KeyOrder.LessTotal | BinarySearchTree_main.cpp:13 | Two distinct string keys are ordered one way or the other. With irreflexivity and transitivity, this makes `<` the strict total order the tree relies on. |
| Trees.Inorder | BinarySearchTree.hpp:348-356 | The in-order sequence has one entry per node. It is the reference definition that the linked traversal `LinkedSearch.InorderFrom` is proved equal to. |
| Trees.InorderSorted | BinarySearchTree.hpp:348-356 | On an ordered tree, the in-order traversal lists the entries in non-decreasing key order. |
| Trees.InorderEntries | BinarySearchTree.hpp:348-356 | The in-order traversal lists every stored entry exactly once, as a multiset equal to the tree's entries. |
| Trees.Height | BinarySearchTree.hpp:374-383 | Height is never below -1, and it is -1 exactly for the empty tree. It is the reference definition that the linked `LinkedSearch.GetHeight` is proved equal to. |
| Trees.HeightBounds | BinarySearchTree.hpp:374-383 | A tree of height h holds between h+1 and 2^(h+1)-1 entries. |
| Lookup.SearchRecursive | BinarySearchTree.hpp:131-142 | A hit is a node holding the query key whose entry is in the tree. On an ordered tree, null is returned exactly when the key is absent. |
| Lookup.SearchIterative | BinarySearchTree.hpp:112-125 | The cursor loop returns the same node as the recursive search, for every tree and key. |
| Lookup.Search | BinarySearchTree.hpp:93-106 | The result is the value of a stored entry with the key. Otherwise it is `invalid_argument("Key not found")`, which on an ordered tree happens exactly when the key is absent. On an ordered tree the value returned is that of the first in-order entry with the key (see `Removal.FoundIsFirst`). |
| Insertion.Insert | BinarySearchTree.hpp:219-241 | Insertion adds exactly one node, so the result holds one more entry. It is the reference definition that both linked insertion variants are proved to follow. |
| Insertion.InsertEntries | BinarySearchTree.hpp:219-241 | Insertion adds exactly the entry (key, value) to the multiset of entries. |
| Insertion.InsertKeySet | BinarySearchTree.hpp:219-241 | The key set gains exactly the inserted key. |
| Insertion.InsertOrdered | BinarySearchTree.hpp:223-240 | Descending left iff strictly less keeps the ordering invariant. |
| Insertion.InsertInorder | BinarySearchTree.hpp:219-241 | The in-order sequence gains the new entry at one index and is otherwise unchanged. |
| Insertion.InsertionIndexSplits | BinarySearchTree.hpp:186-212 | On an ordered tree, that index falls after every key less than or equal to the new key and before every greater key. Duplicates therefore land after the equal keys already stored. |
| Insertion.InsertKeepsSorted | BinarySearchTree.hpp:150-163 | Inserting into an ordered tree keeps its in-order traversal sorted, whatever the insertion order. |
| Insertion.SearchAfterInsert | BinarySearchTree.hpp:93-106 | After an insertion, search returns the entry it found before, if any, and otherwise the inserted value. |
| Insertion.SearchFindsNewKey | BinarySearchTree.hpp:150-163 | After inserting a key that was absent, search returns the inserted value. |
| Removal.LeftmostNode | BinarySearchTree.hpp:276-278 | The successor walk ends at a node with no left child that holds the first in-order entry of the right subtree. |
| Removal.LeftmostIsLeast | BinarySearchTree.hpp:276-278 | On an ordered tree, that node's key is a least key. |
| Removal.RemoveMin | BinarySearchTree.hpp:284-285 | Unlinking the successor drops exactly the first in-order entry of its subtree. |
| Removal.RemoveRoot | BinarySearchTree.hpp:268-311 | Removing a node removes its own entry and keeps the in-order sequence of both subtrees, in all three cases. |
| Removal.RemoveRootTwoChildren | BinarySearchTree.hpp:273-286 | With two children, the node keeps its place and left subtree and takes the next in-order entry, which comes from a node without a left child. |
| Removal.RemoveRootOrdered | BinarySearchTree.hpp:273-286 | Copying the successor's entry into the node keeps the ordering invariant. |
| Removal.FoundIsFirst | BinarySearchTree.hpp:53-55 | On an ordered tree, search stops at the first in-order entry with the key. That entry carries the value search returns, and no earlier entry has the key. So `search` reads, and `remove` deletes, the first of several equal keys. |
| Removal.Remove | BinarySearchTree.hpp:249-262 | When search does not find the key, the tree is returned unchanged. |
| Removal.RemoveInorder | BinarySearchTree.hpp:249-311 | Removing a found key deletes exactly the found node's entry from the in-order sequence. Every other entry keeps its order. On an ordered tree the deleted entry is the first in-order entry with the key (see `Removal.FoundIsFirst`). |
| Removal.RemoveEntries | BinarySearchTree.hpp:249-311 | The multiset of entries loses exactly the entry search returned. |
| Removal.RemoveKeys | BinarySearchTree.hpp:249-311 | The key multiset loses exactly one occurrence of the removed key. |
| Removal.RemoveOrdered | BinarySearchTree.hpp:249-311 | Removal keeps the ordering invariant. |
| Removal.RemoveAbsent | BinarySearchTree.hpp:249-262 | Removing an absent key from an ordered tree is a no-op, so the traversal and the height are unchanged. |
| Removal.InsertThenRemoveKeys | BinarySearchTree.hpp:150-163 | Removing a key right after inserting it restores the tree's key multiset. |
| Removal.RemoveEachEmpties | BinarySearchTree.hpp:249-262 | Removing every stored key, one at a time and in any order, leaves the empty tree of height -1. |
| Positions.InsertAtPath | BinarySearchTree.hpp:184-213 | Insertion replaces the null slot its descent ends at by a one-node tree. |
| Positions.RemoveAtPath | BinarySearchTree.hpp:249-262 | Removal by key removes the root entry of the subtree at the position search finds. |
| Positions.LeftPath | BinarySearchTree.hpp:276-278 | The all-left descent from a node reaches its leftmost node. |
| Positions.RemoveMinAtPath | BinarySearchTree.hpp:284-285 | Unlinking the leftmost node puts its right subtree in its place. |
| Positions.SuccessorRemoval | BinarySearchTree.hpp:273-286 | Copying the successor's entry into the node, then unlinking the successor at node, right, all-left, is exactly the removal of the node's entry. |
| LinkedTree.ReprBounds | BinarySearchTree.hpp:22-35 | A represented tree's nodes are distinct cells in the store, one per entry. |
| LinkedTree.ReprLinks | BinarySearchTree.hpp:32-34 | In a represented tree, every child's `parent_` names the node holding the child link. The root's `parent_` is the given parent, and links stay inside the tree. |
| LinkedSearch.SearchIterative | BinarySearchTree.hpp:112-125 | Null is returned exactly when the functional search misses. Otherwise the node is the one reached along the functional search's path and holds the key and the found value. |
| LinkedSearch.SearchRecursive | BinarySearchTree.hpp:131-142 | The pointer recursion returns null exactly on a miss, and otherwise the node along the same search path. |
| LinkedSearch.Search | BinarySearchTree.hpp:93-106 | With either the iterative or the recursive search, the result equals the functional search. It fails with "Key not found" exactly when the key is absent from an ordered tree, and a hit is a stored entry. |
| LinkedSearch.InorderFrom | BinarySearchTree.hpp:338-356 | The traversal yields the tree's in-order sequence: every entry once, sorted when the tree is ordered. |
| LinkedSearch.GetHeight | BinarySearchTree.hpp:364-383 | The result is -1 exactly at null, equals the tree's height, and bounds the node count. |
| LinkedInsert.AttachLeaf | BinarySearchTree.hpp:188-192 | Linking the fresh leaf into the null slot and setting its parent yields the tree with that slot filled. The node set gains exactly the new node. |
| LinkedInsert.InsertRecursive | BinarySearchTree.hpp:219-241 | The result is the functional insertion below `parent`. The fresh node becomes a leaf whose parent is an existing node. No other cell's key, value or parent link changes, and a child link can only change from null to the new node. |
| LinkedInsert.InsertIterative | BinarySearchTree.hpp:168-214 | The result is the functional insertion. On an empty tree the node becomes the root with a null parent. Otherwise the root is unchanged and the node hangs as a leaf under an existing node. |
| LinkedInsert.Insert | BinarySearchTree.hpp:150-163 | Both variants add exactly the new cell as a leaf holding (key, value). Its parent link is set, or null when it becomes the root. No other cell's key, value or parent link changes, and a child link can only change from null to the new cell. |
| LinkedRemove.ReplaceChild | BinarySearchTree.hpp:316-330 | False, with no change, iff neither child link is the given child. Otherwise that slot (the left one first) holds the new child, the new child's parent is set, and nothing else moves. |
| LinkedRemove.FindSuccessor | BinarySearchTree.hpp:276-278 | The walk ends at the leftmost node of the right subtree, which has no left child. |
| LinkedRemove.SuccessorStep | BinarySearchTree.hpp:280-285 | Copying the successor's key and value into the node leaves a valid tree in which removing the successor equals removing the node. |
| LinkedRemove.RelabelAt | BinarySearchTree.hpp:280-282 | Overwriting a node's key and value changes only that entry, on the same nodes. |
| LinkedRemove.SpliceRoot | BinarySearchTree.hpp:291-299 | Removing the root with at most one child makes that child the root with a null parent, on the remaining nodes. |
| LinkedRemove.SpliceOut | BinarySearchTree.hpp:303-307 | Unlinking a non-root node through `replaceChild` succeeds and yields the tree with that node's entry removed. |
| LinkedRemove.Unlink | BinarySearchTree.hpp:289-310 | Cases 2 to 4 remove the node's entry, and the tree has one node fewer. The new root, if any, has a null parent. |
| LinkedRemove.RemoveNode | BinarySearchTree.hpp:268-311 | `remove(node)` gives the tree with that node's entry removed, on a subset of the old nodes with exactly one fewer. Null is a no-op, and the root's parent stays null. |
| LinkedRemove.RemoveKey | BinarySearchTree.hpp:249-262 | With either search, the result stands for the functional removal. An absent key leaves the object exactly as it was. |
| LinkedCopy.MakeCopy | BinarySearchTree.hpp:398-411 | The copy has the same shape and entries, a null root parent and consistent parent links. It is made only of newly allocated cells, and the existing cells are untouched. |
| LinkedCopy.CopyTree | BinarySearchTree.hpp:391-393 | The new object stands for the same tree, and its store is exactly the copies with consistent links. |
| LinkedCopy.ClearFrom | BinarySearchTree.hpp:448-457 | Every node of the subtree is deleted exactly once, each after its children, and the node itself last. |
| LinkedCopy.Clear | BinarySearchTree.hpp:438-443 | Every node is deleted once, children first, and the object then stands for the empty tree with a null root. |
| Scenario.GradeBookShape | BinarySearchTree_main.cpp:12-18 | The five insertions build the tree drawn in the program's comment. |
| Scenario.GradeBookScenario | BinarySearchTree_main.cpp:24-31 | Ellen's grade is 3.5, the students are listed alphabetically, and the height is 3. |
| Scenario.RemoveEllenScenario | BinarySearchTree_main.cpp:31-34 | Removing Ellen moves Kevin into her place, so the copy's height drops to 2 and the original keeps height 3. |
| StoreScenario.GradeBookRun | BinarySearchTree_main.cpp:11-35 | The whole program on the node store, with either variant, finds grade 3.5 and lists the students alphabetically. The copy's height is 3 and then 2, and the original keeps height 3. |

## Left out

- Printing (`operator<<` for nodes and the `std::cout` in `printInorder`) is not modelled. `LinkedSearch.InorderFrom` returns the sequence of entries the traversal would print.
- `delete` is not modelled. A removed node's cell stays in the store, unreachable from `root_`. `clear` returns the order in which it would delete the nodes instead of freeing them.
- The destructor is only `clear()`, so it has no member of its own.
- `operator=` (copy and swap) is not modelled as a member. The demonstration's `gradeBook = studentGrades` is modelled by `LinkedCopy.CopyTree`. Swapping the root pointers and destroying the old empty tree have no observable effect there.
- The copy is built into a fresh store of its own, so two tree objects sharing one heap is not modelled.
- The compile-time macro selection is a run-time `iterative` flag.
- Memory exhaustion (`std::bad_alloc` from `new`) is not modelled.
- Keys are fixed to strings, as in the demonstration program. The explicit instantiation `BinarySearchTree<unsigned, float>` is not modelled.
- `std::string`'s `<` compares `char` values. The model compares Dafny characters by code point, which agrees for the ASCII names the program uses.
- The default arguments of the `Node` constructor (`Key()`, `Value()`) are not modelled, because every allocation in the tree passes both explicitly.
- LinkedInsert.InsertRecursive: it requires a non-null parent, as the source's comment states.
- LinkedInsert.InsertIterative: it requires a node that is not already in the tree. `insert` only ever hands it a fresh node.
- LinkedRemove.ReplaceChild: it requires a non-null parent, because the source dereferences it.
- LinkedSearch.GetHeight: does not model the overflow of C++ `int`, because heights stay below the node count.
