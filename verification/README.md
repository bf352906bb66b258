# Unbalanced binary-search-tree map

A Dafny model of `BinarySearchTree<K, V, Comparator>`, an ordered key-value map backed
by an unbalanced binary search tree. Each node holds one `(key, value)` pair and owns
its two children. The map keeps a root link `_root` and an entry count `_size`. It
supports upsert (`insert`), removal with the three-case node-removal policy (`erase`),
lookup (`find`, `contains`), the extremes (`min`, `max`), `root`, `size`, `empty`,
`clear`, and copy and move construction and assignment.

Keys are fixed to `int` ordered by `<`. This is the default `std::less`, under which the
`==` test that `insert` uses agrees with the "neither is less" test that `find` and
`erase` use. Values are of any type `V`.

Files:

- `tree.dfy`, module `BstNodes`: the node datatype `Tree<V>` (`Nil` is the null
  pointer) holding an `Entry<V>` (the `std::pair`). It also gives the abstract view of
  a subtree: `Keys`, `Map` (the key-to-value map), `Count` (the node count) and the
  ordering predicate `BST`. The read-only recursion (`find`, `contains`, `min`, `max`,
  `clone`) lives here as functions, beside the lemmas that the mutating recursion uses.
  The trees that `insert` and `erase` build are given exactly by `Inserted` and
  `Erased`, and `Path` (the left/right turns a search takes) states that they move no
  node they do not have to.
- `binary_search_tree.dfy`, module `BstMap`: the class `BinarySearchTree<V>` with the
  fields `root` and `size`. Its object invariant `Valid()` is `BST(root) && size ==
  Count(root)`, and its abstract value `Contents()` is `Map(root)`. The private
  recursive `insert`, `erase` and `clear` take the `node_ptr &t` link as an argument
  and return its new value (`InsertAt`, `EraseAt`, `ClearAt`). They adjust `size`
  inside the recursion, at the same points as the C++ code.
- `scenarios.dfy`, module `BstScenarios`: client methods that rely on the contracts
  alone. They cover inserting 5, 3 and 8 and then querying, erasing a node with two
  children or with one, overwriting a key, the chain that ascending insertions build,
  the post-order of `clear`, and the independence of a copy from its source.

## Model

| member | source | states |
|---|---|---|
| `BstNodes.CountIsKeys` | BinarySearchTree.h:41-42 | in an ordered tree the node count equals the number of distinct keys and the size of the abstract map, so a `_size` that counts nodes counts entries |
| `BstNodes.FindNode` | BinarySearchTree.h:205-226 | the result is null or a node holding exactly `key`; on an ordered tree it is a node exactly when `key` is present, and that node carries the key's value |
| `BstNodes.Contains` | BinarySearchTree.h:199-204 | on an ordered tree, true exactly when `key` is present (the body tests `find` against null) |
| `BstNodes.MinNode` | BinarySearchTree.h:186-191 | the leftmost node of a non-empty subtree has no left child and holds a present key; on an ordered tree that key is the smallest and the node carries its value |
| `BstNodes.MaxNode` | BinarySearchTree.h:192-197 | the rightmost node of a non-empty subtree has no right child and holds a present key; on an ordered tree that key is the largest and the node carries its value |
| `BstNodes.Clone` | BinarySearchTree.h:238-246 | the deep copy has the same shape and the same pairs as its source (the order in which nodes are copied is not modelled) |
| `BstNodes.UpdateLeft` | BinarySearchTree.h:139-140 | recursing left with a smaller key: the rebuilt node stays ordered and its map is the old map updated at that key |
| `BstNodes.UpdateRight` | BinarySearchTree.h:141-142 | recursing right with a larger key: the rebuilt node stays ordered and its map is the old map updated at that key |
| `BstNodes.RemoveLeft` | BinarySearchTree.h:151-152 | erasing in the left subtree: the node stays ordered and its map loses exactly that key |
| `BstNodes.RemoveRight` | BinarySearchTree.h:153-154 | erasing in the right subtree: the node stays ordered and its map loses exactly that key |
| `BstNodes.RemoveOwnKey` | BinarySearchTree.h:157-176 | removing the node's own key leaves exactly its children's entries, which is what splicing in the single child (or null) keeps |
| `BstNodes.ReplaceBySuccessor` | BinarySearchTree.h:177-180 | a node with two children that takes its in-order successor's pair, over a right subtree with that successor erased, is ordered and maps exactly the old entries minus the erased key |
| `BstNodes.InsertedIsUpsert` | BinarySearchTree.h:131-144 | the tree the recursive `insert` builds (`Inserted`: follow the search, overwrite the matching node or hang a leaf on the null link reached, keep every other link) is ordered, maps the old entries updated at the key, and has one more node exactly when the key was absent |
| `BstNodes.InsertedKeepsPaths` | BinarySearchTree.h:131-144 | `insert` moves no node: every stored key, and the new key, is reached by the same left/right turns before and after, so the new leaf sits where the search for its key fell off the tree |
| `BstNodes.ErasedIsRemoval` | BinarySearchTree.h:146-184 | the tree the recursive `erase` builds (`Erased`: follow the search and remove the matched node by the three-case policy, keeping every other link) is ordered, maps the old entries minus the key, has one node fewer exactly when the key was present, and is the same tree when it was absent |
| `BstNodes.ErasedKeepsPaths` | BinarySearchTree.h:146-154 | `erase` moves no node outside the matched node's subtree: every such key is reached by the same turns before and after |
| `BstMap.BinarySearchTree.constructor` | BinarySearchTree.h:46-48 | a new map is empty, with a null root and size 0 |
| `BstMap.BinarySearchTree.Copy` | BinarySearchTree.h:49-52 | the copy has the source's tree, contents and size, and is valid |
| `BstMap.BinarySearchTree.Move` | BinarySearchTree.h:53-59 | the new map takes over the source's root, contents and size; the source is left with a null root and size 0 |
| `BstMap.BinarySearchTree.Min` | BinarySearchTree.h:64 | on a non-empty map, the pair with the smallest key, as stored |
| `BstMap.BinarySearchTree.Max` | BinarySearchTree.h:65 | on a non-empty map, the pair with the largest key, as stored |
| `BstMap.BinarySearchTree.Root` | BinarySearchTree.h:66-68 | on a non-empty map, the root's pair, which is one of the stored entries |
| `BstMap.BinarySearchTree.Contains` | BinarySearchTree.h:69 | true exactly when the key is stored |
| `BstMap.BinarySearchTree.Find` | BinarySearchTree.h:70-71 | for a stored key, the value stored under it |
| `BstMap.BinarySearchTree.Empty` | BinarySearchTree.h:72-77 | on a valid map, true exactly when the map has no entry, and exactly when the root is null |
| `BstMap.BinarySearchTree.Size` | BinarySearchTree.h:78-80 | on a valid map, the number of entries |
| `BstMap.BinarySearchTree.Clear` | BinarySearchTree.h:82-85 | afterwards the root is null, the size is 0 and the map is empty (also from an empty map) |
| `BstMap.BinarySearchTree.Insert` | BinarySearchTree.h:86-87 | upsert: the new tree is exactly `Inserted(x, old root)`, so no node moves and the new leaf hangs where the search fell off; the new contents are the old ones updated at the key; the size grows by one exactly when the key was absent; an empty map gets a single leaf; an existing root keeps its key, takes the new pair when the key matches and otherwise keeps its pair, with the new entry going into its left subtree for a smaller key and its right subtree for a larger one, the other subtree untouched; the invariant is kept |
| `BstMap.BinarySearchTree.Erase` | BinarySearchTree.h:88 | the new tree is exactly `Erased(key, old root)`, so keys outside the matched node's subtree keep their positions; the new contents are the old ones without the key; the size drops by one exactly when the key was present; an absent key leaves the tree unchanged; a root with another key keeps its pair, and the subtree the search does not enter is kept; a matched root with one child is replaced by that child, and one with two children stays in place, keeps its left subtree and takes its in-order successor's pair; the invariant is kept |
| `BstMap.BinarySearchTree.CopyAssign` | BinarySearchTree.h:90-99 | the target ends with the source's tree, contents and size; the source is untouched; self-assignment changes nothing |
| `BstMap.BinarySearchTree.MoveAssign` | BinarySearchTree.h:100-112 | the target ends with the source's old tree, contents and size; a distinct source is left with a null root and size 0; self-assignment changes nothing |
| `BstMap.BinarySearchTree.InsertAt` | BinarySearchTree.h:131-144 | the result is exactly `Inserted(x, t)`, in which every stored key and the new key keep their search paths; on an ordered subtree the result is ordered, maps the old entries updated at the key, and has one more node exactly when the key was absent, in which case `size` was incremented exactly once; an absent position becomes a new leaf; an existing node keeps its key, takes the new pair when the key matches and otherwise keeps its pair, and a smaller key goes left and a larger key right, leaving the other subtree untouched |
| `BstMap.BinarySearchTree.EraseAt` | BinarySearchTree.h:146-184 | the result is exactly `Erased(key, t)`, in which every key outside the matched node's subtree keeps its search path, and the link the search does not follow is kept; on an ordered subtree the result is ordered and maps the old entries minus the key; when the key was present it has one node fewer and `size` was decremented exactly once, also in the two-children case; when absent, the subtree and `size` are unchanged; a node with another key keeps its pair; a matched node with one or no child is replaced by that child (or null), and one with two children stays in place over the same left subtree and takes its in-order successor's pair |
| `BstMap.BinarySearchTree.ClearAt` | BinarySearchTree.h:228-236 | the link ends null; every node's pair is released exactly once, in post-order (`PostOrder`): at every node the left subtree's pairs first, then the right subtree's, then the node's own |

## Left out

- Printing and visualisation (`printNode`, `printLevelByLevel`, both `printTree` and
  both `vizTree`) only write text to a stream, and `vizTree` names nodes by
  `std::hash`, whose values cannot be modelled.
- The `Comparator` template parameter: keys are `int` under `<`. Any other strict weak
  order is not modelled.
- Memory management: nodes are values, so `new`, `delete`, the destructor and pointer
  aliasing between nodes are not modelled. The `node_ptr &t` link a private method
  rewrites in place becomes an argument and a returned subtree. `ClearAt` records each
  `delete` as a released pair instead of freeing memory.
- BstMap.BinarySearchTree.Find: returns the stored value, not a reference through which
  the caller could overwrite it, so writes through the reference that the non-const
  `find` returns are not modelled.
- BstMap.BinarySearchTree.Min, BstMap.BinarySearchTree.Max, BstMap.BinarySearchTree.Root
  and BstMap.BinarySearchTree.Find require a non-empty map or a present key. The C++
  code dereferences a null pointer in those cases and reports no error; the model
  states these cases as preconditions.
- BstNodes.MinNode and BstNodes.MaxNode return the recursive call's result. The C++
  helpers call themselves on the child and then fall off the end without a `return`
  (lines 190 and 196), which is undefined behaviour in C++. The model gives the
  evidently intended result.
- The `const pair&` and `pair&&` overloads of `insert` are one `Insert` taking an
  `Entry`. After creating a leaf, the `const pair&` overload falls through and assigns
  the same pair to the new node a second time. That has no observable effect, so the
  model follows the `pair&&` overload.
- `_size` is a `size_t`. The model uses an unbounded `nat`: the count never exceeds the
  number of allocated nodes, so wrap-around cannot happen.
- The recursion depth is the tree depth, which a sorted insertion order makes linear.
  Stack exhaustion is not modelled.
- Copies are independent of their source by construction, because trees are values.
  `BstScenarios.CopyIsIndependent` shows this through the contracts.
