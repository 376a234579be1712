# Binary search tree

A Dafny model of a Swift playground's small generic binary search tree, `BinaryTree<T: Comparable>`.
The tree is either empty or a node holding a left subtree, a value and a right subtree.
It comes with these operations:

- a size count;
- two insertion disciplines: a "mutating" `nativeInsert`, and a persistent `insert` that rebuilds the insertion path and shares every other subtree;
- the three depth-first traversals;
- exact-match search.

Values equal to or less than a node's value go left.
Strictly greater values go right.

Files:

- `binary_tree.dfy`, module `BinaryTrees`: the datatype and the operations.
  It also defines the multiset of a tree's values (`Elements`), the subtree relation (`IsSubtree`) and the ordering policy (`IsBST`).
  `IsBST` is built from two bound predicates, `AllAtMost` and `AllAbove`.
- `binary_tree_lemmas.dfy`, module `BinaryTreeLemmas`: properties that relate several calls.
  These cover traversal contents, sorted in-order output, search completeness, the two insertion disciplines and the two post-order walks.
- `playground.dfy`, module `Playground`: the tree the playground builds by inserting 5, 7, 9, 2, 6, and how insertion order decides a tree's shape.

Modelling choices:

- The element type is `int`. The Swift code only uses `>` and `==` of its `Comparable` bound, and these are `int`'s own.
- Mutating members become functions from the receiver's old value to its new value. `insert` only rebinds the receiver to the result of `newTreeWithInsertedValue`, so both are modelled by `Insert`.
- Each traversal returns the sequence of values it would hand to its `process` callback, in order.
- `search` returns `Option<BinaryTree>`: `Some` holds the matching subtree, and `None` plays the role of `nil`.

## Model

| member | source | states |
|---|---|---|
| BinaryTrees.Count | Algorithm1.playground/Contents.swift:44-50 | the count is 0 exactly for the empty tree |
| BinaryTreeLemmas.CountIsSize | Algorithm1.playground/Contents.swift:44-50 | the count is the number of values the tree holds, with multiplicity |
| BinaryTrees.NativeInsert | Algorithm1.playground/Contents.swift:53-64 | as written: on `.empty` the receiver becomes the singleton node; on any node the receiver is left exactly as it was |
| BinaryTrees.NativeInsertWriteBack | Algorithm1.playground/Contents.swift:53-64 | in-place insertion with the updated child written back yields the same tree as persistent insertion, so the two disciplines agree |
| BinaryTrees.Insert | Algorithm1.playground/Contents.swift:66-81 | the result holds the old values plus exactly one more copy of the new value; on `.empty` it is the singleton; on a node the root value and the subtree on the other side are kept unchanged |
| BinaryTreeLemmas.AllAtMostElements | Algorithm1.playground/Contents.swift:75-78 | the left-side half of the ordering policy holds of a subtree and a bound exactly when every value the subtree holds is equal to or less than the bound |
| BinaryTreeLemmas.AllAboveElements | Algorithm1.playground/Contents.swift:75-78 | the right-side half of the ordering policy holds of a subtree and a bound exactly when every value the subtree holds is strictly greater than the bound |
| BinaryTreeLemmas.InsertPreservesBST | Algorithm1.playground/Contents.swift:70-80 | persistent insertion into a tree that keeps the ordering policy yields a tree that keeps it |
| BinaryTrees.InsertAll | Algorithm1.playground/Contents.swift:135-140 | inserting a sequence of values one by one adds exactly those values, each as often as it occurs in the sequence |
| BinaryTrees.InOrder | Algorithm1.playground/Contents.swift:83-92 | the in-order walk visits as many values as the tree holds, and visits none on an empty tree |
| BinaryTrees.PreOrder | Algorithm1.playground/Contents.swift:94-103 | the pre-order walk visits as many values as the tree holds, none on an empty tree, and starts with the root value |
| BinaryTrees.PostOrder | Algorithm1.playground/Contents.swift:105-114 | the post-order walk as written visits as many values as the tree holds, none on an empty tree, and ends with the root value |
| BinaryTrees.TruePostOrder | Algorithm1.playground/Contents.swift:105-114 | the corrected post-order walk visits as many values as the tree holds, none on an empty tree, and ends with the root value |
| BinaryTrees.Search | Algorithm1.playground/Contents.swift:116-130 | search of an empty tree finds nothing; a found result is a subtree of the searched tree whose root holds the key |
| BinaryTreeLemmas.InsertCount | Algorithm1.playground/Contents.swift:70-80 | persistent insertion increases the count by exactly one |
| BinaryTreeLemmas.InsertAllPreservesBST | Algorithm1.playground/Contents.swift:135-140 | repeated persistent insertion keeps the ordering policy |
| BinaryTreeLemmas.InOrderElements | Algorithm1.playground/Contents.swift:83-92 | the in-order walk hands every value of the tree to the callback exactly as often as the tree holds it |
| BinaryTreeLemmas.PreOrderElements | Algorithm1.playground/Contents.swift:94-103 | the pre-order walk hands every value of the tree to the callback exactly as often as the tree holds it |
| BinaryTreeLemmas.PostOrderElements | Algorithm1.playground/Contents.swift:105-114 | the as-written post-order walk still hands every value of the tree to the callback exactly as often as the tree holds it |
| BinaryTreeLemmas.TruePostOrderElements | Algorithm1.playground/Contents.swift:105-114 | the corrected post-order walk hands every value of the tree to the callback exactly as often as the tree holds it |
| BinaryTreeLemmas.InOrderSorted | Algorithm1.playground/Contents.swift:83-92 | on a tree that keeps the ordering policy, the in-order walk is non-decreasing |
| BinaryTreeLemmas.BuiltTreeInOrder | Algorithm1.playground/Contents.swift:135-146 | a tree built by inserting any sequence of values into `.empty` has as many nodes as the sequence has values, and walking it in order gives those values, each as often as inserted, in non-decreasing order |
| BinaryTreeLemmas.SearchFindsExactlyElements | Algorithm1.playground/Contents.swift:116-130 | on a tree that keeps the ordering policy, search finds a subtree exactly when the key is among the tree's values |
| BinaryTreeLemmas.NativeInsertLosesValue | Algorithm1.playground/Contents.swift:53-64 | on any node, as-written in-place insertion does not add the value and differs from persistent insertion |
| BinaryTreeLemmas.NativeInsertExample | Algorithm1.playground/Contents.swift:53-64 | in-place insertion of 3 under a lone 5 leaves the in-order walk `[5]`; the write-back version gives `[3, 5]` |
| BinaryTreeLemmas.PostOrderRotatesPreOrder | Algorithm1.playground/Contents.swift:105-114 | on a node, the as-written post-order walk is the pre-order walk with the root moved from the front to the back |
| BinaryTreeLemmas.PostOrderIsNotPostOrder | Algorithm1.playground/Contents.swift:105-114 | for root 4 with left child 2 whose children are 1 and 3, the as-written walk gives `[2, 1, 3, 4]` and true post-order gives `[1, 3, 2, 4]` |
| BinaryTreeLemmas.TruePostOrderMirrorsPreOrder | Algorithm1.playground/Contents.swift:105-114 | the corrected post-order walk of a tree is its mirror image's pre-order walk read backwards |
| Playground.DemoTree | Algorithm1.playground/Contents.swift:135-140 | inserting 5, 7, 9, 2, 6 into `.empty` gives a tree of five values that keeps the ordering policy |
| Playground.DemoTreeShape | Algorithm1.playground/Contents.swift:135-140 | the five insertions put 5 at the root with 2 to its left and 7 to its right, and 7 has children 6 and 9 |
| Playground.DemoTreeBehaviour | Algorithm1.playground/Contents.swift:135-146 | the demo tree walks in order as `[2, 5, 6, 7, 9]` and in pre-order as `[5, 2, 7, 6, 9]`; searching for 9 finds a node holding 9, and searching for 3 finds nothing |
| Playground.InsertionOrderDecidesShape | Algorithm1.playground/Contents.swift:66-81 | inserting 1, 2, 3 builds a right-only chain, while inserting 2, 1, 3 builds a balanced tree with 2 at the root |

## Left out

- `import UIKit` and the reference-type `class Node<T>` (Contents.swift:1-11): the rest of the file never uses them.
- The hand-built string expression tree (Contents.swift:18-32): it is demo data and does not follow the ordering policy.
- `description` (Contents.swift:34-42): this diagnostic rendering depends on Swift string interpolation of a generic value.
- `print` calls and the closure-passing style of the traversals (Contents.swift:146-148): each traversal returns the visited values as a sequence instead.
- The complexity comments (Contents.swift:143-144): they describe running time, not behaviour.
- The element type is `int` rather than an arbitrary `Comparable` type.
- BinaryTrees.Count: Swift's `Int` overflow is not modelled; a count past `Int.max` would need more nodes than any memory holds.
- BinaryTrees.Search: when the key occurs more than once, the contract does not say which matching subtree comes back. The body returns the first one on the search path.
- The two quirks of the Swift code are modelled as written, and each also has a corrected version (see Findings).
  - `nativeInsert` on a node discards its work.
  - `traversePostOrder` walks both children in pre-order.
- `nativeInsert` is declared `mutating` and assigns `self` on `.empty` (Contents.swift:53-56), so it is meant to insert, yet on a node it inserts nothing. The name `traversePostOrder` promises left, right, then root at every level, yet it walks both children in pre-order (Contents.swift:110-111), so the two orders differ once the root has a grandchild. The model follows the code.

## Findings

| source | as written | input that shows it | evidently intended | confidence | as-written member | corrected member |
|---|---|---|---|---|---|---|
| Algorithm1.playground/Contents.swift:53-64 | on a node, the insertion recurses into the pattern-bound copies `var left` / `var right`, and `self` is never reassigned, so nothing is inserted | `nativeInsert(newValue: 3)` on `.node(.empty, 5, .empty)` leaves the tree holding only 5 | write the updated child back into the receiver, which makes the in-place discipline agree with `insert` | medium, not executed | BinaryTrees.NativeInsert (shown by BinaryTreeLemmas.NativeInsertLosesValue, BinaryTreeLemmas.NativeInsertExample) | BinaryTrees.NativeInsertWriteBack |
| Algorithm1.playground/Contents.swift:110-111 | `traversePostOrder` calls `traversePreOrder` on both children, so inside each child every node is visited before its own children | root 4 with left child 2 whose children are 1 and 3: the walk visits 2, 1, 3, 4 | visit the left subtree, then the right subtree, then the root, at every level: 1, 3, 2, 4 | high, not executed | BinaryTrees.PostOrder (shown by BinaryTreeLemmas.PostOrderIsNotPostOrder) | BinaryTrees.TruePostOrder (proved by BinaryTreeLemmas.TruePostOrderMirrorsPreOrder) |
