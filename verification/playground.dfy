/**
 The concrete tree the playground builds with `insert`, and the shapes that
 insertion order gives a tree (there is no rebalancing).
 */
module Playground {
  import opened BinaryTrees
  import opened BinaryTreeLemmas

  /** Inserting 5, 7, 9, 2, 6 into `.empty`, one `insert` call each. */
  function DemoTree(): (t: BinaryTree)
    ensures Count(t) == 5
    ensures IsBST(t)
  {
    var t1 := Insert(Empty, 5);
    InsertPreservesBST(t1, 7);
    var t2 := Insert(t1, 7);
    InsertPreservesBST(t2, 9);
    var t3 := Insert(t2, 9);
    InsertPreservesBST(t3, 2);
    var t4 := Insert(t3, 2);
    InsertPreservesBST(t4, 6);
    Insert(t4, 6)
  }

  /** The shape the five insertions give: 5 at the root, 2 on its left, and
      7 on its right with children 6 and 9. */
  lemma DemoTreeShape()
    ensures DemoTree() == Node(Node(Empty, 2, Empty), 5, Node(Node(Empty, 6, Empty), 7, Node(Empty, 9, Empty)))
  {
  }

  /** The in-order walk of the demo tree, its pre-order walk, and two
      searches: one for a stored value, one for a value between two stored
      ones. */
  lemma DemoTreeBehaviour()
    ensures InOrder(DemoTree()) == [2, 5, 6, 7, 9]
    ensures PreOrder(DemoTree()) == [5, 2, 7, 6, 9]
    ensures Search(DemoTree(), 9).Some? && Search(DemoTree(), 9).value.value == 9
    ensures Search(DemoTree(), 3).None?
  {
  }

  /** Ascending insertion builds a right-only chain; inserting the middle
      value first builds a balanced tree. */
  lemma InsertionOrderDecidesShape()
    ensures Insert(Insert(Insert(Empty, 1), 2), 3) == Node(Empty, 1, Node(Empty, 2, Node(Empty, 3, Empty)))
    ensures Insert(Insert(Insert(Empty, 2), 1), 3) == Node(Node(Empty, 1, Empty), 2, Node(Empty, 3, Empty))
  {
  }
}
