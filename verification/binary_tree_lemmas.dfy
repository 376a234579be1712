/**
 Properties of the binary search tree operations that relate several calls:
 ordering of the in-order walk, completeness of search, the behaviour of the
 two insertion disciplines and the shape of the two post-order walks.
 */
module BinaryTreeLemmas {
  import opened BinaryTrees

  /** `AllAtMost` says of the tree's values what its name says. */
  lemma {:induction false} AllAtMostElements(t: BinaryTree, bound: int)
    ensures AllAtMost(t, bound) <==> forall y | y in Elements(t) :: y <= bound
  {
    match t
    case Empty =>
    case Node(left, value, right) =>
      AllAtMostElements(left, bound);
      AllAtMostElements(right, bound);
      assert value in Elements(t);
      assert forall y | y in Elements(left) || y in Elements(right) :: y in Elements(t);
  }

  /** `AllAbove` says of the tree's values what its name says. */
  lemma {:induction false} AllAboveElements(t: BinaryTree, bound: int)
    ensures AllAbove(t, bound) <==> forall y | y in Elements(t) :: y > bound
  {
    match t
    case Empty =>
    case Node(left, value, right) =>
      AllAboveElements(left, bound);
      AllAboveElements(right, bound);
      assert value in Elements(t);
      assert forall y | y in Elements(left) || y in Elements(right) :: y in Elements(t);
  }

  /** Inserting a value within a bound keeps every value within it. */
  lemma {:induction false} InsertAtMost(t: BinaryTree, x: int, bound: int)
    requires AllAtMost(t, bound) && x <= bound
    ensures AllAtMost(Insert(t, x), bound)
  {
    match t
    case Empty =>
    case Node(left, value, right) =>
      if x > value {
        InsertAtMost(right, x, bound);
      } else {
        InsertAtMost(left, x, bound);
      }
  }

  /** Inserting a value above a bound keeps every value above it. */
  lemma {:induction false} InsertAbove(t: BinaryTree, x: int, bound: int)
    requires AllAbove(t, bound) && x > bound
    ensures AllAbove(Insert(t, x), bound)
  {
    match t
    case Empty =>
    case Node(left, value, right) =>
      if x > value {
        InsertAbove(right, x, bound);
      } else {
        InsertAbove(left, x, bound);
      }
  }

  /** Persistent insertion keeps the ordering policy: the new value lands in
      the left subtree exactly when it is not greater than the node's value. */
  lemma {:induction false} InsertPreservesBST(t: BinaryTree, x: int)
    requires IsBST(t)
    ensures IsBST(Insert(t, x))
  {
    match t
    case Empty =>
    case Node(left, value, right) =>
      if x > value {
        InsertPreservesBST(right, x);
        InsertAbove(right, x, value);
      } else {
        InsertPreservesBST(left, x);
        InsertAtMost(left, x, value);
      }
  }

  /** The count is the number of values the tree holds, with multiplicity. */
  lemma {:induction false} CountIsSize(t: BinaryTree)
    ensures Count(t) == |Elements(t)|
  {
    match t
    case Empty =>
    case Node(left, value, right) =>
      CountIsSize(left);
      CountIsSize(right);
  }

  /** Persistent insertion adds exactly one node. */
  lemma {:induction false} InsertCount(t: BinaryTree, x: int)
    ensures Count(Insert(t, x)) == Count(t) + 1
  {
    CountIsSize(t);
    CountIsSize(Insert(t, x));
  }

  /** Repeated persistent insertion keeps the ordering policy. */
  lemma {:induction false} InsertAllPreservesBST(t: BinaryTree, xs: seq<int>)
    requires IsBST(t)
    ensures IsBST(InsertAll(t, xs))
    decreases |xs|
  {
    if xs != [] {
      InsertPreservesBST(t, xs[0]);
      InsertAllPreservesBST(Insert(t, xs[0]), xs[1..]);
    }
  }

  /** Each traversal hands every value of the tree to its callback exactly as
      often as the tree holds it. */
  lemma {:induction false} InOrderElements(t: BinaryTree)
    ensures multiset(InOrder(t)) == Elements(t)
  {
    match t
    case Empty =>
    case Node(left, value, right) =>
      InOrderElements(left);
      InOrderElements(right);
      assert InOrder(t) == InOrder(left) + [value] + InOrder(right);
  }

  lemma {:induction false} PreOrderElements(t: BinaryTree)
    ensures multiset(PreOrder(t)) == Elements(t)
  {
    match t
    case Empty =>
    case Node(left, value, right) =>
      PreOrderElements(left);
      PreOrderElements(right);
      assert PreOrder(t) == [value] + PreOrder(left) + PreOrder(right);
  }

  lemma {:induction false} PostOrderElements(t: BinaryTree)
    ensures multiset(PostOrder(t)) == Elements(t)
  {
    match t
    case Empty =>
    case Node(left, value, right) =>
      PreOrderElements(left);
      PreOrderElements(right);
      assert PostOrder(t) == PreOrder(left) + PreOrder(right) + [value];
  }

  lemma {:induction false} TruePostOrderElements(t: BinaryTree)
    ensures multiset(TruePostOrder(t)) == Elements(t)
  {
    match t
    case Empty =>
    case Node(left, value, right) =>
      TruePostOrderElements(left);
      TruePostOrderElements(right);
      assert TruePostOrder(t) == TruePostOrder(left) + TruePostOrder(right) + [value];
  }

  /** Gluing two sorted runs around a pivot that separates them keeps the
      whole sorted. */
  lemma SortedAroundPivot(a: seq<int>, v: int, b: seq<int>)
    requires Sorted(a) && Sorted(b)
    requires forall y | y in multiset(a) :: y <= v
    requires forall y | y in multiset(b) :: y > v
    ensures Sorted(a + [v] + b)
  {
    var s := a + [v] + b;
    forall i, j | 0 <= i < j < |s| ensures s[i] <= s[j] {
      if i < |a| {
        assert a[i] in multiset(a);
        if j >= |a| + 1 {
          assert b[j - |a| - 1] in multiset(b);
        }
      } else if i == |a| {
        assert b[j - |a| - 1] in multiset(b);
      }
    }
  }

  /** On a tree that keeps the ordering policy, the in-order walk is sorted. */
  lemma {:induction false} InOrderSorted(t: BinaryTree)
    requires IsBST(t)
    ensures Sorted(InOrder(t))
  {
    match t
    case Empty =>
    case Node(left, value, right) =>
      InOrderSorted(left);
      InOrderSorted(right);
      InOrderElements(left);
      InOrderElements(right);
      AllAtMostElements(left, value);
      AllAboveElements(right, value);
      SortedAroundPivot(InOrder(left), value, InOrder(right));
  }

  /** Inserting `xs` one by one from the empty tree and walking it in order
      yields exactly the values of `xs`, sorted. */
  lemma BuiltTreeInOrder(xs: seq<int>)
    ensures Sorted(InOrder(InsertAll(Empty, xs)))
    ensures multiset(InOrder(InsertAll(Empty, xs))) == multiset(xs)
    ensures Count(InsertAll(Empty, xs)) == |xs|
  {
    var t := InsertAll(Empty, xs);
    CountIsSize(t);
    InsertAllPreservesBST(Empty, xs);
    InOrderSorted(t);
    InOrderElements(t);
  }

  /** On a tree that keeps the ordering policy, search succeeds exactly for
      the values the tree holds. */
  lemma {:induction false} SearchFindsExactlyElements(t: BinaryTree, x: int)
    requires IsBST(t)
    ensures Search(t, x).Some? <==> x in Elements(t)
  {
    match t
    case Empty =>
    case Node(left, value, right) =>
      if x == value {
      } else if x > value {
        SearchFindsExactlyElements(right, x);
        AllAtMostElements(left, value);
        assert x !in Elements(left);
      } else {
        SearchFindsExactlyElements(left, x);
        AllAboveElements(right, value);
        assert x !in Elements(right);
      }
  }

  /** On a node, the as-written `nativeInsert` does not add the value that
      persistent insertion adds. */
  lemma NativeInsertLosesValue(t: BinaryTree, x: int)
    requires t.Node?
    ensures Elements(NativeInsert(t, x)) != Elements(t) + multiset{x}
    ensures NativeInsert(t, x) != Insert(t, x)
  {
    assert (Elements(t) + multiset{x})[x] == Elements(t)[x] + 1;
  }

  /** A concrete witness: inserting 3 under a root 5 in place leaves the tree
      holding 5 alone, where the write-back version holds 3 and 5. */
  lemma NativeInsertExample()
    ensures InOrder(NativeInsert(Node(Empty, 5, Empty), 3)) == [5]
    ensures InOrder(NativeInsertWriteBack(Node(Empty, 5, Empty), 3)) == [3, 5]
  {
  }

  /** The as-written post-order walk is the pre-order walk with the root
      moved from the front to the back. */
  lemma PostOrderRotatesPreOrder(t: BinaryTree)
    requires t.Node?
    ensures PostOrder(t) == PreOrder(t)[1..] + [PreOrder(t)[0]]
  {
    RotateHead(PreOrder(t), PostOrder(t), t.value, PreOrder(t.left), PreOrder(t.right));
  }

  /** Moving the head of `[v] + a + b` to the back gives `a + b + [v]`. */
  lemma RotateHead(pre: seq<int>, post: seq<int>, v: int, a: seq<int>, b: seq<int>)
    requires pre == [v] + a + b && post == a + b + [v]
    ensures post == pre[1..] + [pre[0]]
  {
    assert pre[1..] == a + b;
  }

  /** A concrete witness: with a left child that has children of its own, the
      as-written post-order walk emits that child before its children. */
  lemma PostOrderIsNotPostOrder()
    ensures PostOrder(Node(Node(Node(Empty, 1, Empty), 2, Node(Empty, 3, Empty)), 4, Empty)) == [2, 1, 3, 4]
    ensures TruePostOrder(Node(Node(Node(Empty, 1, Empty), 2, Node(Empty, 3, Empty)), 4, Empty)) == [1, 3, 2, 4]
  {
  }

  /** The tree with every node's children swapped. */
  function Mirror(t: BinaryTree): (m: BinaryTree)
  {
    match t
    case Empty => Empty
    case Node(left, value, right) => Node(Mirror(right), value, Mirror(left))
  }

  /** A sequence read back to front. */
  function Reverse(s: seq<int>): (r: seq<int>)
  {
    if s == [] then [] else Reverse(s[1..]) + [s[0]]
  }

  lemma {:induction false} ReverseConcat(a: seq<int>, b: seq<int>)
    ensures Reverse(a + b) == Reverse(b) + Reverse(a)
    decreases |a|
  {
    if a == [] {
      assert a + b == b;
    } else {
      assert (a + b)[1..] == a[1..] + b;
      ReverseConcat(a[1..], b);
    }
  }

  /** Reading `[v] + a + b` back to front gives `Reverse(b) + Reverse(a) + [v]`. */
  lemma ReverseAroundHead(v: int, a: seq<int>, b: seq<int>)
    ensures Reverse([v] + a + b) == Reverse(b) + Reverse(a) + [v]
  {
    ReverseConcat([v] + a, b);
    ReverseConcat([v], a);
    assert Reverse([v]) == [v] by {
      assert [v][1..] == [];
    }
  }

  /** Post-order is the reverse of the pre-order walk of the mirrored tree:
      an independent description of the order the corrected walk produces. */
  lemma {:induction false} TruePostOrderMirrorsPreOrder(t: BinaryTree)
    ensures TruePostOrder(t) == Reverse(PreOrder(Mirror(t)))
  {
    match t
    case Empty =>
    case Node(left, value, right) =>
      TruePostOrderMirrorsPreOrder(left);
      TruePostOrderMirrorsPreOrder(right);
      ReverseAroundHead(value, PreOrder(Mirror(right)), PreOrder(Mirror(left)));
  }
}
