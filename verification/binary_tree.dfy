/**
 A persistent model of the generic binary search tree `BinaryTree<T: Comparable>`:
 an empty marker or a node holding a left subtree, a value and a right subtree.
 The element type is `int`, ordered by `>` and compared with `==` as the
 Comparable bound does for the Swift element type.

 The Swift playground's mutating members (`nativeInsert`, `insert`) are modelled as
 functions from the receiver's old value to its new value.
 */
module BinaryTrees {

  /** The optional subtree returned by `Search`. */
  datatype Option<+T> = None | Some(value: T)

  datatype BinaryTree = Empty | Node(left: BinaryTree, value: int, right: BinaryTree)

  /** The multiset of values held anywhere in a tree. */
  ghost function Elements(t: BinaryTree): (m: multiset<int>)
  {
    match t
    case Empty => multiset{}
    case Node(left, value, right) => Elements(left) + multiset{value} + Elements(right)
  }

  /** Every value held in `t` is at most `bound`. */
  ghost predicate AllAtMost(t: BinaryTree, bound: int)
  {
    match t
    case Empty => true
    case Node(left, value, right) => value <= bound && AllAtMost(left, bound) && AllAtMost(right, bound)
  }

  /** Every value held in `t` is strictly greater than `bound`. */
  ghost predicate AllAbove(t: BinaryTree, bound: int)
  {
    match t
    case Empty => true
    case Node(left, value, right) => value > bound && AllAbove(left, bound) && AllAbove(right, bound)
  }

  /** The ordering policy the insertion routines maintain: values equal to or
      less than a node's value go left, strictly greater values go right. */
  ghost predicate IsBST(t: BinaryTree)
  {
    match t
    case Empty => true
    case Node(left, value, right) =>
      IsBST(left) && IsBST(right) && AllAtMost(left, value) && AllAbove(right, value)
  }

  /** `s` is `t` itself or a subtree reachable from it. */
  ghost predicate IsSubtree(s: BinaryTree, t: BinaryTree)
  {
    s == t || (t.Node? && (IsSubtree(s, t.left) || IsSubtree(s, t.right)))
  }

  /** Non-decreasing order. */
  ghost predicate Sorted(s: seq<int>)
  {
    forall i, j | 0 <= i < j < |s| :: s[i] <= s[j]
  }

  /** Number of nodes, recomputed on every call. */
  function Count(t: BinaryTree): (n: nat)
    ensures n == 0 <==> t.Empty?
  {
    match t
    case Empty => 0
    case Node(left, _, right) => Count(left) + 1 + Count(right)
  }

  /** `nativeInsert` as the Swift code writes it: on a node, the recursive insertion
      goes into the pattern-bound copies `left` / `right`, which are never
      written back, so the receiver keeps its old value. */
  function NativeInsert(self: BinaryTree, newValue: int): (r: BinaryTree)
    ensures self.Empty? ==> r == Node(Empty, newValue, Empty)
    ensures self.Node? ==> r == self
  {
    match self
    case Empty => Node(Empty, newValue, Empty)
    case Node(left, value, right) =>
      var left' := if newValue > value then left else NativeInsert(left, newValue);
      var right' := if newValue > value then NativeInsert(right, newValue) else right;
      self
  }

  /** `nativeInsert` with the updated copies written back into the receiver,
      as the in-place discipline intends. */
  function NativeInsertWriteBack(self: BinaryTree, newValue: int): (r: BinaryTree)
    ensures r == Insert(self, newValue)
  {
    match self
    case Empty => Node(Empty, newValue, Empty)
    case Node(left, value, right) =>
      var left' := if newValue > value then left else NativeInsertWriteBack(left, newValue);
      var right' := if newValue > value then NativeInsertWriteBack(right, newValue) else right;
      Node(left', value, right')
  }

  /** Persistent insertion (`newTreeWithInsertedValue`; `insert` rebinds the
      receiver to its result): rebuilds the path to the new leaf and shares
      every subtree off that path. */
  function Insert(t: BinaryTree, newValue: int): (r: BinaryTree)
    ensures Elements(r) == Elements(t) + multiset{newValue}
    ensures t.Empty? ==> r == Node(Empty, newValue, Empty)
    ensures t.Node? && newValue > t.value ==> r.Node? && r.left == t.left && r.value == t.value
    ensures t.Node? && newValue <= t.value ==> r.Node? && r.right == t.right && r.value == t.value
  {
    match t
    case Empty => Node(Empty, newValue, Empty)
    case Node(left, value, right) =>
      if newValue > value then Node(left, value, Insert(right, newValue))
      else Node(Insert(left, newValue), value, right)
  }

  /** Persistent insertion of each value of `xs` in turn, as a caller starting
      from `.empty` does with repeated `insert` calls. */
  function InsertAll(t: BinaryTree, xs: seq<int>): (r: BinaryTree)
    ensures Elements(r) == Elements(t) + multiset(xs)
    decreases |xs|
  {
    if xs == [] then t
    else
      assert xs == [xs[0]] + xs[1..];
      InsertAll(Insert(t, xs[0]), xs[1..])
  }

  /** Values in the order `traverseInOrder` hands them to its callback. */
  function InOrder(t: BinaryTree): (r: seq<int>)
    ensures |r| == Count(t)
    ensures t.Empty? ==> r == []
  {
    match t
    case Empty => []
    case Node(left, value, right) => InOrder(left) + [value] + InOrder(right)
  }

  /** Values in the order `traversePreOrder` hands them to its callback. */
  function PreOrder(t: BinaryTree): (r: seq<int>)
    ensures |r| == Count(t)
    ensures t.Empty? ==> r == []
    ensures t.Node? ==> |r| > 0 && r[0] == t.value
  {
    match t
    case Empty => []
    case Node(left, value, right) => [value] + PreOrder(left) + PreOrder(right)
  }

  /** Values in the order `traversePostOrder` hands them to its callback as the
      Swift code writes it: both children are walked in pre-order, then the root. */
  function PostOrder(t: BinaryTree): (r: seq<int>)
    ensures |r| == Count(t)
    ensures t.Empty? ==> r == []
    ensures t.Node? ==> |r| > 0 && r[|r| - 1] == t.value
  {
    match t
    case Empty => []
    case Node(left, value, right) => PreOrder(left) + PreOrder(right) + [value]
  }

  /** Post-order as the traversal's name promises: left subtree, right
      subtree, then the root, all the way down. */
  function TruePostOrder(t: BinaryTree): (r: seq<int>)
    ensures |r| == Count(t)
    ensures t.Empty? ==> r == []
    ensures t.Node? ==> |r| > 0 && r[|r| - 1] == t.value
  {
    match t
    case Empty => []
    case Node(left, value, right) => TruePostOrder(left) + TruePostOrder(right) + [value]
  }

  /** Exact-match search: the first subtree on the search path whose root
      holds `searchValue`, or `None`. */
  function Search(t: BinaryTree, searchValue: int): (r: Option<BinaryTree>)
    ensures t.Empty? ==> r.None?
    ensures r.Some? ==> IsSubtree(r.value, t) && r.value.Node? && r.value.value == searchValue
    ensures r.Some? ==> searchValue in Elements(t)
  {
    match t
    case Empty => None
    case Node(left, value, right) =>
      if searchValue == value then Some(t)
      else if searchValue > value then Search(right, searchValue)
      else Search(left, searchValue)
  }
}
