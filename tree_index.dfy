/**
 * Index arithmetic of the implicit binary tree: a complete binary tree is
 * stored densely in a zero-indexed sequence, the root at index 0 and the
 * children of node i at 2i+1 and 2i+2.
 */
module TreeIndex {

  /** Index of the parent of node `i`. The root (index 0) has no parent. */
  function Parent(i: nat): (p: nat)
    requires 0 < i
    ensures p < i
    ensures i == 2 * p + 1 || i == 2 * p + 2
  {
    (i - 1) / 2
  }

  /** Index of the left child of node `i`. */
  function Left(i: nat): (l: nat)
    ensures i < l && l % 2 == 1
  {
    2 * i + 1
  }

  /** Index of the right child of node `i`: the left child's sibling. */
  function Right(i: nat): (r: nat)
    ensures r == Left(i) + 1
  {
    2 * i + 2
  }

  /** Both children of `i` have `i` as their parent. */
  lemma ChildrenHaveParent(i: nat)
    ensures Parent(Left(i)) == i && Parent(Right(i)) == i
  {
  }

  /** A non-root node is exactly one of its parent's two children. */
  lemma ParentHasChild(i: nat, j: nat)
    requires 0 < j
    ensures Parent(j) == i <==> j == Left(i) || j == Right(i)
  {
  }
}
