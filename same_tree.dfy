/** `Solution::is_same_tree` (examples/is_same_tree.rs): structural equality
    of two trees read through their root handles. */
module SameTree {
  import opened Trees

  /** Both empty, or both present with equal values and pairwise equal
      subtrees: exactly when the two trees are equal. */
  function IsSameTree(p: Tree, q: Tree): (same: bool)
    ensures same <==> p == q
  {
    if p.Nil? && q.Nil? then true
    else if p.Node? && q.Node? then
      p.val == q.val && IsSameTree(p.left, q.left) && IsSameTree(p.right, q.right)
    else false
  }
}
