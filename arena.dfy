/** The node store both decoders build before wiring children.

    Entry `i` of the input becomes the node with handle `i` (a fresh
    `TreeNode::new`) or no node at all. A node's `left` and `right` fields
    live in two arrays indexed by handle and are assigned in place, which is
    what `borrow_mut().left = ...` does to the shared node. */
module Arena {
  import opened Trees

  /** The decoder input: one optional value per position, in level order. */
  type Entries = seq<Option<i32>>

  /** A node handle (`Option<Rc<RefCell<TreeNode>>>`), or `None`. */
  type Link = Option<nat>

  /** `nodes` holds one handle per entry: handle `i` for a present entry,
      nothing for an absent one. */
  ghost predicate IsNodes(tree: Entries, nodes: seq<Link>)
  {
    && |nodes| == |tree|
    && forall i :: 0 <= i < |tree| ==>
         (nodes[i].Some? <==> tree[i].Some?) && (nodes[i].Some? ==> nodes[i].value == i)
  }

  /** The first loop of both decoders: allocate one fresh childless node per
      present entry, keeping the positions of absent ones. */
  method NewNodes(tree: Entries) returns (nodes: seq<Link>)
    ensures IsNodes(tree, nodes)
  {
    nodes := [];
    for i := 0 to |tree|
      invariant |nodes| == i
      invariant forall k :: 0 <= k < i ==>
                  (nodes[k].Some? <==> tree[k].Some?) && (nodes[k].Some? ==> nodes[k].value == k)
    {
      nodes := nodes + [if tree[i].Some? then Some(i) else None];
    }
  }

  /** A link from node `i` points to a present entry after `i`. Every link the
      decoders write has this shape, so the arena is acyclic. */
  ghost predicate LinkOk(tree: Entries, i: nat, link: Link)
  {
    link.Some? ==> i < link.value < |tree| && tree[link.value].Some?
  }

  ghost predicate WellLinked(tree: Entries, left: seq<Link>, right: seq<Link>)
  {
    && |left| == |tree| && |right| == |tree|
    && forall i :: 0 <= i < |tree| ==> LinkOk(tree, i, left[i]) && LinkOk(tree, i, right[i])
  }

  /** The tree an observer reads through handle `h` once linking is done. */
  function ToTree(tree: Entries, left: seq<Link>, right: seq<Link>, h: Link): Tree
    requires WellLinked(tree, left, right)
    requires h.Some? ==> h.value < |tree| && tree[h.value].Some?
    decreases if h.Some? then |tree| - h.value else 0
  {
    match h
    case None => Nil
    case Some(i) => Node(tree[i].value, ToTree(tree, left, right, left[i]), ToTree(tree, left, right, right[i]))
  }
}
