/** Values shared by both decoders: the `TreeNode` struct and its value type. */
module Trees {

  /** `i32`, the value type fixed by `TreeNodeI32`. */
  newtype i32 = x: int | -0x8000_0000 <= x < 0x8000_0000

  datatype Option<T> = None | Some(value: T)

  /** A tree as seen through `Option<Rc<RefCell<TreeNode>>>`: `Nil` is `None`.
      The nodes built by the decoders are never shared, so a tree value
      captures everything an observer can read from the root handle. */
  datatype Tree = Nil | Node(val: i32, left: Tree, right: Tree)

  /** Number of nodes reachable from the root. */
  function Size(t: Tree): nat
  {
    match t
    case Nil => 0
    case Node(_, l, r) => 1 + Size(l) + Size(r)
  }

  /** `TreeNode::new`: a single node holding `v`, with no children. */
  function Leaf(v: i32): (t: Tree)
    ensures t.Node? && t.val == v
    ensures Size(t) == 1
  {
    Node(v, Nil, Nil)
  }
}
