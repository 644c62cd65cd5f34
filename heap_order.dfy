/** The heap-indexed decoder of `src/lib.rs`: entry `i` receives entries
    `2i + 1` and `2i + 2` as children, whether or not the entries before it
    are present. Only the first half of the input is visited, since the
    nodes of the second half cannot have children.

    As written, the right-child index is not checked against the length of
    the input, so every even-length input whose middle entry is present
    indexes past the end (and panics). `FromVec` models that code;
    `FromVecChecked` is the decoder with the bounds check, which is the one
    the rest of the model relies on. */
module HeapOrder {
  import opened Trees
  import opened Arena
  import LevelOrder

  /** What `from_vec` does: build a tree, or panic on an out-of-bounds index. */
  datatype Outcome = Built(root: Tree) | OutOfBounds(index: nat)

  /** The tree rooted at entry `i` in the heap layout. */
  ghost function HeapSubtree(tree: Entries, i: nat): Tree
    decreases |tree| - i
  {
    if i >= |tree| || tree[i].None? then Nil
    else Node(tree[i].value, HeapSubtree(tree, 2 * i + 1), HeapSubtree(tree, 2 * i + 2))
  }

  ghost function HeapDecode(tree: Entries): Tree
  {
    HeapSubtree(tree, 0)
  }

  /** The inputs on which `from_vec` as written indexes `nodes[len]`: the
      last visited entry is present and its right child would be entry `len`. */
  predicate IndexesPastEnd(tree: Entries)
  {
    |tree| > 0 && |tree| % 2 == 0 && tree[|tree| / 2 - 1].Some?
  }

  /** The child field `side` of entry `i` in the heap layout. */
  ghost function HeapChild(tree: Entries, i: nat, side: nat): Link
    requires i < |tree| && side <= 1
  {
    if tree[i].Some? then LevelOrder.Slot(tree, 2 * i + 1 + side) else None
  }

  /** The child fields `side` once the entries before `upto` are linked. */
  ghost function HeapLinks(tree: Entries, upto: nat, side: nat): seq<Link>
    requires side <= 1
  {
    seq(|tree|, i requires 0 <= i < |tree| => if i < upto then HeapChild(tree, i, side) else None)
  }

  /** `TreeNode::from_vec` of `src/lib.rs`, as written: on an even-length
      input whose last visited entry is present it reads `nodes[len]`. */
  method FromVec(tree: Entries) returns (r: Outcome)
    ensures IndexesPastEnd(tree) ==> r == OutOfBounds(|tree|)
    ensures !IndexesPastEnd(tree) ==> r == Built(HeapDecode(tree))
  {
    if |tree| == 0 {
      return Built(Nil);
    }
    var nodes := NewNodes(tree);
    var left := new Link[|tree|](_ => None);
    var right := new Link[|tree|](_ => None);
    assert left[..] == HeapLinks(tree, 0, 0);
    assert right[..] == HeapLinks(tree, 0, 1);
    for i := 0 to |tree| / 2
      invariant left[..] == HeapLinks(tree, i, 0) && right[..] == HeapLinks(tree, i, 1)
      invariant IndexesPastEnd(tree) ==> i + 1 <= |tree| / 2
    {
      match nodes[i]
      case Some(p) =>
        LinkChild(tree, nodes, left, p, 0);
        if 2 * (i + 1) >= |tree| {
          return OutOfBounds(2 * (i + 1));
        }
        LinkChild(tree, nodes, right, p, 1);
      case None =>
        HeapLinksNext(tree, i, 0);
        HeapLinksNext(tree, i, 1);
    }
    HeapArenaDecodes(tree, left[..], right[..]);
    return Built(ToTree(tree, left[..], right[..], nodes[0]));
  }

  /** `from_vec` with the right-child index checked against the length:
      it never fails, and returns the heap-layout tree. */
  method FromVecChecked(tree: Entries) returns (root: Tree)
    ensures root == HeapDecode(tree)
  {
    if |tree| == 0 {
      return Nil;
    }
    var nodes := NewNodes(tree);
    var left := new Link[|tree|](_ => None);
    var right := new Link[|tree|](_ => None);
    assert left[..] == HeapLinks(tree, 0, 0);
    assert right[..] == HeapLinks(tree, 0, 1);
    for i := 0 to |tree| / 2
      invariant left[..] == HeapLinks(tree, i, 0) && right[..] == HeapLinks(tree, i, 1)
    {
      match nodes[i]
      case Some(p) =>
        LinkChild(tree, nodes, left, p, 0);
        if 2 * (i + 1) < |tree| {
          LinkChild(tree, nodes, right, p, 1);
        } else {
          HeapLinksNext(tree, i, 1);
        }
      case None =>
        HeapLinksNext(tree, i, 0);
        HeapLinksNext(tree, i, 1);
    }
    HeapArenaDecodes(tree, left[..], right[..]);
    root := ToTree(tree, left[..], right[..], nodes[0]);
  }

  /** One child assignment of the loop: the child field `side` of the present
      entry `i` gets the node of entry `2 * (i + 1) - 1 + side`, if there is
      one; every other field keeps its value. */
  method LinkChild(tree: Entries, nodes: seq<Link>, a: array<Link>, i: nat, side: nat)
    requires IsNodes(tree, nodes) && a.Length == |tree| && side <= 1
    requires i < |tree| && tree[i].Some? && 2 * (i + 1) - 1 + side < |tree|
    requires a[..] == HeapLinks(tree, i, side)
    modifies a
    ensures a[..] == HeapLinks(tree, i + 1, side)
  {
    HeapLinksNext(tree, i, side);
    var c := 2 * (i + 1) - 1 + side;
    if nodes[c].Some? {
      a[i] := nodes[c];
    }
  }

  /** Visiting entry `i` sets its two child fields and nothing else. */
  lemma HeapLinksNext(tree: Entries, i: nat, side: nat)
    requires i < |tree| && side <= 1
    ensures HeapLinks(tree, i + 1, side) == HeapLinks(tree, i, side)[i := HeapChild(tree, i, side)]
  {
  }

  /** Once the first half is linked, the arena read from the root is the
      heap-layout tree: the second half has no children to link. */
  lemma HeapArenaDecodes(tree: Entries, left: seq<Link>, right: seq<Link>)
    requires 1 <= |tree|
    requires left == HeapLinks(tree, |tree| / 2, 0) && right == HeapLinks(tree, |tree| / 2, 1)
    ensures WellLinked(tree, left, right) && (LevelOrder.Slot(tree, 0).Some? ==> tree[0].Some?)
    ensures ToTree(tree, left, right, LevelOrder.Slot(tree, 0)) == HeapDecode(tree)
  {
    assert HeapLinks(tree, |tree| / 2, 0) == HeapLinks(tree, |tree|, 0);
    assert HeapLinks(tree, |tree| / 2, 1) == HeapLinks(tree, |tree|, 1);
    ToTreeIsHeapSubtree(tree, 0);
  }

  /** Reading the heap-layout arena from entry `i` yields `HeapSubtree(tree, i)`. */
  lemma {:induction false} ToTreeIsHeapSubtree(tree: Entries, i: nat)
    requires i < |tree|
    ensures WellLinked(tree, HeapLinks(tree, |tree|, 0), HeapLinks(tree, |tree|, 1))
    ensures ToTree(tree, HeapLinks(tree, |tree|, 0), HeapLinks(tree, |tree|, 1), LevelOrder.Slot(tree, i))
              == HeapSubtree(tree, i)
    decreases |tree| - i
  {
    if tree[i].Some? {
      if 2 * i + 1 < |tree| {
        ToTreeIsHeapSubtree(tree, 2 * i + 1);
      }
      if 2 * i + 2 < |tree| {
        ToTreeIsHeapSubtree(tree, 2 * i + 2);
      }
    }
  }

  // ---------------------------------------------------------------------
  // Agreement with the level-order decoder

  /** With every entry before `i` present, the rank of `i` is `i`. */
  lemma {:induction false} RankOfFullPrefix(tree: Entries, i: nat)
    requires i <= |tree| && forall j :: 0 <= j < i ==> tree[j].Some?
    ensures LevelOrder.Rank(tree, i) == i
  {
    if i > 0 {
      RankOfFullPrefix(tree, i - 1);
    }
  }

  /** The two layouts agree when no entry of the first half is `null`: the
      input is then decodable by the level-order decoder, and it yields the
      heap-layout tree. */
  lemma HeapAgreesWithLevelOrder(tree: Entries)
    requires forall j :: 0 <= j < |tree| / 2 ==> tree[j].Some?
    ensures LevelOrder.Decodable(tree)
    ensures LevelOrder.Decode(tree) == HeapDecode(tree)
  {
    var h := |tree| / 2;
    RankOfFullPrefix(tree, h);
    forall j | 1 <= j < |tree|
      ensures LevelOrder.Claimed(tree, j)
    {
      if j <= h {
        RankOfFullPrefix(tree, j);
      } else {
        LevelOrder.RankMono(tree, h, j);
      }
    }
    SubtreesAgree(tree, 0);
  }

  lemma {:induction false} SubtreesAgree(tree: Entries, i: nat)
    requires forall j :: 0 <= j < |tree| / 2 ==> tree[j].Some?
    requires LevelOrder.Decodable(tree)
    ensures LevelOrder.Subtree(tree, i) == HeapSubtree(tree, i)
    decreases |tree| - i
  {
    if i < |tree| && tree[i].Some? {
      var h := |tree| / 2;
      if i < h {
        RankOfFullPrefix(tree, i);
        SubtreesAgree(tree, 2 * i + 1);
        SubtreesAgree(tree, 2 * i + 2);
      } else {
        RankOfFullPrefix(tree, h);
        LevelOrder.RankMono(tree, h, i);
        var c := 2 * LevelOrder.Rank(tree, i) + 1;
        assert LevelOrder.Subtree(tree, c) == Nil && LevelOrder.Subtree(tree, c + 1) == Nil;
      }
    }
  }

  // ---------------------------------------------------------------------
  // The out-of-bounds read

  /** `[1, 2]` makes `from_vec` as written read `nodes[2]`, while the
      evidently intended result is the root `1` with left child `2`, which
      the checked decoder and the level-order decoder both produce. */
  lemma EvenLengthIndexesPastEnd()
    ensures IndexesPastEnd([Some(1), Some(2)])
    ensures HeapDecode([Some(1), Some(2)]) == Node(1, Leaf(2), Nil)
    ensures LevelOrder.Decodable([Some(1), Some(2)])
    ensures LevelOrder.Decode([Some(1), Some(2)]) == Node(1, Leaf(2), Nil)
  {
    HeapAgreesWithLevelOrder([Some(1), Some(2)]);
  }

  /** On the inputs where the two layouts agree, `from_vec` as written
      fails on every even length and builds the common tree on every odd
      length. */
  lemma FullHalfAsWritten(tree: Entries)
    requires forall j :: 0 <= j < |tree| / 2 ==> tree[j].Some?
    ensures IndexesPastEnd(tree) <==> |tree| > 0 && |tree| % 2 == 0
    ensures |tree| % 2 == 1 ==> LevelOrder.Decodable(tree) && LevelOrder.Decode(tree) == HeapDecode(tree)
  {
    if |tree| > 0 && |tree| % 2 == 0 {
      assert tree[|tree| / 2 - 1].Some?;
    }
    HeapAgreesWithLevelOrder(tree);
  }

  /** An input whose last visited entry is `null` is not affected, whatever its length. */
  lemma MiddleNullSafe(tree: Entries)
    requires |tree| >= 2 && tree[|tree| / 2 - 1].None?
    ensures !IndexesPastEnd(tree)
  {
  }
}
