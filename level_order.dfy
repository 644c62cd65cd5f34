/** The frontier-based level-order decoder of `src/treenode.rs`.

    The decoder reads the entries in order (the source reverses `nodes` and
    pops from its end, which yields entry 1, 2, 3, ... in turn; here a cursor
    `next` counts the entries popped so far). Each round of the `while` loop
    walks the current frontier left to right; every present node in it pops
    the next entry as its left child and the one after as its right child,
    and the popped handles, present or not, form the next frontier.

    The closed form below is the reference the loop is proved against: the
    present entry with `r` present entries before it (its rank) receives the
    entries `2r + 1` and `2r + 2` as children, as far as the input reaches. */
module LevelOrder {
  import opened Trees
  import opened Arena

  function Min(a: int, b: int): int
  {
    if a <= b then a else b
  }

  /** The number of present entries before position `i`. */
  function Rank(tree: Entries, i: nat): (r: nat)
    requires i <= |tree|
    ensures r <= i
  {
    if i == 0 then 0 else Rank(tree, i - 1) + (if tree[i - 1].Some? then 1 else 0)
  }

  lemma {:induction false} RankMono(tree: Entries, i: nat, j: nat)
    requires i <= j <= |tree|
    ensures Rank(tree, i) <= Rank(tree, j) <= Rank(tree, i) + (j - i)
  {
    if i < j {
      RankMono(tree, i, j - 1);
    }
  }

  /** The rank grows across `[lo, hi)` exactly when that range holds a present entry. */
  lemma {:induction false} RankPresent(tree: Entries, lo: nat, hi: nat)
    requires lo <= hi <= |tree|
    ensures Rank(tree, lo) < Rank(tree, hi) <==> exists i :: lo <= i < hi && tree[i].Some?
  {
    if lo < hi {
      RankPresent(tree, lo, hi - 1);
      RankMono(tree, lo, hi - 1);
      if tree[hi - 1].Some? {
        assert lo <= hi - 1 < hi && tree[hi - 1].Some?;
      }
    }
  }

  /** The inputs on which the `while` loop terminates: every entry after the
      root is claimed by an earlier present node, i.e. at most `2 * Rank(j)`
      entries follow the root before position `j`. `TerminatesIffDecodable`
      shows this is exactly the terminating case. */
  ghost predicate Decodable(tree: Entries)
  {
    forall j :: 1 <= j < |tree| ==> Claimed(tree, j)
  }

  /** Position `j` lies within the first `2 * Rank(j)` entries after the root. */
  ghost predicate Claimed(tree: Entries, j: nat)
    requires j <= |tree|
  {
    j <= 2 * Rank(tree, j)
  }

  /** In a decodable input the children of an entry come after it. */
  lemma ChildAfter(tree: Entries, i: nat)
    requires Decodable(tree) && i < |tree|
    ensures i < 2 * Rank(tree, i) + 1
  {
    if i > 0 {
      assert Claimed(tree, i);
    }
  }

  /** The handle stored at entry `c`, or `None` past the end of the input. */
  function Slot(tree: Entries, c: int): Link
  {
    if 0 <= c < |tree| && tree[c].Some? then Some(c) else None
  }

  /** The left (`side == 0`) or right (`side == 1`) child handle of entry `i`
      in the closed form. */
  ghost function Child(tree: Entries, i: nat, side: nat): Link
    requires i < |tree| && side <= 1
  {
    if tree[i].Some? then Slot(tree, 2 * Rank(tree, i) + 1 + side) else None
  }

  ghost function LevelLinks(tree: Entries, side: nat): seq<Link>
    requires side <= 1
  {
    seq(|tree|, i requires 0 <= i < |tree| => Child(tree, i, side))
  }

  /** The tree rooted at entry `i` in the closed form. */
  ghost function Subtree(tree: Entries, i: nat): Tree
    requires Decodable(tree)
    decreases |tree| - i
  {
    if i >= |tree| || tree[i].None? then Nil
    else
      ChildAfter(tree, i);
      Node(tree[i].value, Subtree(tree, 2 * Rank(tree, i) + 1), Subtree(tree, 2 * Rank(tree, i) + 2))
  }

  /** What `TreeNode::from_vec` returns, as a tree value. */
  ghost function Decode(tree: Entries): Tree
    requires Decodable(tree)
  {
    Subtree(tree, 0)
  }

  // ---------------------------------------------------------------------
  // Rounds of the `while` loop and its termination

  /** One round of the `while` loop on the state `(lo, next)`: the frontier
      is `nodes[lo..next]` and `next` entries have been popped. Only present
      frontier nodes pop entries, two each, until the input runs out. */
  ghost function Round(tree: Entries, lo: nat, next: nat): (s: (nat, nat))
    requires lo <= next <= |tree|
    ensures s.0 <= s.1 <= |tree|
  {
    RankMono(tree, lo, next);
    (next, Min(|tree|, next + 2 * (Rank(tree, next) - Rank(tree, lo))))
  }

  /** The loop state after `k` rounds; the loop starts with the root as the
      frontier and one entry popped. */
  ghost function Rounds(tree: Entries, k: nat): (s: (nat, nat))
    requires 1 <= |tree|
    ensures s.0 <= s.1 <= |tree|
  {
    if k == 0 then (0, 1)
    else
      var s := Rounds(tree, k - 1);
      Round(tree, s.0, s.1)
  }

  /** A round pops at least one entry iff its frontier holds a present node;
      a round that pops nothing leaves an empty frontier, and from there the
      state never changes again. */
  lemma RoundConsumes(tree: Entries, lo: nat, next: nat)
    requires lo <= next < |tree|
    ensures Round(tree, lo, next).1 > next <==> exists i :: lo <= i < next && tree[i].Some?
    ensures Round(tree, lo, next).1 == next ==> Round(tree, next, next) == (next, next)
  {
    RankPresent(tree, lo, next);
  }

  lemma {:induction false} RoundsAdvance(tree: Entries, k: nat)
    requires 1 <= |tree| && Decodable(tree)
    ensures Rounds(tree, k).1 >= Min(|tree|, k + 1)
    ensures Rounds(tree, k).1 < |tree| ==> Rounds(tree, k).1 == 1 + 2 * Rank(tree, Rounds(tree, k).0)
  {
    if k > 0 {
      RoundsAdvance(tree, k - 1);
      var s := Rounds(tree, k - 1);
      RankMono(tree, s.0, s.1);
      if s.1 < |tree| {
        assert Claimed(tree, s.1);
      }
    }
  }

  lemma {:induction false} RoundsStall(tree: Entries, j: nat, k: nat)
    requires 1 <= j < |tree| && 2 * Rank(tree, j) < j
    ensures Rounds(tree, k).1 <= j
    ensures Rounds(tree, k).1 <= 1 + 2 * Rank(tree, Rounds(tree, k).0)
  {
    if k > 0 {
      RoundsStall(tree, j, k - 1);
      var s := Rounds(tree, k - 1);
      RankMono(tree, s.0, s.1);
      RankMono(tree, s.1, j);
    }
  }

  /** The `while` loop over a non-empty input ends (the cursor reaches the end
      of the input after some number of rounds) iff the input is `Decodable`;
      otherwise, e.g. on `[null, 1]`, it spins forever. */
  lemma TerminatesIffDecodable(tree: Entries)
    requires 1 <= |tree|
    ensures Decodable(tree) <==> exists k :: Rounds(tree, k).1 == |tree|
  {
    if Decodable(tree) {
      RoundsAdvance(tree, |tree|);
    } else {
      var j :| 1 <= j < |tree| && !Claimed(tree, j);
      forall k ensures Rounds(tree, k).1 < |tree| {
        RoundsStall(tree, j, k);
      }
    }
  }

  /** A `null` root followed by anything is never decoded: the loop spins. */
  lemma NullRootDiverges(tree: Entries)
    requires 2 <= |tree| && tree[0].None?
    ensures !Decodable(tree)
  {
    assert !Claimed(tree, 1);
  }

  // ---------------------------------------------------------------------
  // The decoder

  /** The entry the frontier node `i` pops for its left (`side == 0`) or
      right (`side == 1`) child in a round over the frontier `nodes[lo..next]`:
      each present frontier node before it has popped two entries. */
  ghost function Pop(tree: Entries, lo: nat, next: nat, i: nat, side: nat): int
    requires lo <= |tree| && i <= |tree|
  {
    next + 2 * (Rank(tree, i) - Rank(tree, lo)) + side
  }

  /** The child field `side` of node `i` once the round over `nodes[lo..next]`
      has handled the frontier up to (excluding) position `upto`; `was` is
      the field before the round. A field is written only when its pop
      succeeds, i.e. the input still has entries. */
  ghost function Field(tree: Entries, lo: nat, next: nat, upto: nat, i: nat, side: nat, was: Link): Link
    requires lo <= |tree| && i < |tree|
  {
    if lo <= i < upto && tree[i].Some? && Pop(tree, lo, next, i, side) < |tree|
    then Slot(tree, Pop(tree, lo, next, i, side)) else was
  }

  /** All child fields `side` once the round over `nodes[lo..next]` has
      handled the frontier up to (excluding) position `upto`. */
  ghost function Fields(tree: Entries, lo: nat, next: nat, upto: nat, side: nat, was: seq<Link>): seq<Link>
    requires lo <= |tree| && |was| == |tree|
  {
    seq(|tree|, i requires 0 <= i < |tree| => Field(tree, lo, next, upto, i, side, was[i]))
  }

  /** Handling frontier position `lo + k` changes at most that node's field,
      and only when the node is present; the cursor then moves by two. */
  lemma FieldsStep(tree: Entries, lo: nat, next: nat, k: nat, side: nat, was: seq<Link>, cur: nat)
    requires lo + k < next <= |tree| && |was| == |tree| && side <= 1
    requires cur == Min(|tree|, Pop(tree, lo, next, lo + k, 0))
    ensures tree[lo + k].None? ==>
              Fields(tree, lo, next, lo + k + 1, side, was) == Fields(tree, lo, next, lo + k, side, was)
              && Min(|tree|, Pop(tree, lo, next, lo + k + 1, 0)) == cur
    ensures tree[lo + k].Some? ==>
              Fields(tree, lo, next, lo + k + 1, side, was)
                == Fields(tree, lo, next, lo + k, side, was)[lo + k := if cur + side < |tree| then Slot(tree, cur + side) else Fields(tree, lo, next, lo + k, side, was)[lo + k]]
              && Min(|tree|, Pop(tree, lo, next, lo + k + 1, 0)) == Min(|tree|, cur + 2)
  {
    assert Rank(tree, lo + k + 1) == Rank(tree, lo + k) + (if tree[lo + k].Some? then 1 else 0);
  }

  /** The body of the `for n in &previous_level` loop for the frontier slot
      at position `lo + k`: a present node pops its left, then its right
      child, each only if the input still has an entry; an absent slot pops
      nothing. */
  method VisitSlot(tree: Entries, nodes: seq<Link>, left: array<Link>, right: array<Link>,
                   slot: Link, cur: nat, ghost lo: nat, ghost next: nat, ghost k: nat,
                   ghost left0: seq<Link>, ghost right0: seq<Link>)
    returns (cur': nat, popped: seq<Link>)
    requires IsNodes(tree, nodes)
    requires left.Length == |tree| && right.Length == |tree| && left != right
    requires lo + k < next <= |tree| && slot == nodes[lo + k]
    requires |left0| == |tree| && |right0| == |tree|
    requires cur == Min(|tree|, Pop(tree, lo, next, lo + k, 0))
    requires left[..] == Fields(tree, lo, next, lo + k, 0, left0)
    requires right[..] == Fields(tree, lo, next, lo + k, 1, right0)
    modifies left, right
    ensures cur' == Min(|tree|, Pop(tree, lo, next, lo + k + 1, 0))
    ensures cur <= cur' <= |tree| && popped == nodes[cur..cur']
    ensures left[..] == Fields(tree, lo, next, lo + k + 1, 0, left0)
    ensures right[..] == Fields(tree, lo, next, lo + k + 1, 1, right0)
  {
    FieldsStep(tree, lo, next, k, 0, left0, cur);
    FieldsStep(tree, lo, next, k, 1, right0, cur);
    cur' := cur;
    popped := [];
    match slot
    case Some(p) =>
      assert p == lo + k;
      if cur' < |tree| {
        left[p] := nodes[cur'];
        popped := popped + [nodes[cur']];
        cur' := cur' + 1;
      }
      if cur' < |tree| {
        right[p] := nodes[cur'];
        popped := popped + [nodes[cur']];
        cur' := cur' + 1;
      }
    case None =>
  }

  /** The body of the `while` loop (the `for n in &previous_level` loop): the
      frontier is `nodes[lo..next]`. A present frontier node whose pop
      succeeds has that child field written; nothing else changes. */
  method LinkLevel(tree: Entries, nodes: seq<Link>, left: array<Link>, right: array<Link>,
                   previousLevel: seq<Link>, next: nat, ghost lo: nat,
                   ghost left0: seq<Link>, ghost right0: seq<Link>)
    returns (nextLevel: seq<Link>, next': nat)
    requires IsNodes(tree, nodes)
    requires left.Length == |tree| && right.Length == |tree| && left != right
    requires lo <= next <= |tree| && previousLevel == nodes[lo..next]
    requires left[..] == left0 && right[..] == right0
    modifies left, right
    ensures next' == Min(|tree|, next + 2 * (Rank(tree, next) - Rank(tree, lo)))
    ensures next <= next' && nextLevel == nodes[next..next']
    ensures left[..] == Fields(tree, lo, next, next, 0, left0)
    ensures right[..] == Fields(tree, lo, next, next, 1, right0)
  {
    next' := next;
    nextLevel := [];
    for k := 0 to |previousLevel|
      invariant next <= next' <= |tree|
      invariant next' == Min(|tree|, Pop(tree, lo, next, lo + k, 0))
      invariant nextLevel == nodes[next..next']
      invariant left[..] == Fields(tree, lo, next, lo + k, 0, left0)
      invariant right[..] == Fields(tree, lo, next, lo + k, 1, right0)
    {
      var popped;
      ghost var cur := next';
      next', popped := VisitSlot(tree, nodes, left, right, previousLevel[k], next', lo, next, k, left0, right0);
      assert nodes[next..cur] + nodes[cur..next'] == nodes[next..next'];
      nextLevel := nextLevel + popped;
    }
  }

  /** The child fields `side` of the arena once every node before `lo` is
      linked as the closed form says and the others are still untouched. */
  ghost function LinkedBefore(tree: Entries, lo: nat, side: nat): seq<Link>
    requires side <= 1
  {
    seq(|tree|, i requires 0 <= i < |tree| => if i < lo then Child(tree, i, side) else None)
  }

  /** A round over the frontier `nodes[lo..next]` links exactly the frontier
      nodes, as the closed form says. */
  lemma RoundLinks(tree: Entries, lo: nat, next: nat, side: nat, before: seq<Link>, after: seq<Link>)
    requires lo < next <= |tree| && next == 1 + 2 * Rank(tree, lo) && side <= 1
    requires before == LinkedBefore(tree, lo, side)
    requires after == Fields(tree, lo, next, next, side, before)
    ensures after == LinkedBefore(tree, next, side)
  {
    forall i | 0 <= i < |tree|
      ensures after[i] == LinkedBefore(tree, next, side)[i]
    {
      if lo <= i {
        RankMono(tree, lo, i);
      }
    }
  }

  /** Once the cursor has reached the end, the nodes from `lo` on have no
      closed-form children, so linking is complete. */
  lemma LinkedComplete(tree: Entries, lo: nat, side: nat)
    requires lo <= |tree| && |tree| <= 1 + 2 * Rank(tree, lo) && side <= 1
    ensures LinkedBefore(tree, lo, side) == LevelLinks(tree, side)
  {
    forall i | lo <= i < |tree|
      ensures Child(tree, i, side) == None
    {
      RankMono(tree, lo, i);
    }
  }

  /** A round of the loop in `FromVec` is the next state of `Rounds`, and the
      cursor stays at `1 + 2 * Rank(lo)` (capped at the end of the input). */
  lemma RoundsStep(tree: Entries, k: nat, lo: nat, next: nat, next': nat)
    requires 1 <= |tree| && (lo, next) == Rounds(tree, k)
    requires next < |tree| && next == Min(|tree|, 1 + 2 * Rank(tree, lo))
    requires next' == Min(|tree|, next + 2 * (Rank(tree, next) - Rank(tree, lo)))
    ensures Rounds(tree, k + 1) == (next, next')
    ensures next' == Min(|tree|, 1 + 2 * Rank(tree, next))
  {
  }

  /** One iteration of the `while` loop in `FromVec`, as a step of the proof:
      the cursor advances, the state is the next one of `Rounds`, and the
      frontier nodes are now linked as the closed form says. */
  lemma LoopStep(tree: Entries, k: nat, lo: nat, next: nat, next': nat,
                 left0: seq<Link>, right0: seq<Link>, left1: seq<Link>, right1: seq<Link>)
    requires Decodable(tree) && lo < next < |tree|
    requires next == Min(|tree|, 1 + 2 * Rank(tree, lo)) && (lo, next) == Rounds(tree, k)
    requires next' == Min(|tree|, next + 2 * (Rank(tree, next) - Rank(tree, lo)))
    requires left0 == LinkedBefore(tree, lo, 0) && right0 == LinkedBefore(tree, lo, 1)
    requires left1 == Fields(tree, lo, next, next, 0, left0)
    requires right1 == Fields(tree, lo, next, next, 1, right0)
    ensures next < next' && next' == Min(|tree|, 1 + 2 * Rank(tree, next))
    ensures (next, next') == Rounds(tree, k + 1)
    ensures left1 == LinkedBefore(tree, next, 0) && right1 == LinkedBefore(tree, next, 1)
  {
    RankMono(tree, lo, next);
    assert Claimed(tree, next);
    RoundLinks(tree, lo, next, 0, left0, left1);
    RoundLinks(tree, lo, next, 1, right0, right1);
    RoundsStep(tree, k, lo, next, next');
  }

  /** `TreeNode::from_vec` (src/treenode.rs): the returned tree is the closed
      form, and every round of the loop is the round `Rounds` describes. */
  method FromVec(tree: Entries) returns (root: Tree)
    requires Decodable(tree)
    ensures root == Decode(tree)
  {
    if |tree| == 0 {
      return Nil;
    }
    var nodes := NewNodes(tree);
    var left := new Link[|tree|](_ => None);
    var right := new Link[|tree|](_ => None);
    var previousLevel := [nodes[0]];
    var next := 1;
    ghost var lo := 0;
    ghost var rounds := 0;
    assert left[..] == LinkedBefore(tree, 0, 0);
    assert right[..] == LinkedBefore(tree, 0, 1);
    while next < |tree|
      invariant lo < next <= |tree|
      invariant previousLevel == nodes[lo..next]
      invariant next == Min(|tree|, 1 + 2 * Rank(tree, lo))
      invariant (lo, next) == Rounds(tree, rounds)
      invariant left[..] == LinkedBefore(tree, lo, 0)
      invariant right[..] == LinkedBefore(tree, lo, 1)
      decreases |tree| - next
    {
      ghost var left0, right0 := left[..], right[..];
      var nextLevel, next' := LinkLevel(tree, nodes, left, right, previousLevel, next, lo, left0, right0);
      LoopStep(tree, rounds, lo, next, next', left0, right0, left[..], right[..]);
      previousLevel, lo, next := nextLevel, next, next';
      rounds := rounds + 1;
    }
    assert nodes[0] == Slot(tree, 0);
    ArenaDecodes(tree, lo, left[..], right[..]);
    root := ToTree(tree, left[..], right[..], nodes[0]);
  }

  /** Once the loop has ended, the arena read from the root is `Decode(tree)`. */
  lemma ArenaDecodes(tree: Entries, lo: nat, left: seq<Link>, right: seq<Link>)
    requires Decodable(tree) && lo < |tree| && |tree| == Min(|tree|, 1 + 2 * Rank(tree, lo))
    requires left == LinkedBefore(tree, lo, 0) && right == LinkedBefore(tree, lo, 1)
    ensures WellLinked(tree, left, right) && (Slot(tree, 0).Some? ==> tree[0].Some?)
    ensures ToTree(tree, left, right, Slot(tree, 0)) == Decode(tree)
  {
    LinkedComplete(tree, lo, 0);
    LinkedComplete(tree, lo, 1);
    ToTreeIsSubtree(tree, 0);
  }

  /** Every closed-form link points to a later present entry. */
  lemma LevelLinksWell(tree: Entries)
    requires Decodable(tree)
    ensures WellLinked(tree, LevelLinks(tree, 0), LevelLinks(tree, 1))
  {
    forall i | 0 <= i < |tree|
      ensures LinkOk(tree, i, LevelLinks(tree, 0)[i]) && LinkOk(tree, i, LevelLinks(tree, 1)[i])
    {
      ChildAfter(tree, i);
    }
  }

  /** Reading the closed-form arena from entry `i` yields `Subtree(tree, i)`. */
  lemma {:induction false} ToTreeIsSubtree(tree: Entries, i: nat)
    requires Decodable(tree) && i < |tree|
    ensures WellLinked(tree, LevelLinks(tree, 0), LevelLinks(tree, 1))
    ensures ToTree(tree, LevelLinks(tree, 0), LevelLinks(tree, 1), Slot(tree, i)) == Subtree(tree, i)
    decreases |tree| - i
  {
    LevelLinksWell(tree);
    if tree[i].Some? {
      var c := 2 * Rank(tree, i) + 1;
      ChildAfter(tree, i);
      if c < |tree| {
        ToTreeIsSubtree(tree, c);
      }
      if c + 1 < |tree| {
        ToTreeIsSubtree(tree, c + 1);
      }
    }
  }
}
