/** The shape of the trees the level-order decoder builds: every node comes
    from its own present entry, every node has at most one parent, and the
    tree has at most as many nodes as the input has present entries. */
module LevelOrderShape {
  import opened Trees
  import opened Arena
  import opened LevelOrder

  /** The entries whose nodes are reachable from entry `i`. */
  ghost function Reach(tree: Entries, i: nat): set<nat>
    requires Decodable(tree)
    decreases |tree| - i
  {
    if i >= |tree| || tree[i].None? then {}
    else
      ChildAfter(tree, i);
      {i} + Reach(tree, 2 * Rank(tree, i) + 1) + Reach(tree, 2 * Rank(tree, i) + 2)
  }

  /** Entry `j` is a child of the present entry `p`. */
  ghost predicate IsParent(tree: Entries, p: nat, j: nat)
  {
    p < |tree| && tree[p].Some? && (j == 2 * Rank(tree, p) + 1 || j == 2 * Rank(tree, p) + 2)
  }

  /** Children come after their parent. */
  lemma ParentBefore(tree: Entries, p: nat, j: nat)
    requires Decodable(tree) && IsParent(tree, p, j)
    ensures p < j
  {
    ChildAfter(tree, p);
  }

  /** Only entries from `i` on, and only present ones, are reachable from `i`. */
  lemma {:induction false} ReachBound(tree: Entries, i: nat, j: nat)
    requires Decodable(tree) && j in Reach(tree, i)
    ensures i <= j < |tree| && tree[j].Some?
    decreases |tree| - i
  {
    var c := 2 * Rank(tree, i) + 1;
    if j != i {
      ParentBefore(tree, i, c);
      if j in Reach(tree, c) {
        ReachBound(tree, c, j);
      } else {
        ReachBound(tree, c + 1, j);
      }
    }
  }

  /** No entry has two parents: the child links are injective. */
  lemma UniqueParent(tree: Entries, p: nat, q: nat, j: nat)
    requires IsParent(tree, p, j) && IsParent(tree, q, j)
    ensures p == q
  {
    if p < q {
      RankMono(tree, p + 1, q);
    } else if q < p {
      RankMono(tree, q + 1, p);
    }
  }

  lemma {:induction false} FindParent(tree: Entries, a: nat, j: nat) returns (p: nat)
    requires Decodable(tree) && j in Reach(tree, a) && j != a
    ensures IsParent(tree, p, j) && p in Reach(tree, a)
    decreases |tree| - a
  {
    var c := 2 * Rank(tree, a) + 1;
    ChildAfter(tree, a);
    if j in Reach(tree, c) {
      if j == c {
        p := a;
      } else {
        p := FindParent(tree, c, j);
      }
    } else {
      if j == c + 1 {
        p := a;
      } else {
        p := FindParent(tree, c + 1, j);
      }
    }
  }

  /** If `j` is reachable from `a`, so is its parent (unless `j` is `a`). */
  lemma ParentReached(tree: Entries, a: nat, j: nat, p: nat)
    requires Decodable(tree) && j in Reach(tree, a) && j != a && IsParent(tree, p, j)
    ensures p in Reach(tree, a)
  {
    var q := FindParent(tree, a, j);
    UniqueParent(tree, p, q, j);
  }

  /** Two subtrees that share a node are nested. */
  lemma {:induction false} ReachNested(tree: Entries, a: nat, b: nat, j: nat)
    requires Decodable(tree) && j in Reach(tree, a) && j in Reach(tree, b)
    ensures a in Reach(tree, b) || b in Reach(tree, a)
    decreases j
  {
    if j != a && j != b {
      var p := FindParent(tree, a, j);
      ParentReached(tree, b, j, p);
      ParentBefore(tree, p, j);
      ReachNested(tree, a, b, p);
    }
  }

  /** Neither child of a node lies in the subtree of the other. */
  lemma SiblingsApart(tree: Entries, i: nat, c: nat)
    requires Decodable(tree) && i < |tree| && tree[i].Some? && c == 2 * Rank(tree, i) + 1
    ensures c + 1 !in Reach(tree, c) && c !in Reach(tree, c + 1)
  {
    ChildAfter(tree, i);
    if c + 1 in Reach(tree, c) {
      assert IsParent(tree, i, c + 1);
      ParentReached(tree, c, c + 1, i);
      ReachBound(tree, c, i);
    }
    if c in Reach(tree, c + 1) {
      ReachBound(tree, c + 1, c);
    }
  }

  lemma NotInBoth(tree: Entries, i: nat, c: nat, j: nat)
    requires Decodable(tree) && i < |tree| && tree[i].Some? && c == 2 * Rank(tree, i) + 1
    requires j in Reach(tree, c)
    ensures j !in Reach(tree, c + 1)
  {
    if j in Reach(tree, c + 1) {
      ReachNested(tree, c, c + 1, j);
      SiblingsApart(tree, i, c);
    }
  }

  /** The two subtrees of a node share no entry, and neither holds the node. */
  lemma ChildrenDisjoint(tree: Entries, i: nat)
    requires Decodable(tree) && i < |tree| && tree[i].Some?
    ensures Reach(tree, 2 * Rank(tree, i) + 1) !! Reach(tree, 2 * Rank(tree, i) + 2)
    ensures i !in Reach(tree, 2 * Rank(tree, i) + 1) + Reach(tree, 2 * Rank(tree, i) + 2)
  {
    var c := 2 * Rank(tree, i) + 1;
    ChildAfter(tree, i);
    forall j | j in Reach(tree, c)
      ensures j !in Reach(tree, c + 1)
    {
      NotInBoth(tree, i, c, j);
    }
    if i in Reach(tree, c) {
      ReachBound(tree, c, i);
    }
    if i in Reach(tree, c + 1) {
      ReachBound(tree, c + 1, i);
    }
  }

  /** The nodes of the subtree at `i` are exactly the entries `Reach(i)`, one
      node per entry. */
  lemma {:induction false} SizeIsReach(tree: Entries, i: nat)
    requires Decodable(tree)
    ensures Size(Subtree(tree, i)) == |Reach(tree, i)|
    decreases |tree| - i
  {
    if i < |tree| && tree[i].Some? {
      var c := 2 * Rank(tree, i) + 1;
      ChildAfter(tree, i);
      SizeIsReach(tree, c);
      SizeIsReach(tree, c + 1);
      SizeStep(tree, i, c);
    }
  }

  lemma SizeStep(tree: Entries, i: nat, c: nat)
    requires Decodable(tree) && i < |tree| && tree[i].Some? && c == 2 * Rank(tree, i) + 1
    requires Size(Subtree(tree, c)) == |Reach(tree, c)| && Size(Subtree(tree, c + 1)) == |Reach(tree, c + 1)|
    ensures Size(Subtree(tree, i)) == |Reach(tree, i)|
  {
    ReachCard(tree, i, c);
    SizeUnfold(tree, i, c);
  }

  lemma SizeUnfold(tree: Entries, i: nat, c: nat)
    requires Decodable(tree) && i < |tree| && tree[i].Some? && c == 2 * Rank(tree, i) + 1
    ensures Size(Subtree(tree, i)) == 1 + Size(Subtree(tree, c)) + Size(Subtree(tree, c + 1))
  {
  }

  /** A node's entry set is its own entry plus the two disjoint child sets. */
  lemma ReachCard(tree: Entries, i: nat, c: nat)
    requires Decodable(tree) && i < |tree| && tree[i].Some? && c == 2 * Rank(tree, i) + 1
    ensures |Reach(tree, i)| == 1 + |Reach(tree, c)| + |Reach(tree, c + 1)|
  {
    ChildrenDisjoint(tree, i);
    UnionCard(i, Reach(tree, c), Reach(tree, c + 1));
  }

  lemma UnionCard(x: nat, a: set<nat>, b: set<nat>)
    requires a !! b && x !in a + b
    ensures |{x} + a + b| == 1 + |a| + |b|
  {
    assert a * b == {};
    assert {x} * (a + b) == {};
  }

  /** The positions of the present entries before `i`. */
  ghost function PresentBefore(tree: Entries, i: nat): set<nat>
    requires i <= |tree|
  {
    set j | 0 <= j < i && tree[j].Some?
  }

  lemma {:induction false} PresentBeforeCount(tree: Entries, i: nat)
    requires i <= |tree|
    ensures |PresentBefore(tree, i)| == Rank(tree, i)
  {
    if i > 0 {
      PresentBeforeCount(tree, i - 1);
      if tree[i - 1].Some? {
        assert PresentBefore(tree, i) == PresentBefore(tree, i - 1) + {i - 1};
      } else {
        assert PresentBefore(tree, i) == PresentBefore(tree, i - 1);
      }
    }
  }

  lemma SubsetCard(a: set<nat>, b: set<nat>)
    requires a <= b
    ensures |a| <= |b|
  {
    assert b == a + (b - a);
  }

  /** Every node of the decoded tree comes from its own present entry: the
      nodes are in one-to-one correspondence with `Reach(0)`, a set of
      present positions, so there are at most as many nodes as `Some`
      entries. */
  lemma DecodedNodesAreDistinctEntries(tree: Entries)
    requires Decodable(tree)
    ensures forall j :: j in Reach(tree, 0) ==> j < |tree| && tree[j].Some?
    ensures Size(Decode(tree)) == |Reach(tree, 0)|
    ensures Size(Decode(tree)) <= Rank(tree, |tree|)
  {
    forall j | j in Reach(tree, 0)
      ensures j < |tree| && tree[j].Some?
    {
      ReachBound(tree, 0, j);
    }
    SizeIsReach(tree, 0);
    PresentBeforeCount(tree, |tree|);
    SubsetCard(Reach(tree, 0), PresentBefore(tree, |tree|));
  }
}
