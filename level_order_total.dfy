/** A terminating version of the frontier decoder of `src/treenode.rs`.

    The `while` loop there only ends once every entry has been popped, so an
    input with an entry that no present node claims (`[null, 1]`) makes it
    spin forever. The corrected decoder reads entries only up to the first
    unclaimed one, a position the loop's cursor never passes, and decodes
    that prefix. On every input where the original loop ends, the two
    agree. */
module LevelOrderTotal {
  import opened Trees
  import opened Arena
  import opened LevelOrder

  /** The first position from `j` on that no present node claims, or the
      length of the input when every one is claimed. */
  function StopFrom(tree: Entries, j: nat): (p: nat)
    requires 1 <= j <= |tree|
    ensures j <= p <= |tree|
    ensures forall i :: j <= i < p ==> Claimed(tree, i)
    ensures p < |tree| ==> !Claimed(tree, p)
    decreases |tree| - j
  {
    if j == |tree| || 2 * Rank(tree, j) < j then j else StopFrom(tree, j + 1)
  }

  /** Where the corrected decoder stops reading: the first unclaimed
      position after the root, or the end of the input. */
  function Stop(tree: Entries): (p: nat)
    ensures p <= |tree|
    ensures forall i :: 1 <= i < p ==> Claimed(tree, i)
    ensures p < |tree| ==> 1 <= p && !Claimed(tree, p)
  {
    if |tree| == 0 then 0 else StopFrom(tree, 1)
  }

  /** The decoder reads the whole input exactly when the input is decodable,
      that is, exactly when the loop of `from_vec` ends. */
  lemma StopIffDecodable(tree: Entries)
    ensures Stop(tree) == |tree| <==> Decodable(tree)
  {
    if Stop(tree) < |tree| {
      assert !Claimed(tree, Stop(tree));
    }
  }

  /** The cursor of the loop of `from_vec` never passes the stop position,
      so the entries from there on are never popped. */
  lemma CursorNeverPassesStop(tree: Entries, k: nat)
    requires 1 <= |tree|
    ensures Rounds(tree, k).1 <= Stop(tree)
  {
    if Stop(tree) < |tree| {
      RoundsStall(tree, Stop(tree), k);
    }
  }

  /** Cutting the input at `p` does not change the ranks before `p`. */
  lemma {:induction false} RankPrefix(tree: Entries, p: nat, i: nat)
    requires i <= p <= |tree|
    ensures Rank(tree[..p], i) == Rank(tree, i)
  {
    if i > 0 {
      RankPrefix(tree, p, i - 1);
      assert tree[..p][i - 1] == tree[i - 1];
    }
  }

  /** A prefix whose positions are all claimed is decodable. */
  lemma PrefixDecodable(tree: Entries, p: nat)
    requires p <= |tree| && forall i :: 1 <= i < p ==> Claimed(tree, i)
    ensures Decodable(tree[..p])
  {
    forall j | 1 <= j < p
      ensures Claimed(tree[..p], j)
    {
      RankPrefix(tree, p, j);
      assert Claimed(tree, j);
    }
  }

  /** `from_vec` made total: it scans for the stop position, counting the
      present entries as it goes, and decodes the entries before it. */
  method FromVecTotal(tree: Entries) returns (root: Tree)
    ensures Decodable(tree[..Stop(tree)]) && root == Decode(tree[..Stop(tree)])
  {
    if |tree| == 0 {
      assert tree[..Stop(tree)] == [];
      return Nil;
    }
    var p := 1;
    var rank := if tree[0].Some? then 1 else 0;
    while p < |tree| && p <= 2 * rank
      invariant 1 <= p <= |tree| && rank == Rank(tree, p)
      invariant StopFrom(tree, p) == Stop(tree)
      decreases |tree| - p
    {
      rank := rank + (if tree[p].Some? then 1 else 0);
      p := p + 1;
    }
    PrefixDecodable(tree, p);
    root := FromVec(tree[..p]);
  }

  /** On a decodable input the corrected decoder reads everything, so it
      returns what `from_vec` returns. */
  lemma TotalAgrees(tree: Entries)
    requires Decodable(tree)
    ensures Stop(tree) == |tree| && tree[..Stop(tree)] == tree
  {
    StopIffDecodable(tree);
  }

  /** A `null` root followed by more entries gives no tree, where the loop
      of `from_vec` spins. */
  lemma NullRootGivesNoTree(tree: Entries)
    requires 2 <= |tree| && tree[0].None?
    ensures Stop(tree) == 1 && Decodable(tree[..1]) && Decode(tree[..1]) == Nil
  {
    assert Rank(tree, 1) == 0;
    PrefixDecodable(tree, 1);
  }
}
