/** The unit tests of `src/treenode.rs` and `src/lib.rs` and the assertions
    of `examples/is_same_tree.rs`, stated as lemmas about the model. */
module UnitTests {
  import opened Trees
  import opened Arena
  import opened LevelOrder
  import opened TextFormat
  import opened SameTree
  import HeapOrder

  // ---------------------------------------------------------------------
  // `TreeNode::from_vec` (src/treenode.rs)

  lemma SingleNode()
    ensures Decodable([Some(1)]) && Decode([Some(1)]) == Leaf(1)
  {
    assert Subtree([Some(1)], 0) == Node(1, Subtree([Some(1)], 1), Subtree([Some(1)], 2));
  }

  /** `[a, b]`: the second entry is the root's left child. */
  lemma LeftChildOnly(a: i32, b: i32)
    ensures Decodable([Some(a), Some(b)]) && Decode([Some(a), Some(b)]) == Node(a, Leaf(b), Nil)
  {
    var t := [Some(a), Some(b)];
    assert Rank(t, 1) == 1 && Rank(t, 2) == 2 && Claimed(t, 1);
    assert Subtree(t, 3) == Nil && Subtree(t, 4) == Nil;
    assert Subtree(t, 1) == Leaf(b) && Subtree(t, 2) == Nil;
    assert Subtree(t, 0) == Node(a, Subtree(t, 1), Subtree(t, 2));
  }

  /** `[a, null, c]`: the third entry is the root's right child. */
  lemma RightChildOnly(a: i32, c: i32)
    ensures Decodable([Some(a), None, Some(c)]) && Decode([Some(a), None, Some(c)]) == Node(a, Nil, Leaf(c))
  {
    var t := [Some(a), None, Some(c)];
    assert Rank(t, 1) == 1 && Rank(t, 2) == 1 && Rank(t, 3) == 2;
    assert Claimed(t, 1) && Claimed(t, 2);
    assert Subtree(t, 1) == Nil && Subtree(t, 2) == Leaf(c);
  }

  /** `[a, b, c]`: both children of the root. */
  lemma BothChildren(a: i32, b: i32, c: i32)
    ensures Decodable([Some(a), Some(b), Some(c)])
    ensures Decode([Some(a), Some(b), Some(c)]) == Node(a, Leaf(b), Leaf(c))
  {
    var t := [Some(a), Some(b), Some(c)];
    assert Rank(t, 1) == 1 && Rank(t, 2) == 2 && Rank(t, 3) == 3;
    assert Claimed(t, 1) && Claimed(t, 2);
    assert Subtree(t, 3) == Nil && Subtree(t, 5) == Nil && Subtree(t, 6) == Nil && Subtree(t, 7) == Nil;
    assert Subtree(t, 1) == Leaf(b);
    assert Subtree(t, 2) == Leaf(c);
    assert Subtree(t, 0) == Node(a, Subtree(t, 1), Subtree(t, 2));
  }

  lemma ThreeNodes()
    ensures Decodable([Some(1), Some(2), Some(3)])
    ensures Decode([Some(1), Some(2), Some(3)]) == Node(1, Leaf(2), Leaf(3))
  {
    BothChildren(1, 2, 3);
  }

  lemma ThreeNodesWithNone()
    ensures Decodable([Some(1), None, Some(3)])
    ensures Decode([Some(1), None, Some(3)]) == Node(1, Nil, Leaf(3))
  {
    RightChildOnly(1, 3);
  }

  lemma SevenNodes()
    ensures Decodable([Some(1), Some(2), Some(3), None, Some(5), Some(6), Some(7)])
    ensures Decode([Some(1), Some(2), Some(3), None, Some(5), Some(6), Some(7)])
              == Node(1, Node(2, Nil, Leaf(5)), Node(3, Leaf(6), Leaf(7)))
  {
    var t := [Some(1), Some(2), Some(3), None, Some(5), Some(6), Some(7)];
    assert Rank(t, 1) == 1 && Rank(t, 2) == 2 && Rank(t, 3) == 3 && Rank(t, 4) == 3;
    assert Rank(t, 5) == 4 && Rank(t, 6) == 5 && Rank(t, 7) == 6;
    forall j | 1 <= j < 7
      ensures Claimed(t, j)
    {
    }
    assert Subtree(t, 4) == Leaf(5) && Subtree(t, 5) == Leaf(6) && Subtree(t, 6) == Leaf(7);
    assert Subtree(t, 1) == Node(2, Nil, Leaf(5));
    assert Subtree(t, 2) == Node(3, Leaf(6), Leaf(7));
  }

  // ---------------------------------------------------------------------
  // `TreeNode::from_vec_str` (src/treenode.rs)

  lemma {:induction false} JoinSnoc(ps: seq<string>, p: string, sep: char)
    requires |ps| >= 1
    ensures Join(ps + [p], sep) == Join(ps, sep) + [sep] + p
  {
    if |ps| > 1 {
      assert (ps + [p])[1..] == ps[1..] + [p];
      JoinSnoc(ps[1..], p, sep);
    }
  }

  lemma TokensSnoc(es: Entries, e: Option<i32>, pad: string)
    requires |es| >= 1
    ensures Tokens(es + [e], pad) == Tokens(es, pad) + [pad + ShowEntry(e)]
  {
    var ts := Tokens(es, pad);
    forall i | 0 <= i < |es| + 1
      ensures Tokens(es + [e], pad)[i] == (ts + [pad + ShowEntry(e)])[i]
    {
    }
  }

  /** Appending an entry appends a comma, the padding and its token to the
      text between the brackets. */
  lemma BodySnoc(es: Entries, e: Option<i32>, pad: string)
    requires |es| >= 1
    ensures Join(Tokens(es + [e], pad), ',') == Join(Tokens(es, pad), ',') + [','] + (pad + ShowEntry(e))
  {
    TokensSnoc(es, e, pad);
    JoinSnoc(Tokens(es, pad), pad + ShowEntry(e), ',');
  }

  /** The text between the brackets for two entries with tokens `ta` and `tb`. */
  lemma WrittenTwo(a: Option<i32>, b: Option<i32>, pad: string, ta: string, tb: string, body: string)
    requires ShowEntry(a) == ta && ShowEntry(b) == tb && body == ta + [','] + (pad + tb)
    ensures Join(Tokens([a, b], pad), ',') == body
  {
    assert Tokens([a], pad) == [ta];
    assert [a, b] == [a] + [b];
    BodySnoc([a], b, pad);
  }

  /** The text between the brackets for three entries. */
  lemma WrittenThree(a: Option<i32>, b: Option<i32>, c: Option<i32>, pad: string,
                     ta: string, tb: string, tc: string, body: string)
    requires ShowEntry(a) == ta && ShowEntry(b) == tb && ShowEntry(c) == tc
    requires body == ta + [','] + (pad + tb) + [','] + (pad + tc)
    ensures Join(Tokens([a, b, c], pad), ',') == body
  {
    WrittenTwo(a, b, pad, ta, tb, ta + [','] + (pad + tb));
    assert [a, b, c] == [a, b] + [c];
    BodySnoc([a, b], c, pad);
  }

  lemma {:induction false} JoinAppend(xs: seq<string>, ys: seq<string>, sep: char)
    requires |xs| >= 1 && |ys| >= 1
    ensures Join(xs + ys, sep) == Join(xs, sep) + [sep] + Join(ys, sep)
  {
    if |xs| > 1 {
      assert (xs + ys)[1..] == xs[1..] + ys;
      JoinAppend(xs[1..], ys, sep);
    }
  }

  lemma TokensAppend(xs: Entries, ys: Entries)
    requires |xs| >= 1 && |ys| >= 1
    ensures Tokens(xs + ys, "") == Tokens(xs, "") + Tokens(ys, "")
  {
    var l := Tokens(xs + ys, "");
    var r := Tokens(xs, "") + Tokens(ys, "");
    forall i | 0 <= i < |xs| + |ys|
      ensures l[i] == r[i]
    {
      if i >= |xs| {
        assert (xs + ys)[i] == ys[i - |xs|];
      }
    }
  }

  /** Without padding, the text of `xs + ys` is the texts of `xs` and `ys`
      joined by a comma. */
  lemma WrittenAppend(xs: Entries, ys: Entries)
    requires |xs| >= 1 && |ys| >= 1
    ensures Join(Tokens(xs + ys, ""), ',') == Join(Tokens(xs, ""), ',') + [','] + Join(Tokens(ys, ""), ',')
  {
    TokensAppend(xs, ys);
    JoinAppend(Tokens(xs, ""), Tokens(ys, ""), ',');
  }

  /** Without padding, two entries are written as their tokens around a comma. */
  lemma WrittenPair(a: Option<i32>, b: Option<i32>, ta: string, tb: string, body: string)
    requires ShowEntry(a) == ta && ShowEntry(b) == tb && body == ta + [','] + tb
    ensures Join(Tokens([a, b], ""), ',') == body
  {
    assert Tokens([a], "") == [ta] && Tokens([b], "") == [tb];
    assert [a, b] == [a] + [b];
    WrittenAppend([a], [b]);
  }

  /** A text whose bracketed part is the written form of `es` is read as
      `es`, so it decodes as `es` does. */
  lemma TextOf(es: Entries, pad: string, body: string, s: string)
    requires |es| >= 1 && forall i :: 0 <= i < |pad| ==> IsWhitespace(pad[i])
    requires Join(Tokens(es, pad), ',') == body && s == "[" + body + "]" && Decodable(es)
    ensures TextDecodable(s) && TextTree(s) == Decode(es)
  {
    ParseFormat(es, pad);
  }

  lemma WrittenSingleNode()
    ensures Join(Tokens([Some(1)], ""), ',') == "1"
  {
    assert Show(1) == "1";
    assert Tokens([Some(1)], "") == ["1"];
  }

  lemma WrittenThreeNodesWithNone()
    ensures Join(Tokens([Some(1), None, Some(3)], " "), ',') == "1, null, 3"
  {
    assert Show(1) == "1" && Show(3) == "3";
    WrittenThree(Some(1), None, Some(3), " ", "1", "null", "3", "1, null, 3");
  }

  lemma WrittenTwoNodes()
    ensures Join(Tokens([Some(1), Some(3)], " "), ',') == "1, 3"
  {
    assert Show(1) == "1" && Show(3) == "3";
    WrittenTwo(Some(1), Some(3), " ", "1", "3", "1, 3");
  }

  /** Without padding, four entries are written as their tokens between commas. */
  lemma WrittenFour(a: Option<i32>, b: Option<i32>, c: Option<i32>, d: Option<i32>,
                    ta: string, tb: string, tc: string, td: string, body: string)
    requires ShowEntry(a) == ta && ShowEntry(b) == tb && ShowEntry(c) == tc && ShowEntry(d) == td
    requires body == (ta + [','] + tb) + [','] + (tc + [','] + td)
    ensures Join(Tokens([a, b, c, d], ""), ',') == body
  {
    WrittenPair(a, b, ta, tb, ta + [','] + tb);
    WrittenPair(c, d, tc, td, tc + [','] + td);
    WrittenAppend([a, b], [c, d]);
    assert [a, b] + [c, d] == [a, b, c, d];
  }

  lemma WrittenWithoutLeftmostNodeHead(es: Entries, body: string)
    requires es == [Some(3), Some(0), Some(4), None] && body == "3,0,4,null"
    ensures Join(Tokens(es, ""), ',') == body
  {
    assert Show(0) == "0" && Show(3) == "3" && Show(4) == "4";
    WrittenFour(Some(3), Some(0), Some(4), None, "3", "0", "4", "null", body);
  }

  lemma WrittenWithoutLeftmostNodeTail(es: Entries, body: string)
    requires es == [Some(2), None, None, Some(1)] && body == "2,null,null,1"
    ensures Join(Tokens(es, ""), ',') == body
  {
    assert Show(1) == "1" && Show(2) == "2";
    WrittenFour(Some(2), None, None, Some(1), "2", "null", "null", "1", body);
  }

  lemma WithoutLeftmostNodeHalves()
    ensures [Some(3), Some(0), Some(4), None] + [Some(2), None, None, Some(1)]
            == [Some(3), Some(0), Some(4), None, Some(2), None, None, Some(1)]
    ensures "3,0,4,null" + [','] + "2,null,null,1" == "3,0,4,null,2,null,null,1"
  {
  }

  lemma WithoutLeftmostNodeBrackets()
    ensures "[3,0,4,null,2,null,null,1]" == "[" + "3,0,4,null,2,null,null,1" + "]"
  {
  }

  lemma WrittenWithoutLeftmostNode()
    ensures Join(Tokens([Some(3), Some(0), Some(4), None, Some(2), None, None, Some(1)], ""), ',')
              == "3,0,4,null,2,null,null,1"
  {
    WithoutLeftmostNodeHalves();
    WrittenWithoutLeftmostNodeHead([Some(3), Some(0), Some(4), None], "3,0,4,null");
    WrittenWithoutLeftmostNodeTail([Some(2), None, None, Some(1)], "2,null,null,1");
    WrittenAppend([Some(3), Some(0), Some(4), None], [Some(2), None, None, Some(1)]);
  }

  lemma WrittenOneTwoThree()
    ensures Join(Tokens([Some(1), Some(2), Some(3)], " "), ',') == "1, 2, 3"
  {
    assert Show(1) == "1" && Show(2) == "2" && Show(3) == "3";
    WrittenThree(Some(1), Some(2), Some(3), " ", "1", "2", "3", "1, 2, 3");
  }

  lemma WrittenOneTwo()
    ensures Join(Tokens([Some(1), Some(2)], " "), ',') == "1, 2"
  {
    assert Show(1) == "1" && Show(2) == "2";
    WrittenTwo(Some(1), Some(2), " ", "1", "2", "1, 2");
  }

  lemma WrittenOneNullTwo()
    ensures Join(Tokens([Some(1), None, Some(2)], " "), ',') == "1, null, 2"
  {
    assert Show(1) == "1" && Show(2) == "2";
    WrittenThree(Some(1), None, Some(2), " ", "1", "null", "2", "1, null, 2");
  }

  lemma WrittenOneTwoOne()
    ensures Join(Tokens([Some(1), Some(2), Some(1)], " "), ',') == "1, 2, 1"
  {
    assert Show(1) == "1" && Show(2) == "2";
    WrittenThree(Some(1), Some(2), Some(1), " ", "1", "2", "1", "1, 2, 1");
  }

  lemma WrittenOneOneTwo()
    ensures Join(Tokens([Some(1), Some(1), Some(2)], " "), ',') == "1, 1, 2"
  {
    assert Show(1) == "1" && Show(2) == "2";
    WrittenThree(Some(1), Some(1), Some(2), " ", "1", "1", "2", "1, 1, 2");
  }

  lemma SingleNodeText()
    ensures TextDecodable("[1]") && TextTree("[1]") == Leaf(1)
  {
    SingleNode();
    WrittenSingleNode();
    TextOf([Some(1)], "", "1", "[1]");
  }

  lemma ThreeNodesWithNoneText()
    ensures TextDecodable("[1, null, 3]") && TextTree("[1, null, 3]") == Node(1, Nil, Leaf(3))
  {
    ThreeNodesWithNone();
    WrittenThreeNodesWithNone();
    TextOf([Some(1), None, Some(3)], " ", "1, null, 3", "[1, null, 3]");
  }

  lemma TwoNodesText()
    ensures TextDecodable("[1, 3]") && TextTree("[1, 3]") == Node(1, Leaf(3), Nil)
  {
    LeftChildOnly(1, 3);
    WrittenTwoNodes();
    TextOf([Some(1), Some(3)], " ", "1, 3", "[1, 3]");
  }

  lemma WithoutLeftmostNodeRanks()
    ensures Decodable([Some(3), Some(0), Some(4), None, Some(2), None, None, Some(1)])
    ensures var t := [Some(3), Some(0), Some(4), None, Some(2), None, None, Some(1)];
            Rank(t, 1) == 1 && Rank(t, 2) == 2 && Rank(t, 4) == 3 && Rank(t, 7) == 4
  {
    var t := [Some(3), Some(0), Some(4), None, Some(2), None, None, Some(1)];
    assert Rank(t, 1) == 1 && Rank(t, 2) == 2 && Rank(t, 3) == 3 && Rank(t, 4) == 3;
    assert Rank(t, 5) == 4 && Rank(t, 6) == 4 && Rank(t, 7) == 4;
    forall j | 1 <= j < 8
      ensures Claimed(t, j)
    {
    }
  }

  lemma WithoutLeftmostNode()
    ensures Decodable([Some(3), Some(0), Some(4), None, Some(2), None, None, Some(1)])
    ensures Decode([Some(3), Some(0), Some(4), None, Some(2), None, None, Some(1)])
              == Node(3, Node(0, Nil, Node(2, Leaf(1), Nil)), Leaf(4))
  {
    var t := [Some(3), Some(0), Some(4), None, Some(2), None, None, Some(1)];
    WithoutLeftmostNodeRanks();
    assert Subtree(t, 7) == Leaf(1);
    assert Subtree(t, 4) == Node(2, Leaf(1), Nil);
    assert Subtree(t, 1) == Node(0, Nil, Node(2, Leaf(1), Nil));
    assert Subtree(t, 2) == Leaf(4);
  }

  lemma WithoutLeftmostNodeText()
    ensures TextDecodable("[3,0,4,null,2,null,null,1]") && TextTree("[3,0,4,null,2,null,null,1]") == Node(3, Node(0, Nil, Node(2, Leaf(1), Nil)), Leaf(4))
  {
    WithoutLeftmostNodeBrackets();
    WithoutLeftmostNode();
    WrittenWithoutLeftmostNode();
    TextOf([Some(3), Some(0), Some(4), None, Some(2), None, None, Some(1)], "", "3,0,4,null,2,null,null,1", "[3,0,4,null,2,null,null,1]");
  }

  // ---------------------------------------------------------------------
  // `TreeNode::from_vec` (src/lib.rs)

  lemma HeapSingleNode()
    ensures !HeapOrder.IndexesPastEnd([Some(1)]) && HeapOrder.HeapDecode([Some(1)]) == Leaf(1)
  {
    assert HeapOrder.HeapSubtree([Some(1)], 0) == Node(1, HeapOrder.HeapSubtree([Some(1)], 1), HeapOrder.HeapSubtree([Some(1)], 2));
  }

  lemma HeapThreeNodes()
    ensures !HeapOrder.IndexesPastEnd([Some(1), Some(2), Some(3)])
    ensures HeapOrder.HeapDecode([Some(1), Some(2), Some(3)]) == Node(1, Leaf(2), Leaf(3))
  {
    var t := [Some(1), Some(2), Some(3)];
    assert HeapOrder.HeapSubtree(t, 1) == Leaf(2) && HeapOrder.HeapSubtree(t, 2) == Leaf(3);
  }

  lemma HeapThreeNodesWithNone()
    ensures !HeapOrder.IndexesPastEnd([Some(1), None, Some(3)])
    ensures HeapOrder.HeapDecode([Some(1), None, Some(3)]) == Node(1, Nil, Leaf(3))
  {
    var t := [Some(1), None, Some(3)];
    assert HeapOrder.HeapSubtree(t, 1) == Nil && HeapOrder.HeapSubtree(t, 2) == Leaf(3);
  }

  lemma HeapSevenNodes()
    ensures !HeapOrder.IndexesPastEnd([Some(1), Some(2), Some(3), None, Some(5), Some(6), Some(7)])
    ensures HeapOrder.HeapDecode([Some(1), Some(2), Some(3), None, Some(5), Some(6), Some(7)])
              == Node(1, Node(2, Nil, Leaf(5)), Node(3, Leaf(6), Leaf(7)))
  {
    var t := [Some(1), Some(2), Some(3), None, Some(5), Some(6), Some(7)];
    assert HeapOrder.HeapSubtree(t, 4) == Leaf(5) && HeapOrder.HeapSubtree(t, 5) == Leaf(6);
    assert HeapOrder.HeapSubtree(t, 6) == Leaf(7) && HeapOrder.HeapSubtree(t, 3) == Nil;
  }

  // ---------------------------------------------------------------------
  // `main` of examples/is_same_tree.rs

  lemma SameSingleNode()
    ensures TextDecodable("[1]") && IsSameTree(TextTree("[1]"), TextTree("[1]"))
  {
    SingleNodeText();
  }

  lemma OneTwoThree()
    ensures TextDecodable("[1, 2, 3]") && TextTree("[1, 2, 3]") == Node(1, Leaf(2), Leaf(3))
  {
    ThreeNodes();
    WrittenOneTwoThree();
    TextOf([Some(1), Some(2), Some(3)], " ", "1, 2, 3", "[1, 2, 3]");
  }

  lemma SameThreeNodes()
    ensures TextDecodable("[1, 2, 3]") && IsSameTree(TextTree("[1, 2, 3]"), TextTree("[1, 2, 3]"))
  {
    OneTwoThree();
  }

  lemma OneTwo()
    ensures TextDecodable("[1, 2]") && TextTree("[1, 2]") == Node(1, Leaf(2), Nil)
  {
    LeftChildOnly(1, 2);
    WrittenOneTwo();
    TextOf([Some(1), Some(2)], " ", "1, 2", "[1, 2]");
  }

  lemma OneNullTwo()
    ensures TextDecodable("[1, null, 2]") && TextTree("[1, null, 2]") == Node(1, Nil, Leaf(2))
  {
    RightChildOnly(1, 2);
    WrittenOneNullTwo();
    TextOf([Some(1), None, Some(2)], " ", "1, null, 2", "[1, null, 2]");
  }

  lemma LeftVersusRightChild()
    ensures TextDecodable("[1, 2]") && TextDecodable("[1, null, 2]")
    ensures !IsSameTree(TextTree("[1, 2]"), TextTree("[1, null, 2]"))
  {
    OneTwo();
    OneNullTwo();
  }

  lemma OneTwoOne()
    ensures TextDecodable("[1, 2, 1]") && TextTree("[1, 2, 1]") == Node(1, Leaf(2), Leaf(1))
  {
    BothChildren(1, 2, 1);
    WrittenOneTwoOne();
    TextOf([Some(1), Some(2), Some(1)], " ", "1, 2, 1", "[1, 2, 1]");
  }

  lemma OneOneTwo()
    ensures TextDecodable("[1, 1, 2]") && TextTree("[1, 1, 2]") == Node(1, Leaf(1), Leaf(2))
  {
    BothChildren(1, 1, 2);
    WrittenOneOneTwo();
    TextOf([Some(1), Some(1), Some(2)], " ", "1, 1, 2", "[1, 1, 2]");
  }

  lemma SwappedChildren()
    ensures TextDecodable("[1, 2, 1]") && TextDecodable("[1, 1, 2]")
    ensures !IsSameTree(TextTree("[1, 2, 1]"), TextTree("[1, 1, 2]"))
  {
    OneTwoOne();
    OneOneTwo();
  }
}
