# Level-order binary-tree codec of leetcode-utils-rs

This project models, in Dafny, the core of `leetcode-utils-rs`. That core is
the code that builds LeetCode-style binary trees (`TreeNode` with
`Option<Rc<RefCell<TreeNode>>>` children) from their level-order form.

- `TreeNode::from_vec` in `src/treenode.rs` takes a vector of optional values
  and wires the nodes with a frontier loop. Every present node takes the next
  two entries of the input as its children, and `null` entries take none.
- `TreeNode::from_vec_str` in `src/treenode.rs` reads text such as
  `[3,0,4,null,2,null,null,1]` into that vector, then calls `from_vec`. The
  text `[]` is rejected by the token parser, because its single token is
  empty; it is not read as an empty vector. Either way the result is no tree.
- `TreeNode::from_vec` in `src/lib.rs` is the older decoder. It uses heap
  indexing: entry `i` gets entries `2i + 1` and `2i + 2`, whether or not the
  entries before `i` are present.
- `Solution::is_same_tree` in `examples/is_same_tree.rs` compares two trees
  structurally. The example's `main` applies it to trees read from text.

Modules:

- `Trees` (`trees.dfy`): the value type `i32`, `Option`, the tree value, and
  `TreeNode::new`.
- `Arena` (`arena.dfy`): the node store the decoders build. Entry `i` becomes
  handle `i`. The `left` and `right` child fields are two arrays indexed by
  handle, and they are assigned in place. `ToTree` reads the finished arena
  back as a tree value.
- `LevelOrder` (`level_order.dfy`): the frontier decoder of `src/treenode.rs`.
  - It is written as an imperative method with the source's loops.
  - It is proved against a closed form: a present entry with `r` present
    entries before it receives entries `2r + 1` and `2r + 2`.
  - The module also holds the loop's round structure and its exact
    termination condition.
- `LevelOrderTotal` (`level_order_total.dfy`): a corrected decoder that
  terminates on every input (see "## Findings").
- `LevelOrderShape` (`level_order_shape.dfy`): the shape of a decoded tree. No
  node has two parents, and every node comes from its own present entry.
- `TextFormat` (`text_format.dfy`): `from_vec_str`, the string operations it
  uses, and a printer whose output the parser reads back.
- `HeapOrder` (`heap_order.dfy`): the decoder of `src/lib.rs` as written, a
  bounds-checked version of it, and where the two layouts agree.
- `SameTree` (`same_tree.dfy`): `is_same_tree`.
- `UnitTests` (`unit_tests.dfy`): the unit tests of both `from_vec`s and of
  `from_vec_str`, and the assertions of the example's `main`, as lemmas.

## Model

| member | source | states |
|---|---|---|
| Trees.Leaf | src/treenode.rs:17-23 | `TreeNode::new(v)` is a single node holding `v`: a tree of size 1 with value `v` |
| Arena.NewNodes | src/treenode.rs:32-39 | one fresh node handle per present entry, at its own position, and no node for a `None` entry |
| LevelOrder.Rank | src/treenode.rs:51-64 | the number of present entries before position `i` never exceeds `i` |
| LevelOrder.RankMono | src/treenode.rs:51-64 | the rank is monotone and grows by at most one per entry |
| LevelOrder.RankPresent | src/treenode.rs:51-64 | the rank grows across a range iff the range holds a present entry |
| LevelOrder.ChildAfter | src/treenode.rs:51-64 | in a decodable input, the entries popped for a node come after that node |
| LevelOrder.Round | src/treenode.rs:52-67 | one round of the `while` loop turns a frontier into the next one, a range of entries inside the input |
| LevelOrder.Rounds | src/treenode.rs:46-68 | the loop state after `k` rounds is a frontier inside the input |
| LevelOrder.RoundConsumes | src/treenode.rs:51-68 | a round pops an entry iff its frontier holds a present node; a round that pops nothing leaves the state fixed from then on |
| LevelOrder.RoundsAdvance | src/treenode.rs:51-68 | on a decodable input the cursor has passed entry `k` (or reached the end) after `k` rounds, and until the end it stands at `1 + 2·Rank(frontier start)` |
| LevelOrder.RoundsStall | src/treenode.rs:51-68 | if some entry `j` is not claimed, the cursor never passes `j` |
| LevelOrder.TerminatesIffDecodable | src/treenode.rs:51-68 | the `while` loop on a non-empty input ends iff the input is decodable; otherwise it spins forever (as on `[null, 1]`) |
| LevelOrder.NullRootDiverges | src/treenode.rs:49-68 | a `null` root followed by more entries makes the loop spin forever |
| LevelOrder.FieldsStep | src/treenode.rs:52-64 | handling one frontier slot changes only that node's child field, and only when the node is present; the cursor then moves on by two |
| LevelOrder.VisitSlot | src/treenode.rs:53-63 | a present node pops its left child, then its right child, each only while entries remain; it writes exactly those fields and returns the popped handles |
| LevelOrder.LinkLevel | src/treenode.rs:52-67 | one pass over the frontier writes the fields the round prescribes and returns the next frontier, the entries it popped |
| LevelOrder.RoundLinks | src/treenode.rs:52-64 | a round links exactly the nodes of its frontier, as the closed form says |
| LevelOrder.LinkedComplete | src/treenode.rs:51-68 | once the cursor reaches the end, every node has its closed-form children |
| LevelOrder.RoundsStep | src/treenode.rs:51-68 | each iteration of the loop in `FromVec` is the next state of `Rounds` |
| LevelOrder.LoopStep | src/treenode.rs:51-68 | one iteration advances the cursor, follows `Rounds`, and links the finished frontier as the closed form says |
| LevelOrder.FromVec | src/treenode.rs:27-71 | `from_vec` returns the closed-form tree `Decode(tree)`; an empty input gives `None` |
| LevelOrder.ArenaDecodes | src/treenode.rs:42-70 | once the loop has ended, the arena read from the saved root is `Decode(tree)` |
| LevelOrder.LevelLinksWell | src/treenode.rs:52-64 | every link the decoder writes points to a later present entry, so the node graph is acyclic |
| LevelOrder.ToTreeIsSubtree | src/treenode.rs:42-70 | reading the finished arena from any entry yields that entry's closed-form subtree |
| LevelOrderShape.ParentBefore | src/treenode.rs:52-64 | a child always comes after its parent in the input |
| LevelOrderShape.ReachBound | src/treenode.rs:52-64 | only present entries from `i` on are reachable from node `i` |
| LevelOrderShape.UniqueParent | src/treenode.rs:52-64 | no entry is popped as a child by two different nodes |
| LevelOrderShape.FindParent | src/treenode.rs:52-64 | every reachable node other than the start has a reachable parent |
| LevelOrderShape.ParentReached | src/treenode.rs:52-64 | the parent of a reachable node is itself reachable |
| LevelOrderShape.ReachNested | src/treenode.rs:52-64 | two subtrees that share a node are nested |
| LevelOrderShape.SiblingsApart | src/treenode.rs:52-64 | neither child of a node lies in the other's subtree |
| LevelOrderShape.NotInBoth | src/treenode.rs:52-64 | an entry under the left child is not under the right child |
| LevelOrderShape.ChildrenDisjoint | src/treenode.rs:52-64 | the two subtrees of a node are disjoint, and neither contains the node |
| LevelOrderShape.SizeIsReach | src/treenode.rs:27-71 | a decoded subtree has exactly one node per reachable entry, so no node is shared |
| LevelOrderShape.SizeStep | src/treenode.rs:27-71 | the node count of a subtree is one plus the counts of its two children |
| LevelOrderShape.SizeUnfold | src/treenode.rs:27-71 | a present node's subtree size is one plus its children's sizes |
| LevelOrderShape.ReachCard | src/treenode.rs:52-64 | a node's set of entries is its own entry plus two disjoint child sets |
| LevelOrderShape.PresentBeforeCount | src/treenode.rs:32-39 | the present positions before `i` number exactly `Rank(i)` |
| LevelOrderShape.DecodedNodesAreDistinctEntries | src/treenode.rs:27-71 | every decoded node comes from its own present entry, so the tree has at most as many nodes as `Some` entries |
| TextFormat.TrimStart | src/treenode.rs:74 | `trim_start` drops exactly the leading whitespace and keeps a suffix |
| TextFormat.TrimEnd | src/treenode.rs:74 | `trim_end` drops exactly the trailing whitespace and keeps a prefix |
| TextFormat.Trim | src/treenode.rs:74 | a trimmed string neither starts nor ends with whitespace |
| TextFormat.IsWhitespace | src/treenode.rs:74 | the characters `trim` removes include space, tab, newline and carriage return, and no printable ASCII character (so never a bracket, comma, sign, digit or letter) |
| TextFormat.TrimStartPadded | src/treenode.rs:74 | `trim_start` removes exactly a whitespace prefix in front of text that does not start with whitespace |
| TextFormat.TrimEndPadded | src/treenode.rs:74 | `trim_end` removes exactly a whitespace suffix behind text that does not end with whitespace |
| TextFormat.TrimSurrounded | src/treenode.rs:74 | whitespace on both sides of trimmed text is removed |
| TextFormat.TrimBlank | src/treenode.rs:74 | whitespace-only text trims to the empty string |
| TextFormat.TrimKeeps | src/treenode.rs:74 | trimming leaves already-trimmed text unchanged |
| TextFormat.TrimPadded | src/treenode.rs:85 | trimming removes leading padding, such as the space after a comma |
| TextFormat.Split | src/treenode.rs:80 | `split(',')` yields at least one piece, no piece holds a comma, and joining the pieces gives back the text |
| TextFormat.SplitFront | src/treenode.rs:80 | a comma-free piece followed by a comma splits off as one piece |
| TextFormat.SplitWhole | src/treenode.rs:80 | comma-free text is a single piece |
| TextFormat.SplitJoin | src/treenode.rs:80 | splitting undoes joining when no piece holds the separator |
| TextFormat.ParseI32 | src/treenode.rs:87 | `parse::<i32>` accepts only an optional sign followed by digits |
| TextFormat.ShowNat | src/treenode.rs:87 | the decimal digits of `n` are non-empty digits whose value is `n` |
| TextFormat.Show | src/treenode.rs:87 | a printed `i32` holds no comma and no surrounding whitespace |
| TextFormat.ParseShow | src/treenode.rs:87 | parsing reads back every printed `i32` |
| TextFormat.ParseRejects | src/treenode.rs:85-87 | the empty token, a bare sign, `null` and trailing spaces do not parse as `i32`; a `+` sign does |
| TextFormat.ParseToken | src/treenode.rs:85-87 | a trimmed token `null` is an absent entry; any other token is accepted iff it parses as an `i32`, with that value; an empty or blank token is rejected |
| TextFormat.ParseText | src/treenode.rs:74-89 | accepted text trims to a bracketed body, and yields one entry per comma-separated piece of that body, so never an empty vector |
| TextFormat.Collect | src/treenode.rs:84-89 | the loop returns all token values when every token is valid, and `None` iff some token is invalid |
| TextFormat.CollectAll | src/treenode.rs:84-89 | all-valid tokens collect to their values |
| TextFormat.TokenResults | src/treenode.rs:80-89 | one result per comma-separated token |
| TextFormat.FromVecStr | src/treenode.rs:73-92 | `from_vec_str` returns `None` for text that is not a bracketed list of `null`/`i32` tokens; otherwise it returns the level-order decoding of the tokens |
| TextFormat.ParseElements | src/treenode.rs:80-89 | the token loop builds one entry per token, in order, and returns early with `None` on the first invalid token |
| TextFormat.CollectSnoc | src/treenode.rs:84-89 | a valid token appends its entry to the vector |
| TextFormat.CollectFails | src/treenode.rs:87 | one invalid token makes the whole text invalid |
| TextFormat.ShowEntry | src/treenode.rs:85-87 | an entry's token is non-empty, has no surrounding whitespace and holds no comma |
| TextFormat.ParseFormat | src/treenode.rs:73-92 | every non-empty entry vector, written with any whitespace padding after the commas, is read back as itself |
| TextFormat.TokenParses | src/treenode.rs:85-87 | each written token is read back as its entry |
| TextFormat.EmptyTokenRejected | src/treenode.rs:80-89 | a bracketed list with an empty token anywhere is rejected, because the empty string does not parse |
| TextFormat.EmptyListRejected | src/treenode.rs:80-89 | `[]` is rejected: its one token is empty |
| TextFormat.TrailingCommaRejected | src/treenode.rs:80-89 | `[1,]` is rejected because its last token is empty |
| TextFormat.UnbracketedRejected | src/treenode.rs:74-78 | text whose first or last non-blank character is not the matching bracket is rejected, whatever blanks surround it |
| TextFormat.BlankRejected | src/treenode.rs:74-78 | text made only of whitespace, the empty string included, is rejected |
| LevelOrderTotal.StopFrom | src/treenode.rs:51-68 | the first position from `j` on that no present node claims, or the end of the input |
| LevelOrderTotal.Stop | src/treenode.rs:51-68 | every position before the stop is claimed, and the stop itself, unless it is the end, is not |
| LevelOrderTotal.StopIffDecodable | src/treenode.rs:51-68 | the stop is the end of the input exactly when the input is decodable, that is, when the loop ends |
| LevelOrderTotal.CursorNeverPassesStop | src/treenode.rs:51-68 | the cursor of the `while` loop never passes the stop, so the entries from there on are never popped |
| LevelOrderTotal.RankPrefix | src/treenode.rs:51-64 | cutting the input does not change the ranks before the cut |
| LevelOrderTotal.PrefixDecodable | src/treenode.rs:51-64 | a prefix whose positions are all claimed is decodable |
| LevelOrderTotal.FromVecTotal | src/treenode.rs:27-71 | the corrected decoder terminates on every input and returns the level-order decoding of the entries before the stop |
| LevelOrderTotal.TotalAgrees | src/treenode.rs:27-71 | on every input where the loop ends, the corrected decoder reads the whole input and so returns what `from_vec` returns |
| LevelOrderTotal.NullRootGivesNoTree | src/treenode.rs:49-68 | a `null` root followed by more entries gives no tree, where the source loop spins |
| HeapOrder.FromVec | src/lib.rs:24-50 | as written: panics with an out-of-bounds read of `nodes[len]` exactly when the length is even and the last visited entry (`len / 2 - 1`) is present; otherwise returns the heap-layout tree |
| HeapOrder.FromVecChecked | src/lib.rs:24-50 | with the right-child index checked, the decoder never fails and returns the heap-layout tree |
| HeapOrder.LinkChild | src/lib.rs:40-45 | a child assignment sets only the visited entry's field: to the node of entry `2(i + 1) - 1` (left) or `2(i + 1)` (right) when that entry is present, and otherwise leaves it empty |
| HeapOrder.HeapLinksNext | src/lib.rs:38-47 | visiting entry `i` sets its two child fields and nothing else |
| HeapOrder.HeapArenaDecodes | src/lib.rs:38-49 | once the first half is linked, the arena read from the root is the heap-layout tree |
| HeapOrder.ToTreeIsHeapSubtree | src/lib.rs:38-49 | the arena read from entry `i` is the heap subtree at `i` |
| HeapOrder.RankOfFullPrefix | src/lib.rs:38-47 | with no `null` before `i`, the rank of `i` is `i` |
| HeapOrder.HeapAgreesWithLevelOrder | src/lib.rs:38-47 | when the first half has no `null`, the input is decodable, and the bounds-checked heap decoder and the level-order decoder build the same tree |
| HeapOrder.FullHalfAsWritten | src/lib.rs:38-47 | on those inputs the decoder as written reads past the end exactly when the length is even and non-zero; on odd lengths it builds the common tree |
| HeapOrder.SubtreesAgree | src/lib.rs:38-47 | with no `null` in the first half, the heap and level-order subtrees agree at every entry |
| HeapOrder.EvenLengthIndexesPastEnd | src/lib.rs:43 | `[1, 2]` makes the code as written read past the end; the intended tree, root `1` with left child `2`, is what both the checked heap decoder and the level-order decoder build |
| HeapOrder.MiddleNullSafe | src/lib.rs:38-47 | an input whose last visited entry (`len / 2 - 1`) is `null` never reads past the end |
| SameTree.IsSameTree | examples/is_same_tree.rs:8-27 | `is_same_tree` holds exactly when the two trees are equal |
| UnitTests.SingleNode | src/treenode.rs:103-110 | `[1]` decodes to a single node |
| UnitTests.ThreeNodes | src/treenode.rs:113-124 | `[1, 2, 3]` decodes to root `1` with leaves `2` and `3` |
| UnitTests.ThreeNodesWithNone | src/treenode.rs:127-138 | `[1, null, 3]` decodes to root `1` with right leaf `3` |
| UnitTests.SevenNodes | src/treenode.rs:141-160 | `[1, 2, 3, null, 5, 6, 7]` decodes to the expected seven-node tree |
| UnitTests.SingleNodeText | src/treenode.rs:163-168 | `"[1]"` reads as a single node |
| UnitTests.ThreeNodesWithNoneText | src/treenode.rs:171-180 | `"[1, null, 3]"` reads as root `1` with right leaf `3` |
| UnitTests.TwoNodesText | src/treenode.rs:183-192 | `"[1, 3]"` reads as root `1` with left leaf `3` |
| UnitTests.WithoutLeftmostNode | src/treenode.rs:195-212 | `[3, 0, 4, null, 2, null, null, 1]` decodes to the expected tree |
| UnitTests.WithoutLeftmostNodeText | src/treenode.rs:195-212 | `"[3,0,4,null,2,null,null,1]"` reads as that tree |
| UnitTests.HeapSingleNode | src/lib.rs:61-68 | the heap decoder builds a single node from `[1]` without failing |
| UnitTests.HeapThreeNodes | src/lib.rs:71-82 | the heap decoder builds root `1` with leaves `2` and `3` |
| UnitTests.HeapThreeNodesWithNone | src/lib.rs:85-96 | the heap decoder builds root `1` with right leaf `3` from `[1, null, 3]` |
| UnitTests.HeapSevenNodes | src/lib.rs:99-118 | the heap decoder builds the expected seven-node tree |
| UnitTests.OneTwoThree | examples/is_same_tree.rs:36-42 | `"[1, 2, 3]"` reads as root `1` with leaves `2` and `3` |
| UnitTests.OneTwo | examples/is_same_tree.rs:44-50 | `"[1, 2]"` reads as root `1` with left leaf `2` |
| UnitTests.OneNullTwo | examples/is_same_tree.rs:44-50 | `"[1, null, 2]"` reads as root `1` with right leaf `2` |
| UnitTests.OneTwoOne | examples/is_same_tree.rs:52-58 | `"[1, 2, 1]"` reads as root `1` with left leaf `2` and right leaf `1` |
| UnitTests.OneOneTwo | examples/is_same_tree.rs:52-58 | `"[1, 1, 2]"` reads as root `1` with left leaf `1` and right leaf `2` |
| UnitTests.SameSingleNode | examples/is_same_tree.rs:31-34 | `"[1]"` is the same tree as itself |
| UnitTests.SameThreeNodes | examples/is_same_tree.rs:36-42 | `"[1, 2, 3]"` is the same tree as itself |
| UnitTests.LeftVersusRightChild | examples/is_same_tree.rs:44-50 | `"[1, 2]"` and `"[1, null, 2]"` are different trees |
| UnitTests.SwappedChildren | examples/is_same_tree.rs:52-58 | `"[1, 2, 1]"` and `"[1, 1, 2]"` are different trees |

## Left out

- Shared ownership (`Rc<RefCell<…>>`) is modelled as an arena of handles,
  with the child fields in two arrays. The nodes the decoders build are never
  shared: `SizeIsReach` and `ChildrenDisjoint` prove this for the level-order
  decoder, and the heap layout is injective by construction. So a tree value
  captures everything an observer can read from the root.
- The generic value type `T` is fixed to `i32`, which is what
  `TreeNodeI32` and all the tests use. `from_vec_str` parses with
  `T::from_str`, and only `i32`'s parser is modelled.
- The `Debug`, `PartialEq` and `Eq` derives are not modelled. Tree equality is
  Dafny's equality on tree values.
- LevelOrder.FromVec: requires `Decodable(tree)`. On other inputs the source
  loop never ends (for example `[null, 1]`). A terminating method cannot model
  that, so `TerminatesIffDecodable` proves that `Decodable` is exactly the
  terminating case. `LevelOrderTotal.FromVecTotal` is the terminating
  correction, listed under "## Findings".
- TextFormat.FromVecStr: requires `TextDecodable`, for the same reason. Text
  that is invalid is still handled and returns `None`; only text whose
  entries would make the loop spin is excluded.
- `nodes.reverse()` followed by `pop()` is modelled as a forward cursor over
  the entries. Popping from the end of the reversed vector yields the
  entries in order.
- `str::trim`, `str::strip_prefix`, `str::strip_suffix`, `str::split` and
  `i32::from_str` are library code. They are modelled from their documented
  behaviour.
- TextFormat.ParseRejects: out-of-range literals (outside
  `-2147483648..2147483647`) are rejected by `ParseI32`'s range check. No
  concrete ten-digit instance is stated.
- `src/lib.rs` and `src/treenode.rs` each define their own `TreeNode` struct
  and `new`. The two are identical, so `Trees.Leaf` models both.

## Findings

| source | as written | input that shows it | evidently intended | confidence | as-written member | corrected member |
|---|---|---|---|---|---|---|
| src/lib.rs:43 | `nodes[2 * (i + 1)]` is read without a bounds check. On an even-length input the last visited entry is `len / 2 - 1`, whose right child index is `len`. | `[1, 2]`: entry 0 is present and `nodes[2]` is out of bounds (a panic) | a right child is only read when it exists, so `[1, 2]` gives root `1` with left child `2` | not executed | HeapOrder.FromVec, HeapOrder.EvenLengthIndexesPastEnd | HeapOrder.FromVecChecked, HeapOrder.HeapAgreesWithLevelOrder |
| src/treenode.rs:51 | `while !&nodes.is_empty()` ends only once every entry has been popped, but only present frontier nodes pop entries. An entry that no present node claims is never popped. | `[null, 1]`: the frontier is `[None]`, nothing is popped, and the loop repeats forever | decoding ends on every input: entries no present node claims are ignored, so `[null, 1]` gives no tree | not executed | LevelOrder.TerminatesIffDecodable, LevelOrder.NullRootDiverges | LevelOrderTotal.FromVecTotal, LevelOrderTotal.TotalAgrees, LevelOrderTotal.NullRootGivesNoTree |
