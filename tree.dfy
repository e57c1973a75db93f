/**
 * Nesting the flat heading list into a forest by level, with a stack of the
 * currently open headings.
 *
 * The source appends each new node into the `nodes` list of the dict on top
 * of its stack, a dict that is at the same time reachable from the roots.
 * The model keeps the forest as a value: the open headings are always the
 * rightmost path ("spine") of the forest, so appending under the stack top
 * is appending under the spine node at depth `|stack|`.
 */
module TreeBuild {
  import opened Spans
  import opened NodeIds

  datatype TreeNode = TreeNode(title: string, nodeId: string, text: string, lineNum: nat, nodes: seq<TreeNode>)

  /** The fields of a node other than its children. */
  type Label = (string, string, string, nat)

  function LabelOf(t: TreeNode): Label {
    (t.title, t.nodeId, t.text, t.lineNum)
  }

  /** Every node of the forest, parents before children, in sibling order. */
  function Preorder(f: seq<TreeNode>): seq<Label> {
    if f == [] then []
    else Preorder(f[..|f| - 1]) + [LabelOf(f[|f| - 1])] + Preorder(f[|f| - 1].nodes)
  }

  /** Ids along the rightmost path, from the last root downwards. */
  function Spine(f: seq<TreeNode>): seq<string> {
    if f == [] then [] else [f[|f| - 1].nodeId] + Spine(f[|f| - 1].nodes)
  }

  function RootIds(f: seq<TreeNode>): seq<string> {
    seq(|f|, k requires 0 <= k < |f| => f[k].nodeId)
  }

  /** Every (parent id, child id) edge of the forest. */
  function ChildPairs(f: seq<TreeNode>): set<(string, string)> {
    if f == [] then {}
    else
      var last := f[|f| - 1];
      ChildPairs(f[..|f| - 1]) + KidPairs(last) + ChildPairs(last.nodes)
  }

  /** The edges from a node to its own children. */
  function KidPairs(t: TreeNode): set<(string, string)> {
    set c | c in RootIds(t.nodes) :: (t.nodeId, c)
  }

  /**
   * Append `t` as the last root (`d == 0`) or as the last child of the
   * spine node at depth `d`.
   */
  function AppendAt(f: seq<TreeNode>, d: nat, t: TreeNode): seq<TreeNode>
    requires d <= |Spine(f)|
  {
    if d == 0 then f + [t]
    else
      var last := f[|f| - 1];
      f[..|f| - 1] + [last.(nodes := AppendAt(last.nodes, d - 1, t))]
  }

  lemma PreorderSnoc(init: seq<TreeNode>, t: TreeNode)
    ensures Preorder(init + [t]) == Preorder(init) + [LabelOf(t)] + Preorder(t.nodes)
  {
    assert (init + [t])[..|init|] == init;
  }

  lemma PairsSnoc(init: seq<TreeNode>, t: TreeNode)
    ensures ChildPairs(init + [t]) == ChildPairs(init) + KidPairs(t) + ChildPairs(t.nodes)
  {
    assert (init + [t])[..|init|] == init;
  }

  /** Appending below the last root is appending below its replacement. */
  lemma AppendDeepShape(f: seq<TreeNode>, d: nat, t: TreeNode)
    requires 0 < d <= |Spine(f)|
    ensures f == f[..|f| - 1] + [f[|f| - 1]]
    ensures d - 1 <= |Spine(f[|f| - 1].nodes)|
    ensures AppendAt(f, d, t)
         == f[..|f| - 1] + [f[|f| - 1].(nodes := AppendAt(f[|f| - 1].nodes, d - 1, t))]
    ensures Spine(f)[d - 1] == if d == 1 then f[|f| - 1].nodeId else Spine(f[|f| - 1].nodes)[d - 2]
  {
  }

  lemma {:induction false} AppendPreorder(f: seq<TreeNode>, d: nat, t: TreeNode)
    requires d <= |Spine(f)| && t.nodes == []
    ensures Preorder(AppendAt(f, d, t)) == Preorder(f) + [LabelOf(t)]
  {
    if d == 0 {
      PreorderSnoc(f, t);
    } else {
      var init, last := f[..|f| - 1], f[|f| - 1];
      AppendDeepShape(f, d, t);
      var last' := last.(nodes := AppendAt(last.nodes, d - 1, t));
      PreorderSnoc(init, last);
      PreorderSnoc(init, last');
      AppendPreorder(last.nodes, d - 1, t);
    }
  }

  lemma {:induction false} AppendSpine(f: seq<TreeNode>, d: nat, t: TreeNode)
    requires d <= |Spine(f)| && t.nodes == []
    ensures Spine(AppendAt(f, d, t)) == Spine(f)[..d] + [t.nodeId]
  {
    if d > 0 {
      AppendSpine(f[|f| - 1].nodes, d - 1, t);
    }
  }

  lemma {:induction false} AppendRoots(f: seq<TreeNode>, d: nat, t: TreeNode)
    requires d <= |Spine(f)|
    ensures RootIds(AppendAt(f, d, t)) == RootIds(f) + (if d == 0 then [t.nodeId] else [])
  {
  }

  lemma {:induction false} AppendPairs(f: seq<TreeNode>, d: nat, t: TreeNode)
    requires d <= |Spine(f)| && t.nodes == []
    ensures d == 0 ==> ChildPairs(AppendAt(f, d, t)) == ChildPairs(f)
    ensures d > 0 ==> ChildPairs(AppendAt(f, d, t)) == ChildPairs(f) + {(Spine(f)[d - 1], t.nodeId)}
    decreases d
  {
    if d == 0 {
      AppendPairsRoot(f, t);
    } else {
      AppendPairsDeep(f, d, t);
    }
  }

  lemma AppendPairsRoot(f: seq<TreeNode>, t: TreeNode)
    requires t.nodes == []
    ensures ChildPairs(f + [t]) == ChildPairs(f)
  {
    PairsSnoc(f, t);
    assert KidPairs(t) == {};
  }

  /** The new child adds one edge to its parent's own edges, and none above. */
  lemma KidPairsAppend(last: TreeNode, d: nat, t: TreeNode)
    requires d <= |Spine(last.nodes)|
    ensures KidPairs(last.(nodes := AppendAt(last.nodes, d, t)))
         == KidPairs(last) + (if d == 0 then {(last.nodeId, t.nodeId)} else {})
  {
    AppendRoots(last.nodes, d, t);
  }

  lemma {:induction false} AppendPairsDeep(f: seq<TreeNode>, d: nat, t: TreeNode)
    requires 0 < d <= |Spine(f)| && t.nodes == []
    ensures ChildPairs(AppendAt(f, d, t)) == ChildPairs(f) + {(Spine(f)[d - 1], t.nodeId)}
    decreases d, 1
  {
    var init, last := f[..|f| - 1], f[|f| - 1];
    AppendDeepShape(f, d, t);
    var last' := last.(nodes := AppendAt(last.nodes, d - 1, t));
    PairsSnoc(init, last);
    PairsSnoc(init, last');
    KidPairsAppend(last, d - 1, t);
    AppendPairs(last.nodes, d - 1, t);
  }

  /**
   * Node `p` is the parent of node `j`: the nearest earlier heading with a
   * smaller level, no heading between them being shallower than `j`.
   */
  ghost predicate IsParent(nodes: seq<OutlineNode>, p: int, j: int) {
    0 <= p < j < |nodes| && nodes[p].level < nodes[j].level &&
    forall q :: p < q < j ==> nodes[q].level >= nodes[j].level
  }

  /** Node `j` is a root: no earlier heading has a smaller level. */
  ghost predicate IsRoot(nodes: seq<OutlineNode>, j: int) {
    0 <= j < |nodes| && forall q :: 0 <= q < j ==> nodes[q].level >= nodes[j].level
  }

  /** A node has at most one parent, and a root has none. */
  lemma ParentUnique(nodes: seq<OutlineNode>, p: int, p': int, j: int)
    requires IsParent(nodes, p, j)
    ensures IsParent(nodes, p', j) <==> p' == p
    ensures !IsRoot(nodes, j)
  {
    assert nodes[p].level < nodes[j].level;
  }

  /** Every node is either a root or has a parent. */
  lemma RootOrParent(nodes: seq<OutlineNode>, j: int)
    requires 0 <= j < |nodes|
    ensures IsRoot(nodes, j) || exists p :: IsParent(nodes, p, j)
  {
    var p := j - 1;
    while p >= 0 && nodes[p].level >= nodes[j].level
      invariant -1 <= p < j
      invariant forall q :: p < q < j ==> nodes[q].level >= nodes[j].level
    {
      p := p - 1;
    }
    if p >= 0 {
      assert IsParent(nodes, p, j);
    }
  }

  /** The label node `k` gets: its fields and the id of its 1-based position. */
  function Expected(nodes: seq<OutlineNode>, k: nat): Label
    requires k < |nodes|
  {
    (nodes[k].title, NodeId(k + 1), nodes[k].text, nodes[k].lineNum)
  }

  function ExpectedUpTo(nodes: seq<OutlineNode>, i: nat): seq<Label>
    requires i <= |nodes|
  {
    seq(i, k requires 0 <= k < i => Expected(nodes, k))
  }

  /** The built forest never repeats an id. */
  lemma ExpectedIdsDistinct(nodes: seq<OutlineNode>, a: nat, b: nat)
    requires a < b < |nodes|
    ensures ExpectedUpTo(nodes, |nodes|)[a].1 != ExpectedUpTo(nodes, |nodes|)[b].1
  {
    if NodeId(a + 1) == NodeId(b + 1) {
      NodeIdInjective(a + 1, b + 1);
    }
  }

  /** Parent edges among the first `i` nodes, as id pairs. */
  ghost function ParentPairs(nodes: seq<OutlineNode>, i: nat): set<(string, string)> {
    set p, j | 0 <= p < j < i && IsParent(nodes, p, j) :: (NodeId(p + 1), NodeId(j + 1))
  }

  /** Ids of the roots among the first `i` nodes, in order. */
  ghost function RootIdsUpTo(nodes: seq<OutlineNode>, i: nat): seq<string> {
    if i == 0 then []
    else RootIdsUpTo(nodes, i - 1) + (if IsRoot(nodes, i - 1) then [NodeId(i)] else [])
  }

  /** A node with a parent adds exactly one edge. */
  lemma ParentPairsStep(nodes: seq<OutlineNode>, i: nat, t: int)
    requires i < |nodes| && IsParent(nodes, t, i)
    ensures ParentPairs(nodes, i + 1) == ParentPairs(nodes, i) + {(NodeId(t + 1), NodeId(i + 1))}
  {
    var added := set p | 0 <= p < i && IsParent(nodes, p, i) :: (NodeId(p + 1), NodeId(i + 1));
    assert ParentPairs(nodes, i + 1) == ParentPairs(nodes, i) + added;
    forall p | 0 <= p < i && IsParent(nodes, p, i)
      ensures p == t
    {
      ParentUnique(nodes, t, p, i);
    }
    assert added == {(NodeId(t + 1), NodeId(i + 1))};
  }

  /** A root adds no edge. */
  lemma RootPairsStep(nodes: seq<OutlineNode>, i: nat)
    requires i < |nodes| && IsRoot(nodes, i)
    ensures ParentPairs(nodes, i + 1) == ParentPairs(nodes, i)
  {
    var added := set p | 0 <= p < i && IsParent(nodes, p, i) :: (NodeId(p + 1), NodeId(i + 1));
    assert ParentPairs(nodes, i + 1) == ParentPairs(nodes, i) + added;
    forall p | 0 <= p < i
      ensures !IsParent(nodes, p, i)
    {
    }
    assert added == {};
  }

  /**
   * The forest `build_tree_from_nodes` returns: nodes in input order with
   * ids "0001", "0002", ..., each nested under the nearest earlier heading
   * of smaller level, and a root when there is none.
   */
  method BuildTreeFromNodes(nodeList: seq<OutlineNode>) returns (rootNodes: seq<TreeNode>)
    ensures nodeList == [] ==> rootNodes == []
    ensures Preorder(rootNodes) == ExpectedUpTo(nodeList, |nodeList|)
    ensures ChildPairs(rootNodes) == ParentPairs(nodeList, |nodeList|)
    ensures RootIds(rootNodes) == RootIdsUpTo(nodeList, |nodeList|)
  {
    if |nodeList| == 0 {
      return [];
    }
    var stack: seq<(nat, nat)> := [];
    rootNodes := [];
    var nodeCounter := 1;
    assert LoopInv(nodeList, rootNodes, stack, 0) by {
      assert ParentPairs(nodeList, 0) == {};
    }
    for i := 0 to |nodeList|
      invariant nodeCounter == i + 1
      invariant LoopInv(nodeList, rootNodes, stack, i)
    {
      var currentLevel := nodeList[i].level;
      var treeNode := TreeNode(nodeList[i].title, NodeId(nodeCounter), nodeList[i].text, nodeList[i].lineNum, []);
      assert treeNode == Fresh(nodeList, i);
      nodeCounter := nodeCounter + 1;
      ghost var stack0 := stack;
      stack := PopShallower(nodeList, stack, i);
      PlaceNode(nodeList, rootNodes, stack0, stack, i);
      // depth 0 appends to `root_nodes`, depth `|stack|` to the stack top's `nodes`
      rootNodes := AppendAt(rootNodes, |stack|, treeNode);
      stack := stack + [(i, currentLevel)];
    }
  }

  /** The outer loop's invariant after `i` nodes. */
  ghost predicate LoopInv(nodes: seq<OutlineNode>, f: seq<TreeNode>, stack: seq<(nat, nat)>, i: nat)
    requires i <= |nodes|
  {
    BuiltUpTo(nodes, f, i) && StackInv(nodes, stack, Spine(f), i)
  }

  /** The forest holds exactly the first `i` nodes, correctly nested. */
  ghost predicate BuiltUpTo(nodes: seq<OutlineNode>, f: seq<TreeNode>, i: nat)
    requires i <= |nodes|
  {
    Preorder(f) == ExpectedUpTo(nodes, i) &&
    ChildPairs(f) == ParentPairs(nodes, i) &&
    RootIds(f) == RootIdsUpTo(nodes, i)
  }

  /** The node placed at position `i`, before it has children. */
  function Fresh(nodes: seq<OutlineNode>, i: nat): TreeNode
    requires i < |nodes|
  {
    TreeNode(nodes[i].title, NodeId(i + 1), nodes[i].text, nodes[i].lineNum, [])
  }

  /** One iteration of the outer loop keeps both loop invariants. */
  lemma PlaceNode(nodes: seq<OutlineNode>, f: seq<TreeNode>, stack0: seq<(nat, nat)>, stack: seq<(nat, nat)>, i: nat)
    requires i < |nodes| && LoopInv(nodes, f, stack0, i)
    requires |stack| <= |stack0| && stack == stack0[..|stack|]
    requires |stack| == 0 ==> IsRoot(nodes, i)
    requires |stack| > 0 ==> IsParent(nodes, stack[|stack| - 1].0, i)
    ensures LoopInv(nodes, AppendAt(f, |stack|, Fresh(nodes, i)), stack + [(i, nodes[i].level)], i + 1)
  {
    var spine := Spine(f);
    var d := |stack|;
    var t := Fresh(nodes, i);
    var g := AppendAt(f, d, t);
    var stack' := stack + [(i, nodes[i].level)];
    assert SpineIds(stack, spine[..d]) by {
      PlaceSpineBefore(stack0, stack, spine);
    }
    assert BuiltUpTo(nodes, g, i + 1) by {
      var parent := if d == 0 then 0 else stack[d - 1].0;
      PlaceBuilt(nodes, f, d, parent, i);
    }
    assert StackChain(nodes, stack', i + 1) by {
      PlaceChain(nodes, stack0, stack, i);
    }
    assert SpineIds(stack', Spine(g)) by {
      AppendSpine(f, d, t);
      PlaceSpineAfter(stack, spine[..d], i, nodes[i].level);
    }
  }

  lemma PlaceSpineBefore(stack0: seq<(nat, nat)>, stack: seq<(nat, nat)>, spine: seq<string>)
    requires SpineIds(stack0, spine)
    requires |stack| <= |stack0| && stack == stack0[..|stack|]
    ensures SpineIds(stack, spine[..|stack|])
  {
  }

  lemma PlaceSpineAfter(stack: seq<(nat, nat)>, spine: seq<string>, i: nat, level: nat)
    requires SpineIds(stack, spine)
    ensures SpineIds(stack + [(i, level)], spine + [NodeId(i + 1)])
  {
  }

  lemma PlaceBuilt(nodes: seq<OutlineNode>, f: seq<TreeNode>, d: nat, parent: int, i: nat)
    requires i < |nodes| && BuiltUpTo(nodes, f, i) && d <= |Spine(f)|
    requires d == 0 ==> IsRoot(nodes, i)
    requires d > 0 ==> IsParent(nodes, parent, i) && Spine(f)[d - 1] == NodeId(parent + 1)
    ensures BuiltUpTo(nodes, AppendAt(f, d, Fresh(nodes, i)), i + 1)
  {
    PlacePreorder(nodes, f, d, i);
    PlacePairs(nodes, f, d, parent, i);
    PlaceRoots(nodes, f, d, parent, i);
  }

  lemma PlacePreorder(nodes: seq<OutlineNode>, f: seq<TreeNode>, d: nat, i: nat)
    requires i < |nodes| && Preorder(f) == ExpectedUpTo(nodes, i) && d <= |Spine(f)|
    ensures Preorder(AppendAt(f, d, Fresh(nodes, i))) == ExpectedUpTo(nodes, i + 1)
  {
    AppendPreorder(f, d, Fresh(nodes, i));
    assert ExpectedUpTo(nodes, i + 1) == ExpectedUpTo(nodes, i) + [Expected(nodes, i)];
  }

  lemma PlacePairs(nodes: seq<OutlineNode>, f: seq<TreeNode>, d: nat, parent: int, i: nat)
    requires i < |nodes| && ChildPairs(f) == ParentPairs(nodes, i) && d <= |Spine(f)|
    requires d == 0 ==> IsRoot(nodes, i)
    requires d > 0 ==> IsParent(nodes, parent, i) && Spine(f)[d - 1] == NodeId(parent + 1)
    ensures ChildPairs(AppendAt(f, d, Fresh(nodes, i))) == ParentPairs(nodes, i + 1)
  {
    AppendPairs(f, d, Fresh(nodes, i));
    if d > 0 {
      ParentUnique(nodes, parent, 0, i);
      ParentPairsStep(nodes, i, parent);
    } else {
      RootPairsStep(nodes, i);
    }
  }

  lemma PlaceRoots(nodes: seq<OutlineNode>, f: seq<TreeNode>, d: nat, parent: int, i: nat)
    requires i < |nodes| && RootIds(f) == RootIdsUpTo(nodes, i) && d <= |Spine(f)|
    requires d == 0 ==> IsRoot(nodes, i)
    requires d > 0 ==> IsParent(nodes, parent, i)
    ensures RootIds(AppendAt(f, d, Fresh(nodes, i))) == RootIdsUpTo(nodes, i + 1)
  {
    AppendRoots(f, d, Fresh(nodes, i));
    if d > 0 {
      ParentUnique(nodes, parent, 0, i);
    }
  }

  lemma PlaceChain(nodes: seq<OutlineNode>, stack0: seq<(nat, nat)>, stack: seq<(nat, nat)>, i: nat)
    requires i < |nodes| && StackChain(nodes, stack0, i)
    requires |stack| <= |stack0| && stack == stack0[..|stack|]
    requires |stack| == 0 ==> IsRoot(nodes, i)
    requires |stack| > 0 ==> IsParent(nodes, stack[|stack| - 1].0, i)
    ensures StackChain(nodes, stack + [(i, nodes[i].level)], i + 1)
  {
    var stack' := stack + [(i, nodes[i].level)];
    forall s | 0 < s < |stack'|
      ensures IsParent(nodes, stack'[s - 1].0, stack'[s].0)
    {
      if s < |stack| {
        assert stack'[s - 1] == stack0[s - 1] && stack'[s] == stack0[s];
      }
    }
  }

  /**
   * The open headings: the stack lists (position, level) of the spine's
   * nodes in order, each the parent of the next, the first a root and the
   * last the node just placed.
   */
  ghost predicate StackInv(nodes: seq<OutlineNode>, stack: seq<(nat, nat)>, spine: seq<string>, i: nat) {
    StackChain(nodes, stack, i) && SpineIds(stack, spine)
  }

  /** The spine's ids are those of the stacked positions. */
  ghost predicate SpineIds(stack: seq<(nat, nat)>, spine: seq<string>) {
    |stack| == |spine| && forall s :: 0 <= s < |stack| ==> spine[s] == NodeId(stack[s].0 + 1)
  }

  ghost predicate StackChain(nodes: seq<OutlineNode>, stack: seq<(nat, nat)>, i: nat) {
    i <= |nodes| &&
    (forall s :: 0 <= s < |stack| ==> stack[s].0 < i && stack[s].1 == nodes[stack[s].0].level) &&
    (forall s :: 0 < s < |stack| ==> IsParent(nodes, stack[s - 1].0, stack[s].0)) &&
    (|stack| > 0 ==> IsRoot(nodes, stack[0].0)) &&
    (i > 0 <==> |stack| > 0) &&
    (i > 0 ==> stack[|stack| - 1].0 == i - 1)
  }

  /** Every node strictly between positions `lo - 1` and `i` is at least `level` deep. */
  ghost predicate DeepBetween(nodes: seq<OutlineNode>, lo: nat, i: nat, level: nat) {
    forall q :: lo <= q < i && q < |nodes| ==> nodes[q].level >= level
  }

  function Above(stack: seq<(nat, nat)>): nat {
    if stack == [] then 0 else stack[|stack| - 1].0 + 1
  }

  /** Popping an open heading at least as deep as `level` keeps `DeepBetween`. */
  lemma PopStep(nodes: seq<OutlineNode>, stack0: seq<(nat, nat)>, i: nat, n: nat)
    requires i < |nodes| && StackChain(nodes, stack0, i)
    requires 0 < n <= |stack0| && stack0[n - 1].1 >= nodes[i].level
    requires DeepBetween(nodes, Above(stack0[..n]), i, nodes[i].level)
    ensures DeepBetween(nodes, Above(stack0[..n - 1]), i, nodes[i].level)
  {
    var top := stack0[n - 1].0;
    if n > 1 {
      assert IsParent(nodes, stack0[n - 2].0, top);
    } else {
      assert IsRoot(nodes, top);
    }
  }

  /**
   * The inner `while`: pop every open heading whose level is at least the
   * new node's. What is left ends with the new node's parent, or is empty
   * when the new node is a root.
   */
  method PopShallower(nodes: seq<OutlineNode>, stack0: seq<(nat, nat)>, i: nat)
    returns (stack: seq<(nat, nat)>)
    requires i < |nodes| && StackChain(nodes, stack0, i)
    ensures |stack| <= |stack0| && stack == stack0[..|stack|]
    ensures |stack| == 0 ==> IsRoot(nodes, i)
    ensures |stack| > 0 ==> IsParent(nodes, stack[|stack| - 1].0, i)
  {
    stack := stack0;
    var currentLevel := nodes[i].level;
    assert stack0[..|stack0|] == stack0;
    while |stack| > 0 && stack[|stack| - 1].1 >= currentLevel
      invariant |stack| <= |stack0| && stack == stack0[..|stack|]
      invariant DeepBetween(nodes, Above(stack), i, currentLevel)
    {
      PopStep(nodes, stack0, i, |stack|);
      stack := stack[..|stack| - 1];
      assert stack == stack0[..|stack|];
    }
  }
}
