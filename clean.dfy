/**
 * `clean_tree_for_output`: a copy of the forest keeping title, id, text and
 * line number, with the `nodes` key present only on nodes that have
 * children: a node without the key is a `Leaf`, one with it a `Branch`.
 */
module Cleaning {
  import opened TreeBuild

  datatype CleanNode =
    | Leaf(title: string, nodeId: string, text: string, lineNum: nat)
    | Branch(title: string, nodeId: string, text: string, lineNum: nat, nodes: seq<CleanNode>)

  /** What the cleaned copy of a forest is. */
  function Clean(f: seq<TreeNode>): seq<CleanNode> {
    if f == [] then []
    else
      var t := f[|f| - 1];
      Clean(f[..|f| - 1]) +
      [if t.nodes == [] then Leaf(t.title, t.nodeId, t.text, t.lineNum)
       else Branch(t.title, t.nodeId, t.text, t.lineNum, Clean(t.nodes))]
  }

  /** Reading a cleaned forest back: an absent `nodes` key is no children. */
  function Unclean(c: seq<CleanNode>): seq<TreeNode> {
    if c == [] then []
    else
      var n := c[|c| - 1];
      Unclean(c[..|c| - 1]) +
      [TreeNode(n.title, n.nodeId, n.text, n.lineNum, if n.Leaf? then [] else Unclean(n.nodes))]
  }

  /** No node carries a present but empty `nodes` key. */
  predicate NoEmptyNodes(c: seq<CleanNode>) {
    forall k :: 0 <= k < |c| ==> c[k].Branch? ==> c[k].nodes != [] && NoEmptyNodes(c[k].nodes)
  }

  lemma CleanSnoc(init: seq<TreeNode>, t: TreeNode)
    ensures Clean(init + [t]) == Clean(init) +
      [if t.nodes == [] then Leaf(t.title, t.nodeId, t.text, t.lineNum)
       else Branch(t.title, t.nodeId, t.text, t.lineNum, Clean(t.nodes))]
  {
    assert (init + [t])[..|init|] == init;
  }

  lemma UncleanSnoc(init: seq<CleanNode>, n: CleanNode)
    ensures Unclean(init + [n]) == Unclean(init) +
      [TreeNode(n.title, n.nodeId, n.text, n.lineNum, if n.Leaf? then [] else Unclean(n.nodes))]
  {
    assert (init + [n])[..|init|] == init;
  }

  /** Cleaning loses nothing: reading the copy back gives the forest. */
  lemma {:induction false} CleanRoundTrip(f: seq<TreeNode>)
    ensures Unclean(Clean(f)) == f
  {
    if f != [] {
      var init, t := f[..|f| - 1], f[|f| - 1];
      assert f == init + [t];
      var n := if t.nodes == [] then Leaf(t.title, t.nodeId, t.text, t.lineNum)
               else Branch(t.title, t.nodeId, t.text, t.lineNum, Clean(t.nodes));
      CleanSnoc(init, t);
      UncleanSnoc(Clean(init), n);
      CleanRoundTrip(init);
      CleanRoundTrip(t.nodes);
    }
  }

  /** Cleaning keeps length and order, and never writes an empty `nodes` list. */
  lemma {:induction false} CleanNoEmpty(f: seq<TreeNode>)
    ensures |Clean(f)| == |f|
    ensures NoEmptyNodes(Clean(f))
  {
    if f != [] {
      var t := f[|f| - 1];
      var c := Clean(f);
      CleanNoEmpty(f[..|f| - 1]);
      CleanNoEmpty(t.nodes);
      forall k | 0 <= k < |c|
        ensures c[k].Branch? ==> c[k].nodes != [] && NoEmptyNodes(c[k].nodes)
      {
        if k < |c| - 1 {
          assert c[k] == Clean(f[..|f| - 1])[k];
        }
      }
    }
  }

  /** Every cleaned forest without empty `nodes` lists comes from exactly one forest. */
  lemma {:induction false} UncleanRoundTrip(c: seq<CleanNode>)
    requires NoEmptyNodes(c)
    ensures Clean(Unclean(c)) == c
  {
    if c != [] {
      var init, n := c[..|c| - 1], c[|c| - 1];
      assert c == init + [n];
      assert NoEmptyNodes(init) by {
        forall k | 0 <= k < |init|
          ensures init[k] == c[k]
        {
        }
      }
      var t := TreeNode(n.title, n.nodeId, n.text, n.lineNum, if n.Leaf? then [] else Unclean(n.nodes));
      UncleanSnoc(init, n);
      CleanSnoc(Unclean(init), t);
      UncleanRoundTrip(init);
      if n.Branch? {
        UncleanRoundTrip(n.nodes);
        UncleanNonEmpty(n.nodes);
      }
    }
  }

  lemma UncleanNonEmpty(c: seq<CleanNode>)
    requires c != []
    ensures Unclean(c) != []
  {
  }

  /**
   * Node `k` of the cleaned copy has the fields of node `k` of the forest,
   * and a `nodes` key exactly when that node has children.
   */
  lemma {:induction false} CleanNodeAt(f: seq<TreeNode>, k: nat)
    requires k < |f|
    ensures |Clean(f)| == |f|
    ensures var c := Clean(f)[k];
      c.title == f[k].title && c.nodeId == f[k].nodeId && c.text == f[k].text && c.lineNum == f[k].lineNum &&
      (c.Branch? <==> f[k].nodes != []) &&
      (c.Branch? ==> c.nodes == Clean(f[k].nodes))
    decreases |f|
  {
    CleanNoEmpty(f);
    if k < |f| - 1 {
      CleanNodeAt(f[..|f| - 1], k);
      assert Clean(f)[k] == Clean(f[..|f| - 1])[k];
    }
  }

  /** The recursive copy, node by node. */
  method CleanTreeForOutput(treeNodes: seq<TreeNode>) returns (cleanedNodes: seq<CleanNode>)
    ensures cleanedNodes == Clean(treeNodes)
    decreases treeNodes
  {
    cleanedNodes := [];
    for k := 0 to |treeNodes|
      invariant cleanedNodes == Clean(treeNodes[..k])
    {
      var node := treeNodes[k];
      var cleanedNode := Leaf(node.title, node.nodeId, node.text, node.lineNum);
      if node.nodes != [] {
        var sub := CleanTreeForOutput(node.nodes);
        cleanedNode := Branch(node.title, node.nodeId, node.text, node.lineNum, sub);
      }
      cleanedNodes := cleanedNodes + [cleanedNode];
      assert treeNodes[..k + 1][..k] == treeNodes[..k];
    }
    assert treeNodes[..|treeNodes|] == treeNodes;
  }
}
