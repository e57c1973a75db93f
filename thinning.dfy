/**
 * Thinning (`tree_thinning_for_index`): one backward pass over the nodes. A
 * node whose token count is below the threshold absorbs the whole run of
 * deeper nodes right after it: their non-blank texts are appended to its own,
 * separated by blank lines, and every one of them is marked for removal. The
 * marked nodes are dropped at the end.
 */
module Thinning {
  import opened Strings
  import opened Spans

  /** The model the thinning pass names when it recounts a merged text. */
  const RecountModel: string := "gpt-4o"

  /** The end of the run of nodes from `from` on that are deeper than `level`. */
  function RunEnd(a: seq<OutlineNode>, from: nat, level: nat): (e: nat)
    requires from <= |a|
    ensures from <= e <= |a|
    ensures forall k :: from <= k < e ==> a[k].level > level
    ensures e == |a| || a[e].level <= level
    decreases |a| - from
  {
    if from == |a| || a[from].level <= level then from else RunEnd(a, from + 1, level)
  }

  /**
   * `find_all_children`: the indices after `parent`, in ascending order, up to
   * (not including) the first node at `level` or shallower.
   */
  function FindAllChildren(a: seq<OutlineNode>, parent: nat, level: nat): (kids: seq<nat>)
    requires parent < |a|
    ensures parent + 1 + |kids| <= |a|
    ensures forall k :: 0 <= k < |kids| ==> kids[k] == parent + 1 + k
    ensures forall k :: 0 <= k < |kids| ==> a[kids[k]].level > level
    ensures parent + 1 + |kids| == |a| || a[parent + 1 + |kids|].level <= level
  {
    var e := RunEnd(a, parent + 1, level);
    seq(e - parent - 1, k requires 0 <= k => parent + 1 + k)
  }

  /** `not text.strip()`. */
  predicate IsBlank(s: string) {
    Strip(s) == []
  }

  /** One step of the merge: a blank-line separator unless the text so far is empty or ends in a line feed. */
  function AppendText(acc: string, t: string): string {
    (if acc != [] && acc[|acc| - 1] != '\n' then acc + "\n\n" else acc) + t
  }

  /** The merge loop: the absorbed texts appended to `acc` in order. */
  function MergeAll(acc: string, texts: seq<string>): string
    decreases |texts|
  {
    if texts == [] then acc else AppendText(MergeAll(acc, texts[..|texts| - 1]), texts[|texts| - 1])
  }

  /**
   * The merged text begins with the absorbing node's own text and ends with
   * the last absorbed text.
   */
  lemma {:induction false} MergeAllShape(acc: string, texts: seq<string>)
    ensures |acc| <= |MergeAll(acc, texts)| && MergeAll(acc, texts)[..|acc|] == acc
    ensures texts != [] ==> var m := MergeAll(acc, texts);
                            var t := texts[|texts| - 1];
                            |t| <= |m| && m[|m| - |t|..] == t
    decreases |texts|
  {
    if texts != [] {
      MergeAllShape(acc, texts[..|texts| - 1]);
      var before := MergeAll(acc, texts[..|texts| - 1]);
      var t := texts[|texts| - 1];
      var sep := if before != [] && before[|before| - 1] != '\n' then before + "\n\n" else before;
      assert MergeAll(acc, texts) == sep + t;
      assert sep[..|acc|] == acc;
    }
  }

  /**
   * The inner loop over the children: the texts of the children not yet
   * removed whose text is not blank, and the removal set grown by every
   * child not yet in it.
   */
  function Gather(a: seq<OutlineNode>, removed: set<nat>, kids: seq<nat>): (res: (seq<string>, set<nat>))
    requires forall k :: 0 <= k < |kids| ==> kids[k] < |a|
    ensures res.1 == removed + set c | c in kids
    ensures |res.0| <= |kids|
    decreases |kids|
  {
    if kids == [] then ([], removed)
    else
      var prev := Gather(a, removed, kids[..|kids| - 1]);
      var c := kids[|kids| - 1];
      assert kids == kids[..|kids| - 1] + [c];
      if c in prev.1 then prev
      else ((if IsBlank(a[c].text) then prev.0 else prev.0 + [a[c].text]), prev.1 + {c})
  }

  /** Processing index `i`: skip it if removed, else absorb its deeper run when it is below the threshold. */
  function Step(a: seq<OutlineNode>, removed: set<nat>, i: nat, minTokens: int, count: Counter)
    : (st: (seq<OutlineNode>, set<nat>))
    requires i < |a|
    ensures |st.0| == |a|
  {
    if i in removed then (a, removed)
    else if a[i].tokens < minTokens then
      var kids := FindAllChildren(a, i, a[i].level);
      var (texts, removed') := Gather(a, removed, kids);
      if texts == [] then (a, removed')
      else
        var merged := MergeAll(a[i].text, texts);
        (a[i := a[i].(text := merged, tokens := count(merged, RecountModel))], removed')
    else (a, removed)
  }

  /** The state of the pass once indices `|nodes| - 1` down to `i` are processed. */
  function PassFrom(nodes: seq<OutlineNode>, i: nat, minTokens: int, count: Counter)
    : (st: (seq<OutlineNode>, set<nat>))
    requires i <= |nodes|
    ensures |st.0| == |nodes|
    decreases |nodes| - i
  {
    if i == |nodes| then (nodes, {})
    else
      var prev := PassFrom(nodes, i + 1, minTokens, count);
      Step(prev.0, prev.1, i, minTokens, count)
  }

  /** The nodes at indices `j..` that are not removed, in order. */
  function KeepFrom(a: seq<OutlineNode>, removed: set<nat>, j: nat): seq<OutlineNode>
    requires j <= |a|
    decreases |a| - j
  {
    if j == |a| then [] else (if j in removed then [] else [a[j]]) + KeepFrom(a, removed, j + 1)
  }

  /** The result of thinning: the nodes after the full pass, without the removed ones. */
  function Thinned(nodes: seq<OutlineNode>, minTokens: int, count: Counter): seq<OutlineNode> {
    var st := PassFrom(nodes, 0, minTokens, count);
    KeepFrom(st.0, st.1, 0)
  }

  /**
   * `tree_thinning_for_index`: the backward pass over a working array, then
   * the removal of the marked indices from the highest down.
   */
  method TreeThinningForIndex(nodes: seq<OutlineNode>, minTokens: int, count: Counter)
    returns (result: seq<OutlineNode>)
    ensures result == Thinned(nodes, minTokens, count)
  {
    var resultList := new OutlineNode[|nodes|](k requires 0 <= k < |nodes| => nodes[k]);
    var nodesToRemove: set<nat> := {};
    var i := |nodes|;
    assert resultList[..] == nodes;
    while i > 0
      invariant 0 <= i <= |nodes| == resultList.Length
      invariant (resultList[..], nodesToRemove) == PassFrom(nodes, i, minTokens, count)
    {
      i := i - 1;
      if i in nodesToRemove {
        continue;
      }
      nodesToRemove := AbsorbChildren(resultList, nodesToRemove, i, minTokens, count);
    }
    result := PopRemoved(resultList[..], nodesToRemove);
  }

  /** The loop body for an index not yet removed: absorb the deeper run when below the threshold. */
  method AbsorbChildren(resultList: array<OutlineNode>, nodesToRemove: set<nat>, i: nat, minTokens: int, count: Counter)
    returns (removed: set<nat>)
    requires i < resultList.Length && i !in nodesToRemove
    modifies resultList
    ensures (resultList[..], removed) == Step(old(resultList[..]), nodesToRemove, i, minTokens, count)
  {
    removed := nodesToRemove;
    var currentNode := resultList[i];
    var currentLevel := currentNode.level;
    var totalTokens := currentNode.tokens;
    if totalTokens < minTokens {
      var childrenIndices := FindAllChildren(resultList[..], i, currentLevel);
      var childrenTexts;
      childrenTexts, removed := CollectChildTexts(resultList[..], nodesToRemove, childrenIndices);
      if childrenTexts != [] {
        var mergedText := MergeTexts(currentNode.text, childrenTexts);
        resultList[i] := currentNode.(text := mergedText, tokens := count(mergedText, RecountModel));
      }
    }
  }

  /** The loop over the children, in ascending index order. */
  method CollectChildTexts(a: seq<OutlineNode>, nodesToRemove: set<nat>, childrenIndices: seq<nat>)
    returns (childrenTexts: seq<string>, removed: set<nat>)
    requires forall k :: 0 <= k < |childrenIndices| ==> childrenIndices[k] < |a|
    ensures (childrenTexts, removed) == Gather(a, nodesToRemove, childrenIndices)
  {
    childrenTexts, removed := [], nodesToRemove;
    for k := 0 to |childrenIndices|
      invariant (childrenTexts, removed) == Gather(a, nodesToRemove, childrenIndices[..k])
    {
      var childIndex := childrenIndices[k];
      if childIndex !in removed {
        var childText := a[childIndex].text;
        if !IsBlank(childText) {
          childrenTexts := childrenTexts + [childText];
        }
        removed := removed + {childIndex};
      }
      assert childrenIndices[..k + 1][..k] == childrenIndices[..k];
    }
    assert childrenIndices[..|childrenIndices|] == childrenIndices;
  }

  /** The merge loop: each text appended after a blank line unless the text so far ends in a line feed. */
  method MergeTexts(parentText: string, childrenTexts: seq<string>) returns (mergedText: string)
    ensures mergedText == MergeAll(parentText, childrenTexts)
  {
    mergedText := parentText;
    for k := 0 to |childrenTexts|
      invariant mergedText == MergeAll(parentText, childrenTexts[..k])
    {
      if mergedText != [] && mergedText[|mergedText| - 1] != '\n' {
        mergedText := mergedText + "\n\n";
      }
      mergedText := mergedText + childrenTexts[k];
      assert childrenTexts[..k + 1][..k] == childrenTexts[..k];
    }
    assert childrenTexts[..|childrenTexts|] == childrenTexts;
  }

  /** `for index in sorted(nodes_to_remove, reverse=True): result_list.pop(index)`. */
  method PopRemoved(final: seq<OutlineNode>, nodesToRemove: set<nat>) returns (list: seq<OutlineNode>)
    ensures list == KeepFrom(final, nodesToRemove, 0)
  {
    list := final;
    var j := |final|;
    while j > 0
      invariant 0 <= j <= |final|
      invariant list == final[..j] + KeepFrom(final, nodesToRemove, j)
    {
      j := j - 1;
      if j in nodesToRemove {
        assert list[..j] == final[..j];
        assert list[j + 1..] == KeepFrom(final, nodesToRemove, j + 1);
        list := list[..j] + list[j + 1..];
      } else {
        assert final[..j + 1] == final[..j] + [final[j]];
      }
    }
  }
}
