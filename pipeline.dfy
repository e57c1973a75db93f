/**
 * `md_to_tree` after the file has been read: extract headings, resolve
 * their spans with the default model, optionally thin, then nest.
 */
module Pipeline {
  import opened Wrappers
  import opened Extraction
  import opened Spans
  import opened Thinning
  import opened TreeBuild

  datatype PipelineError =
    | IndentedHeadingLine(lineNum: nat)  // the level regex finds no match on an indented heading
    | ThresholdMissing                   // `int < None` when thinning without a threshold

  /** No heading line begins with whitespace. */
  predicate NoneIndented(records: seq<HeadingRecord>, lines: seq<string>)
    requires InRange(records, |lines|)
  {
    forall k :: 0 <= k < |records| ==> !Indented(records, lines, k)
  }

  /** The nodes the span resolver returns when no heading is indented. */
  function Resolved(records: seq<HeadingRecord>, lines: seq<string>, count: Counter): seq<OutlineNode>
    requires InRange(records, |lines|) && NoneIndented(records, lines)
  {
    seq(|records|, i requires 0 <= i < |records| => ResolvedNode(records, lines, count, DefaultModel, i))
  }

  /** The nodes handed to the tree builder. */
  function Selected(nodes: seq<OutlineNode>, ifThinning: bool, threshold: Option<int>, count: Counter): seq<OutlineNode> {
    if ifThinning && threshold.Some? then Thinned(nodes, threshold.value, count) else nodes
  }

  /** Nodes with the resolver's fields, one per record, are the resolved nodes. */
  lemma ResolvedByFields(records: seq<HeadingRecord>, lines: seq<string>, count: Counter, nodes: seq<OutlineNode>)
    requires InRange(records, |lines|) && |nodes| == |records|
    requires forall i :: 0 <= i < |records| ==>
              && !Indented(records, lines, i)
              && nodes[i].title == records[i].title
              && nodes[i].lineNum == records[i].lineNum
              && nodes[i].level == RawLevel(lines[records[i].lineNum - 1]).value
              && nodes[i].text == SpanText(records, lines, i)
              && nodes[i].tokens == count(SpanText(records, lines, i), DefaultModel)
    ensures NoneIndented(records, lines) && nodes == Resolved(records, lines, count)
  {
    forall i | 0 <= i < |records|
      ensures nodes[i] == ResolvedNode(records, lines, count, DefaultModel, i)
    {
    }
  }

  lemma NumberedInRange(records: seq<HeadingRecord>, count: nat)
    requires WellNumbered(records, count)
    ensures InRange(records, count)
  {
  }

  /**
   * The outline of a document: it fails at the first indented heading, or
   * when thinning is asked for without a threshold on a document with
   * headings; otherwise its nodes, in order, are those of the selected
   * heading list with ids "0001", "0002", ... and its edges are given by
   * levels.
   */
  method MdToTree(content: string, ifThinning: bool, minTokenThreshold: Option<int>, count: Counter)
    returns (r: Result<seq<TreeNode>, PipelineError>)
    ensures var (records, lines) := ExtractNodes(content);
      InRange(records, |lines|) &&
      (r.Failure? && r.error.IndentedHeadingLine? <==> !NoneIndented(records, lines)) &&
      (r.Failure? && r.error.ThresholdMissing? <==>
         NoneIndented(records, lines) && ifThinning && minTokenThreshold.None? && records != []) &&
      (records == [] ==> r == Success([])) &&
      (r.Success? ==>
         var selected := Selected(Resolved(records, lines, count), ifThinning, minTokenThreshold, count);
         Preorder(r.value) == ExpectedUpTo(selected, |selected|) &&
         ChildPairs(r.value) == ParentPairs(selected, |selected|) &&
         RootIds(r.value) == RootIdsUpTo(selected, |selected|))
  {
    var (nodeList, markdownLines) := ExtractNodes(content);
    NumberedInRange(nodeList, |markdownLines|);
    var withContent := ExtractNodeTextContent(nodeList, markdownLines, count, DefaultModel);
    if withContent.Failure? {
      return Failure(IndentedHeadingLine(withContent.error.lineNum));
    }
    var nodes := withContent.value;
    ResolvedByFields(nodeList, markdownLines, count, nodes);
    var thinnedNodes := nodes;
    if ifThinning {
      if minTokenThreshold.None? && |nodes| > 0 {
        return Failure(ThresholdMissing);
      }
      if minTokenThreshold.Some? {
        thinnedNodes := TreeThinningForIndex(nodes, minTokenThreshold.value, count);
      }
    }
    var treeStructure := BuildTreeFromNodes(thinnedNodes);
    return Success(treeStructure);
  }
}
