/**
 * Span resolution (`extract_node_text_content`): each heading owns the lines
 * from its own line up to the next heading's line (or to the end of the
 * document); its text is those lines joined with line feeds and stripped,
 * and its token count is the tokenizer's count of that text.
 */
module Spans {
  import opened Wrappers
  import opened Strings
  import opened Extraction

  /** The tokenizer capability `count_tokens(text, model)`, supplied by the caller. */
  type Counter = (string, string) -> nat

  /** The model the pipeline names when it counts tokens. */
  const DefaultModel: string := "gpt-4o"

  /** A section of the outline: a heading, its level, its text and the text's token count. */
  datatype OutlineNode = OutlineNode(title: string, lineNum: nat, level: nat, text: string, tokens: nat)

  /** A heading line that begins with whitespace: `re.match` finds no marks and `.group(1)` raises. */
  datatype SpanError = IndentedHeading(lineNum: nat)

  function Min(a: nat, b: nat): nat {
    if a <= b then a else b
  }

  /** `len(re.match(r'^(#{1,6})', line).group(1))`, or `None` when the line does not start with `#`. */
  function RawLevel(line: string): (level: Option<nat>)
    ensures level.Some? <==> line != [] && line[0] == '#'
    ensures level.Some? ==> 1 <= level.value <= 6 && level.value <= LeadingHashes(line)
    ensures level.Some? ==> level.value == if LeadingHashes(line) <= 6 then LeadingHashes(line) else 6
  {
    if line != [] && line[0] == '#' then Some(Min(LeadingHashes(line), 6)) else None
  }

  /**
   * A heading line found by the extractor gets a level exactly when it does
   * not begin with whitespace, and that level is the number of its `#` marks.
   */
  lemma HeadingLevel(raw: string)
    requires IsHeadingLine(raw)
    ensures raw != []
    ensures RawLevel(raw).Some? <==> !IsSpace(raw[0])
    ensures RawLevel(raw).Some? ==> RawLevel(raw).value == LeadingHashes(Strip(raw))
  {
    var s := Strip(raw);
    StripSlice(raw);
    var k := LeadingHashes(s);
    if raw != [] && !IsSpace(raw[0]) {
      StripFromNonSpace(raw);
      TrimEndPrefix(raw);
      assert s == raw[..|s|];
      assert raw[0] == s[0] == '#';
      HashRunEnds(raw, k);
    }
  }

  /** Every record names a line of the document. */
  predicate InRange(records: seq<HeadingRecord>, count: nat) {
    forall k :: 0 <= k < |records| ==> 1 <= records[k].lineNum <= count
  }

  /** Python's `lines[a:b]` for in-range bounds: empty when `b < a`. */
  function Slice(lines: seq<string>, a: nat, b: nat): (r: seq<string>)
    requires a <= |lines| && b <= |lines|
    ensures |r| == if a <= b then b - a else 0
  {
    if a <= b then lines[a..b] else []
  }

  /** The 0-based end of record `i`'s span: the next heading's line index, or the line count. */
  function SpanEnd(records: seq<HeadingRecord>, lines: seq<string>, i: nat): (e: nat)
    requires InRange(records, |lines|) && i < |records|
    ensures e <= |lines|
  {
    if i + 1 < |records| then records[i + 1].lineNum - 1 else |lines|
  }

  /** The raw lines record `i` owns. */
  function SpanLines(records: seq<HeadingRecord>, lines: seq<string>, i: nat): seq<string>
    requires InRange(records, |lines|) && i < |records|
  {
    Slice(lines, records[i].lineNum - 1, SpanEnd(records, lines, i))
  }

  /** The text of record `i`: its lines joined by line feeds and stripped. */
  function SpanText(records: seq<HeadingRecord>, lines: seq<string>, i: nat): string
    requires InRange(records, |lines|) && i < |records|
  {
    Strip(Join(SpanLines(records, lines, i)))
  }

  /** Record `k`'s heading line begins with whitespace. */
  predicate Indented(records: seq<HeadingRecord>, lines: seq<string>, k: nat)
    requires InRange(records, |lines|) && k < |records|
  {
    RawLevel(lines[records[k].lineNum - 1]).None?
  }

  /** The node the first loop makes of record `k`: text and count are not set yet. */
  function Pending(records: seq<HeadingRecord>, lines: seq<string>, k: nat): OutlineNode
    requires InRange(records, |lines|) && k < |records| && !Indented(records, lines, k)
  {
    OutlineNode(records[k].title, records[k].lineNum, RawLevel(lines[records[k].lineNum - 1]).value, "", 0)
  }

  /** The node the resolver makes of record `i` once every level is known. */
  function ResolvedNode(records: seq<HeadingRecord>, lines: seq<string>, count: Counter, model: string, i: nat): OutlineNode
    requires InRange(records, |lines|) && i < |records| && !Indented(records, lines, i)
  {
    var text := SpanText(records, lines, i);
    OutlineNode(records[i].title, records[i].lineNum,
                RawLevel(lines[records[i].lineNum - 1]).value, text, count(text, model))
  }

  /**
   * `extract_node_text_content`: the first loop reads every heading's level
   * from its unstripped line and fails at the first indented one; the second
   * gives each node its span text and token count.
   */
  method ExtractNodeTextContent(records: seq<HeadingRecord>, lines: seq<string>, count: Counter, model: string)
    returns (r: Result<seq<OutlineNode>, SpanError>)
    requires InRange(records, |lines|)
    ensures r.Failure? <==> exists k :: 0 <= k < |records| && Indented(records, lines, k)
    ensures r.Failure? ==> exists f :: 0 <= f < |records| && Indented(records, lines, f)
                             && r.error == IndentedHeading(records[f].lineNum)
                             && forall k :: 0 <= k < f ==> !Indented(records, lines, k)
    ensures r.Success? ==> |r.value| == |records|
    ensures r.Success? ==> forall i :: 0 <= i < |records| ==>
              && !Indented(records, lines, i)
              && r.value[i].title == records[i].title
              && r.value[i].lineNum == records[i].lineNum
              && r.value[i].level == RawLevel(lines[records[i].lineNum - 1]).value
              && r.value[i].text == SpanText(records, lines, i)
              && r.value[i].tokens == count(SpanText(records, lines, i), model)
  {
    var levels := ReadLevels(records, lines);
    if levels.Failure? {
      return Failure(levels.error);
    }
    var allNodes := AttachText(records, lines, count, model, levels.value);
    return Success(allNodes);
  }

  /** The first loop: title, line number and level of every heading, or the first indented one. */
  method ReadLevels(records: seq<HeadingRecord>, lines: seq<string>)
    returns (r: Result<seq<OutlineNode>, SpanError>)
    requires InRange(records, |lines|)
    ensures r.Failure? <==> exists k :: 0 <= k < |records| && Indented(records, lines, k)
    ensures r.Failure? ==> exists f :: 0 <= f < |records| && Indented(records, lines, f)
                             && r.error == IndentedHeading(records[f].lineNum)
                             && forall k :: 0 <= k < f ==> !Indented(records, lines, k)
    ensures r.Success? ==> |r.value| == |records|
    ensures r.Success? ==> forall k :: 0 <= k < |records| ==>
              !Indented(records, lines, k) && r.value[k] == Pending(records, lines, k)
  {
    var allNodes: seq<OutlineNode> := [];
    for i := 0 to |records|
      invariant |allNodes| == i
      invariant forall k :: 0 <= k < i ==> !Indented(records, lines, k) && allNodes[k] == Pending(records, lines, k)
    {
      var level := RawLevel(lines[records[i].lineNum - 1]);
      if level.None? {
        assert Indented(records, lines, i);
        return Failure(IndentedHeading(records[i].lineNum));
      }
      allNodes := allNodes + [OutlineNode(records[i].title, records[i].lineNum, level.value, "", 0)];
    }
    return Success(allNodes);
  }

  /** The second loop: each node's span text and its token count. */
  method AttachText(records: seq<HeadingRecord>, lines: seq<string>, count: Counter, model: string,
                    pending: seq<OutlineNode>)
    returns (allNodes: seq<OutlineNode>)
    requires InRange(records, |lines|) && |pending| == |records|
    requires forall k :: 0 <= k < |records| ==> !Indented(records, lines, k) && pending[k] == Pending(records, lines, k)
    ensures |allNodes| == |records|
    ensures forall i :: 0 <= i < |records| ==> allNodes[i] == ResolvedNode(records, lines, count, model, i)
  {
    allNodes := pending;
    for i := 0 to |allNodes|
      invariant |allNodes| == |records|
      invariant forall k :: 0 <= k < i ==> allNodes[k] == ResolvedNode(records, lines, count, model, k)
      invariant forall k :: i <= k < |records| ==> allNodes[k] == pending[k]
    {
      var startLine := allNodes[i].lineNum - 1;
      var endLine := if i + 1 < |allNodes| then allNodes[i + 1].lineNum - 1 else |lines|;
      var text := Strip(Join(Slice(lines, startLine, endLine)));
      assert text == SpanText(records, lines, i);
      allNodes := allNodes[i := allNodes[i].(text := text, tokens := count(text, model))];
    }
  }

  /** The raw spans of records `k..`, concatenated in order. */
  function SpansFrom(records: seq<HeadingRecord>, lines: seq<string>, k: nat): seq<string>
    requires InRange(records, |lines|) && k <= |records|
    decreases |records| - k
  {
    if k == |records| then [] else SpanLines(records, lines, k) + SpansFrom(records, lines, k + 1)
  }

  /**
   * The raw spans tile the document from the first heading's line to the
   * end, with no gap and no overlap; the lines before the first heading
   * belong to no node.
   */
  lemma {:induction false} SpansTile(records: seq<HeadingRecord>, lines: seq<string>, k: nat)
    requires WellNumbered(records, |lines|) && k < |records|
    ensures SpansFrom(records, lines, k) == lines[records[k].lineNum - 1..]
    decreases |records| - k
  {
    var a := records[k].lineNum - 1;
    if k + 1 < |records| {
      SpansTile(records, lines, k + 1);
      var b := records[k + 1].lineNum - 1;
      assert lines[a..] == lines[a..b] + lines[b..];
    } else {
      assert SpansFrom(records, lines, k + 1) == [];
    }
  }
}
