# Markdown outline builder, modelled in Dafny

This project models the Markdown-to-outline pipeline of PageIndex
(`pageindex/page_index_md.py`). It turns a Markdown document into a forest of
sections, one per heading, in five steps:

1. **Extraction.** `extract_nodes_from_markdown` splits the document on line
   feeds. It strips each line and keeps those that match `^(#{1,6})\s+(.+)$`,
   recording the stripped title and the 1-based line number (module `Extraction`).
2. **Span resolution.** `extract_node_text_content` reads each heading's level
   from its *unstripped* line. An indented heading has no level, and there the
   source raises. Each heading then gets the text from its line up to the next
   heading's line, joined and stripped, together with that text's token count
   (module `Spans`).
3. **Thinning.** `tree_thinning_for_index` (optional) makes one backward pass
   over a working copy. A node whose count is under the threshold absorbs the
   run of deeper nodes right after it. The non-blank texts of that run are
   appended to the node's own text with blank-line separators, and the run's
   nodes are removed at the end (modules `Thinning` and `ThinningProofs`).
4. **Nesting.** `build_tree_from_nodes` nests the flat list by level using a
   stack of open headings. It numbers the nodes `"0001"`, `"0002"`, … in input
   order (modules `TreeBuild` and `NodeIds`).
5. **Cleaning.** `clean_tree_for_output` copies the forest and drops the
   `nodes` key from childless nodes (module `Cleaning`).

`md_to_tree` chains steps 1 to 4 after reading the file (module `Pipeline`).

**Specifications and implementations.** Each step is specified by a function
on values: `ExtractNodes`, `SpanText`/`ResolvedNode`, `Thinned`,
`ExpectedUpTo`/`ParentPairs`/`RootIdsUpTo` and `Clean`. Where the source
loops, the step is implemented by a method with the same loops:

- the span loops build a sequence;
- the thinning pass runs over an `array`;
- the builder pops a stack;
- the cleaner recurses.

Each method is proved equal to its specification, and the lemmas state what
the specifications mean.

**Tree builder and aliasing.** The builder's aliasing (appending into a dict
that is also reachable from the roots) is modelled on values. The stack always
holds the rightmost path of the forest, so "append under the stack top"
becomes "append under the spine node at depth `|stack|`". The builder's
contract is stated independently of the stack:

- the preorder of the forest is the input order, with ids by position;
- the parent of node `j` is the nearest earlier node with a smaller level;
- the roots are the nodes that no earlier node is shallower than.

**Text completeness.** Thinning loses no text. Every non-blank text of the
input ends up unchanged and in one piece inside the text of a node that
survives (module `ThinningText`).

**Helper modules.** `Strings` models `str.strip`, `str.split('\n')` and
`'\n'.join`. Whitespace there is the set of characters `str.isspace()`
accepts, which both `strip()` and the regex class `\s` use. `Wrappers` holds
`Option` and `Result`.

## Model

| member | source | states |
|---|---|---|
| Strings.StripSlice | pageindex/page_index_md.py:18 | `strip()` returns a contiguous slice of the line with only whitespace cut from both ends, and the result has no whitespace at either end |
| Strings.StripEmptyIffAllSpace | pageindex/page_index_md.py:18-20 | a stripped line is empty exactly when the line is all whitespace, so exactly the blank lines are skipped |
| Strings.StripFromNonSpace | pageindex/page_index_md.py:18 | on a line that does not begin with whitespace, `strip()` only trims the end |
| Strings.Split | pageindex/page_index_md.py:16 | `split('\n')` yields at least one piece and no piece contains a line feed |
| Strings.JoinSplit | pageindex/page_index_md.py:16 | joining the pieces of `split('\n')` with line feeds gives back the document |
| Strings.SplitJoin | pageindex/page_index_md.py:16 | splitting the line-feed join of feed-free lines gives back the lines |
| Extraction.LeadingHashes | pageindex/page_index_md.py:13 | the length of the maximal run of `#` at the start of a line |
| Extraction.HeadingIffRegex | pageindex/page_index_md.py:13-24 | the heading test holds exactly when `^(#{1,6})\s+(.+)$` matches a feed-free line, and every way the pattern can match gives the same stripped title |
| Extraction.SevenHashesNoHeading | pageindex/page_index_md.py:13 | a line starting with seven `#` never matches the heading pattern |
| Extraction.NoSpaceNoHeading | pageindex/page_index_md.py:13 | a `#` run not followed by whitespace never matches the heading pattern |
| Extraction.ScanNumbered | pageindex/page_index_md.py:17-25 | the recorded line numbers are strictly increasing and lie in 1..number of lines scanned |
| Extraction.ScanRecords | pageindex/page_index_md.py:17-25 | every record names a heading line, and its title is that line's stripped title |
| Extraction.ScanComplete | pageindex/page_index_md.py:17-25 | a line number is recorded exactly when the stripped line is non-empty and a heading |
| Extraction.TitleStripNoOp | pageindex/page_index_md.py:18-24 | on a stripped heading line, the greedy `\s+` takes the whole whitespace run after the marks; group 2 is the rest of the line and the title; and its `.strip()` changes nothing |
| Extraction.ExtractedLinesAreSplit | pageindex/page_index_md.py:16 | the returned lines are exactly `content.split('\n')`, so `['']` for the empty document |
| Extraction.ExtractNodes | pageindex/page_index_md.py:12-27 | the returned lines are at least one, rejoin to the document, contain no line feeds, and the records are the heading lines in increasing order with their titles, all of them and nothing else |
| Spans.RawLevel | pageindex/page_index_md.py:36 | the level regex matches exactly when the line starts with `#`, and the level is the length of the `#` run capped at 6 |
| Spans.HeadingLevel | pageindex/page_index_md.py:22-36 | an extracted heading line gets a level exactly when it does not start with whitespace, and the level equals its number of `#` marks |
| Spans.ExtractNodeTextContent | pageindex/page_index_md.py:30-50 | fails exactly when some heading line is indented, naming the first one; otherwise one node per record with its title, line number, level, span text and that text's token count |
| Spans.ReadLevels | pageindex/page_index_md.py:32-38 | the first loop: fails at the first indented heading, else one level-carrying node per record |
| Spans.AttachText | pageindex/page_index_md.py:40-48 | the second loop: every node gets the stripped join of its lines up to the next heading (or the end) and that text's count |
| Spans.SpansTile | pageindex/page_index_md.py:40-47 | the raw spans of the headings, concatenated, are exactly the document from the first heading's line to the end |
| Thinning.RunEnd | pageindex/page_index_md.py:57-61 | the run from a start index holds only nodes deeper than the level, and it stops at the end or at a node at that level or shallower |
| Thinning.FindAllChildren | pageindex/page_index_md.py:54-65 | the children are the consecutive indices after the parent, all deeper than it, up to the first node at its level or shallower |
| Thinning.MergeAllShape | pageindex/page_index_md.py:90-96 | a merged text starts with the absorbing node's own text and ends with the last absorbed text |
| Thinning.Gather | pageindex/page_index_md.py:82-88 | every child is marked for removal, and at most one text is taken per child |
| Thinning.TreeThinningForIndex | pageindex/page_index_md.py:53-105 | the array pass followed by the removals yields exactly the thinning specification |
| Thinning.AbsorbChildren | pageindex/page_index_md.py:74-100 | one index of the backward pass updates the working array and the removal set as the specification's step does |
| Thinning.CollectChildTexts | pageindex/page_index_md.py:82-88 | the child loop collects the non-blank texts of children not yet removed and marks them all |
| Thinning.MergeTexts | pageindex/page_index_md.py:90-96 | the merge loop appends each text after a blank line unless the text so far is empty or ends in a line feed |
| Thinning.PopRemoved | pageindex/page_index_md.py:102-103 | popping the marked indices from the highest down keeps exactly the unmarked nodes in order |
| ThinningProofs.PassHeadings | pageindex/page_index_md.py:70-100 | the pass never changes a node's title, line number or level, and leaves nodes before the current index untouched |
| ThinningProofs.ChildrenAreDeeper | pageindex/page_index_md.py:54-65 | an index is a child of `p` exactly when it follows `p` and it and every node between are deeper than `p` |
| ThinningProofs.SkipNeverFires | pageindex/page_index_md.py:71-72 | no index is ever marked before the pass reaches it, so the `continue` never skips a node |
| ThinningProofs.PassRemoved | pageindex/page_index_md.py:70-88 | the removed indices are exactly those lying in the deeper run of some under-threshold node |
| ThinningProofs.StepRemoved | pageindex/page_index_md.py:79-88 | processing one node adds to the removal set exactly its deeper run, and only when it is under the threshold |
| ThinningProofs.GatherLive | pageindex/page_index_md.py:82-88 | the collected texts are the non-blank texts of the children not already removed |
| ThinningProofs.MergedText | pageindex/page_index_md.py:79-100 | each node ends up with its own text merged with its not-yet-absorbed children's non-blank texts, recounted, when it is under the threshold and there is something to merge; otherwise unchanged |
| ThinningProofs.ThinnedIsSurvivors | pageindex/page_index_md.py:102-105 | the result is the final nodes that are in no under-threshold node's deeper run, in order |
| ThinningProofs.ThinnedHeadings | pageindex/page_index_md.py:67-105 | the headings (title, line, level) of the result are those of the input minus the absorbed ones, in input order |
| ThinningProofs.ThinNonPositive | pageindex/page_index_md.py:79 | with a threshold of 0 or less, thinning returns its input unchanged |
| NodeIds.DecimalDigits | pageindex/page_index_md.py:121 | `str(n)` is a non-empty string of digits without a leading zero when `n > 0` |
| NodeIds.DecimalValue | pageindex/page_index_md.py:121 | reading `str(n)` back gives `n` |
| NodeIds.ZFillShape | pageindex/page_index_md.py:121 | `zfill(4)` keeps the string as a suffix, adds only zeros, and gives length `max(len, 4)` |
| NodeIds.NodeIdValue | pageindex/page_index_md.py:121 | reading an id back gives its position |
| NodeIds.NodeIdInjective | pageindex/page_index_md.py:121 | distinct positions get distinct ids |
| NodeIds.NodeIdWidth | pageindex/page_index_md.py:121 | ids have four characters up to 9999; from 10000 on they are the plain decimal of five or more characters |
| NodeIds.LexIsNumeric | pageindex/page_index_md.py:121 | on digit strings of one length, string order is numeric order |
| NodeIds.NodeIdsOrdered | pageindex/page_index_md.py:121 | ids up to 9999 sort as strings in input order |
| NodeIds.NodeIdOrderBreaks | pageindex/page_index_md.py:121 | id "10000" sorts before "9999" as a string |
| TreeBuild.ParentUnique | pageindex/page_index_md.py:128-135 | a node has at most one parent, and a node with a parent is no root |
| TreeBuild.RootOrParent | pageindex/page_index_md.py:128-135 | every node is a root or has a parent |
| TreeBuild.ExpectedIdsDistinct | pageindex/page_index_md.py:114-126 | the built forest never repeats an id |
| TreeBuild.AppendPreorder | pageindex/page_index_md.py:131-135 | appending a fresh node anywhere on the spine adds it at the end of the preorder |
| TreeBuild.AppendSpine | pageindex/page_index_md.py:131-137 | after appending at depth `d` the open path is the first `d` entries of the old one plus the new node, just as the stack after the push |
| TreeBuild.AppendPairs | pageindex/page_index_md.py:131-135 | appending at depth 0 adds no edge; at depth `d > 0` it adds exactly the edge from the spine node at depth `d-1` |
| TreeBuild.ParentPairsStep | pageindex/page_index_md.py:128-135 | a node with a parent adds exactly one parent edge |
| TreeBuild.PopShallower | pageindex/page_index_md.py:128-129 | after popping, the stack is a prefix of the old one; when empty the node is a root, otherwise the top is its parent |
| TreeBuild.PlaceNode | pageindex/page_index_md.py:131-137 | placing the node under the stack top and pushing it keeps the builder's invariant for the next index |
| TreeBuild.BuildTreeFromNodes | pageindex/page_index_md.py:108-139 | empty input gives no roots; the forest's preorder is the input with ids "0001", … by position; its parent edges are exactly the nearest-shallower-predecessor pairs; its roots are exactly the nodes no earlier node is shallower than, in order |
| ThinningText.MergeAllContains | pageindex/page_index_md.py:90-96 | every text merged into a node occurs unchanged, in one piece, in the merged text |
| ThinningText.OwnTextKept | pageindex/page_index_md.py:90-98 | a node's own text stays at the start of its final text |
| ThinningText.TakenIn | pageindex/page_index_md.py:79-98 | an absorbed node with a non-blank final text has an earlier absorber whose final text contains it |
| ThinningText.FinalTextSurvives | pageindex/page_index_md.py:70-100 | following absorbers leads to an earlier node that survives, whose final text contains the absorbed node's non-blank final text |
| ThinningText.ThinningKeepsText | pageindex/page_index_md.py:67-105 | every non-blank input text lies unchanged inside the final text of a surviving node at or before it |
| ThinningText.ThinnedKeepsText | pageindex/page_index_md.py:53-105 | every non-blank input text lies unchanged inside the text of some node of the thinned list |
| Cleaning.CleanRoundTrip | pageindex/page_index_md.py:142-158 | cleaning loses nothing: putting back the empty `nodes` lists restores the forest |
| Cleaning.CleanNoEmpty | pageindex/page_index_md.py:153-154 | the cleaned forest has as many top-level nodes, and no node in it has an empty `nodes` list |
| Cleaning.UncleanRoundTrip | pageindex/page_index_md.py:153-154 | every cleaned forest with no empty `nodes` list is the cleaning of a forest |
| Cleaning.CleanNodeAt | pageindex/page_index_md.py:145-154 | each cleaned node copies title, id, text and line; it has the `nodes` key exactly when the node has children, and then holds their cleaning |
| Cleaning.CleanTreeForOutput | pageindex/page_index_md.py:142-158 | the loop-and-recursion produces exactly the cleaned forest |
| Pipeline.ResolvedByFields | pageindex/page_index_md.py:30-50 | a field-wise description of the resolved nodes pins them down as the resolved node sequence |
| Pipeline.MdToTree | pageindex/page_index_md.py:160-173 | fails exactly at an indented heading, or when thinning is requested without a threshold on a document with headings; a document without headings gives an empty outline; otherwise the outline has the selected nodes in order, with ids by position, parent edges by level and the right roots |

## Left out

- `count_tokens` (`pageindex/page_index_md.py:6-9`) calls the `tiktoken` library. The model takes it as a parameter `count` of type `(string, string) -> nat`.
- Reading the file in `md_to_tree` (lines 161-162) is input; the model starts from the document's text.
- The `__main__` block of the file and the command-line wrapper that calls `md_to_tree` are not part of this model. Neither is the JSON writing.
- An indented heading makes `re.match(...).group(1)` raise, and `int < None` raises when thinning without a threshold. Both are modelled as `Failure` values, not as exceptions.
- Thinning with a `None` threshold on an empty list returns `[]` in the source without raising. The model returns the same `[]` without calling the thinning method.
- Thinning.TreeThinningForIndex: takes the threshold as `int`; the `None` case is handled by `Pipeline.MdToTree`.
- `node_list.copy()` is shallow, so the source's thinning also rewrites `text` and `text_token_count` in the caller's dicts. The model works on values and does not capture this side effect on the input list.
- `Spans.ExtractNodeTextContent` keeps the tokenizer model name as a parameter. The recount in thinning always names `"gpt-4o"`, as the source's literal does. `Pipeline.MdToTree` passes `"gpt-4o"`, the default that `md_to_tree` leaves in place.
- `md_to_tree`'s defaults (`if_thinning=True`, `min_token_threshold=None`) correspond to `MdToTree(content, true, None, count)`. That call fails with `ThresholdMissing` on every document that has headings. Dafny has no default arguments, so the caller passes both.
- The `nodes` key is present on every built node but only on non-empty ones after cleaning. This is modelled by the `Leaf`/`Branch` constructors, not by a dictionary.
- The unused `asyncio` and `json` imports have no behaviour to model.
