/**
 * Heading extraction (`extract_nodes_from_markdown`): split the document on
 * line feeds, number the lines from 1, strip each one and keep those that
 * match `^(#{1,6})\s+(.+)$`, recording the stripped title and the line number.
 */
module Extraction {
  import opened Strings

  /** One recognised heading: its title and its 1-based line number. */
  datatype HeadingRecord = HeadingRecord(title: string, lineNum: nat)

  /** Length of the run of `#` characters at the start of `s`. */
  function LeadingHashes(s: string): (k: nat)
    ensures k <= |s|
    ensures forall j :: 0 <= j < k ==> s[j] == '#'
    ensures k == |s| || s[k] != '#'
  {
    if s != [] && s[0] == '#' then 1 + LeadingHashes(s[1..]) else 0
  }

  /** A run of `j` hashes followed by something else is the whole leading run. */
  lemma {:induction false} HashRunEnds(s: string, j: nat)
    requires j < |s| && s[j] != '#'
    requires forall q :: 0 <= q < j ==> s[q] == '#'
    ensures LeadingHashes(s) == j
  {
    if j > 0 {
      HashRunEnds(s[1..], j - 1);
    }
  }

  /**
   * The heading test on a line without line feeds: one to six `#`, then a
   * whitespace character, then at least one more character.
   */
  predicate IsHeading(line: string) {
    var k := LeadingHashes(line);
    1 <= k <= 6 && k + 1 < |line| && IsSpace(line[k])
  }

  /** The title of a heading: the text after the marks, stripped (`match.group(2).strip()`). */
  function HeadingTitle(line: string): string
    requires IsHeading(line)
  {
    Strip(line[LeadingHashes(line) + 1..])
  }

  /** A raw line is a heading line when its stripped form is non-empty and a heading. */
  predicate IsHeadingLine(raw: string) {
    var s := Strip(raw);
    s != [] && IsHeading(s)
  }

  /**
   * The regular expression `^(#{1,6})\s+(.+)$` read literally: group 1 is
   * `line[..j]`, the whitespace run is `line[j..m]` and group 2 is `line[m..]`.
   */
  ghost predicate RegexSplit(line: string, j: nat, m: nat) {
    && 1 <= j <= 6 && j < m < |line|
    && (forall q :: 0 <= q < j ==> line[q] == '#')
    && (forall q :: j <= q < m ==> IsSpace(line[q]))
  }

  ghost predicate RegexMatches(line: string) {
    exists j: nat, m: nat :: RegexSplit(line, j, m)
  }

  /**
   * The heading test agrees with the regular expression on every line
   * without line feeds, and every way the regular expression can split the
   * line yields the same stripped title. In particular a line with seven or
   * more `#`, or with no whitespace right after its `#` run, is no heading.
   */
  lemma HeadingIffRegex(line: string)
    requires '\n' !in line
    ensures IsHeading(line) <==> RegexMatches(line)
    ensures forall j: nat, m: nat :: RegexSplit(line, j, m) ==>
              j == LeadingHashes(line) && Strip(line[m..]) == HeadingTitle(line)
  {
    var k := LeadingHashes(line);
    if IsHeading(line) {
      assert RegexSplit(line, k, k + 1);
    }
    forall j: nat, m: nat | RegexSplit(line, j, m)
      ensures j == k && Strip(line[m..]) == HeadingTitle(line)
    {
      HashRunEnds(line, j);
      assert line[k + 1..] == line[k + 1..m] + line[m..];
      StripSkipsLeadingSpace(line[k + 1..m], line[m..]);
    }
  }

  /** Seven or more leading `#` never match the heading expression. */
  lemma SevenHashesNoHeading(line: string)
    requires |line| >= 7 && forall q :: 0 <= q < 7 ==> line[q] == '#'
    ensures !RegexMatches(line) && !IsHeading(line)
  {
    forall j: nat, m: nat | 1 <= j <= 6 && j < m < |line|
      ensures !RegexSplit(line, j, m)
    {
      assert !IsSpace(line[j]);
    }
  }

  /** A `#` run followed directly by a non-whitespace character never matches. */
  lemma NoSpaceNoHeading(line: string)
    requires 1 <= LeadingHashes(line) < |line| && !IsSpace(line[LeadingHashes(line)])
    ensures !RegexMatches(line) && !IsHeading(line)
  {
    forall j: nat, m: nat | 1 <= j <= 6 && j < m < |line| && forall q :: 0 <= q < j ==> line[q] == '#'
      ensures !RegexSplit(line, j, m)
    {
      if line[j] != '#' {
        HashRunEnds(line, j);
      }
      assert !IsSpace(line[j]);
    }
  }

  /** The sorted, in-range line numbers the extractor produces for a document of `count` lines. */
  predicate WellNumbered(records: seq<HeadingRecord>, count: nat) {
    && (forall k :: 0 <= k < |records| ==> 1 <= records[k].lineNum <= count)
    && (forall k :: 0 < k < |records| ==> records[k - 1].lineNum < records[k].lineNum)
  }

  /** `r` records a heading line of `lines`, with that line's title. */
  predicate RecordOf(lines: seq<string>, r: HeadingRecord) {
    && 1 <= r.lineNum <= |lines|
    && IsHeadingLine(lines[r.lineNum - 1])
    && r.title == HeadingTitle(Strip(lines[r.lineNum - 1]))
  }

  /** The headings among the first `n` lines, in document order (the extractor's loop). */
  function Scan(lines: seq<string>, n: nat): seq<HeadingRecord>
    requires n <= |lines|
  {
    if n == 0 then []
    else
      var s := Strip(lines[n - 1]);
      if s != [] && IsHeading(s) then Scan(lines, n - 1) + [HeadingRecord(HeadingTitle(s), n)]
      else Scan(lines, n - 1)
  }

  /** One more line adds its record exactly when it is a heading line. */
  lemma ScanStep(lines: seq<string>, n: nat)
    requires 0 < n <= |lines|
    ensures Scan(lines, n) == Scan(lines, n - 1) +
      (if IsHeadingLine(lines[n - 1]) then [HeadingRecord(HeadingTitle(Strip(lines[n - 1])), n)] else [])
  {
  }

  /** The records carry strictly increasing line numbers within the first `n` lines. */
  lemma {:induction false} ScanNumbered(lines: seq<string>, n: nat)
    requires n <= |lines|
    ensures WellNumbered(Scan(lines, n), n)
  {
    if n > 0 {
      ScanNumbered(lines, n - 1);
      ScanStep(lines, n);
    }
  }

  /** Every record names a heading line and carries that line's title. */
  lemma {:induction false} ScanRecords(lines: seq<string>, n: nat)
    requires n <= |lines|
    ensures forall r :: r in Scan(lines, n) ==> RecordOf(lines, r)
  {
    if n > 0 {
      ScanRecords(lines, n - 1);
      ScanStep(lines, n);
    }
  }

  function LineNumbers(records: seq<HeadingRecord>): set<nat> {
    set r | r in records :: r.lineNum
  }

  lemma LineNumbersSnoc(records: seq<HeadingRecord>, r: HeadingRecord)
    ensures LineNumbers(records + [r]) == LineNumbers(records) + {r.lineNum}
  {
  }

  lemma LineNumbersBound(records: seq<HeadingRecord>, count: nat)
    requires WellNumbered(records, count)
    ensures forall ln :: ln in LineNumbers(records) ==> 1 <= ln <= count
  {
    forall ln | ln in LineNumbers(records)
      ensures 1 <= ln <= count
    {
      var r :| r in records && r.lineNum == ln;
      var k :| 0 <= k < |records| && records[k] == r;
    }
  }

  /** Every heading line among the first `n` is recorded. */
  lemma {:induction false} ScanComplete(lines: seq<string>, n: nat)
    requires n <= |lines|
    ensures forall ln :: 1 <= ln <= n ==>
              (ln in LineNumbers(Scan(lines, n)) <==> IsHeadingLine(lines[ln - 1]))
  {
    if n > 0 {
      ScanComplete(lines, n - 1);
      var before := Scan(lines, n - 1);
      assert n !in LineNumbers(before) by {
        ScanNumbered(lines, n - 1);
        LineNumbersBound(before, n - 1);
      }
      ScanStep(lines, n);
      if IsHeadingLine(lines[n - 1]) {
        LineNumbersSnoc(before, HeadingRecord(HeadingTitle(Strip(lines[n - 1])), n));
      } else {
        assert before + [] == before;
      }
    }
  }

  /** `extract_nodes_from_markdown`: the heading records and the split lines. */
  function ExtractNodes(content: string): (res: (seq<HeadingRecord>, seq<string>))
    ensures |res.1| >= 1 && Join(res.1) == content
    ensures forall k :: 0 <= k < |res.1| ==> '\n' !in res.1[k]
    ensures WellNumbered(res.0, |res.1|)
    ensures forall r :: r in res.0 ==> RecordOf(res.1, r)
    ensures forall ln :: 1 <= ln <= |res.1| ==>
              (ln in LineNumbers(res.0) <==> IsHeadingLine(res.1[ln - 1]))
  {
    var lines := Split(content);
    JoinSplit(content);
    ScanNumbered(lines, |lines|);
    ScanRecords(lines, |lines|);
    ScanComplete(lines, |lines|);
    (Scan(lines, |lines|), lines)
  }

  /**
   * The lines are exactly `content.split('\n')`: at least one piece, none
   * holding a line feed, and rejoining to the document determine them.
   */
  lemma ExtractedLinesAreSplit(content: string)
    ensures ExtractNodes(content).1 == Split(content)
  {
    var lines := ExtractNodes(content).1;
    SplitJoin(lines);
  }

  /**
   * On a stripped heading line the greedy `\s+` takes the whole whitespace
   * run after the marks, so group 2 starts at the first character after it
   * and, the line being stripped, is already trimmed: the `.strip()` applied
   * to the title changes nothing.
   */
  lemma TitleStripNoOp(raw: string)
    requires IsHeadingLine(raw)
    ensures var s := Strip(raw);
            var k := LeadingHashes(s);
            exists m :: k < m < |s| && AllSpace(s[k..m]) && !IsSpace(s[m])
                        && HeadingTitle(s) == s[m..] && Strip(s[m..]) == s[m..]
  {
    var s := Strip(raw);
    assert Trimmed(s) by {
      StripSlice(raw);
    }
    GreedyTitle(s);
  }

  lemma GreedyTitle(s: string)
    requires Trimmed(s) && IsHeading(s)
    ensures var k := LeadingHashes(s);
            exists m :: k < m < |s| && AllSpace(s[k..m]) && !IsSpace(s[m])
                        && HeadingTitle(s) == s[m..] && Strip(s[m..]) == s[m..]
  {
    var k := LeadingHashes(s);
    var r := TitleAfterRun(s);
    var m := |s| - |r|;
    TrimmedSuffix(s, r);
    assert Strip(s[m..]) == s[m..];
  }

  /** The title is the rest of the line after the whitespace run that follows the marks. */
  lemma TitleAfterRun(s: string) returns (r: string)
    requires Trimmed(s) && IsHeading(s)
    ensures var k := LeadingHashes(s);
            && r != [] && k < |s| - |r| && r == s[|s| - |r|..] && !IsSpace(r[0])
            && AllSpace(s[k..|s| - |r|]) && HeadingTitle(s) == TrimEnd(r)
  {
    var k := LeadingHashes(s);
    var tail := s[k..];
    r := TrimStart(tail);
    TrimStartSuffix(tail);
    var w := |tail| - |r|;
    assert tail[w..] == s[k + w..];
    assert tail[..w] == s[k..k + w];
    assert !IsSpace(tail[|tail| - 1]) && forall q :: 0 <= q < w ==> tail[..w][q] == tail[q];
    assert w < |tail|;
    assert tail == [s[k]] + s[k + 1..];
    TrimStartSkipsLeadingSpace([s[k]], s[k + 1..]);
  }

  /** A non-empty suffix of a trimmed text that starts with non-whitespace is left alone by `strip()`. */
  lemma TrimmedSuffix(s: string, r: string)
    requires Trimmed(s) && r != [] && |r| <= |s| && r == s[|s| - |r|..] && !IsSpace(r[0])
    ensures Strip(r) == r && TrimEnd(r) == r
  {
    assert r[|r| - 1] == s[|s| - 1];
    StripTrimmed(r);
    assert TrimStart(r) == r;
  }
}
