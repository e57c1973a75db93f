/**
 * Character-level helpers shared by the outline pipeline: the whitespace
 * class, Python's `str.strip()`, `str.split('\n')` and `'\n'.join(...)`.
 *
 * Whitespace is the set of characters Python's `str.isspace()` accepts,
 * which is what both `str.strip()` and the regex class `\s` use on text.
 */
module Strings {

  /** A whitespace character, as matched by the regex class `\s` and removed by `strip()`. */
  predicate IsSpace(c: char) {
    || c == ' ' || c == '\t' || c == '\n' || c == '\r' || c == '\U{000B}' || c == '\U{000C}'
    || '\U{001C}' <= c <= '\U{001F}'
    || c == '\U{0085}' || c == '\U{00A0}' || c == '\U{1680}'
    || '\U{2000}' <= c <= '\U{200A}'
    || c == '\U{2028}' || c == '\U{2029}' || c == '\U{202F}' || c == '\U{205F}' || c == '\U{3000}'
  }

  predicate AllSpace(s: string) {
    forall k :: 0 <= k < |s| ==> IsSpace(s[k])
  }

  /** `s` is empty or begins and ends with a non-whitespace character. */
  predicate Trimmed(s: string) {
    s == [] || (!IsSpace(s[0]) && !IsSpace(s[|s| - 1]))
  }

  /** `str.lstrip()`: drops the leading whitespace run. */
  function TrimStart(s: string): (r: string)
    ensures |r| <= |s|
  {
    if s != [] && IsSpace(s[0]) then TrimStart(s[1..]) else s
  }

  /** `str.rstrip()`: drops the trailing whitespace run. */
  function TrimEnd(s: string): (r: string)
    ensures |r| <= |s|
  {
    if s != [] && IsSpace(s[|s| - 1]) then TrimEnd(s[..|s| - 1]) else s
  }

  /** `str.strip()`. */
  function Strip(s: string): string {
    TrimEnd(TrimStart(s))
  }

  /** `lstrip()` keeps a suffix and cuts exactly the leading whitespace run. */
  lemma {:induction false} TrimStartSuffix(s: string)
    ensures var r := TrimStart(s);
            && r == s[|s| - |r|..]
            && AllSpace(s[..|s| - |r|])
            && (r == [] || !IsSpace(r[0]))
  {
    if s != [] && IsSpace(s[0]) {
      TrimStartSuffix(s[1..]);
      var r := TrimStart(s[1..]);
      assert s[..|s| - |r|] == [s[0]] + s[1..][..|s[1..]| - |r|];
    }
  }

  /** `rstrip()` keeps a prefix and cuts exactly the trailing whitespace run. */
  lemma {:induction false} TrimEndPrefix(s: string)
    ensures var r := TrimEnd(s);
            && r == s[..|r|]
            && AllSpace(s[|r|..])
            && (r == [] || !IsSpace(r[|r| - 1]))
  {
    if s != [] && IsSpace(s[|s| - 1]) {
      TrimEndPrefix(s[..|s| - 1]);
      var r := TrimEnd(s[..|s| - 1]);
      assert s[|r|..] == s[..|s| - 1][|r|..] + [s[|s| - 1]];
    }
  }

  /**
   * `strip()` keeps a contiguous slice of `s` that begins and ends with
   * non-whitespace, and cuts only whitespace on either side.
   */
  lemma StripSlice(s: string)
    ensures Trimmed(Strip(s))
    ensures exists i :: 0 <= i && i + |Strip(s)| <= |s| && Strip(s) == s[i..i + |Strip(s)|]
                        && AllSpace(s[..i]) && AllSpace(s[i + |Strip(s)|..])
  {
    var t := TrimStart(s);
    var r := TrimEnd(t);
    TrimStartSuffix(s);
    TrimEndPrefix(t);
    var i := |s| - |t|;
    assert r == s[i..i + |r|];
    assert s[i + |r|..] == t[|r|..];
    if r != [] {
      assert r[0] == t[0];
    }
  }

  /** A blank text: Python treats its `strip()` as false. */
  lemma StripEmptyIffAllSpace(s: string)
    ensures Strip(s) == [] <==> AllSpace(s)
  {
    var r := Strip(s);
    StripSlice(s);
    var i :| 0 <= i && i + |r| <= |s| && r == s[i..i + |r|]
             && AllSpace(s[..i]) && AllSpace(s[i + |r|..]);
    if r == [] {
      forall k | 0 <= k < |s| ensures IsSpace(s[k]) {
        if k < i { assert s[..i][k] == s[k]; } else { assert s[i..][k - i] == s[k]; }
      }
    } else {
      assert s[i] == r[0];
      assert !IsSpace(s[i]);
    }
  }

  /** Stripping a text that already begins and ends with non-whitespace changes nothing. */
  lemma StripTrimmed(s: string)
    requires Trimmed(s)
    ensures Strip(s) == s
  {
    assert TrimStart(s) == s;
    assert TrimEnd(s) == s;
  }

  /** Leading whitespace is invisible to `strip()`. */
  lemma StripSkipsLeadingSpace(w: string, s: string)
    requires AllSpace(w)
    ensures Strip(w + s) == Strip(s)
  {
    TrimStartSkipsLeadingSpace(w, s);
  }

  lemma {:induction false} TrimStartSkipsLeadingSpace(w: string, s: string)
    requires AllSpace(w)
    ensures TrimStart(w + s) == TrimStart(s)
  {
    if w != [] {
      assert (w + s)[0] == w[0];
      assert (w + s)[1..] == w[1..] + s;
      TrimStartSkipsLeadingSpace(w[1..], s);
    } else {
      assert w + s == s;
    }
  }

  /** A line that begins with a non-whitespace character is only cut on the right. */
  lemma StripFromNonSpace(s: string)
    requires s != [] && !IsSpace(s[0])
    ensures Strip(s) == TrimEnd(s)
  {
    assert TrimStart(s) == s;
  }

  /** `s.split('\n')`: the pieces between line feeds, always at least one. */
  function Split(s: string): (lines: seq<string>)
    ensures |lines| >= 1
    ensures forall k :: 0 <= k < |lines| ==> '\n' !in lines[k]
  {
    if s == [] then [""]
    else
      var rest := Split(s[1..]);
      if s[0] == '\n' then [""] + rest else [[s[0]] + rest[0]] + rest[1..]
  }

  /** `'\n'.join(lines)`. */
  function Join(lines: seq<string>): string {
    if lines == [] then ""
    else if |lines| == 1 then lines[0]
    else lines[0] + "\n" + Join(lines[1..])
  }

  /** Joining the pieces of a split gives the text back. */
  lemma {:induction false} JoinSplit(s: string)
    ensures Join(Split(s)) == s
  {
    if s != [] {
      var rest := Split(s[1..]);
      JoinSplit(s[1..]);
      if s[0] == '\n' {
        assert Split(s) == [""] + rest;
        assert Join(Split(s)) == "" + "\n" + Join(rest);
      } else {
        var head := [s[0]] + rest[0];
        assert Split(s) == [head] + rest[1..];
        if |rest| == 1 {
          assert Join(Split(s)) == head;
        } else {
          assert Join(rest) == rest[0] + "\n" + Join(rest[1..]);
          assert Join(Split(s)) == head + "\n" + Join(rest[1..]);
        }
      }
    }
  }

  /** A line without line feeds, followed by a line feed, splits off as one piece. */
  lemma {:induction false} SplitLine(l: string, rest: string)
    requires '\n' !in l
    ensures Split(l + "\n" + rest) == [l] + Split(rest)
    ensures Split(l) == [l]
  {
    if l != [] {
      assert (l + "\n" + rest)[1..] == l[1..] + "\n" + rest;
      SplitLine(l[1..], rest);
      assert [l[0]] + l[1..] == l;
    }
  }

  /** Splitting a join of line-feed-free lines gives the lines back. */
  lemma {:induction false} SplitJoin(lines: seq<string>)
    requires |lines| >= 1
    requires forall k :: 0 <= k < |lines| ==> '\n' !in lines[k]
    ensures Split(Join(lines)) == lines
  {
    if |lines| == 1 {
      SplitLine(lines[0], "");
    } else {
      SplitJoin(lines[1..]);
      SplitLine(lines[0], Join(lines[1..]));
    }
  }
}
