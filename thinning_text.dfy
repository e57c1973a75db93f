/**
 * Thinning loses no text: every non-blank text of the input ends up,
 * unchanged and in one piece, inside the text of a node that survives.
 */
module ThinningText {
  import opened Strings
  import opened Spans
  import opened Thinning
  import opened ThinningProofs

  /** `s` occurs in `u` starting at index `a`. */
  predicate OccursAt(s: string, u: string, a: nat) {
    a + |s| <= |u| && u[a..a + |s|] == s
  }

  /** `s` occurs in `u` as a contiguous slice. */
  ghost predicate Within(s: string, u: string) {
    exists a: nat :: OccursAt(s, u, a)
  }

  lemma WithinTrans(s: string, u: string, w: string)
    requires Within(s, u) && Within(u, w)
    ensures Within(s, w)
  {
    var a: nat :| OccursAt(s, u, a);
    var b: nat :| OccursAt(u, w, b);
    forall q | 0 <= q < |s| ensures w[b + a + q] == s[q] {
      assert w[b + a + q] == w[b..b + |u|][a + q];
      assert s[q] == u[a..a + |s|][q];
    }
    assert OccursAt(s, w, b + a);
  }

  lemma PrefixWithin(s: string, u: string)
    requires |s| <= |u| && u[..|s|] == s
    ensures Within(s, u)
  {
    assert OccursAt(s, u, 0);
  }

  /** A text that contains a non-blank piece is not blank. */
  lemma WithinNonBlank(s: string, u: string)
    requires Within(s, u) && !IsBlank(s)
    ensures !IsBlank(u)
  {
    var a: nat :| OccursAt(s, u, a);
    StripEmptyIffAllSpace(s);
    StripEmptyIffAllSpace(u);
    if AllSpace(u) {
      forall q | 0 <= q < |s| ensures IsSpace(s[q]) {
        assert s[q] == u[a + q];
      }
    }
  }

  /** Each merged text holds every one of the texts merged into it, unchanged. */
  lemma {:induction false} MergeAllContains(acc: string, texts: seq<string>, k: nat)
    requires k < |texts|
    ensures Within(texts[k], MergeAll(acc, texts))
    decreases |texts|
  {
    var m := MergeAll(acc, texts);
    var t := texts[|texts| - 1];
    MergeAllShape(acc, texts);
    if k == |texts| - 1 {
      assert OccursAt(t, m, |m| - |t|);
    } else {
      var init := texts[..|texts| - 1];
      var before := MergeAll(acc, init);
      assert init[k] == texts[k];
      MergeAllContains(acc, init, k);
      var sep := if before != [] && before[|before| - 1] != '\n' then before + "\n\n" else before;
      assert m == sep + t;
      assert m[..|before|] == before;
      PrefixWithin(before, m);
      WithinTrans(texts[k], before, m);
    }
  }

  /** A node's own text stays at the start of its final text. */
  lemma OwnTextKept(nodes: seq<OutlineNode>, minTokens: int, count: Counter, j: nat)
    requires j < |nodes|
    ensures Within(nodes[j].text, Final(nodes, minTokens, count)[j].text)
  {
    MergedText(nodes, minTokens, count, j);
    var final := Final(nodes, minTokens, count);
    var taken := LiveTexts(final, AbsorbedSet(nodes, minTokens, j + 1),
                           FindAllChildren(nodes, j, nodes[j].level));
    MergeAllShape(nodes[j].text, taken);
    PrefixWithin(nodes[j].text, final[j].text);
  }

  /** A live, non-blank child is among the texts collected. */
  lemma {:induction false} LiveTextsHas(a: seq<OutlineNode>, removed: set<nat>, kids: seq<nat>, i: nat)
    requires forall k :: 0 <= k < |kids| ==> kids[k] < |a|
    requires i < |kids| && kids[i] !in removed && !IsBlank(a[kids[i]].text)
    ensures a[kids[i]].text in LiveTexts(a, removed, kids)
    decreases |kids|
  {
    if i < |kids| - 1 {
      LiveTextsHas(a, removed, kids[..|kids| - 1], i);
    }
  }

  /**
   * The node that takes `j` in: the last node before `j` that is below the
   * threshold and has `j` in its deeper run; no later node has absorbed `j`.
   */
  lemma Absorber(nodes: seq<OutlineNode>, minTokens: int, j: nat) returns (p: nat)
    requires j in AbsorbedSet(nodes, minTokens, 0)
    ensures p < j && Deeper(nodes, p, j) && nodes[p].tokens < minTokens
    ensures j !in AbsorbedSet(nodes, minTokens, p + 1)
  {
    p :| 0 <= p < j < |nodes| && Deeper(nodes, p, j) && nodes[p].tokens < minTokens;
    while j in AbsorbedSet(nodes, minTokens, p + 1)
      invariant p < j && Deeper(nodes, p, j) && nodes[p].tokens < minTokens
      decreases j - p
    {
      var q: nat :| p + 1 <= q < j < |nodes| && Deeper(nodes, q, j) && nodes[q].tokens < minTokens;
      p := q;
    }
  }

  /** The final text of an absorbed node lies inside the final text of its absorber. */
  lemma TakenIn(nodes: seq<OutlineNode>, minTokens: int, count: Counter, j: nat) returns (p: nat)
    requires j in AbsorbedSet(nodes, minTokens, 0)
    requires !IsBlank(Final(nodes, minTokens, count)[j].text)
    ensures p < j
    ensures var final := Final(nodes, minTokens, count);
            Within(final[j].text, final[p].text)
  {
    p := Absorber(nodes, minTokens, j);
    var final := Final(nodes, minTokens, count);
    var kids := FindAllChildren(nodes, p, nodes[p].level);
    var removed := AbsorbedSet(nodes, minTokens, p + 1);
    ChildrenAreDeeper(nodes, p);
    var i := j - p - 1;
    assert kids[i] == j;
    LiveTextsHas(final, removed, kids, i);
    var taken := LiveTexts(final, removed, kids);
    var k :| 0 <= k < |taken| && taken[k] == final[j].text;
    MergedText(nodes, minTokens, count, p);
    MergeAllContains(nodes[p].text, taken, k);
  }

  /** An absorbed non-blank final text lies inside the final text of an earlier survivor. */
  lemma {:induction false} FinalTextSurvives(nodes: seq<OutlineNode>, minTokens: int, count: Counter, j: nat)
    requires j in AbsorbedSet(nodes, minTokens, 0)
    requires !IsBlank(Final(nodes, minTokens, count)[j].text)
    ensures exists s: nat :: s < j && s !in AbsorbedSet(nodes, minTokens, 0)
                        && Within(Final(nodes, minTokens, count)[j].text, Final(nodes, minTokens, count)[s].text)
    decreases j
  {
    var final := Final(nodes, minTokens, count);
    var p := TakenIn(nodes, minTokens, count, j);
    if p in AbsorbedSet(nodes, minTokens, 0) {
      WithinNonBlank(final[j].text, final[p].text);
      FinalTextSurvives(nodes, minTokens, count, p);
      var s: nat :| s < p && s !in AbsorbedSet(nodes, minTokens, 0) && Within(final[p].text, final[s].text);
      WithinTrans(final[j].text, final[p].text, final[s].text);
    }
  }

  /**
   * Textual completeness: every non-blank text of the input lies, unchanged,
   * inside the final text of a node at or before it that survives thinning.
   */
  lemma ThinningKeepsText(nodes: seq<OutlineNode>, minTokens: int, count: Counter, j: nat)
    requires j < |nodes| && !IsBlank(nodes[j].text)
    ensures exists s: nat :: s <= j && s !in AbsorbedSet(nodes, minTokens, 0)
                        && Within(nodes[j].text, Final(nodes, minTokens, count)[s].text)
  {
    var final := Final(nodes, minTokens, count);
    OwnTextKept(nodes, minTokens, count, j);
    if j in AbsorbedSet(nodes, minTokens, 0) {
      WithinNonBlank(nodes[j].text, final[j].text);
      FinalTextSurvives(nodes, minTokens, count, j);
      var s: nat :| s < j && s !in AbsorbedSet(nodes, minTokens, 0) && Within(final[j].text, final[s].text);
      WithinTrans(nodes[j].text, final[j].text, final[s].text);
    }
  }

  /** A node outside `removed` at index `j` or later is kept. */
  lemma {:induction false} KeepFromHas(a: seq<OutlineNode>, removed: set<nat>, j: nat, s: nat)
    requires j <= s < |a| && s !in removed
    ensures a[s] in KeepFrom(a, removed, j)
    decreases |a| - j
  {
    if j < s {
      KeepFromHas(a, removed, j + 1, s);
    }
  }

  /** Every non-blank input text appears, unchanged, inside the text of some node of the result. */
  lemma ThinnedKeepsText(nodes: seq<OutlineNode>, minTokens: int, count: Counter, j: nat)
    requires j < |nodes| && !IsBlank(nodes[j].text)
    ensures exists n :: n in Thinned(nodes, minTokens, count) && Within(nodes[j].text, n.text)
  {
    var final := Final(nodes, minTokens, count);
    ThinningKeepsText(nodes, minTokens, count, j);
    var s: nat :| s <= j && s !in AbsorbedSet(nodes, minTokens, 0) && Within(nodes[j].text, final[s].text);
    ThinnedIsSurvivors(nodes, minTokens, count);
    KeepFromHas(final, AbsorbedSet(nodes, minTokens, 0), 0, s);
  }
}
