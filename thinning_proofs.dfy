/**
 * What the thinning pass computes, stated without reference to the order of
 * its steps: which nodes are removed, what the survivors keep, and what a
 * below-threshold node's text becomes.
 */
module ThinningProofs {
  import opened Strings
  import opened Spans
  import opened Thinning

  /** Two nodes share title, line number and level. */
  predicate SameHeading(x: OutlineNode, y: OutlineNode) {
    x.title == y.title && x.lineNum == y.lineNum && x.level == y.level
  }

  /** `j` lies in the contiguous run of nodes deeper than `p` that starts right after `p`. */
  ghost predicate Deeper(nodes: seq<OutlineNode>, p: nat, j: nat) {
    p < j < |nodes| && forall q :: p < q <= j ==> nodes[q].level > nodes[p].level
  }

  /** Some node at index `i` or later, before `j`, is below the threshold and has `j` in its deeper run. */
  ghost predicate AbsorbedFrom(nodes: seq<OutlineNode>, minTokens: int, i: nat, j: nat) {
    exists p: nat :: i <= p < j < |nodes| && Deeper(nodes, p, j) && nodes[p].tokens < minTokens
  }

  ghost function AbsorbedSet(nodes: seq<OutlineNode>, minTokens: int, i: nat): set<nat> {
    set j: nat | j < |nodes| && AbsorbedFrom(nodes, minTokens, i, j)
  }

  /** The nodes after the whole backward pass, before the removal. */
  ghost function Final(nodes: seq<OutlineNode>, minTokens: int, count: Counter): seq<OutlineNode> {
    PassFrom(nodes, 0, minTokens, count).0
  }

  /** The pass never changes a title, line number or level, and has not touched indices below `i` yet. */
  lemma {:induction false} PassHeadings(nodes: seq<OutlineNode>, i: nat, minTokens: int, count: Counter)
    requires i <= |nodes|
    ensures forall k :: 0 <= k < |nodes| ==> SameHeading(PassFrom(nodes, i, minTokens, count).0[k], nodes[k])
    ensures forall k :: 0 <= k < i ==> PassFrom(nodes, i, minTokens, count).0[k] == nodes[k]
    decreases |nodes| - i
  {
    if i < |nodes| {
      PassHeadings(nodes, i + 1, minTokens, count);
    }
  }

  /** Once index `k` is processed, later (lower-index) steps leave node `k` as it is. */
  lemma {:induction false} Settled(nodes: seq<OutlineNode>, i: nat, k: nat, minTokens: int, count: Counter)
    requires i <= k < |nodes|
    ensures PassFrom(nodes, i, minTokens, count).0[k] == PassFrom(nodes, k, minTokens, count).0[k]
    decreases k - i
  {
    if i < k {
      Settled(nodes, i + 1, k, minTokens, count);
    }
  }

  /** The end of a deeper run depends only on the levels. */
  lemma {:induction false} RunEndByLevels(a: seq<OutlineNode>, b: seq<OutlineNode>, from: nat, level: nat)
    requires |a| == |b| && from <= |a|
    requires forall k :: 0 <= k < |a| ==> a[k].level == b[k].level
    ensures RunEnd(a, from, level) == RunEnd(b, from, level)
    decreases |a| - from
  {
    if from < |a| && a[from].level > level {
      RunEndByLevels(a, b, from + 1, level);
    }
  }

  /** `find_all_children` depends only on the levels. */
  lemma ChildrenByLevels(a: seq<OutlineNode>, b: seq<OutlineNode>, p: nat, level: nat)
    requires |a| == |b| && p < |a|
    requires forall k :: 0 <= k < |a| ==> a[k].level == b[k].level
    ensures FindAllChildren(a, p, level) == FindAllChildren(b, p, level)
  {
    RunEndByLevels(a, b, p + 1, level);
  }

  /** The deeper run of `p` is exactly the indices `find_all_children` returns. */
  lemma ChildrenAreDeeper(nodes: seq<OutlineNode>, p: nat)
    requires p < |nodes|
    ensures forall j: nat :: j in FindAllChildren(nodes, p, nodes[p].level) <==> Deeper(nodes, p, j)
  {
    var kids := FindAllChildren(nodes, p, nodes[p].level);
    var e := p + 1 + |kids|;
    forall j: nat ensures j in kids <==> Deeper(nodes, p, j) {
      if p < j < e {
        assert kids[j - p - 1] == j;
        forall q | p < q <= j ensures nodes[q].level > nodes[p].level {
          assert kids[q - p - 1] == q;
        }
      } else if e <= j < |nodes| {
        assert e < |nodes| && p < e <= j;
        assert !(nodes[e].level > nodes[p].level);
      }
    }
  }

  /** Being absorbed from `i` on: by node `i` itself, or from `i + 1` on. */
  lemma AbsorbedFromStep(nodes: seq<OutlineNode>, minTokens: int, i: nat, j: nat)
    ensures AbsorbedFrom(nodes, minTokens, i, j) <==>
            AbsorbedFrom(nodes, minTokens, i + 1, j) || (Deeper(nodes, i, j) && nodes[i].tokens < minTokens)
  {
    if AbsorbedFrom(nodes, minTokens, i, j) {
      var p: nat :| i <= p < j < |nodes| && Deeper(nodes, p, j) && nodes[p].tokens < minTokens;
      if p > i {
        assert AbsorbedFrom(nodes, minTokens, i + 1, j);
      }
    }
    if Deeper(nodes, i, j) && nodes[i].tokens < minTokens {
      assert AbsorbedFrom(nodes, minTokens, i, j);
    }
  }

  /**
   * The removal set after processing indices `i..` holds exactly the nodes
   * absorbed by some below-threshold node at index `i` or later.
   */
  lemma {:induction false} PassRemoved(nodes: seq<OutlineNode>, i: nat, minTokens: int, count: Counter)
    requires i <= |nodes|
    ensures PassFrom(nodes, i, minTokens, count).1 == AbsorbedSet(nodes, minTokens, i)
    decreases |nodes| - i
  {
    if i < |nodes| {
      PassRemoved(nodes, i + 1, minTokens, count);
      StepRemoved(nodes, i, minTokens, count);
      forall j: nat
        ensures j in PassFrom(nodes, i, minTokens, count).1 <==> j in AbsorbedSet(nodes, minTokens, i)
      {
        AbsorbedFromStep(nodes, minTokens, i, j);
      }
    }
  }

  /** Processing a live index `i` marks exactly its deeper run, when it is below the threshold. */
  lemma StepRemoved(nodes: seq<OutlineNode>, i: nat, minTokens: int, count: Counter)
    requires i < |nodes| && i !in PassFrom(nodes, i + 1, minTokens, count).1
    ensures forall j: nat :: j in PassFrom(nodes, i, minTokens, count).1 <==>
              j in PassFrom(nodes, i + 1, minTokens, count).1 || (nodes[i].tokens < minTokens && Deeper(nodes, i, j))
  {
    PassHeadings(nodes, i + 1, minTokens, count);
    var prev := PassFrom(nodes, i + 1, minTokens, count);
    var a, r := prev.0, prev.1;
    assert a[i] == nodes[i];
    if nodes[i].tokens < minTokens {
      ChildrenByLevels(a, nodes, i, nodes[i].level);
      ChildrenAreDeeper(nodes, i);
    }
  }

  /**
   * The skip for an already-removed index never fires: an index is only
   * marked by a lower index, which the backward pass reaches later.
   */
  lemma SkipNeverFires(nodes: seq<OutlineNode>, i: nat, minTokens: int, count: Counter)
    requires i < |nodes|
    ensures i !in PassFrom(nodes, i + 1, minTokens, count).1
  {
    PassRemoved(nodes, i + 1, minTokens, count);
  }

  /** The non-blank texts of the nodes in `kids` that are not in `removed`, in the order of `kids`. */
  ghost function LiveTexts(a: seq<OutlineNode>, removed: set<nat>, kids: seq<nat>): seq<string>
    requires forall k :: 0 <= k < |kids| ==> kids[k] < |a|
    decreases |kids|
  {
    if kids == [] then []
    else
      var c := kids[|kids| - 1];
      LiveTexts(a, removed, kids[..|kids| - 1])
        + (if c !in removed && !IsBlank(a[c].text) then [a[c].text] else [])
  }

  /** On ascending children the inner loop collects exactly the live texts. */
  lemma {:induction false} GatherLive(a: seq<OutlineNode>, removed: set<nat>, kids: seq<nat>)
    requires forall k :: 0 <= k < |kids| ==> kids[k] < |a|
    requires forall k, l :: 0 <= k < l < |kids| ==> kids[k] < kids[l]
    ensures Gather(a, removed, kids).0 == LiveTexts(a, removed, kids)
    decreases |kids|
  {
    if kids != [] {
      var init := kids[..|kids| - 1];
      GatherLive(a, removed, init);
      var c := kids[|kids| - 1];
      assert c !in init by {
        forall k | 0 <= k < |init| ensures init[k] != c {
          assert init[k] == kids[k];
        }
      }
    }
  }

  /** Live texts only look at the texts and the removal status of the children. */
  lemma {:induction false} LiveTextsAgree(a: seq<OutlineNode>, ra: set<nat>, b: seq<OutlineNode>, rb: set<nat>, kids: seq<nat>)
    requires forall k :: 0 <= k < |kids| ==> kids[k] < |a| && kids[k] < |b|
    requires forall k :: 0 <= k < |kids| ==> a[kids[k]].text == b[kids[k]].text && (kids[k] in ra <==> kids[k] in rb)
    ensures LiveTexts(a, ra, kids) == LiveTexts(b, rb, kids)
    decreases |kids|
  {
    if kids != [] {
      LiveTextsAgree(a, ra, b, rb, kids[..|kids| - 1]);
    }
  }

  /**
   * The text a node ends with. A node at or above the threshold, or one
   * with nothing to take in, keeps its original text and count. A node below
   * it takes in, after its own text and in ascending index order, the final
   * non-blank texts of the nodes in its deeper run that no node between it
   * and them has absorbed already, and its count is recomputed on the result.
   */
  lemma MergedText(nodes: seq<OutlineNode>, minTokens: int, count: Counter, p: nat)
    requires p < |nodes|
    ensures var final := Final(nodes, minTokens, count);
            var taken := LiveTexts(final, AbsorbedSet(nodes, minTokens, p + 1),
                                   FindAllChildren(nodes, p, nodes[p].level));
            var merged := MergeAll(nodes[p].text, taken);
            final[p] == if nodes[p].tokens < minTokens && taken != []
                        then nodes[p].(text := merged, tokens := count(merged, RecountModel))
                        else nodes[p]
  {
    var final := Final(nodes, minTokens, count);
    Settled(nodes, 0, p, minTokens, count);
    PassHeadings(nodes, p + 1, minTokens, count);
    PassRemoved(nodes, p + 1, minTokens, count);
    var prev := PassFrom(nodes, p + 1, minTokens, count);
    assert p !in prev.1;
    assert prev.0[p] == nodes[p];
    if nodes[p].tokens < minTokens {
      var kids := FindAllChildren(nodes, p, nodes[p].level);
      ChildrenByLevels(prev.0, nodes, p, nodes[p].level);
      GatherLive(prev.0, prev.1, kids);
      forall k | 0 <= k < |kids| ensures prev.0[kids[k]] == final[kids[k]] {
        Settled(nodes, 0, kids[k], minTokens, count);
        Settled(nodes, p + 1, kids[k], minTokens, count);
      }
      LiveTextsAgree(prev.0, prev.1, final, AbsorbedSet(nodes, minTokens, p + 1), kids);
    }
  }

  /** Thinning keeps, in order, the final form of exactly the nodes that nothing absorbed. */
  lemma ThinnedIsSurvivors(nodes: seq<OutlineNode>, minTokens: int, count: Counter)
    ensures Thinned(nodes, minTokens, count)
            == KeepFrom(Final(nodes, minTokens, count), AbsorbedSet(nodes, minTokens, 0), 0)
  {
    PassRemoved(nodes, 0, minTokens, count);
  }

  /** Title, line number and level of each node, in order. */
  function Headings(s: seq<OutlineNode>): (h: seq<(string, nat, nat)>)
    ensures |h| == |s|
  {
    seq(|s|, k requires 0 <= k < |s| => (s[k].title, s[k].lineNum, s[k].level))
  }

  lemma {:induction false} KeepHeadings(a: seq<OutlineNode>, b: seq<OutlineNode>, removed: set<nat>, j: nat)
    requires |a| == |b| && j <= |a|
    requires forall k :: 0 <= k < |a| ==> SameHeading(a[k], b[k])
    ensures Headings(KeepFrom(a, removed, j)) == Headings(KeepFrom(b, removed, j))
    decreases |a| - j
  {
    if j < |a| {
      KeepHeadings(a, b, removed, j + 1);
      var ta := KeepFrom(a, removed, j + 1);
      var tb := KeepFrom(b, removed, j + 1);
      var ha := if j in removed then [] else [a[j]];
      var hb := if j in removed then [] else [b[j]];
      assert Headings(ha + ta) == Headings(ha) + Headings(ta);
      assert Headings(hb + tb) == Headings(hb) + Headings(tb);
    }
  }

  /**
   * Thinning preserves order and headings: the result is, in input order,
   * the nodes that nothing absorbed, each with its title, line number and
   * level unchanged.
   */
  lemma ThinnedHeadings(nodes: seq<OutlineNode>, minTokens: int, count: Counter)
    ensures Headings(Thinned(nodes, minTokens, count))
            == Headings(KeepFrom(nodes, AbsorbedSet(nodes, minTokens, 0), 0))
  {
    ThinnedIsSurvivors(nodes, minTokens, count);
    PassHeadings(nodes, 0, minTokens, count);
    KeepHeadings(Final(nodes, minTokens, count), nodes, AbsorbedSet(nodes, minTokens, 0), 0);
  }

  lemma {:induction false} KeepAll(a: seq<OutlineNode>, j: nat)
    requires j <= |a|
    ensures KeepFrom(a, {}, j) == a[j..]
    decreases |a| - j
  {
    if j < |a| {
      KeepAll(a, j + 1);
      assert a[j..] == [a[j]] + a[j + 1..];
    }
  }

  /**
   * A threshold of zero or less changes nothing: token counts are never
   * negative and the test is a strict `<`.
   */
  lemma ThinNonPositive(nodes: seq<OutlineNode>, minTokens: int, count: Counter)
    requires minTokens <= 0
    ensures Thinned(nodes, minTokens, count) == nodes
  {
    ThinnedIsSurvivors(nodes, minTokens, count);
    var final := Final(nodes, minTokens, count);
    assert AbsorbedSet(nodes, minTokens, 0) == {};
    forall p | 0 <= p < |nodes| ensures final[p] == nodes[p] {
      MergedText(nodes, minTokens, count, p);
    }
    assert final == nodes;
    KeepAll(nodes, 0);
  }
}
