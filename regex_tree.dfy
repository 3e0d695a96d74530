/**
 * RegexTree: `generate_regex_tree`, the public entry point, which composes the
 * substring extractor and the tree builder, and the sample inputs its tests use.
 */
module RegexTree {
  import opened Text
  import opened Escaping
  import opened CommonSubstrings
  import opened PatternTree

  /**
   * `generate_regex_tree`: an empty sample list gives a node with an empty pattern
   * and no children; otherwise the root is `.*` with one leaf per common substring,
   * longest first. The leaves never get children, because the extractor yields
   * distinct substrings and wrapped patterns of distinct substrings never contain
   * one another. `substrings` names the extractor's result.
   */
  method GenerateRegexTree(strings: seq<string>) returns (root: Node, ghost substrings: seq<string>)
    ensures strings == [] ==> root == Node([], [])
    ensures strings != [] ==> root.pattern == Wildcard
    ensures strings != [] ==> forall t :: IsCommonSubstring(strings, t) <==> Leaf(Wrap(t)) in root.children
    ensures strings != [] ==>
      (forall t :: t in substrings <==> IsCommonSubstring(strings, t)) &&
      Distinct(substrings) && LongestFirst(substrings) &&
      |root.children| == |substrings| &&
      forall k :: 0 <= k < |substrings| ==> root.children[k] == Leaf(Wrap(substrings[k]))
  {
    if strings == [] {
      return Node([], []), [];
    }
    var common := FindCommonSubstrings(strings);
    substrings := common;
    root := BuildTree(common);
    forall k | 0 <= k < |common| ensures root.children[k] == Leaf(Wrap(common[k])) {
      DistinctSubstringsGiveLeaves(common, k);
    }
    forall t ensures IsCommonSubstring(strings, t) <==> Leaf(Wrap(t)) in root.children {
      if Leaf(Wrap(t)) in root.children {
        var k :| 0 <= k < |root.children| && root.children[k] == Leaf(Wrap(t));
        WrapInjective(t, common[k]);
      }
    }
  }

  /** Different substrings get different node patterns. */
  lemma WrapInjective(a: string, b: string)
    requires Wrap(a) == Wrap(b)
    ensures a == b
  {
    WrappedContainment(a, b);
    assert OccursAt(Wrap(b), Wrap(a), 0);
  }

  /** The three samples of the source's tests. */
  const Highlighted: seq<string> := ["highlighted text", "highlighted part", "highlighted section"]

  lemma HighlightedSpaceIsCommon()
    ensures IsCommonSubstring(Highlighted, "highlighted ")
  {
    forall s | s in Highlighted ensures IsSubstring("highlighted ", s) {
      assert OccursAt(s, "highlighted ", 0);
    }
  }

  /** `test_find_common_substrings`: `"highlighted "` is among the common substrings. */
  method HighlightedSubstrings() returns (r: seq<string>)
    ensures "highlighted " in r
  {
    r := FindCommonSubstrings(Highlighted);
    HighlightedSpaceIsCommon();
  }

  /** The node pattern of `"highlighted "` keeps its text, which holds no metacharacter. */
  lemma HighlightedPattern(t: string)
    requires t == "highlighted "
    ensures Wrap(t) == ".*highlighted .*"
  {
    assert forall k :: 0 <= k < |t| ==> !IsMeta(t[k]);
    EscapePlainText(t);
  }

  /** A root whose leaves are exactly the common substrings of the test samples has the child `.*highlighted .*`. */
  lemma HighlightedChild(root: Node, t: string)
    requires t == "highlighted "
    requires forall u :: IsCommonSubstring(Highlighted, u) <==> Leaf(Wrap(u)) in root.children
    ensures exists k :: 0 <= k < |root.children| && root.children[k].pattern == ".*highlighted .*"
  {
    HighlightedSpaceIsCommon();
    HighlightedPattern(t);
    var k :| 0 <= k < |root.children| && root.children[k] == Leaf(Wrap(t));
  }

  /** `test_generate_regex_tree`: the root is `.*` and has a child `.*highlighted .*`. */
  method HighlightedTree() returns (root: Node)
    ensures root.pattern == ".*"
    ensures exists k :: 0 <= k < |root.children| && root.children[k].pattern == ".*highlighted .*"
  {
    ghost var substrings;
    root, substrings := GenerateRegexTree(Highlighted);
    HighlightedChild(root, "highlighted ");
  }

  /** A shared `"a.b"` becomes a node whose dot is escaped, so it is no wildcard. */
  lemma DotIsEscaped()
    ensures Wrap("a.b") == ".*a\\.b.*"
  {
  }

  /** A non-empty substring of a one-character string is that string. */
  lemma SingleCharacterSubstring(c: char, t: string)
    requires t != [] && IsSubstring(t, [c])
    ensures t == [c]
  {
  }

  /** Samples without a shared character have no common substring. */
  lemma DisjointSamplesShareNothing(t: string)
    ensures !IsCommonSubstring(["x", "y"], t)
  {
    if t != [] && IsSubstring(t, "x") {
      SingleCharacterSubstring('x', t);
      forall k: nat ensures !OccursAt("y", "x", k) {
        if k == 0 {
          assert "y"[0..1] == "y";
        }
      }
      assert "y" in ["x", "y"];
    }
  }

  /** Samples `"x"` and `"y"`: the root `.*` has no children. */
  method DisjointSamplesTree() returns (root: Node)
    ensures root.pattern == ".*" && root.children == []
  {
    ghost var substrings;
    root, substrings := GenerateRegexTree(["x", "y"]);
    if substrings != [] {
      DisjointSamplesShareNothing(substrings[0]);
    }
  }

  /** The non-empty substrings of `"abc"`. */
  const AbcSubstrings: set<string> := {"a", "b", "c", "ab", "bc", "abc"}

  lemma SubstringsOfAbc(t: string)
    ensures IsCommonSubstring(["abc"], t) <==> t in AbcSubstrings
  {
    var abc := "abc";
    if IsCommonSubstring(["abc"], t) {
      var k: nat :| OccursAt(abc, t, k);
      assert t == abc[k..k + |t|];
      assert k < 3 && 1 <= |t| <= 3 - k;
      if k == 0 {
        assert t == "a" || t == "ab" || t == "abc";
      } else if k == 1 {
        assert t == "b" || t == "bc";
      } else {
        assert t == "c";
      }
    }
    if t in AbcSubstrings {
      if t == "a" || t == "ab" || t == "abc" {
        assert OccursAt(abc, t, 0);
      } else if t == "b" || t == "bc" {
        assert OccursAt(abc, t, 1);
      } else {
        assert OccursAt(abc, t, 2);
      }
      assert IsSubstring(t, abc);
      assert forall s :: s in ["abc"] ==> s == abc;
      assert ["abc"][0] == abc;
    }
  }

  /** A repetition-free list of exactly the substrings of `"abc"` has six entries. */
  lemma AbcListLength(r: seq<string>)
    requires Distinct(r) && forall t :: t in r <==> IsCommonSubstring(["abc"], t)
    ensures |r| == 6
  {
    forall t ensures t in r <==> t in AbcSubstrings {
      SubstringsOfAbc(t);
    }
    assert (set t | t in r) == AbcSubstrings;
    DistinctCardinality(r);
  }

  /** A single sample `"abc"`: all six of its non-empty substrings are common. */
  method SingleSampleSubstrings() returns (r: seq<string>)
    ensures |r| == 6 && forall t :: t in r <==> t in AbcSubstrings
  {
    r := FindCommonSubstrings(["abc"]);
    AbcListLength(r);
    forall t ensures t in r <==> t in AbcSubstrings {
      SubstringsOfAbc(t);
    }
  }

  /** A single sample `"abc"`: the root `.*` has six children. */
  method SingleSampleTree() returns (root: Node)
    ensures root.pattern == ".*" && |root.children| == 6
  {
    ghost var substrings;
    root, substrings := GenerateRegexTree(["abc"]);
    AbcListLength(substrings);
  }
}
