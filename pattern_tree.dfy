/**
 * PatternTree: the pattern node and `build_tree`, which turns an ordered list of
 * common substrings into a root node whose children are one wrapped pattern per
 * substring, each carrying clones of the later nodes whose pattern contains its own.
 */
module PatternTree {
  import opened Text
  import opened Escaping

  /** A pattern node; children are owned values, so a clone is just the same value. */
  datatype Node = Node(pattern: string, children: seq<Node>)

  /** The pattern that matches everything, used for the root and as the wrapper. */
  const Wildcard: string := ".*"

  /** The pattern of the node made for substring `s`: `.*` + escape(s) + `.*`. */
  function Wrap(s: string): (p: string)
  {
    Wildcard + Escape(s) + Wildcard
  }

  /** The patterns of the nodes made for `substrings`, in order. */
  function Formatted(substrings: seq<string>): (ps: seq<string>)
  {
    seq(|substrings|, k requires 0 <= k < |substrings| => Wrap(substrings[k]))
  }

  function Leaf(pattern: string): (n: Node)
  {
    Node(pattern, [])
  }

  /**
   * The indices `j` in `[lo, hi)` whose pattern contains the pattern at `k`,
   * in increasing order.
   */
  function MatchIndices(ps: seq<string>, k: nat, lo: nat, hi: nat): (idx: seq<nat>)
    requires k < |ps| && lo <= hi <= |ps|
    ensures forall m :: 0 <= m < |idx| ==> lo <= idx[m] < hi && Contains(ps[idx[m]], ps[k])
    ensures forall m, n :: 0 <= m < n < |idx| ==> idx[m] < idx[n]
    decreases hi - lo
  {
    if lo == hi then []
    else
      var before := MatchIndices(ps, k, lo, hi - 1);
      if Contains(ps[hi - 1], ps[k]) then before + [hi - 1] else before
  }

  /** Every index in range whose pattern contains the pattern at `k` is listed. */
  lemma {:induction false} MatchIndicesComplete(ps: seq<string>, k: nat, lo: nat, hi: nat, j: nat)
    requires k < |ps| && lo <= j < hi <= |ps|
    requires Contains(ps[j], ps[k])
    ensures j in MatchIndices(ps, k, lo, hi)
    decreases hi - lo
  {
    if j < hi - 1 {
      MatchIndicesComplete(ps, k, lo, hi - 1, j);
    }
  }

  /** Leaf clones of the nodes at `idx`, in the order of `idx`. */
  function Clones(ps: seq<string>, idx: seq<nat>): (cs: seq<Node>)
    requires forall m :: 0 <= m < |idx| ==> idx[m] < |ps|
    ensures forall c :: c in cs ==> c.children == [] && c.pattern in ps
  {
    seq(|idx|, m requires 0 <= m < |idx| => Leaf(ps[idx[m]]))
  }

  /**
   * The children that `build_tree` gives the node of substring `k`. Clones are
   * taken before any later node gets children, so they are all leaves, and the
   * last node has no later node to take children from.
   */
  function ChildrenOf(ps: seq<string>, k: nat): (cs: seq<Node>)
    requires k < |ps|
    ensures forall m :: 0 <= m < |cs| ==> cs[m].children == []
    ensures k == |ps| - 1 ==> cs == []
  {
    Clones(ps, MatchIndices(ps, k, k + 1, |ps|))
  }

  /**
   * What `build_tree` promises: root pattern `.*`, one child per substring in
   * order with its wrapped pattern, and child `k` carrying `ChildrenOf(ps, k)`.
   */
  ghost predicate BuiltFrom(substrings: seq<string>, root: Node)
  {
    root.pattern == Wildcard &&
    |root.children| == |substrings| &&
    forall k :: 0 <= k < |substrings| ==>
      root.children[k].pattern == Wrap(substrings[k]) &&
      root.children[k].children == ChildrenOf(Formatted(substrings), k)
  }

  /**
   * `build_tree`: push the root and one fresh node per substring, take the root
   * back out with `remove(0)`, give every node clones of the later matching nodes,
   * and finally hang all nodes under the root.
   */
  method BuildTree(substrings: seq<string>) returns (root: Node)
    ensures BuiltFrom(substrings, root)
  {
    ghost var ps := Formatted(substrings);
    root := Node(Wildcard, []);
    var nodes: seq<Node> := [root];
    for n := 0 to |substrings|
      invariant |nodes| == n + 1 && nodes[0] == Leaf(Wildcard)
      invariant forall k :: 0 <= k < n ==> nodes[k + 1] == Leaf(ps[k])
    {
      var newNode := Node(Wrap(substrings[n]), []);
      nodes := nodes + [newNode];
    }
    root := nodes[0];
    nodes := nodes[1..];

    for i := 0 to |nodes|
      invariant |nodes| == |ps|
      invariant forall k :: 0 <= k < i ==> nodes[k] == Node(ps[k], ChildrenOf(ps, k))
      invariant forall k :: i <= k < |nodes| ==> nodes[k] == Leaf(ps[k])
    {
      var children := LaterMatches(nodes, i, ps);
      nodes := nodes[i := Node(nodes[i].pattern, children)];
    }
    root := Node(root.pattern, nodes);
  }

  /**
   * The inner loop of `build_tree`: clones of the nodes after `i` whose pattern
   * contains the pattern of node `i`. Those nodes are still leaves at this point.
   */
  method LaterMatches(nodes: seq<Node>, i: nat, ghost ps: seq<string>) returns (children: seq<Node>)
    requires i < |nodes| == |ps| && nodes[i].pattern == ps[i]
    requires forall k :: i < k < |nodes| ==> nodes[k] == Leaf(ps[k])
    ensures children == ChildrenOf(ps, i)
  {
    children := [];
    for j := i + 1 to |nodes|
      invariant children == Clones(ps, MatchIndices(ps, i, i + 1, j))
    {
      if Contains(nodes[j].pattern, nodes[i].pattern) {
        children := children + [nodes[j]];
      }
    }
  }

  /** The children of a node: the later nodes whose pattern contains its own, and only those. */
  lemma ChildrenOfMembers(ps: seq<string>, k: nat, c: Node)
    requires k < |ps|
    ensures c in ChildrenOf(ps, k) <==>
      exists j :: k < j < |ps| && Contains(ps[j], ps[k]) && c == Leaf(ps[j])
  {
    if c in ChildrenOf(ps, k) {
      var j := ChildIsLaterMatch(ps, k, c);
    }
    if exists j :: k < j < |ps| && Contains(ps[j], ps[k]) && c == Leaf(ps[j]) {
      var j :| k < j < |ps| && Contains(ps[j], ps[k]) && c == Leaf(ps[j]);
      LaterMatchIsChild(ps, k, j);
    }
  }

  /** A child of node `k` is the clone of some later node `j` whose pattern contains node `k`'s. */
  lemma ChildIsLaterMatch(ps: seq<string>, k: nat, c: Node) returns (j: nat)
    requires k < |ps| && c in ChildrenOf(ps, k)
    ensures k < j < |ps| && Contains(ps[j], ps[k]) && c == Leaf(ps[j])
  {
    var idx := MatchIndices(ps, k, k + 1, |ps|);
    var m :| 0 <= m < |idx| && ChildrenOf(ps, k)[m] == c;
    j := idx[m];
  }

  /** The clone of every later node `j` whose pattern contains node `k`'s is a child of node `k`. */
  lemma LaterMatchIsChild(ps: seq<string>, k: nat, j: nat)
    requires k < j < |ps| && Contains(ps[j], ps[k])
    ensures Leaf(ps[j]) in ChildrenOf(ps, k)
  {
    var idx := MatchIndices(ps, k, k + 1, |ps|);
    MatchIndicesComplete(ps, k, k + 1, |ps|, j);
    var m :| 0 <= m < |idx| && idx[m] == j;
    assert ChildrenOf(ps, k)[m] == Leaf(ps[j]);
  }

  /** Height of a tree: a leaf has height 0. */
  function Height(n: Node): (h: nat)
    decreases n, 1
  {
    HeightBelow(n, |n.children|)
  }

  /** One more than the greatest height among the first `count` children of `n`, or 0. */
  function HeightBelow(n: Node, count: nat): (h: nat)
    requires count <= |n.children|
    ensures count > 0 ==> h >= 1
    ensures forall m :: 0 <= m < count ==> Height(n.children[m]) < h
    decreases n, 0, count
  {
    if count == 0 then 0
    else
      var h := Height(n.children[count - 1]) + 1;
      var rest := HeightBelow(n, count - 1);
      if h > rest then h else rest
  }

  /** A bound on the children's heights bounds the height of the node. */
  lemma {:induction false} HeightBelowBound(n: Node, count: nat, bound: nat)
    requires count <= |n.children|
    requires forall m :: 0 <= m < count ==> Height(n.children[m]) < bound
    ensures HeightBelow(n, count) <= bound
  {
    if count > 0 {
      HeightBelowBound(n, count - 1, bound);
    }
  }

  /** Every tree that satisfies `build_tree`'s postcondition is at most two levels deep. */
  lemma BuiltTreeHeight(substrings: seq<string>, root: Node)
    requires BuiltFrom(substrings, root)
    ensures Height(root) <= 2
    ensures substrings != [] ==> Height(root) >= 1
  {
    var ps := Formatted(substrings);
    forall k | 0 <= k < |root.children| ensures Height(root.children[k]) < 2 {
      var child := root.children[k];
      forall m | 0 <= m < |child.children| ensures Height(child.children[m]) < 1 {
        assert child.children[m].children == [];
      }
      HeightBelowBound(child, |child.children|, 1);
    }
    HeightBelowBound(root, |root.children|, 2);
  }

  /** The promise fixes the tree: building twice from the same list gives the same tree. */
  lemma BuiltTreeUnique(substrings: seq<string>, r1: Node, r2: Node)
    requires BuiltFrom(substrings, r1) && BuiltFrom(substrings, r2)
    ensures r1 == r2
  {
    assert r1.children == r2.children by {
      forall k | 0 <= k < |substrings| ensures r1.children[k] == r2.children[k] {
        assert r1.children[k].pattern == r2.children[k].pattern;
        assert r1.children[k].children == r2.children[k].children;
      }
    }
  }

  /**
   * The containment check on wrapped patterns only ever succeeds for equal
   * substrings: the escaped text holds no `.*`, so the wrapper of the inner
   * pattern must line up with the wrapper of the outer one.
   */
  lemma WrappedContainment(a: string, b: string)
    ensures Contains(Wrap(b), Wrap(a)) <==> a == b
  {
    if a == b {
      assert OccursAt(Wrap(b), Wrap(a), 0);
    } else if Contains(Wrap(b), Wrap(a)) {
      var k: nat :| OccursAt(Wrap(b), Wrap(a), k);
      WrappedOccurrence(a, b, k);
    }
  }

  /** An occurrence of `Wrap(a)` inside `Wrap(b)` forces `a == b`. */
  lemma WrappedOccurrence(a: string, b: string, k: nat)
    requires OccursAt(Wrap(b), Wrap(a), k)
    ensures a == b
  {
    var ea, eb := Escape(a), Escape(b);
    var pa, pb := Wrap(a), Wrap(b);
    assert pb[k..k + |pa|] == pa;
    assert pa[0] == '.' && pa[1] == '*';
    assert pa[|ea| + 2] == '.' && pa[|ea| + 3] == '*';
    assert pb[k] == pa[0] && pb[k + 1] == pa[1];
    assert pb[k + |ea| + 2] == pa[|ea| + 2] && pb[k + |ea| + 3] == pa[|ea| + 3];
    WildcardsOfWrap(b, k);
    WildcardsOfWrap(b, k + |ea| + 2);
    assert k == 0 && |ea| == |eb|;
    assert pa[2..2 + |ea|] == ea;
    assert pb[2..2 + |eb|] == eb;
    assert pb[2..2 + |ea|] == pa[2..2 + |ea|];
    EscapeInjective(a, b);
  }

  /** In a wrapped pattern the wildcard occurs only as the two wrappers. */
  lemma WildcardsOfWrap(b: string, q: nat)
    requires WildcardAt(Wrap(b), q)
    ensures q == 0 || q == |Escape(b)| + 2
  {
    var eb := Escape(b);
    var p := Wrap(b);
    if 2 <= q && q + 1 < |eb| + 2 {
      assert p[q] == eb[q - 2] && p[q + 1] == eb[q - 1];
      EscapeHasNoWildcard(b, q - 2);
      assert WildcardAt(eb, q - 2);
    }
  }

  /** On distinct substrings no node gets children: every child of the root is a leaf. */
  lemma DistinctSubstringsGiveLeaves(substrings: seq<string>, k: nat)
    requires Distinct(substrings) && k < |substrings|
    ensures ChildrenOf(Formatted(substrings), k) == []
  {
    var ps := Formatted(substrings);
    var idx := MatchIndices(ps, k, k + 1, |ps|);
    if idx != [] {
      var j := idx[0];
      assert Contains(Wrap(substrings[j]), Wrap(substrings[k]));
      WrappedContainment(substrings[k], substrings[j]);
    }
  }
}
