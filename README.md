# regex_generator core in Dafny

This project models the core of `regex_generator`, a small Rust library, and proves properties
of the model. Given sample strings, the library derives a tree of wildcard patterns in two
stages:

1. `find_common_substrings` lists every non-empty slice of the first sample that every sample
   contains. It removes duplicates through a hash set and returns the result longest first.
2. `build_tree` makes a root node with pattern `.*`. It adds one node per substring with
   pattern `.*` + escape(substring) + `.*`. Each node gets clones of every later node whose
   pattern contains its own. All nodes then become the root's children.

`generate_regex_tree` is the entry point. For an empty sample list it returns a node with an
empty pattern and no children. Otherwise it runs the two stages in order.

Modules (one file each):

- `Text` (`text.dfy`) gives Rust's `str::contains` a declarative meaning (some offset starts a
  copy of the needle) and holds the facts about repetition-free sequences that the extractor
  needs.
- `Escaping` (`escaping.dfy`) is a concrete `regex::escape`. It puts a backslash before each
  character of `\.+*?()|[]{}^$#&-~` and keeps every other character. `Unescape` reads the text
  back, and the round trip is proved.
- `CommonSubstrings` (`common_substrings.dfy`) is `find_common_substrings`. It is written as
  the source's nested `i`/`j` loops over a `set` variable. The set is drained into a sequence in
  an arbitrary order, which stands for hash-set iteration. The sequence is then sorted by length
  in an array, using an insertion sort, and reversed in place.
- `PatternTree` (`pattern_tree.dfy`) holds `Node` and `build_tree`. `Node` is a value
  datatype, so a Rust `clone()` is just the same value. `BuildTree` keeps the source's local
  vector as a `seq<Node>` variable. It pushes onto it, removes the root with `remove(0)`, and
  overwrites `nodes[i].children` in a nested loop.
- `RegexTree` (`regex_tree.dfy`) is `generate_regex_tree`, plus the sample inputs of the
  source's tests and three further sample inputs.

One consequence is proved on top of the source's behaviour. `build_tree` compares the wrapped
patterns, not the raw substrings. Escaped text never holds the wildcard `.*`, so
`Wrap(a)` occurs in `Wrap(b)` only when `a == b` (`PatternTree.WrappedContainment`). The
extractor never yields the same substring twice, so in a tree from `generate_regex_tree` every
child of the root is a leaf. `build_tree` can still create grandchildren, but only when its
input list repeats a substring.

## Model

| member | source | states |
|---|---|---|
| `Text.Contains` | src/lib.rs:49 | `s.contains(t)` is true exactly when some offset of `s` starts a copy of `t` |
| `Escaping.Escape` | src/lib.rs:80 | the escaped text is at least as long as the input and at most twice as long |
| `Escaping.UnescapeEscape` | src/lib.rs:80 | escaping loses nothing: unescaping the escaped text gives back the input |
| `Escaping.EscapeInjective` | src/lib.rs:80 | different substrings have different escaped forms |
| `Escaping.EscapePlainText` | src/lib.rs:80 | text without metacharacters is left unchanged |
| `Escaping.EscapeHasNoWildcard` | src/lib.rs:80 | escaped text never contains `.*`, so it stands only for its literal text |
| `CommonSubstrings.FindCommonSubstrings` | src/lib.rs:42-59 | the result holds exactly the non-empty slices of the first sample that every sample contains, each once, with lengths non-increasing |
| `CommonSubstrings.OrderByLength` | src/lib.rs:56-57 | sorting by length and reversing rearranges the collected vector so that lengths never increase |
| `CommonSubstrings.CommonSet` | src/lib.rs:43-53 | after the nested loops the set holds exactly the common substrings |
| `CommonSubstrings.Collect` | src/lib.rs:55 | draining the set gives each of its elements exactly once, in some order |
| `CommonSubstrings.SortByLength` | src/lib.rs:56 | after sorting, lengths are non-decreasing and the array is a permutation of its old contents |
| `CommonSubstrings.Reverse` | src/lib.rs:57 | element `k` ends up at the mirrored position, and the array is a permutation of its old contents |
| `PatternTree.MatchIndices` | src/lib.rs:90-93 | every listed index is in the scanned range, its pattern contains node `k`'s pattern, and the indices strictly increase |
| `PatternTree.MatchIndicesComplete` | src/lib.rs:90-93 | every index in the range whose pattern contains node `k`'s pattern is listed |
| `PatternTree.ChildrenOf` | src/lib.rs:88-95 | every child of a node is a leaf, because clones are taken before later nodes get children, and the last node has no children |
| `PatternTree.BuildTree` | src/lib.rs:70-100 | root pattern `.*`; one child per substring, in input order, with pattern `.*` + escape(s) + `.*`; child `k` holds clones of the later nodes whose pattern contains its own, in increasing index order; an empty list gives a root with no children |
| `PatternTree.LaterMatches` | src/lib.rs:89-94 | the inner loop collects exactly the clones that `ChildrenOf` describes, given that the later nodes are still leaves |
| `PatternTree.ChildrenOfMembers` | src/lib.rs:88-95 | a node is a child of node `k` if and only if it is a leaf clone of some later node `j > k` whose pattern contains node `k`'s pattern |
| `PatternTree.ChildIsLaterMatch` | src/lib.rs:90-93 | each child of node `k` is the clone of a later node whose pattern contains node `k`'s |
| `PatternTree.LaterMatchIsChild` | src/lib.rs:90-93 | the clone of each later node whose pattern contains node `k`'s is a child of node `k` |
| `PatternTree.BuiltTreeHeight` | src/lib.rs:88-98 | a tree that meets `build_tree`'s promise is at most two levels deep, and at least one level deep when there are substrings |
| `PatternTree.BuiltTreeUnique` | src/lib.rs:70-100 | two trees that both meet `build_tree`'s promise for the same list are equal, so building twice gives the same tree |
| `PatternTree.WrappedContainment` | src/lib.rs:80-91 | the pattern of substring `b` contains the pattern of substring `a` if and only if `a == b` |
| `PatternTree.DistinctSubstringsGiveLeaves` | src/lib.rs:88-95 | if no substring is repeated, no node gets children |
| `RegexTree.GenerateRegexTree` | src/lib.rs:21-31 | an empty sample list gives `Node("", [])`; otherwise the root is `.*`, with one leaf per common substring, longest first, each appearing once, and with a leaf `Wrap(t)` if and only if `t` is a common substring |
| `RegexTree.WrapInjective` | src/lib.rs:80 | different substrings get different node patterns |
| `RegexTree.HighlightedSpaceIsCommon` | src/lib.rs:160-167 | `"highlighted "` is a common substring of the three test samples |
| `RegexTree.HighlightedSubstrings` | src/lib.rs:160-167 | the extractor's result on the test samples contains `"highlighted "` |
| `RegexTree.HighlightedPattern` | src/lib.rs:80 | the node pattern for `"highlighted "` is `.*highlighted .*` |
| `RegexTree.HighlightedChild` | src/lib.rs:152-156 | a root whose leaves are exactly the common substrings of the test samples has a child `.*highlighted .*` |
| `RegexTree.HighlightedTree` | src/lib.rs:145-156 | on the test samples the root is `.*` and has a child with pattern `.*highlighted .*` |
| `RegexTree.DotIsEscaped` | src/lib.rs:80 | a shared `"a.b"` gets the node pattern `.*a\.b.*`, whose dot is escaped rather than a wildcard |
| `RegexTree.DisjointSamplesShareNothing` | src/lib.rs:46-53 | the samples `"x"` and `"y"` have no common substring |
| `RegexTree.DisjointSamplesTree` | src/lib.rs:21-31 | for the samples `"x"` and `"y"` the root is `.*` and has no children |
| `RegexTree.SubstringsOfAbc` | src/lib.rs:46-53 | with the single sample `"abc"`, the common substrings are exactly its six non-empty slices |
| `RegexTree.AbcListLength` | src/lib.rs:43-55 | a repetition-free list of those substrings has six entries |
| `RegexTree.SingleSampleSubstrings` | src/lib.rs:42-59 | the extractor returns six entries for the sample `"abc"` |
| `RegexTree.SingleSampleTree` | src/lib.rs:21-31 | for the sample `"abc"` the root is `.*` and has six children |

## Left out

- `tree_to_graph` and `add_children_to_graph` (src/lib.rs:111-135) build a `petgraph` graph, and `petgraph` is a foreign library. `test_tree_to_graph` also writes a file to disk.
- `Escaping.Escape` is not the `regex` crate's own `escape`. It uses the stated metacharacter set, which may differ from the crate's in either direction. `WrappedContainment` relies on `.` and `*` being escaped.
- The model does not interpret patterns as regular expressions. That escaped text matches only itself is stated through the `Unescape` round trip and the absence of `.*`, not through a matcher.
- Strings are sequences of characters. Rust slices `&str` by byte offset and panics at a non-character boundary (src/lib.rs:48). That panic is not modelled, and lengths count characters rather than bytes.
- Hash-set iteration order is an arbitrary choice (`:|`) in `Collect`. It follows that the order among substrings of equal length is unspecified. The stability of `sort_by_key` is therefore not stated, because it cannot be observed.
- A non-empty sample list is a precondition of `FindCommonSubstrings`. The Rust function indexes `strings[0]` and would panic on an empty list, and its only caller rules that case out.
- Time complexity is not modelled.
