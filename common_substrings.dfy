/**
 * CommonSubstrings: `find_common_substrings`. Every non-empty slice of the first
 * sample that every sample contains is collected into a set; the set is then
 * drained into a vector, sorted by length and reversed, so that the longest
 * substrings come first.
 */
module CommonSubstrings {
  import opened Text

  /** `strings.iter().all(|s| s.contains(t))`. */
  predicate InAll(strings: seq<string>, t: string)
  {
    forall s :: s in strings ==> Contains(s, t)
  }

  /** A common substring: non-empty, a slice of the first sample, and contained in every sample. */
  ghost predicate IsCommonSubstring(strings: seq<string>, t: string)
  {
    |strings| > 0 && t != [] && IsSubstring(t, strings[0]) &&
    forall s :: s in strings ==> IsSubstring(t, s)
  }

  /** Lengths never increase along `r`. */
  ghost predicate LongestFirst(r: seq<string>)
  {
    forall p, q :: 0 <= p < q < |r| ==> |r[p]| >= |r[q]|
  }

  /**
   * `find_common_substrings`: exactly the common substrings, each once, longest first.
   * The order among substrings of equal length is not specified.
   */
  method FindCommonSubstrings(strings: seq<string>) returns (r: seq<string>)
    requires |strings| > 0
    ensures forall t :: t in r <==> IsCommonSubstring(strings, t)
    ensures Distinct(r)
    ensures LongestFirst(r)
  {
    var common := CommonSet(strings);
    var collected := Collect(common);
    r := OrderByLength(collected);
    PermutationKeepsDistinct(collected, r);
    assert forall t :: t in r <==> t in multiset(r);
  }

  /**
   * The end of `find_common_substrings`: the collected vector sorted by length and
   * then reversed is a rearrangement of it with the longest strings first.
   */
  method OrderByLength(collected: seq<string>) returns (r: seq<string>)
    ensures multiset(r) == multiset(collected)
    ensures LongestFirst(r)
  {
    var a := new string[|collected|](k requires 0 <= k < |collected| => collected[k]);
    assert a[..] == collected;
    SortByLength(a);
    ghost var sorted := a[..];
    Reverse(a);
    r := a[..];
    assert forall p :: 0 <= p < |r| ==> r[p] == sorted[|r| - 1 - p];
  }

  /**
   * The nested loops of `find_common_substrings`: every slice `first[i..j]` that all
   * samples contain goes into the set, so the set holds exactly the common substrings.
   */
  method CommonSet(strings: seq<string>) returns (common: set<string>)
    requires |strings| > 0
    ensures forall t :: t in common <==> IsCommonSubstring(strings, t)
  {
    common := {};
    var first := strings[0];
    for i := 0 to |first|
      invariant forall t :: t in common ==> IsCommonSubstring(strings, t)
      invariant forall a, b :: 0 <= a < i && a < b <= |first| && InAll(strings, first[a..b]) ==>
        first[a..b] in common
    {
      for j := i + 1 to |first| + 1
        invariant forall t :: t in common ==> IsCommonSubstring(strings, t)
        invariant forall a, b :: 0 <= a < i && a < b <= |first| && InAll(strings, first[a..b]) ==>
          first[a..b] in common
        invariant forall b :: i < b < j && InAll(strings, first[i..b]) ==> first[i..b] in common
      {
        var substring := first[i..j];
        if InAll(strings, substring) {
          SliceIsSubstring(first, i, j);
          common := common + {substring};
        }
      }
    }
    forall t | IsCommonSubstring(strings, t) ensures t in common {
      var k: nat :| OccursAt(first, t, k);
      assert first[k..k + |t|] == t;
    }
  }

  /** `common_substrings.into_iter().collect()`: the set's elements in some order, each once. */
  method Collect(common: set<string>) returns (v: seq<string>)
    ensures forall t :: t in v <==> t in common
    ensures Distinct(v)
  {
    var rest := common;
    v := [];
    while rest != {}
      invariant rest <= common
      invariant forall t :: t in v <==> t in common && t !in rest
      invariant Distinct(v)
      decreases |rest|
    {
      var t :| t in rest;
      v := v + [t];
      rest := rest - {t};
    }
  }

  method Swap(a: array<string>, p: nat, q: nat)
    requires p < a.Length && q < a.Length
    modifies a
    ensures a[p] == old(a[q]) && a[q] == old(a[p])
    ensures forall m :: 0 <= m < a.Length && m != p && m != q ==> a[m] == old(a[m])
    ensures multiset(a[..]) == old(multiset(a[..]))
  {
    a[p], a[q] := a[q], a[p];
  }

  /** `sort_by_key(|s| s.len())`: an insertion sort by length, shortest first. */
  method SortByLength(a: array<string>)
    modifies a
    ensures forall p, q :: 0 <= p < q < a.Length ==> |a[p]| <= |a[q]|
    ensures multiset(a[..]) == old(multiset(a[..]))
  {
    for i := 0 to a.Length
      invariant forall p, q :: 0 <= p < q < i ==> |a[p]| <= |a[q]|
      invariant multiset(a[..]) == old(multiset(a[..]))
    {
      var j := i;
      while j > 0 && |a[j - 1]| > |a[j]|
        invariant 0 <= j <= i
        invariant forall p, q :: 0 <= p < q <= i && p != j && q != j ==> |a[p]| <= |a[q]|
        invariant forall q :: j < q <= i ==> |a[j]| < |a[q]|
        invariant multiset(a[..]) == old(multiset(a[..]))
      {
        Swap(a, j - 1, j);
        j := j - 1;
      }
    }
  }

  /** `reverse()`: the element at `k` moves to the mirrored position. */
  method Reverse(a: array<string>)
    modifies a
    ensures forall k :: 0 <= k < a.Length ==> a[k] == old(a[a.Length - 1 - k])
    ensures multiset(a[..]) == old(multiset(a[..]))
  {
    var lo, hi := 0, a.Length;
    while lo + 1 < hi
      invariant 0 <= lo <= hi <= a.Length && lo + hi == a.Length
      invariant forall k :: 0 <= k < lo || hi <= k < a.Length ==> a[k] == old(a[a.Length - 1 - k])
      invariant forall k :: lo <= k < hi ==> a[k] == old(a[k])
      invariant multiset(a[..]) == old(multiset(a[..]))
    {
      Swap(a, lo, hi - 1);
      lo, hi := lo + 1, hi - 1;
    }
  }
}
