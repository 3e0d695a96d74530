/**
 * Text: literal substring containment over strings modelled as `seq<char>`,
 * standing in for Rust's `str::contains` with a `&str` needle.
 */
module Text {

  /** `t` occurs in `s` starting at offset `k`. */
  predicate OccursAt(s: string, t: string, k: nat)
  {
    k + |t| <= |s| && s[k..k + |t|] == t
  }

  /** The declarative meaning of containment: some offset of `s` starts a copy of `t`. */
  ghost predicate IsSubstring(t: string, s: string)
  {
    exists k: nat :: OccursAt(s, t, k)
  }

  /** `s.contains(t)`: a left-to-right scan of the offsets of `s`. */
  function Contains(s: string, t: string): (b: bool)
    ensures b <==> IsSubstring(t, s)
    decreases |s|
  {
    if |t| > |s| then
      assert forall k: nat :: !OccursAt(s, t, k);
      false
    else if s[..|t|] == t then
      assert OccursAt(s, t, 0);
      true
    else
      var rest := Contains(s[1..], t);
      ShiftOccurrence(s, t);
      rest
  }

  /** Occurrences in `s` past offset 0 are exactly the occurrences in `s[1..]`, shifted by one. */
  lemma ShiftOccurrence(s: string, t: string)
    requires |t| <= |s| && s[..|t|] != t
    ensures IsSubstring(t, s) <==> IsSubstring(t, s[1..])
  {
    if IsSubstring(t, s) {
      var k: nat :| OccursAt(s, t, k);
      assert k != 0;
      assert s[1..][k - 1..k - 1 + |t|] == s[k..k + |t|];
      assert OccursAt(s[1..], t, k - 1);
    }
    if IsSubstring(t, s[1..]) {
      var k: nat :| OccursAt(s[1..], t, k);
      assert s[1..][k..k + |t|] == s[k + 1..k + 1 + |t|];
      assert OccursAt(s, t, k + 1);
    }
  }

  /** Every slice of a string is contained in it. */
  lemma SliceIsSubstring(s: string, i: nat, j: nat)
    requires i <= j <= |s|
    ensures Contains(s, s[i..j])
  {
    assert OccursAt(s, s[i..j], i);
  }

  /** No element of `s` is repeated. */
  predicate Distinct<T(==)>(s: seq<T>)
  {
    forall p, q :: 0 <= p < q < |s| ==> s[p] != s[q]
  }

  /** Distinctness is a property of the multiset of elements: every multiplicity is at most one. */
  lemma {:induction false} DistinctByMultiplicity<T>(s: seq<T>)
    ensures Distinct(s) <==> forall x :: multiset(s)[x] <= 1
  {
    if s != [] {
      var h, rest := s[0], s[1..];
      assert s == [h] + rest;
      DistinctByMultiplicity(rest);
      assert multiset(s) == multiset{h} + multiset(rest);
      if Distinct(s) {
        assert Distinct(rest) by {
          forall p, q | 0 <= p < q < |rest| ensures rest[p] != rest[q] {
            assert rest[p] == s[p + 1] && rest[q] == s[q + 1];
          }
        }
        assert h !in rest;
      }
      if forall x :: multiset(s)[x] <= 1 {
        assert forall x :: multiset(rest)[x] <= multiset(s)[x];
        assert multiset(rest)[h] == 0;
        forall p, q | 0 <= p < q < |s| ensures s[p] != s[q] {
          if p == 0 {
            assert s[q] == rest[q - 1];
          } else {
            assert s[p] == rest[p - 1] && s[q] == rest[q - 1];
          }
        }
      }
    }
  }

  /** Two sequences with the same multiset are distinct together. */
  lemma PermutationKeepsDistinct<T>(s: seq<T>, t: seq<T>)
    requires multiset(s) == multiset(t) && Distinct(s)
    ensures Distinct(t)
  {
    DistinctByMultiplicity(s);
    DistinctByMultiplicity(t);
  }

  /** A sequence without repetitions has as many elements as its set of elements. */
  lemma {:induction false} DistinctCardinality<T>(s: seq<T>)
    requires Distinct(s)
    ensures |set x | x in s| == |s|
  {
    if s != [] {
      var init := s[..|s| - 1];
      assert Distinct(init);
      DistinctCardinality(init);
      assert s == init + [s[|s| - 1]];
      assert (set x | x in s) == (set x | x in init) + {s[|s| - 1]};
    }
  }
}
