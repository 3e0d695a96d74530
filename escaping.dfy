/**
 * Escaping: a concrete stand-in for `regex::escape`. Every metacharacter of the
 * pattern syntax is prefixed with a backslash; every other character is kept.
 */
module Escaping {

  /** The characters with a special meaning in the pattern syntax: `\.+*?()|[]{}^$#&-~`. */
  predicate IsMeta(c: char)
  {
    c == '\\' || c == '.' || c == '+' || c == '*' || c == '?' || c == '(' || c == ')' ||
    c == '|' || c == '[' || c == ']' || c == '{' || c == '}' || c == '^' || c == '$' ||
    c == '#' || c == '&' || c == '-' || c == '~'
  }

  /** The escaped form of `s`: each metacharacter `c` becomes `\c`. */
  function Escape(s: string): (e: string)
    ensures |s| <= |e| <= 2 * |s|
  {
    if s == [] then []
    else (if IsMeta(s[0]) then ['\\', s[0]] else [s[0]]) + Escape(s[1..])
  }

  /** Reads an escaped string back: a backslash makes the next character literal. */
  function Unescape(e: string): (s: string)
  {
    if e == [] then []
    else if e[0] == '\\' && |e| >= 2 then [e[1]] + Unescape(e[2..])
    else [e[0]] + Unescape(e[1..])
  }

  /** Escaping loses nothing: reading the escaped form back gives the original text. */
  lemma {:induction false} UnescapeEscape(s: string)
    ensures Unescape(Escape(s)) == s
  {
    if s != [] {
      UnescapeEscape(s[1..]);
      var e := Escape(s);
      if IsMeta(s[0]) {
        assert e == ['\\', s[0]] + Escape(s[1..]);
        assert e[2..] == Escape(s[1..]);
      } else {
        assert e == [s[0]] + Escape(s[1..]);
        assert e[0] != '\\';
        assert e[1..] == Escape(s[1..]);
      }
    }
  }

  /** Different texts have different escaped forms. */
  lemma EscapeInjective(a: string, b: string)
    requires Escape(a) == Escape(b)
    ensures a == b
  {
    UnescapeEscape(a);
    UnescapeEscape(b);
  }

  /** Text free of metacharacters is its own escaped form. */
  lemma {:induction false} EscapePlainText(s: string)
    requires forall k :: 0 <= k < |s| ==> !IsMeta(s[k])
    ensures Escape(s) == s
  {
    if s != [] {
      EscapePlainText(s[1..]);
    }
  }

  /** An escaped string never starts with a `*`: a star is always preceded by its backslash. */
  lemma EscapeHeadIsNotStar(s: string)
    requires s != []
    ensures Escape(s)[0] != '*'
  {
  }

  /** The wildcard `.*` at offset `q` of `p`. */
  predicate WildcardAt(p: string, q: nat)
  {
    q + 1 < |p| && p[q] == '.' && p[q + 1] == '*'
  }

  /** An escaped string never contains the wildcard `.*`, so it cannot match more than its text. */
  lemma {:induction false} EscapeHasNoWildcard(s: string, q: nat)
    ensures !WildcardAt(Escape(s), q)
  {
    if s != [] {
      var head := if IsMeta(s[0]) then ['\\', s[0]] else [s[0]];
      var tail := Escape(s[1..]);
      assert Escape(s) == head + tail;
      assert IsMeta('.') && IsMeta('*');
      if q + 1 < |head| {
        // only the pair `\c` lies inside the head
      } else if q + 1 == |head| {
        // the last character of the head followed by the first of the tail
        if tail != [] {
          EscapeHeadIsNotStar(s[1..]);
        }
      } else {
        EscapeHasNoWildcard(s[1..], q - |head|);
        assert WildcardAt(Escape(s), q) ==> WildcardAt(tail, q - |head|);
      }
    }
  }
}
