/**
 * Characters and strings as the intake form's JavaScript sees them:
 * the character classes its regular expressions use, the filter that
 * `String.prototype.replace(/[^...]/g, '')` performs, and the ordering
 * of the string `>` operator.
 */
module Text {

  /** `[0-9]`, which is also what `\d` means in a JavaScript regular expression. */
  predicate IsDigit(c: char) {
    '0' <= c <= '9'
  }

  /** `[a-zA-Z]`. */
  predicate IsAsciiLetter(c: char) {
    'a' <= c <= 'z' || 'A' <= c <= 'Z'
  }

  /**
   * `\s` in a JavaScript regular expression: the ECMAScript white space
   * and line terminator characters.
   */
  predicate IsJsWhitespace(c: char) {
    c == ' ' || c == '\t' || c == '\n' || c == '\U{B}' || c == '\U{C}' || c == '\r'
    || c == '\U{A0}' || c == '\U{1680}' || ('\U{2000}' <= c <= '\U{200A}')
    || c == '\U{2028}' || c == '\U{2029}' || c == '\U{202F}' || c == '\U{205F}'
    || c == '\U{3000}' || c == '\U{FEFF}'
  }

  /** `[a-zA-Z\s]`: what the name field keeps. */
  predicate IsNameChar(c: char) {
    IsAsciiLetter(c) || IsJsWhitespace(c)
  }

  /** Every character of `s` is in the class `p`. */
  predicate All(s: string, p: char -> bool) {
    forall i :: 0 <= i < |s| ==> p(s[i])
  }

  /**
   * `s.replace(/[^P]/g, '')` for a character class P given as `p`: the
   * characters of `s` that are in the class, in their original order.
   */
  function Keep(s: string, p: char -> bool): (r: string)
    ensures |r| <= |s|
    ensures All(r, p)
  {
    if s == [] then [] else (if p(s[0]) then [s[0]] else []) + Keep(s[1..], p)
  }

  /** `a` can be obtained from `b` by deleting characters (greedy matching decides it). */
  predicate IsSubsequence(a: string, b: string)
    decreases |b|
  {
    if a == [] then true
    else if b == [] then false
    else if a[0] == b[0] then IsSubsequence(a[1..], b[1..])
    else IsSubsequence(a, b[1..])
  }

  /** The filter keeps the order of what it keeps. */
  lemma {:induction false} KeepIsSubsequence(s: string, p: char -> bool)
    ensures IsSubsequence(Keep(s, p), s)
  {
    if s != [] {
      KeepIsSubsequence(s[1..], p);
      var k := Keep(s[1..], p);
      if !p(s[0]) {
        assert Keep(s, p) == k;
        if k != [] {
          assert p(k[0]) && k[0] != s[0];
        }
      }
    }
  }

  /**
   * The filter removes exactly the characters outside the class: every
   * character in the class occurs as often as in the input, every other
   * character not at all.
   */
  lemma {:induction false} KeepCounts(s: string, p: char -> bool, c: char)
    ensures multiset(Keep(s, p))[c] == if p(c) then multiset(s)[c] else 0
  {
    if s != [] {
      KeepCounts(s[1..], p, c);
      assert s == [s[0]] + s[1..];
      assert multiset(s) == multiset([s[0]]) + multiset(s[1..]);
      var head := if p(s[0]) then [s[0]] else [];
      assert multiset(Keep(s, p)) == multiset(head) + multiset(Keep(s[1..], p));
    }
  }

  /** Filtering a text piece by piece gives the same result as filtering it whole. */
  lemma {:induction false} KeepAppend(a: string, b: string, p: char -> bool)
    ensures Keep(a + b, p) == Keep(a, p) + Keep(b, p)
  {
    if a != [] {
      assert (a + b)[1..] == a[1..] + b;
      KeepAppend(a[1..], b, p);
    } else {
      assert a + b == b;
    }
  }

  /** A text already in the class passes the filter unchanged. */
  lemma {:induction false} KeepClean(s: string, p: char -> bool)
    requires All(s, p)
    ensures Keep(s, p) == s
  {
    if s != [] {
      KeepClean(s[1..], p);
    }
  }

  /** Filtering twice is filtering once. */
  lemma KeepIdempotent(s: string, p: char -> bool)
    ensures Keep(Keep(s, p), p) == Keep(s, p)
  {
    KeepClean(Keep(s, p), p);
  }

  /**
   * JavaScript's `a < b` on strings: `a` is a proper prefix of `b`, or
   * at the first position where they differ the character of `a` is the
   * smaller one.
   */
  predicate StrLess(a: string, b: string) {
    if b == [] then false
    else if a == [] then true
    else if a[0] != b[0] then a[0] < b[0]
    else StrLess(a[1..], b[1..])
  }

  /** No string is smaller than itself, so `x > x` is false. */
  lemma {:induction false} StrLessIrreflexive(a: string)
    ensures !StrLess(a, a)
  {
    if a != [] {
      StrLessIrreflexive(a[1..]);
    }
  }

  /** Two different strings of the same length are ordered one way or the other. */
  lemma {:induction false} StrLessTotal(a: string, b: string)
    requires |a| == |b|
    ensures a == b || StrLess(a, b) || StrLess(b, a)
  {
    if a != [] && a[0] == b[0] {
      StrLessTotal(a[1..], b[1..]);
      if a[1..] == b[1..] {
        assert a == [a[0]] + a[1..] && b == [b[0]] + b[1..];
      }
    }
  }

  /**
   * Comparing two strings whose first parts have the same length compares
   * the first parts, and only if those are equal the rest.
   */
  lemma {:induction false} StrLessConcat(x1: string, x2: string, y1: string, y2: string)
    requires |x1| == |y1|
    ensures StrLess(x1 + x2, y1 + y2) <==> StrLess(x1, y1) || (x1 == y1 && StrLess(x2, y2))
  {
    if x1 == [] {
      assert x1 + x2 == x2 && y1 + y2 == y2;
    } else {
      assert (x1 + x2)[1..] == x1[1..] + x2;
      assert (y1 + y2)[1..] == y1[1..] + y2;
      StrLessConcat(x1[1..], x2, y1[1..], y2);
      if x1[0] == y1[0] && x1[1..] == y1[1..] {
        assert x1 == [x1[0]] + x1[1..] && y1 == [y1[0]] + y1[1..];
      }
    }
  }
}
