/**
 * The form's e-mail check, the regular expression
 * `^[a-zA-Z0-9._%+-]+@[a-zA-Z0-9.-]+\.[a-zA-Z]{2,}$`.
 *
 * `MatchesPattern` is the language of the expression, stated as "some split
 * of the string into the four parts exists"; `IsValidEmail` decides it
 * by locating the `@` and the last `.`; `IsValidEmailIsPattern` proves
 * the two agree on every string.
 */
module EmailSyntax {
  import opened Text

  /** `[a-zA-Z0-9._%+-]`: characters of the local part. */
  predicate IsLocalChar(c: char) {
    IsAsciiLetter(c) || IsDigit(c) || c == '.' || c == '_' || c == '%' || c == '+' || c == '-'
  }

  /** `[a-zA-Z0-9.-]`: characters of the domain before the final dot. */
  predicate IsDomainChar(c: char) {
    IsAsciiLetter(c) || IsDigit(c) || c == '.' || c == '-'
  }

  /**
   * The regular language: `s` is a non-empty local part, `@` at index `at`,
   * a non-empty domain, `.` at index `dot`, then two or more letters up to
   * the end of the string.
   */
  predicate SplitAt(s: string, at: int, dot: int) {
    && 1 <= at && at + 2 <= dot && dot + 3 <= |s|
    && s[at] == '@' && s[dot] == '.'
    && All(s[..at], IsLocalChar)
    && All(s[at + 1..dot], IsDomainChar)
    && All(s[dot + 1..], IsAsciiLetter)
  }

  ghost predicate MatchesPattern(s: string) {
    exists at, dot :: SplitAt(s, at, dot)
  }

  /** Index of the first `c` in `s`, or `|s|` when there is none. */
  function IndexOf(s: string, c: char): (i: nat)
    ensures i <= |s|
    ensures i < |s| ==> s[i] == c
    ensures forall j :: 0 <= j < i ==> s[j] != c
  {
    if s == [] then 0
    else if s[0] == c then 0
    else 1 + IndexOf(s[1..], c)
  }

  /** Index of the last `c` in `s`, or -1 when there is none. */
  function LastIndexOf(s: string, c: char): (i: int)
    ensures -1 <= i < |s|
    ensures 0 <= i ==> s[i] == c
    ensures forall j :: i < j < |s| ==> s[j] != c
  {
    if s == [] then -1
    else if s[|s| - 1] == c then |s| - 1
    else LastIndexOf(s[..|s| - 1], c)
  }

  /**
   * `isValidEmail`: neither the local part nor the domain nor the top-level
   * part may hold an `@`, so the `@` must be the first one; the top-level
   * part holds no `.`, so the dot before it must be the last one. The
   * string is accepted when the split at those two places is one of the
   * language.
   */
  predicate IsValidEmail(s: string) {
    var at := IndexOf(s, '@');
    && at < |s|
    && SplitAt(s, at, at + 1 + LastIndexOf(s[at + 1..], '.'))
  }

  /** A string over a class that excludes `c` does not contain `c`. */
  lemma Excludes(s: string, p: char -> bool, c: char)
    requires All(s, p) && !p(c)
    ensures forall j :: 0 <= j < |s| ==> s[j] != c
  {
  }

  /** Any split of the language is the one the decision procedure finds. */
  lemma SplitIsFound(s: string, at: int, dot: int)
    requires SplitAt(s, at, dot)
    ensures IndexOf(s, '@') == at
    ensures LastIndexOf(s[at + 1..], '.') == dot - at - 1
    ensures IsValidEmail(s)
  {
    Excludes(s[..at], IsLocalChar, '@');
    assert IndexOf(s, '@') == at;
    var rest := s[at + 1..];
    var d := dot - at - 1;
    assert rest[d + 1..] == s[dot + 1..];
    Excludes(rest[d + 1..], IsAsciiLetter, '.');
    assert LastIndexOf(rest, '.') == d;
  }

  /** The decision procedure accepts exactly the strings of the regular language. */
  lemma IsValidEmailIsPattern(s: string)
    ensures IsValidEmail(s) <==> MatchesPattern(s)
  {
    if MatchesPattern(s) {
      var at, dot :| SplitAt(s, at, dot);
      SplitIsFound(s, at, dot);
    }
  }

  /**
   * Every accepted address holds exactly one `@`, and ends with a `.`
   * followed by at least two letters.
   */
  lemma ValidEmailShape(s: string)
    requires IsValidEmail(s)
    ensures exists at :: 0 <= at < |s| && s[at] == '@' && forall j :: 0 <= j < |s| && j != at ==> s[j] != '@'
    ensures exists dot :: 0 <= dot <= |s| - 3 && s[dot] == '.' && All(s[dot + 1..], IsAsciiLetter)
  {
    var at := IndexOf(s, '@');
    var dot := at + 1 + LastIndexOf(s[at + 1..], '.');
    forall j | 0 <= j < |s| && j != at ensures s[j] != '@' {
      if j < at {
        assert IsLocalChar(s[..at][j]);
      } else if j < dot {
        assert IsDomainChar(s[at + 1..dot][j - at - 1]);
      } else if j == dot {
        assert s[j] == '.';
      } else {
        assert IsAsciiLetter(s[dot + 1..][j - dot - 1]);
      }
    }
  }

  /** An ordinary address is accepted. */
  lemma AcceptedExample()
    ensures IsValidEmail("ada@example.com")
  {
    var s := "ada@example.com";
    assert s[..3] == "ada" && s[4..11] == "example" && s[12..] == "com";
    forall i | 0 <= i < 3 ensures IsLocalChar("ada"[i]) {
      assert i == 0 || i == 1 || i == 2;
    }
    forall i | 0 <= i < 7 ensures IsDomainChar("example"[i]) {
      assert i == 0 || i == 1 || i == 2 || i == 3 || i == 4 || i == 5 || i == 6;
    }
    forall i | 0 <= i < 3 ensures IsAsciiLetter("com"[i]) {
      assert i == 0 || i == 1 || i == 2;
    }
    SplitIsFound(s, 3, 11);
  }

  /** A string without `@` is rejected. */
  lemma RejectsMissingAt()
    ensures !IsValidEmail("not-an-email")
  {
    var i := IndexOf("not-an-email", '@');
    assert i == 0 || i == 1 || i == 2 || i == 3 || i == 4 || i == 5 || i == 6
      || i == 7 || i == 8 || i == 9 || i == 10 || i == 11 || i == 12;
    assert i == 12;
  }

  /** An empty local part is rejected. */
  lemma RejectsEmptyLocalPart()
    ensures !IsValidEmail("@example.com")
  {
    assert IndexOf("@example.com", '@') == 0;
  }

  /** A one-letter top-level part is rejected. */
  lemma RejectsShortTopLevel()
    ensures !IsValidEmail("ada@example.c")
  {
    var s := "ada@example.c";
    assert IndexOf(s, '@') == 3;
    assert s[4..] == "example.c";
    assert LastIndexOf("example.c", '.') == 7;
  }
}
