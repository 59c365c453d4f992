/**
 * The character-level rules behind the `User` validations: Rails'
 * `blank?`/`present?` on strings, and the two format regexes
 * `\A\w+\z` (username) and `/.+@.+\..+/i` (email) under Ruby's regex
 * semantics.
 */
module Validators {

  /**
   * Ruby's `[[:space:]]`: the Unicode White_Space characters, which Rails'
   * `String#blank?` uses in `/\A[[:space:]]*\z/`.
   */
  predicate IsSpace(c: char) {
    '\U{9}' <= c <= '\U{D}' || c == ' ' || c == '\U{85}' || c == '\U{A0}'
    || c == '\U{1680}' || '\U{2000}' <= c <= '\U{200A}' || c == '\U{2028}' || c == '\U{2029}'
    || c == '\U{202F}' || c == '\U{205F}' || c == '\U{3000}'
  }

  /**
   * `String#blank?`: `empty?`, or a match of `/\A[[:space:]]*\z/`, read as
   * the regex reads it: the end of the string, or one white-space character
   * followed by a blank rest.
   */
  predicate IsBlank(s: string) {
    |s| == 0 || (IsSpace(s[0]) && IsBlank(s[1..]))
  }

  /** A blank string is one made of white space only. */
  lemma {:induction false} IsBlankAllSpace(s: string)
    ensures IsBlank(s) <==> forall i :: 0 <= i < |s| ==> IsSpace(s[i])
  {
    if |s| > 0 {
      IsBlankAllSpace(s[1..]);
      assert forall i :: 1 <= i < |s| ==> s[1..][i - 1] == s[i];
    }
  }

  /** `String#present?`: some character is not white space. */
  predicate IsPresent(s: string): (r: bool)
    ensures r <==> exists i :: 0 <= i < |s| && !IsSpace(s[i])
  {
    IsBlankAllSpace(s);
    !IsBlank(s)
  }

  /** Ruby's `\w`, which is ASCII-only: `[a-zA-Z0-9_]`. */
  predicate IsWordChar(c: char) {
    'a' <= c <= 'z' || 'A' <= c <= 'Z' || '0' <= c <= '9' || c == '_'
  }

  /** `length: { maximum: 40 }` on the username. */
  const UsernameMaxLength: nat := 40

  /**
   * `VALID_USERNAME = /\A\w+\z/`, read as the regex reads it: one word
   * character, then either the end of the string or `\w+` again.
   */
  predicate UsernameFormat(s: string): (r: bool)
    ensures r <==> |s| >= 1 && forall i :: 0 <= i < |s| ==> IsWordChar(s[i])
  {
    |s| >= 1 && IsWordChar(s[0]) && (|s| == 1 || UsernameFormat(s[1..]))
  }

  /**
   * `VALID_EMAIL = /.+@.+\..+/i`, unanchored: some newline-free run of the
   * string is one or more characters, `@`, one or more characters, `.`,
   * one or more characters. Ruby's `.` matches anything but `"\n"`; `/i`
   * changes nothing since the pattern has no letters. The first and last
   * `.+` can always be shortened to one character, so a match exists exactly
   * when there are an `@` at `at` and a `.` at `dot` with the run
   * `s[at-1..dot+2]` free of newlines; `EmailFormatIsRegex` proves this.
   */
  predicate EmailFormat(s: string) {
    exists at, dot | 0 < at < |s| && at + 1 < dot < |s| - 1 :: MatchesAt(s, at, dot)
  }

  /** The match of `EmailFormat` with its `@` at `at` and its `.` at `dot`. */
  predicate MatchesAt(s: string, at: int, dot: int) {
    0 < at < |s| && at + 1 < dot < |s| - 1
    && s[at] == '@' && s[dot] == '.' && '\n' !in s[at - 1..dot + 2]
  }

  /** A white-space character is never a word character, so a `\w+` string is present. */
  lemma UsernameFormatIsPresent(s: string)
    ensures UsernameFormat(s) ==> IsPresent(s)
  {
    if UsernameFormat(s) {
      assert !IsSpace(s[0]);
    }
  }

  /** An email that has the format is present: its `@` is not white space. */
  lemma EmailFormatIsPresent(s: string)
    ensures EmailFormat(s) ==> IsPresent(s)
  {
    if EmailFormat(s) {
      var at: int, dot: int :| MatchesAt(s, at, dot);
      assert MatchesAt(s, at, dot);
      assert !IsSpace(s[at]);
    }
  }

  /**
   * `EmailFormat` is the language of the regex: some run `s[i..j]` with no
   * newline is a non-empty prefix, `@` at `at`, a non-empty middle, `.` at
   * `dot`, and a non-empty suffix.
   */
  lemma EmailFormatIsRegex(s: string)
    ensures EmailFormat(s) <==>
      exists i, at, dot, j | 0 <= i < at && at + 1 < dot && dot + 1 < j <= |s| ::
        s[at] == '@' && s[dot] == '.' && '\n' !in s[i..j]
  {
    if EmailFormat(s) {
      var at: int, dot: int :| MatchesAt(s, at, dot);
      assert MatchesAt(s, at, dot);
      var i, j := at - 1, dot + 2;
      assert 0 <= i < at && at + 1 < dot && dot + 1 < j <= |s|;
      assert s[at] == '@' && s[dot] == '.' && '\n' !in s[i..j];
    }
    if exists i, at, dot, j | 0 <= i < at && at + 1 < dot && dot + 1 < j <= |s| ::
         s[at] == '@' && s[dot] == '.' && '\n' !in s[i..j] {
      var i: int, at: int, dot: int, j: int :| 0 <= i < at && at + 1 < dot && dot + 1 < j <= |s| &&
        s[at] == '@' && s[dot] == '.' && '\n' !in s[i..j];
      assert MatchesAt(s, at, dot);
    }
  }

  /** The pattern is unanchored: surrounding text never removes a match. */
  lemma EmailFormatUnanchored(p: string, s: string, q: string)
    requires EmailFormat(s)
    ensures EmailFormat(p + s + q)
  {
    var at: int, dot: int :| MatchesAt(s, at, dot);
    assert MatchesAt(s, at, dot);
    var t := p + s + q;
    assert t[at + |p| - 1..dot + |p| + 2] == s[at - 1..dot + 2];
    assert MatchesAt(t, at + |p|, dot + |p|);
  }

  /** A match that ends before the newline is a match in the first line. */
  lemma MatchInFirstLine(a: string, b: string, at: int, dot: int)
    requires MatchesAt(a + "\n" + b, at, dot) && dot + 1 < |a|
    ensures MatchesAt(a, at, dot)
  {
    var t := a + "\n" + b;
    assert a[at - 1..dot + 2] == t[at - 1..dot + 2];
  }

  /** A match that reaches the newline's index lies wholly in the second line. */
  lemma MatchInSecondLine(a: string, b: string, at: int, dot: int)
    requires MatchesAt(a + "\n" + b, at, dot) && dot + 1 >= |a|
    ensures MatchesAt(b, at - |a| - 1, dot - |a| - 1)
  {
    var t := a + "\n" + b;
    assert t[|a|] == '\n';
    var off := |a| + 1;
    assert b[at - off - 1..dot - off + 2] == t[at - 1..dot + 2];
  }

  /** A match never spans a newline: the string matches exactly when one of its lines does. */
  lemma EmailFormatByLine(a: string, b: string)
    ensures EmailFormat(a + "\n" + b) <==> EmailFormat(a) || EmailFormat(b)
  {
    var t := a + "\n" + b;
    if EmailFormat(a) {
      EmailFormatUnanchored([], a, "\n" + b);
      assert [] + a + ("\n" + b) == t;
    }
    if EmailFormat(b) {
      EmailFormatUnanchored(a + "\n", b, []);
      assert a + "\n" + b + [] == t;
    }
    if EmailFormat(t) {
      var at: int, dot: int :| MatchesAt(t, at, dot);
      assert MatchesAt(t, at, dot);
      if dot + 1 < |a| {
        MatchInFirstLine(a, b, at, dot);
      } else {
        MatchInSecondLine(a, b, at, dot);
      }
    }
  }
}
