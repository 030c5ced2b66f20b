/** `validateEmail`: the test of `/^[^\s@]+@[^\s@]+\.[^\s@]+$/`, written as
    a predicate over characters instead of a regular expression. */
module Email {
  import opened Wrappers
  import opened JsString

  /** The characters `\s` matches in an ECMAScript regular expression: the
      WhiteSpace and LineTerminator code points. */
  predicate IsWhitespace(c: char)
  {
    || c == '\t' || c == '\n' || c == '\U{000B}' || c == '\U{000C}' || c == '\r'
    || c == ' ' || c == '\U{00A0}' || c == '\U{1680}'
    || ('\U{2000}' <= c <= '\U{200A}')
    || c == '\U{2028}' || c == '\U{2029}' || c == '\U{202F}' || c == '\U{205F}'
    || c == '\U{3000}' || c == '\U{FEFF}'
  }

  /** A character of the class `[^\s@]`. */
  predicate IsPlain(c: char)
  {
    !IsWhitespace(c) && c != '@'
  }

  /** A run of `[^\s@]` characters (possibly empty; the `+` is checked apart). */
  ghost predicate AllPlain(t: string)
  {
    forall k :: 0 <= k < |t| ==> IsPlain(t[k])
  }

  /** The regular expression itself: `s` is three non-empty `[^\s@]` runs,
      the first two joined by `@` at `i`, the last two by `.` at `j`. */
  ghost predicate MatchesEmailPattern(s: string)
  {
    exists i, j :: 0 < i && i + 1 < j && j + 1 < |s| && s[i] == '@' && s[j] == '.' &&
      AllPlain(s[..i]) && AllPlain(s[i + 1..j]) && AllPlain(s[j + 1..])
  }

  predicate NoWhitespace(s: string)
  {
    forall k :: 0 <= k < |s| ==> !IsWhitespace(s[k])
  }

  /** The domain part has a `.` that is neither its first nor its last character. */
  predicate HasInnerDot(domain: string)
  {
    |domain| >= 3 && '.' in domain[1..|domain| - 1]
  }

  /** The shape the pattern accepts, said directly: no whitespace, exactly
      one `@` with something before it, and an inner `.` after it. */
  ghost predicate EmailShape(s: string)
  {
    NoWhitespace(s) &&
    exists at :: 0 < at < |s| && s[at] == '@' &&
      (forall k :: 0 <= k < |s| && k != at ==> s[k] != '@') &&
      HasInnerDot(s[at + 1..])
  }

  /** What `ValidateEmail` checks once `at` is the first `@`. */
  predicate PassesChecks(email: string, at: nat)
    requires at < |email|
  {
    var domain := email[at + 1..];
    at > 0 && NoWhitespace(email) && '@' !in domain && HasInnerDot(domain)
  }

  /** `validateEmail(email)`. */
  function ValidateEmail(email: string): (ok: bool)
    ensures ok <==> MatchesEmailPattern(email)
  {
    match IndexOf(email, '@')
    case None =>
      assert !MatchesEmailPattern(email) by { NoAtNoMatch(email); }
      false
    case Some(at) =>
      var ok := PassesChecks(email, at);
      assert ok <==> MatchesEmailPattern(email) by {
        if ok { AcceptedMatches(email, at); }
        if MatchesEmailPattern(email) { MatchAccepted(email, at); }
      }
      ok
  }

  /** Without an `@` nothing matches. */
  lemma NoAtNoMatch(s: string)
    requires '@' !in s
    ensures !MatchesEmailPattern(s)
  {
  }

  /** A slice is a `[^\s@]` run exactly when each character in its range is. */
  lemma PlainRange(s: string, lo: int, hi: int)
    requires 0 <= lo <= hi <= |s|
    ensures AllPlain(s[lo..hi]) <==> forall k :: lo <= k < hi ==> IsPlain(s[k])
  {
  }

  /** The checks `ValidateEmail` makes find the two separators of the pattern. */
  lemma AcceptedMatches(s: string, at: nat)
    requires 0 < at < |s| && s[at] == '@' && '@' !in s[..at]
    requires NoWhitespace(s) && '@' !in s[at + 1..] && HasInnerDot(s[at + 1..])
    ensures MatchesEmailPattern(s)
  {
    var domain := s[at + 1..];
    var inner := domain[1..|domain| - 1];
    var d :| 0 <= d < |inner| && inner[d] == '.';
    var j := at + 2 + d;
    assert s[j] == '.';
    assert forall k :: 0 <= k < at ==> s[k] != '@' by {
      assert forall k :: 0 <= k < at ==> s[..at][k] == s[k];
    }
    assert forall k :: at + 1 <= k < |s| ==> s[k] != '@' by {
      assert forall k :: at + 1 <= k < |s| ==> domain[k - at - 1] == s[k];
    }
    PlainRange(s, 0, at);
    PlainRange(s, at + 1, j);
    PlainRange(s, j + 1, |s|);
    assert s[..at] == s[0..at];
    assert s[j + 1..] == s[j + 1..|s|];
  }

  /** A match of the pattern passes every check `ValidateEmail` makes. */
  lemma MatchAccepted(s: string, at: nat)
    requires at < |s| && s[at] == '@' && '@' !in s[..at]
    requires MatchesEmailPattern(s)
    ensures 0 < at && NoWhitespace(s) && '@' !in s[at + 1..] && HasInnerDot(s[at + 1..])
  {
  }

  /** `validateEmail` accepts exactly the strings of `EmailShape`. */
  lemma ValidateEmailShape(email: string)
    ensures ValidateEmail(email) <==> EmailShape(email)
  {
  }

  /** Concrete cases of the pattern: accepted with both separators in place,
      refused without a local part, with a second `@`, with a trailing dot,
      and with a space. */
  lemma AcceptsSimpleAddress()
    ensures ValidateEmail("a@b.c")
  {
    IndexOfFirst("a@b.c", '@', 1);
    assert "a@b.c"[2..] == "b.c";
    assert "b.c"[1..2] == ".";
  }

  lemma RejectsEmptyLocalPart()
    ensures !ValidateEmail("@b.c")
  {
  }

  lemma RejectsSecondAt()
    ensures !ValidateEmail("a@b@c.d")
  {
  }

  lemma RejectsTrailingDot()
    ensures !ValidateEmail("a@bc.")
  {
  }

  lemma RejectsSpace()
    ensures !ValidateEmail("a b@c.d")
  {
  }

}
