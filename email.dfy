/** Optional values: a JavaScript `undefined`/`null` is `None`. */
module Wrappers {
  datatype Option<+T> = None | Some(value: T)
}

/**
 * The string operations the waitlist workflow relies on: the email pattern
 * `/^[^\s@]+@[^\s@]+\.[^\s@]+$/`, `String.prototype.trim` and lower-casing.
 */
module Email {

  /** JavaScript's `\s` class; it is also exactly the set of characters `trim` removes. */
  predicate IsSpace(c: char) {
    c == '\t' || c == '\n' || c == '\U{B}' || c == '\U{C}' || c == '\r' || c == ' ' ||
    c == '\U{A0}' || c == '\U{1680}' || ('\U{2000}' <= c <= '\U{200A}') ||
    c == '\U{2028}' || c == '\U{2029}' || c == '\U{202F}' || c == '\U{205F}' ||
    c == '\U{3000}' || c == '\U{FEFF}'
  }

  /** A character of the class `[^\s@]`. */
  predicate Plain(c: char) {
    !IsSpace(c) && c != '@'
  }

  predicate AllPlain(s: string) {
    forall k :: 0 <= k < |s| ==> Plain(s[k])
  }

  predicate NoSpace(s: string) {
    forall k :: 0 <= k < |s| ==> !IsSpace(s[k])
  }

  /**
   * `s` reads `L@D.T` with L, D and T non-empty runs of `[^\s@]`, the `@` at
   * index `at` and the `.` at index `dot`: one way the regex can match.
   */
  ghost predicate SplitsAt(s: string, at: int, dot: int) {
    0 < at && at + 1 < dot && dot + 1 < |s| &&
    s[at] == '@' && s[dot] == '.' &&
    AllPlain(s[..at]) && AllPlain(s[at + 1..dot]) && AllPlain(s[dot + 1..])
  }

  /** The language of `/^[^\s@]+@[^\s@]+\.[^\s@]+$/`: some split makes it match. */
  ghost predicate MatchesEmailPattern(s: string) {
    exists at, dot :: SplitsAt(s, at, dot)
  }

  /** The index of the first `c` in `s`. */
  function IndexOf(s: string, c: char): (i: nat)
    requires c in s
    ensures i < |s| && s[i] == c && c !in s[..i]
  {
    if s[0] == c then 0
    else
      var i := 1 + IndexOf(s[1..], c);
      assert s[..i] == [s[0]] + s[1..][..i - 1];
      i
  }

  /**
   * The regex test, decided by a scan: no whitespace, exactly one `@` (the
   * first one is also the last), something before it, and a `.` in what
   * follows it other than its first or last character.
   */
  predicate IsValidEmail(s: string) {
    NoSpace(s) && '@' in s &&
    var at := IndexOf(s, '@');
    var domain := s[at + 1..];
    0 < at && '@' !in domain && |domain| >= 3 && '.' in domain[1..|domain| - 1]
  }

  /**
   * The guard both scripts put in front of registration, `!s || !regex.test(s)`
   * negated: non-empty and matching the pattern.
   */
  predicate PassesEmailCheck(s: string) {
    s != "" && IsValidEmail(s)
  }

  /** Every string the scan accepts matches the regex. */
  lemma ValidEmailMatches(s: string)
    requires IsValidEmail(s)
    ensures MatchesEmailPattern(s)
  {
    var at := IndexOf(s, '@');
    var domain := s[at + 1..];
    var inner := domain[1..|domain| - 1];
    var j :| 0 <= j < |inner| && inner[j] == '.';
    var dot := at + 2 + j;
    assert s[dot] == '.';
    forall k | 0 <= k < |s| && k != at
      ensures Plain(s[k])
    {
      if k < at {
        assert s[k] == s[..at][k];
      } else {
        assert s[k] == domain[k - at - 1];
      }
    }
    assert SplitsAt(s, at, dot);
  }

  /** Every string the regex matches is accepted by the scan. */
  lemma MatchIsValidEmail(s: string, at: int, dot: int)
    requires SplitsAt(s, at, dot)
    ensures IsValidEmail(s)
  {
    forall k | 0 <= k < |s| && k != at
      ensures Plain(s[k])
    {
      if k < at {
        assert s[k] == s[..at][k];
      } else if k < dot {
        assert s[k] == s[at + 1..dot][k - at - 1];
      } else if k > dot {
        assert s[k] == s[dot + 1..][k - dot - 1];
      }
    }
    assert NoSpace(s);
    assert '@' !in s[..at] by {
      forall k | 0 <= k < at ensures s[..at][k] != '@' {
        assert s[..at][k] == s[k];
      }
    }
    assert IndexOf(s, '@') == at;
    var domain := s[at + 1..];
    assert '@' !in domain by {
      forall k | 0 <= k < |domain| ensures domain[k] != '@' {
        assert domain[k] == s[at + 1 + k];
      }
    }
    assert domain[1..|domain| - 1][dot - at - 2] == '.';
  }

  /** The scan accepts exactly the strings the regex matches. */
  lemma IsValidEmailMatchesPattern(s: string)
    ensures IsValidEmail(s) <==> MatchesEmailPattern(s)
  {
    if IsValidEmail(s) {
      ValidEmailMatches(s);
    }
    if MatchesEmailPattern(s) {
      var at, dot :| SplitsAt(s, at, dot);
      MatchIsValidEmail(s, at, dot);
    }
  }

  /** Dropping the leading whitespace. */
  function TrimStart(s: string): (r: string)
    ensures |r| <= |s| && r == s[|s| - |r|..]
    ensures forall k :: 0 <= k < |s| - |r| ==> IsSpace(s[k])
    ensures r == [] || !IsSpace(r[0])
  {
    if s != [] && IsSpace(s[0]) then TrimStart(s[1..]) else s
  }

  /** Dropping the trailing whitespace. */
  function TrimEnd(s: string): (r: string)
    ensures |r| <= |s| && r == s[..|r|]
    ensures forall k :: |r| <= k < |s| ==> IsSpace(s[k])
    ensures r == [] || !IsSpace(r[|r| - 1])
  {
    if s != [] && IsSpace(s[|s| - 1]) then TrimEnd(s[..|s| - 1]) else s
  }

  /**
   * `r` is the part of `s` that starts at index `i`, with only whitespace
   * before it and only whitespace after it.
   */
  ghost predicate StrippedAt(s: string, r: string, i: int) {
    0 <= i <= |s| - |r| && r == s[i..i + |r|] &&
    (forall k :: 0 <= k < i ==> IsSpace(s[k])) &&
    (forall k :: i + |r| <= k < |s| ==> IsSpace(s[k]))
  }

  /**
   * `String.prototype.trim`: the result is what lies between the leading and
   * the trailing whitespace of `s`; neither end of the result is whitespace, it is
   * empty exactly when the input is all whitespace, and an input without
   * whitespace is returned as it is.
   */
  function Trim(s: string): (r: string)
    ensures |r| <= |s|
    ensures exists i :: StrippedAt(s, r, i)
    ensures r == [] || (!IsSpace(r[0]) && !IsSpace(r[|r| - 1]))
    ensures r == [] <==> forall k :: 0 <= k < |s| ==> IsSpace(s[k])
    ensures NoSpace(s) ==> r == s
  {
    var t := TrimStart(s);
    assert t != [] ==> t[0] == s[|s| - |t|];
    var r := TrimEnd(t);
    var i := |s| - |t|;
    assert StrippedAt(s, r, i) by {
      assert r == t[..|r|];
      forall k | i + |r| <= k < |s| ensures IsSpace(s[k]) {
        assert s[k] == t[k - i];
      }
    }
    r
  }

  /** `toLowerCase` on one character, restricted to ASCII letters. */
  function LowerChar(c: char): char {
    if 'A' <= c <= 'Z' then (c as int + 32) as char else c
  }

  /** `toLowerCase`, restricted to ASCII letters. */
  function Lower(s: string): (r: string)
    ensures |r| == |s|
  {
    seq(|s|, k requires 0 <= k < |s| => LowerChar(s[k]))
  }

  /**
   * Lower-casing only changes letters, so two characters with the same lower
   * case are both `@`, both `.`, both whitespace, or neither.
   */
  lemma SameLowerSameClass(c: char, d: char)
    requires LowerChar(c) == LowerChar(d)
    ensures IsSpace(c) == IsSpace(d) && (c == '@') == (d == '@') && (c == '.') == (d == '.')
  {
  }

  /** A case variant of an address the pattern accepts is accepted too. */
  lemma CaseVariantStaysValid(s: string, t: string)
    requires Lower(s) == Lower(t)
    ensures IsValidEmail(s) ==> IsValidEmail(t)
  {
    if IsValidEmail(s) {
      IsValidEmailMatchesPattern(s);
      var at, dot :| SplitsAt(s, at, dot);
      forall k | 0 <= k < |s|
        ensures Plain(s[k]) == Plain(t[k]) && (s[k] == '@') == (t[k] == '@') && (s[k] == '.') == (t[k] == '.')
      {
        assert Lower(s)[k] == Lower(t)[k];
        SameLowerSameClass(s[k], t[k]);
      }
      assert SplitsAt(t, at, dot) by {
        assert forall k :: 0 <= k < at ==> s[..at][k] == s[k] && t[..at][k] == t[k];
        assert forall k :: at + 1 <= k < dot ==> s[at + 1..dot][k - at - 1] == s[k] && t[at + 1..dot][k - at - 1] == t[k];
        assert forall k :: dot + 1 <= k < |s| ==> s[dot + 1..][k - dot - 1] == s[k] && t[dot + 1..][k - dot - 1] == t[k];
      }
      IsValidEmailMatchesPattern(t);
    }
  }
}
