/**
 The meaning of the password pattern

   ^(?=.*[A-Z])(?=.*[!@#$%^&*].*[!@#$%^&*])(?=.*\d.*\d)
    (?=.*[a-z].*[a-z].*[a-z].*[a-z])[A-Za-z0-9!@#$%^&*]{1,12}$

 under .NET regular-expression rules with no options: `.` is any character
 but a line feed, `\d` is any Unicode decimal digit, `^` holds only at the
 start of the input and `$` at its end or just before a final line feed.
 Each lookahead is read at position 0 and the class run must start there.
 The matching itself (backtracking) is not modelled, only which strings match.
 */
module PasswordPattern {
  import opened PasswordPolicy

  /** The character sets the pattern mentions. */
  datatype Atom = UpperRange | SpecialSet | DecimalDigit | LowerRange | BodyClass

  /**
   `\d`: a Unicode decimal digit (category Nd) that fits in one UTF-16 code
   unit, not only `0`-`9`.
   */
  predicate IsDecimalDigit(c: char)
    ensures IsDigit(c) ==> IsDecimalDigit(c)
    ensures IsDecimalDigit(c) ==> c != '\n' && !IsUpper(c) && !IsLower(c) && !IsSpecial(c)
  {
    || ('0' <= c <= '9')
    || ('\U{0660}' <= c <= '\U{0669}')
    || ('\U{06F0}' <= c <= '\U{06F9}')
    || ('\U{07C0}' <= c <= '\U{07C9}')
    || ('\U{0966}' <= c <= '\U{096F}')
    || ('\U{09E6}' <= c <= '\U{09EF}')
    || ('\U{0A66}' <= c <= '\U{0A6F}')
    || ('\U{0AE6}' <= c <= '\U{0AEF}')
    || ('\U{0B66}' <= c <= '\U{0B6F}')
    || ('\U{0BE6}' <= c <= '\U{0BEF}')
    || ('\U{0C66}' <= c <= '\U{0C6F}')
    || ('\U{0CE6}' <= c <= '\U{0CEF}')
    || ('\U{0D66}' <= c <= '\U{0D6F}')
    || ('\U{0DE6}' <= c <= '\U{0DEF}')
    || ('\U{0E50}' <= c <= '\U{0E59}')
    || ('\U{0ED0}' <= c <= '\U{0ED9}')
    || ('\U{0F20}' <= c <= '\U{0F29}')
    || ('\U{1040}' <= c <= '\U{1049}')
    || ('\U{1090}' <= c <= '\U{1099}')
    || ('\U{17E0}' <= c <= '\U{17E9}')
    || ('\U{1810}' <= c <= '\U{1819}')
    || ('\U{1946}' <= c <= '\U{194F}')
    || ('\U{19D0}' <= c <= '\U{19D9}')
    || ('\U{1A80}' <= c <= '\U{1A89}')
    || ('\U{1A90}' <= c <= '\U{1A99}')
    || ('\U{1B50}' <= c <= '\U{1B59}')
    || ('\U{1BB0}' <= c <= '\U{1BB9}')
    || ('\U{1C40}' <= c <= '\U{1C49}')
    || ('\U{1C50}' <= c <= '\U{1C59}')
    || ('\U{A620}' <= c <= '\U{A629}')
    || ('\U{A8D0}' <= c <= '\U{A8D9}')
    || ('\U{A900}' <= c <= '\U{A909}')
    || ('\U{A9D0}' <= c <= '\U{A9D9}')
    || ('\U{A9F0}' <= c <= '\U{A9F9}')
    || ('\U{AA50}' <= c <= '\U{AA59}')
    || ('\U{ABF0}' <= c <= '\U{ABF9}')
    || ('\U{FF10}' <= c <= '\U{FF19}')
  }

  predicate AtomMatches(a: Atom, c: char) {
    match a
    case UpperRange => IsUpper(c)
    case SpecialSet => IsSpecial(c)
    case DecimalDigit => IsDecimalDigit(c)
    case LowerRange => IsLower(c)
    case BodyClass => IsAllowed(c)
  }

  /** `.` without the single-line option: it passes over every character a set matches. */
  predicate MatchesDot(c: char)
    ensures forall a :: AtomMatches(a, c) ==> MatchesDot(c)
  {
    c != '\n'
  }

  /**
   Whether some prefix of `s` matches `(.*a){n}`, the body of a lookahead
   anchored at the start: either `.*` takes nothing and `a` takes the first
   character, or `.*` takes the first character.
   */
  predicate PrefixRepeats(s: string, a: Atom, n: nat)
    ensures PrefixRepeats(s, a, n) ==> n <= |s|
    decreases |s|
  {
    if n == 0 then true
    else if s == [] then false
    else
      || (AtomMatches(a, s[0]) && PrefixRepeats(s[1..], a, n - 1))
      || (MatchesDot(s[0]) && PrefixRepeats(s[1..], a, n))
  }

  /** `$` at position `k`: the end of the input, or just before a final line feed. */
  predicate EndAnchor(s: string, k: nat)
    requires k <= |s|
    ensures EndAnchor(s, k) ==> |s| - k <= 1 && forall i :: k <= i < |s| ==> s[i] == '\n'
  {
    k == |s| || (k == |s| - 1 && s[k] == '\n')
  }

  /** A run of `k` characters of `BodyClass` from the start. */
  predicate ClassRun(s: string, k: nat)
    requires k <= |s|
    ensures ClassRun(s, k) ==> AllAllowed(s[..k]) && '\n' !in s[..k]
  {
    forall i :: 0 <= i < k ==> AtomMatches(BodyClass, s[i])
  }

  /** `[A-Za-z0-9!@#$%^&*]{1,12}$` from the start. */
  predicate BodyMatches(s: string)
    ensures BodyMatches(s) ==> MinLength <= |s| <= MaxLength + 1 && IsAllowed(s[0])
  {
    exists k: nat :: MinLength <= k <= MaxLength && k <= |s| && ClassRun(s, k) && EndAnchor(s, k)
  }

  /** The whole pattern, as `Regex.IsMatch` decides it. */
  predicate Matches(s: string)
    ensures Matches(s) ==> MinLower <= |s| <= MaxLength + 1 && IsAllowed(s[0])
  {
    && PrefixRepeats(s, UpperRange, MinUpper)
    && PrefixRepeats(s, SpecialSet, MinSpecial)
    && PrefixRepeats(s, DecimalDigit, MinDigit)
    && PrefixRepeats(s, LowerRange, MinLower)
    && BodyMatches(s)
  }

  /** Within the allowed alphabet, `\d` is exactly `0`-`9`. */
  lemma DecimalDigitOnAlphabet(c: char)
    requires IsAllowed(c)
    ensures IsDecimalDigit(c) <==> IsDigit(c)
  {
  }

  /** No atom of the pattern matches a line feed. */
  lemma NoAtomMatchesLineFeed(a: Atom)
    ensures !AtomMatches(a, '\n')
  {
  }

  /**
   On a string without line feeds, `(.*a){n}` matches a prefix exactly when
   at least `n` characters match `a`.
   */
  lemma {:induction false} PrefixRepeatsCounts(s: string, a: Atom, k: CharClass, n: nat)
    requires '\n' !in s
    requires forall i :: 0 <= i < |s| ==> (AtomMatches(a, s[i]) <==> InClass(s[i], k))
    ensures PrefixRepeats(s, a, n) <==> Count(s, k) >= n
    decreases |s|
  {
    if n != 0 && s != [] {
      assert '\n' !in s[1..] && s[0] != '\n';
      assert forall i :: 0 <= i < |s[1..]| ==> (AtomMatches(a, s[1..][i]) <==> InClass(s[1..][i], k)) by {
        forall i | 0 <= i < |s[1..]| ensures (AtomMatches(a, s[1..][i]) <==> InClass(s[1..][i], k)) {
          assert s[1..][i] == s[i + 1];
        }
      }
      PrefixRepeatsCounts(s[1..], a, k, n - 1);
      PrefixRepeatsCounts(s[1..], a, k, n);
    }
  }

  /** A final line feed changes no lookahead: neither `.` nor any atom takes it. */
  lemma {:induction false} PrefixRepeatsLineFeed(t: string, a: Atom, n: nat)
    ensures PrefixRepeats(t + ['\n'], a, n) == PrefixRepeats(t, a, n)
    decreases |t|
  {
    NoAtomMatchesLineFeed(a);
    if n != 0 {
      if t == [] {
        assert PrefixRepeats(['\n'][1..], a, n - 1) == PrefixRepeats(t, a, n - 1);
      } else {
        assert (t + ['\n'])[1..] == t[1..] + ['\n'];
        PrefixRepeatsLineFeed(t[1..], a, n - 1);
        PrefixRepeatsLineFeed(t[1..], a, n);
      }
    }
  }

  /** A string without line feeds matches exactly when it meets the counting rule. */
  lemma MatchesWithoutLineFeed(s: string)
    requires '\n' !in s
    ensures Matches(s) <==> IsValid(s)
  {
    assert BodyMatches(s) <==> AllAllowed(s) && MinLength <= |s| <= MaxLength by {
      if BodyMatches(s) {
        var k: nat :| MinLength <= k <= MaxLength && k <= |s| && ClassRun(s, k) && EndAnchor(s, k);
        assert k == |s|;
      }
      if AllAllowed(s) && MinLength <= |s| <= MaxLength {
        assert ClassRun(s, |s|) && EndAnchor(s, |s|);
      }
    }
    if AllAllowed(s) {
      forall i | 0 <= i < |s| ensures AtomMatches(DecimalDigit, s[i]) <==> InClass(s[i], Digit) {
        DecimalDigitOnAlphabet(s[i]);
      }
      PrefixRepeatsCounts(s, UpperRange, Upper, MinUpper);
      PrefixRepeatsCounts(s, SpecialSet, Special, MinSpecial);
      PrefixRepeatsCounts(s, DecimalDigit, Digit, MinDigit);
      PrefixRepeatsCounts(s, LowerRange, Lower, MinLower);
    }
  }

  /** Soundness of the counting rule: every string that meets it matches. */
  lemma ValidMatches(s: string)
    requires IsValid(s)
    ensures Matches(s)
  {
    assert '\n' !in s;
    MatchesWithoutLineFeed(s);
  }

  /**
   The `$` rule: a string that meets the counting rule also matches with a
   line feed appended, and a string without line feeds followed by one
   matches exactly when the string alone meets the rule.
   */
  lemma MatchesWithFinalLineFeed(t: string)
    requires '\n' !in t
    ensures Matches(t + ['\n']) <==> IsValid(t)
  {
    var s := t + ['\n'];
    assert BodyMatches(s) <==> BodyMatches(t) by {
      if BodyMatches(s) {
        var k: nat :| MinLength <= k <= MaxLength && k <= |s| && ClassRun(s, k) && EndAnchor(s, k);
        assert !AtomMatches(BodyClass, s[|t|]);
        assert k == |t|;
        assert forall i :: 0 <= i < k ==> s[i] == t[i];
        assert ClassRun(t, k) && EndAnchor(t, k);
      }
      if BodyMatches(t) {
        var k: nat :| MinLength <= k <= MaxLength && k <= |t| && ClassRun(t, k) && EndAnchor(t, k);
        assert k == |t|;
        assert ClassRun(s, k) && EndAnchor(s, k);
      }
    }
    PrefixRepeatsLineFeed(t, UpperRange, MinUpper);
    PrefixRepeatsLineFeed(t, SpecialSet, MinSpecial);
    PrefixRepeatsLineFeed(t, DecimalDigit, MinDigit);
    PrefixRepeatsLineFeed(t, LowerRange, MinLower);
    MatchesWithoutLineFeed(t);
  }

  /** A line feed anywhere but at the very end rules out a match. */
  lemma InnerLineFeedRejected(s: string, i: nat)
    requires i < |s| - 1 && s[i] == '\n'
    ensures !Matches(s)
  {
  }

  /**
   Exactly which strings the pattern accepts: those that meet the counting
   rule, and those same strings followed by one line feed.
   */
  lemma MatchesCharacterization(s: string)
    ensures Matches(s) <==> IsValid(s) || (|s| > 0 && s[|s| - 1] == '\n' && IsValid(s[..|s| - 1]))
  {
    if '\n' !in s {
      MatchesWithoutLineFeed(s);
    } else {
      var j :| 0 <= j < |s| && s[j] == '\n';
      assert !IsAllowed(s[j]);
      var t := s[..|s| - 1];
      if s[|s| - 1] == '\n' && '\n' !in t {
        assert s == t + ['\n'];
        MatchesWithFinalLineFeed(t);
      } else if s[|s| - 1] == '\n' {
        var i :| 0 <= i < |t| && t[i] == '\n';
        InnerLineFeedRejected(s, i);
        assert !IsAllowed(t[i]);
      } else {
        InnerLineFeedRejected(s, j);
      }
    }
  }

  /** An accepted string has every minimum count of the rule. */
  lemma AcceptedMeetsMinimums(s: string)
    requires Matches(s)
    ensures Count(s, Upper) >= MinUpper
    ensures Count(s, Special) >= MinSpecial
    ensures Count(s, Digit) >= MinDigit
    ensures Count(s, Lower) >= MinLower
    ensures exists i :: 0 <= i < |s| && IsUpper(s[i])
  {
    MatchesCharacterization(s);
    MinimumsUpToLineFeed(s);
    CountZero(s, Upper);
  }

  /** The minimums hold of a valid string, and of one followed by a line feed. */
  lemma MinimumsUpToLineFeed(s: string)
    requires IsValid(s) || (|s| > 0 && s[|s| - 1] == '\n' && IsValid(s[..|s| - 1]))
    ensures Count(s, Upper) >= MinUpper
    ensures Count(s, Special) >= MinSpecial
    ensures Count(s, Digit) >= MinDigit
    ensures Count(s, Lower) >= MinLower
  {
    if !IsValid(s) {
      var t := s[..|s| - 1];
      assert s == t + ['\n'];
      FinalLineFeedCounts(t);
    }
  }

  /** A final line feed leaves every class count as it was. */
  lemma FinalLineFeedCounts(t: string)
    ensures Count(t + ['\n'], Upper) == Count(t, Upper)
    ensures Count(t + ['\n'], Special) == Count(t, Special)
    ensures Count(t + ['\n'], Digit) == Count(t, Digit)
    ensures Count(t + ['\n'], Lower) == Count(t, Lower)
  {
    CountAppendOutside(t, '\n', Upper);
    CountAppendOutside(t, '\n', Special);
    CountAppendOutside(t, '\n', Digit);
    CountAppendOutside(t, '\n', Lower);
  }

  /**
   A character outside the allowed alphabet rules out a match wherever it
   stands, except a line feed in the last position.
   */
  lemma OutsideAlphabetRejected(s: string, i: nat)
    requires i < |s| && !IsAllowed(s[i])
    requires s[i] != '\n' || i < |s| - 1
    ensures !Matches(s)
  {
    MatchesCharacterization(s);
    if |s| > 0 && s[|s| - 1] == '\n' {
      assert i < |s| - 1 && s[..|s| - 1][i] == s[i];
    }
  }

  /** Accepted strings have 9 to 12 characters, one more when `$` took a final line feed. */
  lemma AcceptedLength(s: string)
    requires Matches(s)
    ensures 9 <= |s| <= MaxLength + 1
    ensures '\n' !in s ==> 9 <= |s| <= MaxLength
  {
    MatchesCharacterization(s);
    ValidLength(s);
    if !IsValid(s) {
      ValidLength(s[..|s| - 1]);
    }
  }

  /** The empty string is rejected. */
  lemma EmptyRejected()
    ensures !Matches("")
  {
    assert !PrefixRepeats("", UpperRange, MinUpper);
  }

  /**
   Completeness: every string that meets the four minimums, uses only the
   allowed alphabet and has at most twelve characters matches.
   */
  lemma MinimumsSuffice(s: string)
    requires Count(s, Upper) >= MinUpper && Count(s, Special) >= MinSpecial
    requires Count(s, Digit) >= MinDigit && Count(s, Lower) >= MinLower
    requires AllAllowed(s) && |s| <= MaxLength
    ensures Matches(s)
  {
    LengthLowerBoundRedundant(s);
    ValidMatches(s);
  }

  /** `.*` can pass over any prefix without line feeds. */
  lemma {:induction false} PrefixRepeatsSkip(p: string, t: string, a: Atom, n: nat)
    requires '\n' !in p && PrefixRepeats(t, a, n)
    ensures PrefixRepeats(p + t, a, n)
    decreases |p|
  {
    if p == [] {
      assert p + t == t;
    } else if n != 0 {
      assert (p + t)[1..] == p[1..] + t;
      assert p[0] != '\n' && '\n' !in p[1..];
      PrefixRepeatsSkip(p[1..], t, a, n);
    }
  }

  /**
   `\d` alone admits other decimal digits: two Arabic-Indic digits satisfy the
   digit lookahead of the pattern.
   */
  lemma NonAsciiDigitsSatisfyLookahead()
    ensures PrefixRepeats("A!@abcd\U{0661}\U{0662}", DecimalDigit, MinDigit)
  {
    var digits := "\U{0661}\U{0662}";
    assert PrefixRepeats(digits, DecimalDigit, MinDigit);
    assert "A!@abcd\U{0661}\U{0662}" == "A!@abcd" + digits;
    PrefixRepeatsSkip("A!@abcd", digits, DecimalDigit, MinDigit);
  }

  /** The class run then rejects that same string: only `0`-`9` count as digits. */
  lemma NonAsciiDigitsRejected()
    ensures !Matches("A!@abcd\U{0661}\U{0662}")
  {
    OutsideAlphabetRejected("A!@abcd\U{0661}\U{0662}", 7);
  }
}
