/**
 The password acceptance rule stated as counts over four disjoint ASCII
 character classes: at least one upper-case letter, two special characters,
 two digits and four lower-case letters, nothing outside those classes, and
 between one and twelve characters in all.
 */
module PasswordPolicy {

  const MinUpper: nat := 1
  const MinSpecial: nat := 2
  const MinDigit: nat := 2
  const MinLower: nat := 4
  const MinLength: nat := 1
  const MaxLength: nat := 12

  /** The classes the rule counts. */
  datatype CharClass = Upper | Special | Digit | Lower

  predicate IsUpper(c: char) { 'A' <= c <= 'Z' }

  predicate IsLower(c: char) { 'a' <= c <= 'z' }

  predicate IsDigit(c: char) { '0' <= c <= '9' }

  predicate IsSpecial(c: char) {
    c == '!' || c == '@' || c == '#' || c == '$' || c == '%' || c == '^' || c == '&' || c == '*'
  }

  predicate InClass(c: char, k: CharClass) {
    match k
    case Upper => IsUpper(c)
    case Special => IsSpecial(c)
    case Digit => IsDigit(c)
    case Lower => IsLower(c)
  }

  /** The allowed alphabet: the union of the four classes. */
  predicate IsAllowed(c: char) {
    IsUpper(c) || IsLower(c) || IsDigit(c) || IsSpecial(c)
  }

  predicate AllAllowed(s: string) {
    forall i :: 0 <= i < |s| ==> IsAllowed(s[i])
  }

  /** The one class an allowed character belongs to: the classes are disjoint. */
  function ClassOf(c: char): (k: CharClass)
    requires IsAllowed(c)
    ensures InClass(c, k)
    ensures forall k' :: InClass(c, k') <==> k' == k
  {
    if IsUpper(c) then Upper
    else if IsSpecial(c) then Special
    else if IsDigit(c) then Digit
    else Lower
  }

  /** Number of characters of `s` in class `k`, repeats counted separately. */
  function Count(s: string, k: CharClass): (n: nat)
    ensures n <= |s|
  {
    if s == [] then 0
    else (if InClass(s[0], k) then 1 else 0) + Count(s[1..], k)
  }

  /** A class is absent from `s` exactly when its count is zero. */
  lemma {:induction false} CountZero(s: string, k: CharClass)
    ensures Count(s, k) == 0 <==> forall i :: 0 <= i < |s| ==> !InClass(s[i], k)
  {
    if s != [] {
      CountZero(s[1..], k);
      assert forall i :: 1 <= i < |s| ==> s[i] == s[1..][i - 1];
    }
  }

  /** The acceptance rule. */
  predicate IsValid(s: string)
    ensures IsValid(s) ==> '\n' !in s
  {
    && Count(s, Upper) >= MinUpper
    && Count(s, Special) >= MinSpecial
    && Count(s, Digit) >= MinDigit
    && Count(s, Lower) >= MinLower
    && AllAllowed(s)
    && MinLength <= |s| <= MaxLength
  }

  lemma {:induction false} CountAppend(s: string, t: string, k: CharClass)
    ensures Count(s + t, k) == Count(s, k) + Count(t, k)
  {
    if s == [] {
      assert s + t == t;
    } else {
      assert (s + t)[1..] == s[1..] + t;
      CountAppend(s[1..], t, k);
    }
  }

  /** A character outside every class adds nothing to any count. */
  lemma CountAppendOutside(s: string, c: char, k: CharClass)
    requires !IsAllowed(c)
    ensures Count(s + [c], k) == Count(s, k)
  {
    CountAppend(s, [c], k);
    assert [c][1..] == [];
  }

  /** A string of lower-case letters counts only in the lower-case class. */
  lemma LowerOnlyCounts(t: string)
    requires forall i :: 0 <= i < |t| ==> IsLower(t[i])
    ensures AllAllowed(t)
    ensures Count(t, Upper) == 0 && Count(t, Special) == 0 && Count(t, Digit) == 0
    ensures Count(t, Lower) == |t|
  {
    CountZero(t, Upper);
    CountZero(t, Special);
    CountZero(t, Digit);
    CountsPartition(t);
  }

  /** Over the allowed alphabet the four counts partition the string. */
  lemma {:induction false} CountsPartition(s: string)
    requires AllAllowed(s)
    ensures Count(s, Upper) + Count(s, Special) + Count(s, Digit) + Count(s, Lower) == |s|
  {
    if s != [] {
      var k := ClassOf(s[0]);
      assert AllAllowed(s[1..]) by {
        forall i | 0 <= i < |s[1..]| ensures IsAllowed(s[1..][i]) {
          assert s[1..][i] == s[i + 1];
        }
      }
      CountsPartition(s[1..]);
    }
  }

  /**
   Any accepted password has between 9 and 12 characters: the four minimums
   add up to 9, so the lower bound of one character never decides anything.
   */
  lemma ValidLength(s: string)
    ensures IsValid(s) ==> MinUpper + MinSpecial + MinDigit + MinLower <= |s| <= MaxLength
    ensures IsValid(s) ==> 9 <= |s|
  {
    if IsValid(s) {
      CountsPartition(s);
    }
  }

  /**
   Completeness: the minimum counts, the alphabet and the upper length bound
   alone decide acceptance.
   */
  lemma LengthLowerBoundRedundant(s: string)
    ensures IsValid(s) <==>
      && Count(s, Upper) >= MinUpper
      && Count(s, Special) >= MinSpecial
      && Count(s, Digit) >= MinDigit
      && Count(s, Lower) >= MinLower
      && AllAllowed(s)
      && |s| <= MaxLength
  {
    if AllAllowed(s) {
      CountsPartition(s);
    }
  }
}
