/**
 The program's verdict: the pattern decides which of two fixed messages is
 printed for the line that was read.
 */
module PasswordChecker {
  import opened PasswordPolicy
  import opened PasswordPattern

  const ValidMessage: string := "Password is valid!"
  const InvalidMessage: string := "Password is invalid!"

  /**
   The message printed for `password`. A line that was read never holds a
   line feed, and for such a line the message follows the counting rule.
   */
  function Verdict(password: string): (message: string)
    ensures message == ValidMessage || message == InvalidMessage
    ensures message == ValidMessage <==> Matches(password)
    ensures '\n' !in password ==> (message == ValidMessage <==> IsValid(password))
  {
    MatchesCharacterization(password);
    if Matches(password) then ValidMessage else InvalidMessage
  }

  /** The two messages differ, so the message tells the verdict. */
  lemma MessagesDistinct()
    ensures ValidMessage != InvalidMessage
  {
    assert |ValidMessage| != |InvalidMessage|;
  }

  /** Lines longer than twelve characters are always reported invalid. */
  lemma LongLineInvalid(password: string)
    requires '\n' !in password && |password| > MaxLength
    ensures Verdict(password) == InvalidMessage
  {
    MessagesDistinct();
    if Matches(password) {
      AcceptedLength(password);
    }
  }

  /** The class counts of `Ab12!@`: one, two, two and one. */
  lemma ExampleHeadCounts()
    ensures Count("Ab12!@", Upper) == 1 && Count("Ab12!@", Special) == 2
    ensures Count("Ab12!@", Digit) == 2 && Count("Ab12!@", Lower) == 1
    ensures AllAllowed("Ab12!@")
  {
  }

  /**
   `Ab12!@` followed by three to six lower-case letters meets the rule: the
   family the accepted examples belong to.
   */
  lemma ExampleFamilyValid(tail: string)
    requires 3 <= |tail| <= MaxLength - 6
    requires forall i :: 0 <= i < |tail| ==> IsLower(tail[i])
    ensures IsValid("Ab12!@" + tail)
  {
    var head := "Ab12!@";
    ExampleHeadCounts();
    LowerOnlyCounts(tail);
    CountAppend(head, tail, Upper);
    CountAppend(head, tail, Special);
    CountAppend(head, tail, Digit);
    CountAppend(head, tail, Lower);
    assert AllAllowed(head + tail) by {
      forall i | 0 <= i < |head + tail| ensures IsAllowed((head + tail)[i]) {
        if i >= |head| {
          assert (head + tail)[i] == tail[i - |head|];
        }
      }
    }
  }

  /** Worked example: ten characters, five of them lower-case. */
  lemma ShortExampleAccepted()
    ensures Verdict("Ab12!@cdef") == ValidMessage
  {
    assert "Ab12!@cdef" == "Ab12!@" + "cdef";
    ExampleFamilyValid("cdef");
    ValidMatches("Ab12!@cdef");
  }

  /** Worked example: the longest length the rule accepts. */
  lemma LongestExampleAccepted()
    ensures Verdict("Ab12!@cdefgh") == ValidMessage
  {
    assert "Ab12!@cdefgh" == "Ab12!@" + "cdefgh";
    ExampleFamilyValid("cdefgh");
    ValidMatches("Ab12!@cdefgh");
  }

  /** Worked example: lower-case letters only, so no upper-case letter. */
  lemma LowerOnlyExampleRejected()
    ensures Verdict("abcdefghijk") == InvalidMessage
  {
    MessagesDistinct();
    LowerOnlyCounts("abcdefghijk");
    if Matches("abcdefghijk") {
      AcceptedMeetsMinimums("abcdefghijk");
    }
  }

  /** Worked example: one special character and one digit are too few. */
  lemma FewDigitsExampleRejected()
    ensures Verdict("A1!bcde") == InvalidMessage
  {
    MessagesDistinct();
    assert Count("A1!bcde", Digit) == 1;
    if Matches("A1!bcde") {
      AcceptedMeetsMinimums("A1!bcde");
    }
  }

  /** Worked example: thirteen characters are one too many. */
  lemma OverlongExampleRejected()
    ensures Verdict("Ab12!@cdefghi") == InvalidMessage
  {
    LongLineInvalid("Ab12!@cdefghi");
  }
}
