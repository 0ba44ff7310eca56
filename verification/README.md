# Password checker: a verified model of the acceptance rule

The program reads one line, tests it against a single .NET regular expression and
prints `Password is valid!` or `Password is invalid!`. The pattern is

    ^(?=.*[A-Z])(?=.*[!@#$%^&*].*[!@#$%^&*])(?=.*\d.*\d)(?=.*[a-z].*[a-z].*[a-z].*[a-z])[A-Za-z0-9!@#$%^&*]{1,12}$

This model has three modules:

- `PasswordPolicy` (`password_policy.dfy`) states the rule as counts over four
  disjoint ASCII classes. It needs at least 1 upper-case letter, 2 of `! @ # $ % ^ & *`
  (repeats counted), 2 digits and 4 lower-case letters. Every character must come
  from those classes, and the length must be 1 to 12. `IsValid` is that rule.
- `PasswordPattern` (`password_pattern.dfy`) states what the regular expression
  itself accepts under .NET rules with no options. Each lookahead `(?=(.*X){n})`
  is the recursive predicate `PrefixRepeats`. There, `.` is any character but a
  line feed and `\d` is any decimal digit, not only `0`-`9`. The final part is
  `BodyMatches`: a run of 1 to 12 allowed characters from the start, then `$`.
  In .NET, `$` holds at the end of the input or just before a final line feed.
  `Matches` is the conjunction. The main theorem, `MatchesCharacterization`,
  says that the pattern accepts exactly two kinds of string: those that meet
  `IsValid`, and those same strings followed by one line feed.
- `PasswordChecker` (`password_checker.dfy`) chooses the message (`Verdict`).
  It also holds worked examples.

One behaviour of the pattern is easy to miss. Because of `$`, a valid password
followed by a single `'\n'` also matches, so "a character outside the alphabet
causes rejection" does not hold for a final line feed. The model follows the
code here (`MatchesWithFinalLineFeed`). A line returned by `Console.ReadLine`
never contains a line feed. For such lines, `MatchesWithoutLineFeed` and
`Verdict` show that the pattern accepts exactly the counting rule.

## Model

| member | source | states |
|---|---|---|
| `PasswordPolicy.IsValid` | file1.cs:12-16 | the counting rule: at least 1 upper-case letter, 2 special characters, 2 digits and 4 lower-case letters, nothing outside the four classes, 1 to 12 characters; a valid password holds no line feed |
| `PasswordPolicy.ClassOf` | file1.cs:12-16 | an allowed character is in exactly one of the upper, special, digit and lower classes: the classes are disjoint |
| `PasswordPolicy.Count` | file1.cs:12-15 | the number of characters of a class, repeats counted separately, never exceeds the length |
| `PasswordPolicy.CountZero` | file1.cs:12 | a class count is zero exactly when no character of the string is in that class |
| `PasswordPolicy.CountAppend` | file1.cs:12-15 | counts add up over concatenation |
| `PasswordPolicy.CountsPartition` | file1.cs:12-16 | over the allowed alphabet the four class counts sum to the length |
| `PasswordPolicy.LowerOnlyCounts` | file1.cs:15-16 | a string of lower-case letters is allowed and counts only as lower-case |
| `PasswordPolicy.ValidLength` | file1.cs:12-16 | a valid password has 9 to 12 characters, because the four minimums sum to 9 |
| `PasswordPolicy.LengthLowerBoundRedundant` | file1.cs:16 | validity is the four minimums, the alphabet and length at most 12: the `{1,` lower bound never decides |
| `PasswordPattern.IsDecimalDigit` | file1.cs:14 | `\d`: the Unicode decimal-digit (Nd) ranges within one UTF-16 code unit; it contains `0`-`9` and no letter, special character or line feed |
| `PasswordPattern.MatchesDot` | file1.cs:12-15 | `.` with no options: every character but a line feed; it passes over every character a set of the pattern matches |
| `PasswordPattern.PrefixRepeats` | file1.cs:12-15 | a lookahead `(?=(.*X){n})` at the start: either `.*` stops and X takes the next character, or `.*` takes it; it can hold only if the input has at least n characters |
| `PasswordPattern.ClassRun` | file1.cs:16 | `[A-Za-z0-9!@#$%^&*]` repeated k times from the start; such a run is inside the alphabet and holds no line feed |
| `PasswordPattern.EndAnchor` | file1.cs:16 | `$` at position k: the end of the input or just before a final line feed; at most one line feed follows k |
| `PasswordPattern.BodyMatches` | file1.cs:16 | `[A-Za-z0-9!@#$%^&*]{1,12}$` from the start; a match needs 1 to 13 characters and an allowed first character |
| `PasswordPattern.Matches` | file1.cs:12-20 | the whole pattern as `IsMatch` decides it: the four lookaheads and the final part; a match needs 4 to 13 characters and an allowed first character |
| `PasswordPattern.DecimalDigitOnAlphabet` | file1.cs:14-16 | inside the allowed alphabet `\d` matches exactly `0`-`9` |
| `PasswordPattern.NoAtomMatchesLineFeed` | file1.cs:12-16 | no character set of the pattern contains a line feed |
| `PasswordPattern.PrefixRepeatsCounts` | file1.cs:12-15 | on line-feed-free input, the lookahead `(.*X){n}` holds iff at least n characters match X |
| `PasswordPattern.PrefixRepeatsLineFeed` | file1.cs:12-15 | appending a line feed changes no lookahead |
| `PasswordPattern.PrefixRepeatsSkip` | file1.cs:12-15 | `.*` passes over any line-feed-free prefix |
| `PasswordPattern.MatchesWithoutLineFeed` | file1.cs:12-20 | for input without line feeds, the pattern matches iff the counting rule holds (both directions) |
| `PasswordPattern.ValidMatches` | file1.cs:12-20 | every string meeting the counting rule matches |
| `PasswordPattern.MatchesWithFinalLineFeed` | file1.cs:16 | the `$` rule: a line-feed-free string followed by `'\n'` matches iff the string alone meets the rule |
| `PasswordPattern.InnerLineFeedRejected` | file1.cs:16 | a line feed anywhere before the last position rules out a match |
| `PasswordPattern.MatchesCharacterization` | file1.cs:12-20 | exactly the valid strings and the valid strings followed by one line feed match |
| `PasswordPattern.AcceptedMeetsMinimums` | file1.cs:12-15 | an accepted string has an upper-case letter, and at least 1 upper, 2 special, 2 ASCII digit and 4 lower-case characters |
| `PasswordPattern.MinimumsUpToLineFeed` | file1.cs:12-16 | the minimums hold of a valid string with or without a trailing line feed |
| `PasswordPattern.FinalLineFeedCounts` | file1.cs:12-16 | a final line feed leaves every class count unchanged |
| `PasswordPattern.OutsideAlphabetRejected` | file1.cs:16 | any character outside `A-Za-z0-9!@#$%^&*`, at any position other than a final line feed, causes rejection |
| `PasswordPattern.AcceptedLength` | file1.cs:16 | an accepted string has 9 to 13 characters, and 9 to 12 if it has no line feed |
| `PasswordPattern.EmptyRejected` | file1.cs:16 | the empty string is rejected |
| `PasswordPattern.MinimumsSuffice` | file1.cs:12-16 | completeness: the four minimums, the alphabet and length at most 12 suffice for a match |
| `PasswordPattern.NonAsciiDigitsSatisfyLookahead` | file1.cs:14 | `\d` alone admits non-ASCII decimal digits (two Arabic-Indic digits satisfy the digit lookahead) |
| `PasswordPattern.NonAsciiDigitsRejected` | file1.cs:14-16 | that same string is rejected by the final character class |
| `PasswordChecker.Verdict` | file1.cs:20-27 | the message is one of the two literals; it is the valid message iff the pattern matches, and iff the counting rule holds when the line has no line feed |
| `PasswordChecker.MessagesDistinct` | file1.cs:22-26 | the two messages differ |
| `PasswordChecker.LongLineInvalid` | file1.cs:16-27 | a line longer than 12 characters is reported invalid |
| `PasswordChecker.ExampleHeadCounts` | file1.cs:12-16 | class counts of the prefix `Ab12!@` |
| `PasswordChecker.ExampleFamilyValid` | file1.cs:12-16 | `Ab12!@` followed by 3 to 6 lower-case letters meets the rule |
| `PasswordChecker.ShortExampleAccepted` | file1.cs:12-27 | `Ab12!@cdef` is reported valid |
| `PasswordChecker.LongestExampleAccepted` | file1.cs:12-27 | `Ab12!@cdefgh`, 12 characters, is reported valid |
| `PasswordChecker.LowerOnlyExampleRejected` | file1.cs:12-27 | `abcdefghijk` is reported invalid (no upper-case letter) |
| `PasswordChecker.FewDigitsExampleRejected` | file1.cs:12-27 | `A1!bcde` is reported invalid (one digit) |
| `PasswordChecker.OverlongExampleRejected` | file1.cs:12-27 | `Ab12!@cdefghi`, 13 characters, is reported invalid |

## Left out

- Console I/O is not modelled: the prompt, `Console.ReadLine` and `Console.WriteLine` (file1.cs:8-9, 22, 26). `Verdict` returns the message instead of printing it.
- The `null` that `ReadLine` returns at end of input is not modelled. `IsMatch` would throw on it, which is an environment failure. The model's input is always a string.
- The regular-expression engine is not modelled: its backtracking and its construction (file1.cs:18). Only the set of strings the pattern matches is modelled.
- Characters are Unicode scalar values here; .NET strings are UTF-16 code units. The two differ only on characters outside the Basic Multilingual Plane. Those are outside the allowed alphabet and rejected either way, but the model counts such a character as one position, not two. A .NET string can also hold an unpaired surrogate code unit, which a Dafny `char` cannot represent. The final character class rejects such a string too, so no verdict is lost.
- `IsDecimalDigit` lists the Unicode decimal-digit (Nd) ranges that fit in one UTF-16 code unit. The exact table depends on the .NET version. Only its ASCII part changes a verdict, because the final class excludes every other digit.
- Idempotence is not stated as a lemma: `Verdict` is a function of its input alone.
