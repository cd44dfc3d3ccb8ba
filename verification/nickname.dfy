/** The nickname validator: a nickname is 1 to 10 characters, an ASCII
    letter followed by ASCII letters, digits and underscores.

    The source checks the length first and then matches the anchored pattern
    `^[A-Za-z][A-Za-z0-9_]{0,9}$`; `MatchesPattern` plays the pattern's part
    as a small matcher that consumes one character per step, and
    `WellFormed` is the rule as the relay documents it. */
module Nickname {

  const MaxLength: nat := 10

  predicate IsAsciiLetter(c: char) {
    'A' <= c <= 'Z' || 'a' <= c <= 'z'
  }

  predicate IsAsciiDigit(c: char) {
    '0' <= c <= '9'
  }

  /** The character class `[A-Za-z0-9_]`. */
  predicate IsWordChar(c: char) {
    IsAsciiLetter(c) || IsAsciiDigit(c) || c == '_'
  }

  /** The documented rule, stated position by position. */
  predicate WellFormed(nick: string) {
    && 1 <= |nick| <= MaxLength
    && IsAsciiLetter(nick[0])
    && forall i | 1 <= i < |nick| :: IsWordChar(nick[i])
  }

  /** Whether all of `s` matches `[A-Za-z0-9_]{0,budget}`. */
  function MatchRepeat(s: string, budget: nat): bool {
    if s == [] then true
    else budget > 0 && IsWordChar(s[0]) && MatchRepeat(s[1..], budget - 1)
  }

  /** Whether all of `s` matches `[A-Za-z][A-Za-z0-9_]{0,9}`. */
  function MatchesPattern(s: string): bool {
    |s| >= 1 && IsAsciiLetter(s[0]) && MatchRepeat(s[1..], MaxLength - 1)
  }

  /** `isValidNickname`. Every accepted nickname has 1 to 10 characters, an
      ASCII letter first and only word characters after it; the empty string
      and anything longer than 10 characters are refused outright. */
  function IsValidNickname(nick: string): (ok: bool)
    ensures |nick| == 0 || |nick| > MaxLength ==> !ok
    ensures ok ==> 1 <= |nick| <= MaxLength
    ensures ok ==> IsAsciiLetter(nick[0])
    ensures ok ==> forall i | 1 <= i < |nick| :: IsWordChar(nick[i])
  {
    if |nick| == 0 || |nick| > MaxLength then
      false
    else
      MatchRepeatSound(nick[1..], MaxLength - 1);
      MatchesPattern(nick)
  }

  lemma {:induction false} MatchRepeatSound(s: string, budget: nat)
    ensures MatchRepeat(s, budget) ==> |s| <= budget && forall i | 0 <= i < |s| :: IsWordChar(s[i])
    decreases |s|
  {
    if s != [] && MatchRepeat(s, budget) {
      MatchRepeatSound(s[1..], budget - 1);
      assert forall i | 1 <= i < |s| :: s[i] == s[1..][i - 1];
    }
  }

  lemma {:induction false} MatchRepeatComplete(s: string, budget: nat)
    requires |s| <= budget
    requires forall i | 0 <= i < |s| :: IsWordChar(s[i])
    ensures MatchRepeat(s, budget)
    decreases |s|
  {
    if s != [] {
      assert forall i | 0 <= i < |s[1..]| :: s[1..][i] == s[i + 1];
      MatchRepeatComplete(s[1..], budget - 1);
    }
  }

  /** The validator accepts exactly the well-formed nicknames. */
  lemma ValidIffWellFormed(nick: string)
    ensures IsValidNickname(nick) <==> WellFormed(nick)
  {
    if WellFormed(nick) {
      assert forall i | 0 <= i < |nick[1..]| :: nick[1..][i] == nick[i + 1];
      MatchRepeatComplete(nick[1..], MaxLength - 1);
    }
  }

  /** Examples: the shortest and longest accepted nicknames, and the ways a
      nickname is refused (leading digit, empty, too long, a hyphen). */
  lemma Examples()
    ensures IsValidNickname("A")
    ensures IsValidNickname("a1")
    ensures IsValidNickname("Ab_9Ab_9Ab")
    ensures !IsValidNickname("1abc")
    ensures !IsValidNickname("")
    ensures !IsValidNickname("Ab_9Ab_9Ab_")
    ensures !IsValidNickname("bad-name")
  {
    ValidIffWellFormed("A");
    ValidIffWellFormed("a1");
    ValidIffWellFormed("Ab_9Ab_9Ab");
    assert "bad-name"[3] == '-';
  }
}
