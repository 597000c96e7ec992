/**
 * Where the front-end policy (lib/password-utils.ts) and the back-end policy
 * (backend/utils.py) disagree: the special-character set, the name rule,
 * the length measure and the rounding of the days left.
 */
module PolicyDifferences {
  import opened Text
  import PasswordUtils
  import BackendUtils

  /** Every special character the back end accepts is accepted by the front end, so a back-end pass is a front-end pass. */
  lemma BackSpecialWithinFront(password: string)
    ensures HasAnyOf(password, BackendUtils.BackSpecial) ==> HasAnyOf(password, PasswordUtils.Special)
  {
    var front := PasswordUtils.Special;
    assert forall i :: 0 <= i < |BackendUtils.BackSpecial| ==> BackendUtils.BackSpecial[i] in front by {
      assert front[0] == '!' && front[1] == '@' && front[2] == '#' && front[3] == '$';
      assert front[4] == '%' && front[5] == '^' && front[6] == '&' && front[7] == '*';
      assert front[10] == '_' && front[11] == '+' && front[12] == '-';
    }
    if HasAnyOf(password, BackendUtils.BackSpecial) {
      var i :| 0 <= i < |password| && password[i] in BackendUtils.BackSpecial;
      assert password[i] in front;
    }
  }

  /** `(` is a special character for the front end only. */
  lemma ParenOnlyFrontSpecial()
    ensures HasAnyOf("Password(1", PasswordUtils.Special)
    ensures !HasAnyOf("Password(1", BackendUtils.BackSpecial)
  {
    var p := "Password(1";
    assert p[8] == '(' && PasswordUtils.Special[8] == '(';
    assert forall i :: 0 <= i < |p| ==> p[i] !in BackendUtils.BackSpecial by {
      assert p == "Password(1";
    }
  }

  /** "Password(1" has a special character for the front end but none for the back end. */
  lemma SpecialSetWitness(name: string)
    ensures PasswordUtils.NoSpecial !in PasswordUtils.RuleIssues("Password(1")
    ensures PasswordUtils.NoSpecial in BackendUtils.BackIssues("Password(1", name)
  {
    ParenOnlyFrontSpecial();
    PasswordUtils.RuleIssuesSpec("Password(1");
    BackendUtils.BackIssuesSpec("Password(1", name);
  }

  /** A password too short for the front end (in UTF-16 units) is too short for the back end (in code points). */
  lemma LengthRuleStricterInBack(password: string, name: string)
    ensures PasswordUtils.TooShort in PasswordUtils.RuleIssues(password) ==> PasswordUtils.TooShort in BackendUtils.BackIssues(password, name)
  {
    PasswordUtils.RuleIssuesSpec(password);
    BackendUtils.BackIssuesSpec(password, name);
  }

  /** Seven code points, one outside the Basic Multilingual Plane, are eight UTF-16 units. */
  lemma AstralLength()
    ensures |"Pa@123\U{1F600}"| == 7 && Utf16Length("Pa@123\U{1F600}") == 8
  {
    var p := "Pa@123\U{1F600}";
    assert p[6] as int >= 0x10000;
    assert p[1..] == "a@123\U{1F600}";
    Utf16LengthBmp("Pa@123");
    assert p == "Pa@123" + [p[6]];
  }

  /** Seven code points, one outside the Basic Multilingual Plane: long enough for the front end, too short for the back end. */
  lemma LengthWitness(name: string)
    ensures PasswordUtils.TooShort !in PasswordUtils.RuleIssues("Pa@123\U{1F600}")
    ensures PasswordUtils.TooShort in BackendUtils.BackIssues("Pa@123\U{1F600}", name)
  {
    AstralLength();
    PasswordUtils.RuleIssuesSpec("Pa@123\U{1F600}");
    BackendUtils.BackIssuesSpec("Pa@123\U{1F600}", name);
  }

  /** For a one-word name of three or more units the two name rules agree. */
  lemma NameRulesAgreeOnOneWord(password: string, name: string)
    requires ' ' !in name && Utf16Length(name) > 2
    ensures PasswordUtils.ContainsName in PasswordUtils.PolicyIssues(password, name)
      <==> PasswordUtils.ContainsName in BackendUtils.BackIssues(password, name)
  {
    PasswordUtils.PolicyIssuesSpec(password, name);
    BackendUtils.BackIssuesSpec(password, name);
    var lower := ToLower(name);
    assert forall k :: 0 <= k < |lower| ==> lower[k] != ' ';
    SplitWithoutSeparator(lower, ' ');
    Utf16LengthLower(name);
  }

  /** Lower-casing ASCII letters keeps the UTF-16 length. */
  lemma {:induction false} Utf16LengthLower(s: string)
    ensures Utf16Length(ToLower(s)) == Utf16Length(s)
  {
    if s != [] {
      Utf16LengthLower(s[1..]);
      assert ToLower(s)[1..] == ToLower(s[1..]);
    }
  }

  /** "Al" is one name part of two units, and "al" occurs in "always@1". */
  lemma ShortNameFacts()
    ensures PasswordUtils.NameParts("Al") == ["al"]
    ensures !PasswordUtils.NameHit("al", ToLower("Always@1"))
    ensures Contains(ToLower("Always@1"), ToLower("Al"))
  {
    var lower := ToLower("Al");
    assert lower == "al" by {
      assert lower[0] == 'a';
    }
    SplitWithoutSeparator(lower, ' ');
    Utf16LengthBmp("al");
    var lp := ToLower("Always@1");
    assert lp[..2] == "al";
  }

  /** A two-letter name is ignored by the front end but refused by the back end when the password holds it. */
  lemma ShortNameWitness()
    ensures PasswordUtils.ContainsName !in PasswordUtils.PolicyIssues("Always@1", "Al")
    ensures PasswordUtils.ContainsName in BackendUtils.BackIssues("Always@1", "Al")
  {
    ShortNameFacts();
    PasswordUtils.PolicyIssuesSpec("Always@1", "Al");
    BackendUtils.BackIssuesSpec("Always@1", "Al");
  }

  /** "Jane Doe" splits into "jane" and "doe". */
  lemma JaneDoeParts()
    ensures PasswordUtils.NameParts("Jane Doe") == ["jane", "doe"]
  {
    var lower := ToLower("Jane Doe");
    assert lower == "jane" + [' '] + "doe" by {
      assert lower[0] == 'j' && lower[5] == 'd';
    }
    SplitAtSeparator("jane", "doe", ' ');
    SplitWithoutSeparator("doe", ' ');
  }

  /** "jane" occurs in "janedoe@123" but "jane doe" does not. */
  lemma JaneDoeOccurrences()
    ensures PasswordUtils.NameHit("jane", ToLower("JaneDoe@123"))
    ensures !Contains(ToLower("JaneDoe@123"), ToLower("Jane Doe"))
  {
    var lp := ToLower("JaneDoe@123");
    Utf16LengthBmp("jane");
    assert lp[..4] == "jane";
    assert ToLower("Jane Doe")[4] == ' ';
    assert forall i :: 0 <= i < |lp| ==> lp[i] != ' ';
    MissingCharNotContained(lp, ToLower("Jane Doe"), ' ');
  }

  /** "Jane Doe" with "JaneDoe@123": a name part occurs, so the front end refuses; the whole name does not, so the back end accepts. */
  lemma WholeNameWitness()
    ensures PasswordUtils.ContainsName in PasswordUtils.PolicyIssues("JaneDoe@123", "Jane Doe")
    ensures PasswordUtils.ContainsName !in BackendUtils.BackIssues("JaneDoe@123", "Jane Doe")
  {
    JaneDoeParts();
    JaneDoeOccurrences();
    PasswordUtils.PolicyIssuesSpec("JaneDoe@123", "Jane Doe");
    BackendUtils.BackIssuesSpec("JaneDoe@123", "Jane Doe");
    assert PasswordUtils.NameParts("Jane Doe")[0] == "jane";
  }

  /**
   * The days left, for the same instants: the front end rounds up, the back end
   * (given microseconds) rounds down, so they differ by one unless the time left
   * is a whole number of days.
   */
  lemma DaysRoundingDiffers(expiryMs: int, nowMs: int)
    ensures PasswordUtils.DaysUntilExpiry(expiryMs, nowMs)
      - BackendUtils.DaysUntilExpiry(expiryMs * 1000, nowMs * 1000)
      == if (expiryMs - nowMs) % PasswordUtils.DayMs == 0 then 0 else 1
  {
    var x := expiryMs - nowMs;
    var q, r := x / PasswordUtils.DayMs, x % PasswordUtils.DayMs;
    assert x == q * PasswordUtils.DayMs + r;
    assert expiryMs * 1000 - nowMs * 1000 == q * BackendUtils.DayUs + r * 1000;
  }
}
