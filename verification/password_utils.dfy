/**
 * The front end's credential policy (lib/password-utils.ts): the strength
 * rules with the personal-name exclusion, the fixed onboarding password, the
 * Base64 "hash", and the 30-day expiry. Times are integer milliseconds and
 * the current time `now` is a parameter.
 */
module PasswordUtils {
  import opened Text
  import opened Seqs
  import Base64

  /** One day in milliseconds. */
  const DayMs: int := 86_400_000

  /** The lifetime of a password: 30 days in milliseconds. */
  const ExpiryMs: int := 30 * DayMs

  /** The regular-expression class of special characters the front end accepts (30 characters). */
  const Special: string := "!@#$%^&*()_+-=[]{};':\"\\|,.<>/?"

  /** The reasons a password is refused, in the order the checks run. */
  datatype Issue = TooShort | NoUppercase | NoLowercase | NoSpecial | ContainsName

  /** The text the front end shows for each reason. */
  function Message(i: Issue): string
  {
    match i
    case TooShort => "Password must be at least 8 characters long"
    case NoUppercase => "Password must contain at least 1 uppercase letter"
    case NoLowercase => "Password must contain at least 1 lowercase letter"
    case NoSpecial => "Password must contain at least 1 special character"
    case ContainsName => "Password cannot contain your name"
  }

  /** The result of a validation: a verdict and the reasons, in order. */
  datatype Validation = Validation(valid: bool, errors: seq<Issue>)

  /** The password every new or reset account starts with. */
  function UniversalPassword(): string { "Pass@123" }

  /** The reason `i` when its check fails, nothing otherwise. */
  function Flag(fails: bool, i: Issue): seq<Issue>
  {
    if fails then [i] else []
  }

  /** The four character-class checks, each run on its own, in source order. */
  function RuleIssues(password: string): seq<Issue>
  {
    Flag(Utf16Length(password) < 8, TooShort)
    + Flag(!HasUpper(password), NoUppercase)
    + Flag(!HasLower(password), NoLowercase)
    + Flag(!HasAnyOf(password, Special), NoSpecial)
  }

  /** Each class check reports its reason exactly when it fails, at most once, and never the name reason. */
  lemma RuleIssuesSpec(password: string)
    ensures TooShort in RuleIssues(password) <==> Utf16Length(password) < 8
    ensures NoUppercase in RuleIssues(password) <==> !HasUpper(password)
    ensures NoLowercase in RuleIssues(password) <==> !HasLower(password)
    ensures NoSpecial in RuleIssues(password) <==> !HasAnyOf(password, Special)
    ensures ContainsName !in RuleIssues(password)
    ensures |RuleIssues(password)| <= 4
  {
    var a := Flag(Utf16Length(password) < 8, TooShort);
    var b := Flag(!HasUpper(password), NoUppercase);
    var c := Flag(!HasLower(password), NoLowercase);
    var d := Flag(!HasAnyOf(password, Special), NoSpecial);
    assert RuleIssues(password) == a + b + c + d;
    InFour(a, b, c, d, TooShort);
    InFour(a, b, c, d, NoUppercase);
    InFour(a, b, c, d, NoLowercase);
    InFour(a, b, c, d, NoSpecial);
    InFour(a, b, c, d, ContainsName);
  }

  /** Membership in four concatenated lists is membership in one of them. */
  lemma InFour(a: seq<Issue>, b: seq<Issue>, c: seq<Issue>, d: seq<Issue>, x: Issue)
    ensures x in a + b + c + d <==> x in a || x in b || x in c || x in d
  {
    assert a + b + c + d == a + (b + (c + d));
  }

  /** The name split into its lower-cased, single-space separated parts. */
  function NameParts(name: string): seq<string>
  {
    Split(ToLower(name), ' ')
  }

  /** A name part of more than two UTF-16 units that occurs in the lower-cased password. */
  predicate NameHit(part: string, lowerPassword: string)
  {
    Utf16Length(part) > 2 && Contains(lowerPassword, part)
  }

  /** The name reasons: one `ContainsName` per name part that hits, in the order of the parts. */
  function NameIssues(parts: seq<string>, lowerPassword: string): seq<Issue>
  {
    if parts == [] then []
    else
      NameIssues(parts[..|parts| - 1], lowerPassword)
      + Flag(NameHit(parts[|parts| - 1], lowerPassword), ContainsName)
  }

  /** One more name part adds its own reason, if any, at the end. */
  lemma NameIssuesStep(parts: seq<string>, i: int, lowerPassword: string)
    requires 0 <= i < |parts|
    ensures NameIssues(parts[..i + 1], lowerPassword)
      == NameIssues(parts[..i], lowerPassword) + Flag(NameHit(parts[i], lowerPassword), ContainsName)
  {
    assert parts[..i + 1][..i] == parts[..i];
  }

  /** The filter "the part hits the lower-cased password". */
  function HitsIn(lowerPassword: string): string -> bool
  {
    (part: string) => NameHit(part, lowerPassword)
  }

  /**
   * The name rule adds only `ContainsName` entries, one per part that hits,
   * and so none exactly when no part hits; parts of two units or fewer never hit.
   */
  lemma {:induction false} NameIssuesSpec(parts: seq<string>, lowerPassword: string)
    ensures |NameIssues(parts, lowerPassword)| <= |parts|
    ensures |NameIssues(parts, lowerPassword)| == |Filter(parts, HitsIn(lowerPassword))|
    ensures forall k :: 0 <= k < |NameIssues(parts, lowerPassword)| ==> NameIssues(parts, lowerPassword)[k] == ContainsName
    ensures NameIssues(parts, lowerPassword) == [] <==> forall k :: 0 <= k < |parts| ==> !NameHit(parts[k], lowerPassword)
  {
    NameIssuesCount(parts, lowerPassword);
    if parts != [] {
      var init := parts[..|parts| - 1];
      NameIssuesSpec(init, lowerPassword);
      assert forall k :: 0 <= k < |init| ==> init[k] == parts[k];
    }
  }

  /** One `ContainsName` entry per part that hits, counted by induction on the parts. */
  lemma {:induction false} NameIssuesCount(parts: seq<string>, lowerPassword: string)
    ensures |NameIssues(parts, lowerPassword)| == |Filter(parts, HitsIn(lowerPassword))|
  {
    if parts != [] {
      var init, last := parts[..|parts| - 1], parts[|parts| - 1];
      NameIssuesCount(init, lowerPassword);
      assert parts == init + [last];
      FilterAppend(init, [last], HitsIn(lowerPassword));
      assert [last][1..] == [];
    }
  }

  /** Every reason `validatePassword` reports for `password` and `name`, in order. */
  function PolicyIssues(password: string, name: string): seq<Issue>
  {
    RuleIssues(password) + NameIssues(NameParts(name), ToLower(password))
  }

  /**
   * Each check reports its reason exactly when it fails, none short-circuiting
   * another; the list is empty exactly when every check passes.
   */
  lemma PolicyIssuesSpec(password: string, name: string)
    ensures TooShort in PolicyIssues(password, name) <==> Utf16Length(password) < 8
    ensures NoUppercase in PolicyIssues(password, name) <==> !HasUpper(password)
    ensures NoLowercase in PolicyIssues(password, name) <==> !HasLower(password)
    ensures NoSpecial in PolicyIssues(password, name) <==> !HasAnyOf(password, Special)
    ensures ContainsName in PolicyIssues(password, name) <==>
      exists k :: 0 <= k < |NameParts(name)| && NameHit(NameParts(name)[k], ToLower(password))
    ensures PolicyIssues(password, name) == [] <==>
      Utf16Length(password) >= 8 && HasUpper(password) && HasLower(password)
      && HasAnyOf(password, Special)
      && forall k :: 0 <= k < |NameParts(name)| ==> !NameHit(NameParts(name)[k], ToLower(password))
  {
    RuleIssuesSpec(password);
    NameIssuesSpec(NameParts(name), ToLower(password));
    var names := NameIssues(NameParts(name), ToLower(password));
    assert names != [] ==> names[0] == ContainsName;
  }

  /** The first half of `validatePassword`: the four class checks, each pushing its reason when it fails. */
  method CheckClasses(password: string) returns (errors: seq<Issue>)
    ensures errors == RuleIssues(password)
  {
    var a := Flag(Utf16Length(password) < 8, TooShort);
    var b := Flag(!HasUpper(password), NoUppercase);
    var c := Flag(!HasLower(password), NoLowercase);
    var d := Flag(!HasAnyOf(password, Special), NoSpecial);
    errors := [];
    if Utf16Length(password) < 8 {
      errors := errors + [TooShort];
    }
    assert errors == a;
    if !HasUpper(password) {
      errors := errors + [NoUppercase];
    }
    assert errors == a + b;
    if !HasLower(password) {
      errors := errors + [NoLowercase];
    }
    assert errors == a + b + c;
    if !HasAnyOf(password, Special) {
      errors := errors + [NoSpecial];
    }
    assert errors == a + b + c + d;
  }

  /**
   * `validatePassword`: the class checks, then a walk over the name parts
   * pushing one reason per hit; the password is valid when nothing was pushed.
   */
  method ValidatePassword(password: string, employeeName: string) returns (v: Validation)
    ensures v.errors == PolicyIssues(password, employeeName)
    ensures v.valid <==> v.errors == []
  {
    var errors := CheckClasses(password);
    var nameParts := Split(ToLower(employeeName), ' ');
    var lowerPassword := ToLower(password);
    for i := 0 to |nameParts|
      invariant errors == RuleIssues(password) + NameIssues(nameParts[..i], lowerPassword)
    {
      var part := nameParts[i];
      ghost var hit := Flag(NameHit(part, lowerPassword), ContainsName);
      NameIssuesStep(nameParts, i, lowerPassword);
      if Utf16Length(part) > 2 && Contains(lowerPassword, part) {
        errors := errors + [ContainsName];
      }
      assert errors == RuleIssues(password) + NameIssues(nameParts[..i], lowerPassword) + hit;
    }
    assert nameParts[..|nameParts|] == nameParts;
    v := Validation(|errors| == 0, errors);
  }

  /** The onboarding password passes the four class checks. */
  lemma UniversalMeetsRules()
    ensures RuleIssues(UniversalPassword()) == []
  {
    var p := UniversalPassword();
    assert IsUpper(p[0]);
    assert IsLower(p[1]);
    assert p[4] == '@' && Special[1] == '@';
  }

  /** Lower-casing the onboarding password gives "pass@123". */
  lemma UniversalLowered()
    ensures ToLower(UniversalPassword()) == "pass@123"
  {
    var l := ToLower(UniversalPassword());
    assert l[0] == 'p';
    assert forall i :: 1 <= i < 8 ==> l[i] == "pass@123"[i];
  }

  /** The onboarding password is refused exactly when a name part of three or more units occurs in "pass@123". */
  lemma UniversalOnlyNameCanFail(name: string)
    ensures PolicyIssues(UniversalPassword(), name) == NameIssues(NameParts(name), "pass@123")
  {
    UniversalMeetsRules();
    UniversalLowered();
    assert [] + NameIssues(NameParts(name), "pass@123") == NameIssues(NameParts(name), "pass@123");
  }

  /** The name "Pass" is the single part "pass". */
  lemma PassNameParts()
    ensures NameParts("Pass") == ["pass"]
  {
    var lower := ToLower("Pass");
    assert lower == "pass" by {
      assert lower[0] == 'p';
    }
    SplitWithoutSeparator(lower, ' ');
  }

  /** The part "pass" hits the lower-cased onboarding password. */
  lemma PassHitsUniversal()
    ensures NameHit("pass", "pass@123")
  {
    assert Utf16Length("pass") == 4;
    assert "pass" <= "pass@123";
  }

  /** An employee whose name is "Pass" cannot keep the onboarding password. */
  lemma UniversalRejectedForNamePass()
    ensures PolicyIssues(UniversalPassword(), "Pass") == [ContainsName]
  {
    UniversalOnlyNameCanFail("Pass");
    PassNameParts();
    PassHitsUniversal();
    assert ["pass"][..0] == [];
  }

  /** `hashPassword`: Base64 of the UTF-8 bytes. */
  function HashPassword(password: string): (h: string)
    ensures |h| == 4 * ((|Base64.Utf8(password)| + 2) / 3)
  {
    Base64.Encode(Base64.Utf8(password))
  }

  /** `verifyPassword`: recompute the hash and compare. */
  function VerifyPassword(password: string, hash: string): bool
  {
    HashPassword(password) == hash
  }

  /** A hash uses only the Base64 alphabet and the pad character. */
  lemma HashAlphabet(password: string)
    ensures forall i :: 0 <= i < |HashPassword(password)| ==>
      Base64.InAlphabet(HashPassword(password)[i]) || HashPassword(password)[i] == '='
  {
    Base64.EncodeAlphabet(Base64.Utf8(password));
  }

  /** A password verifies against the hash of exactly one password: itself. */
  lemma VerifyHashed(password: string, original: string)
    ensures VerifyPassword(password, HashPassword(original)) <==> password == original
  {
    if VerifyPassword(password, HashPassword(original)) {
      Base64.EncodeInjective(Base64.Utf8(password), Base64.Utf8(original));
      Base64.Utf8Injective(password, original);
    }
  }

  /** `getPasswordExpiryDate`: 30 days after `now`. */
  function PasswordExpiryDate(now: int): int
  {
    now + ExpiryMs
  }

  /** `isPasswordExpired`: strictly past the expiry instant. */
  predicate IsPasswordExpired(expiry: int, now: int)
  {
    now > expiry
  }

  /** `getDaysUntilExpiry`: the time left, in days, rounded up. */
  function DaysUntilExpiry(expiry: int, now: int): (days: int)
    ensures (days - 1) * DayMs < expiry - now <= days * DayMs
  {
    -((now - expiry) / DayMs)
  }

  /** A fresh password lasts 2,592,000,000 ms: it is still valid at that instant and expired one millisecond later. */
  lemma FreshExpiry(now: int)
    ensures PasswordExpiryDate(now) - now == 2_592_000_000
    ensures !IsPasswordExpired(PasswordExpiryDate(now), now + 2_592_000_000)
    ensures IsPasswordExpired(PasswordExpiryDate(now), now + 2_592_000_001)
    ensures DaysUntilExpiry(PasswordExpiryDate(now), now) == 30
  {
  }

  /** No days are left exactly when the expiry instant has been reached; expiry itself needs it to be passed. */
  lemma DaysLeftAndExpiry(expiry: int, now: int)
    ensures DaysUntilExpiry(expiry, now) <= 0 <==> expiry <= now
    ensures IsPasswordExpired(expiry, now) ==> DaysUntilExpiry(expiry, now) <= 0
    ensures !IsPasswordExpired(expiry, now) && DaysUntilExpiry(expiry, now) <= 0 <==> now == expiry
  {
  }
}
