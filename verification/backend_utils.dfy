/**
 * The back end's credential helpers (backend/utils.py): the strength rules
 * with the whole-name exclusion, the fixed onboarding password, an ideal
 * password hash standing for bcrypt, the 30-day expiry, and the split of a
 * shift into worked and overtime hours. Times are integer microseconds (the
 * resolution of Python's `datetime`) and the current time `now` is a parameter.
 */
module BackendUtils {
  import opened Text
  import opened Rounding
  import opened PasswordUtils

  /** One day in microseconds. */
  const DayUs: int := 86_400_000_000

  /** One hour in microseconds. */
  const HourUs: int := 3_600_000_000

  /** The regular-expression class of special characters the back end accepts (11 characters). */
  const BackSpecial: string := "!@#$%^&*_+-"

  /** The text the back end reports for each reason. */
  function BackMessage(i: Issue): string
  {
    match i
    case TooShort => "Password must be at least 8 characters long"
    case NoUppercase => "Password must contain at least one uppercase letter"
    case NoLowercase => "Password must contain at least one lowercase letter"
    case NoSpecial => "Password must contain at least one special character"
    case ContainsName => "Password cannot contain your name"
  }

  /** The back end's texts for a list of reasons, in the same order. */
  function BackMessages(issues: seq<Issue>): (texts: seq<string>)
    ensures |texts| == |issues|
    ensures forall k :: 0 <= k < |issues| ==> texts[k] == BackMessage(issues[k])
  {
    if issues == [] then [] else [BackMessage(issues[0])] + BackMessages(issues[1..])
  }

  /** `generate_universal_password` */
  function BackUniversalPassword(): string { "Pass@123" }

  /** The five checks of `validate_password`, in order; Python's `len` counts code points. */
  function BackIssues(password: string, name: string): seq<Issue>
  {
    Flag(|password| < 8, TooShort)
    + Flag(!HasUpper(password), NoUppercase)
    + Flag(!HasLower(password), NoLowercase)
    + Flag(!HasAnyOf(password, BackSpecial), NoSpecial)
    + Flag(Contains(ToLower(password), ToLower(name)), ContainsName)
  }

  /**
   * Each check reports its reason exactly when it fails, none short-circuiting
   * another; the name check is one substring test of the whole lower-cased name.
   */
  lemma BackIssuesSpec(password: string, name: string)
    ensures TooShort in BackIssues(password, name) <==> |password| < 8
    ensures NoUppercase in BackIssues(password, name) <==> !HasUpper(password)
    ensures NoLowercase in BackIssues(password, name) <==> !HasLower(password)
    ensures NoSpecial in BackIssues(password, name) <==> !HasAnyOf(password, BackSpecial)
    ensures ContainsName in BackIssues(password, name) <==> Contains(ToLower(password), ToLower(name))
    ensures BackIssues(password, name) == [] <==>
      |password| >= 8 && HasUpper(password) && HasLower(password)
      && HasAnyOf(password, BackSpecial) && !Contains(ToLower(password), ToLower(name))
  {
    var a := Flag(|password| < 8, TooShort);
    var b := Flag(!HasUpper(password), NoUppercase);
    var c := Flag(!HasLower(password), NoLowercase);
    var d := Flag(!HasAnyOf(password, BackSpecial), NoSpecial);
    var e := Flag(Contains(ToLower(password), ToLower(name)), ContainsName);
    assert BackIssues(password, name) == a + b + c + d + e;
    assert forall x :: x in a + b + c + d + e <==> x in a || x in b || x in c || x in d || x in e;
  }

  /**
   * `validate_password`: appends the reason of each failed check; with no
   * failure the answer is `(True, "Password is valid")`, otherwise `False`
   * and the texts joined with "; ".
   */
  method ValidatePassword(password: string, employeeName: string) returns (ok: bool, message: string)
    ensures ok <==> BackIssues(password, employeeName) == []
    ensures ok ==> message == "Password is valid"
    ensures !ok ==> message == Join(BackMessages(BackIssues(password, employeeName)), "; ")
  {
    var errors: seq<Issue> := [];
    if |password| < 8 {
      errors := errors + [TooShort];
    }
    ghost var afterTooShort := errors;
    if !HasUpper(password) {
      errors := errors + [NoUppercase];
    }
    ghost var afterNoUppercase := errors;
    if !HasLower(password) {
      errors := errors + [NoLowercase];
    }
    ghost var afterNoLowercase := errors;
    if !HasAnyOf(password, BackSpecial) {
      errors := errors + [NoSpecial];
    }
    ghost var afterNoSpecial := errors;
    if Contains(ToLower(password), ToLower(employeeName)) {
      errors := errors + [ContainsName];
    }
    assert afterTooShort == Flag(|password| < 8, TooShort);
    assert afterNoUppercase == afterTooShort + Flag(!HasUpper(password), NoUppercase);
    assert afterNoLowercase == afterNoUppercase + Flag(!HasLower(password), NoLowercase);
    assert afterNoSpecial == afterNoLowercase + Flag(!HasAnyOf(password, BackSpecial), NoSpecial);
    assert errors == afterNoSpecial + Flag(Contains(ToLower(password), ToLower(employeeName)), ContainsName);
    assert errors == BackIssues(password, employeeName);
    if |errors| > 0 {
      return false, Join(BackMessages(errors), "; ");
    }
    return true, "Password is valid";
  }

  /** An empty employee name is contained in every password, so it always fails the name check. */
  lemma EmptyNameAlwaysFails(password: string)
    ensures ContainsName in BackIssues(password, "")
  {
    BackIssuesSpec(password, "");
    EmptyIsContained(ToLower(password));
  }

  /** The onboarding password is long enough and has an upper-case, a lower-case and a special character. */
  lemma BackUniversalMeetsClasses()
    ensures |BackUniversalPassword()| >= 8
    ensures HasUpper(BackUniversalPassword()) && HasLower(BackUniversalPassword())
    ensures HasAnyOf(BackUniversalPassword(), BackSpecial)
  {
    var p := BackUniversalPassword();
    assert IsUpper(p[0]);
    assert IsLower(p[1]);
    assert p[4] == '@' && BackSpecial[1] == '@';
  }

  /** The onboarding password is accepted exactly for the names whose lower-cased form does not occur in "pass@123". */
  lemma BackUniversalValidFor(name: string)
    ensures BackIssues(BackUniversalPassword(), name) == [] <==> !Contains("pass@123", ToLower(name))
  {
    var p := BackUniversalPassword();
    BackUniversalMeetsClasses();
    BackIssuesSpec(p, name);
    assert p == UniversalPassword();
    UniversalLowered();
  }

  /** An ideal password hash standing for bcrypt: a salt chosen at hashing time and the secret it protects. */
  datatype PasswordHash = Bcrypt(salt: int, secret: string)

  /** `hash_password`, with the random salt as a parameter. */
  function HashPassword(password: string, salt: int): PasswordHash
  {
    Bcrypt(salt, password)
  }

  /** `verify_password`: whether the password is the one the hash protects. */
  predicate VerifyPassword(password: string, hash: PasswordHash)
  {
    hash.secret == password
  }

  /** A password verifies against a hash exactly when it is the password that was hashed, whatever the salt. */
  lemma VerifyHashed(password: string, original: string, salt: int)
    ensures VerifyPassword(password, HashPassword(original, salt)) <==> password == original
  {
  }

  /** `get_password_expiry_date`: 30 days after `now`. */
  function PasswordExpiryDate(now: int): int
  {
    now + 30 * DayUs
  }

  /** `is_password_expired`: strictly past the expiry instant. */
  predicate IsPasswordExpired(expiry: int, now: int)
  {
    now > expiry
  }

  /** `get_days_until_expiry`: `timedelta.days`, the whole days left rounded down. */
  function DaysUntilExpiry(expiry: int, now: int): (days: int)
    ensures days * DayUs <= expiry - now < (days + 1) * DayUs
  {
    (expiry - now) / DayUs
  }

  /** A fresh back-end password is still valid at exactly 30 days and expired a microsecond later; 30 whole days are left at issue. */
  lemma FreshExpiry(now: int)
    ensures !IsPasswordExpired(PasswordExpiryDate(now), now + 30 * DayUs)
    ensures IsPasswordExpired(PasswordExpiryDate(now), now + 30 * DayUs + 1)
    ensures DaysUntilExpiry(PasswordExpiryDate(now), now) == 30
  {
  }

  /** An expired password has a negative number of days left; a valid one has none negative. */
  lemma DaysLeftAndExpiry(expiry: int, now: int)
    ensures IsPasswordExpired(expiry, now) <==> DaysUntilExpiry(expiry, now) < 0
  {
  }

  /** The hours of a shift given in microseconds, as an exact real. */
  function ShiftHours(clockIn: int, clockOut: int): real
  {
    (clockOut - clockIn) as real / HourUs as real
  }

  /** The split before rounding: regular hours capped at 8, the excess as overtime. */
  function SplitHours(total: real): (split: (real, real))
    ensures split.0 <= 8.0 && split.1 >= 0.0
    ensures split.0 + split.1 == total
    ensures total <= 8.0 ==> split.0 == total && split.1 == 0.0
    ensures total >= 8.0 ==> split.0 == 8.0
  {
    (if total < 8.0 then total else 8.0, if 0.0 > total - 8.0 then 0.0 else total - 8.0)
  }

  /** `calculate_worked_hours`: the capped regular hours and the overtime, each rounded to 2 decimals. */
  function CalculateWorkedHours(clockIn: int, clockOut: int): (hours: (real, real))
  {
    var split := SplitHours(ShiftHours(clockIn, clockOut));
    (Round2HalfEven(split.0), Round2HalfEven(split.1))
  }

  /**
   * After rounding the two parts still add up to the rounded shift, regular
   * hours never exceed 8 and overtime is never negative.
   */
  lemma WorkedHoursAddUp(clockIn: int, clockOut: int)
    ensures CalculateWorkedHours(clockIn, clockOut).0 + CalculateWorkedHours(clockIn, clockOut).1
      == Round2HalfEven(ShiftHours(clockIn, clockOut))
    ensures CalculateWorkedHours(clockIn, clockOut).0 <= 8.0
    ensures CalculateWorkedHours(clockIn, clockOut).1 >= 0.0
  {
    var total := ShiftHours(clockIn, clockOut);
    var split := SplitHours(total);
    RoundHundredths(0);
    RoundHundredths(800);
    if total >= 8.0 {
      Round2HalfEvenShift(total - 8.0, 8);
      assert total - 8.0 + 8 as real == total;
    } else {
      Round2HalfEvenMonotone(total, 8.0);
    }
  }
}
