/**
 * The login form's decision (components/login-form.tsx): the table of demo
 * accounts built at render time, the lookup that searches it before the
 * stored login list, and the guard chain that ends in a login, a forced
 * password change, or an error. Times are integer milliseconds.
 */
module LoginForm {
  import opened Wrappers
  import opened Seqs
  import opened Accounts
  import PasswordUtils

  /** A demo account as the form builds it: already onboarded, expiring 30 days after the render. */
  function DemoAccount(id: string, email: string, password: string, name: string, role: string, renderedAt: int): LoginEntry
  {
    LoginEntry(id, email, PasswordUtils.HashPassword(password), name, role, false, None,
      renderedAt + 30 * 24 * 60 * 60 * 1000)
  }

  /** The demo table: id, email, password, name and role of each of the eight demo accounts. */
  const DemoTable: seq<(string, string, string, string, string)> := [
    ("1", "admin@hospital.com", "Admin@123", "Admin User", "admin"),
    ("2", "doctor@hospital.com", "Doctor@123", "Dr. John Smith", "doctor"),
    ("3", "nurse@hospital.com", "Nurse@123", "Sarah Johnson", "nurse"),
    ("4", "receptionist@hospital.com", "Receptionist@123", "Emma Davis", "receptionist"),
    ("5", "attendant@hospital.com", "Attendant@123", "James Brown", "attendant"),
    ("6", "finance@hospital.com", "Finance@123", "Mike Wilson", "finance"),
    ("7", "lab@hospital.com", "Lab@123", "Dr. Lisa Chen", "lab"),
    ("8", "cleaner@hospital.com", "Cleaner@123", "Maria Garcia", "cleaner")]

  /** The eight demo accounts of a form rendered at `renderedAt`. */
  function DemoAccounts(renderedAt: int): seq<LoginEntry>
  {
    seq(|DemoTable|, k requires 0 <= k < |DemoTable| =>
      DemoAccount(DemoTable[k].0, DemoTable[k].1, DemoTable[k].2, DemoTable[k].3, DemoTable[k].4, renderedAt))
  }

  /** Every demo account is onboarded and expires exactly 30 days after the render. */
  lemma DemoAccountsFresh(renderedAt: int)
    ensures |DemoAccounts(renderedAt)| == 8
    ensures forall k :: 0 <= k < |DemoAccounts(renderedAt)| ==>
      !DemoAccounts(renderedAt)[k].firstLogin
      && DemoAccounts(renderedAt)[k].passwordExpiresAt == PasswordUtils.PasswordExpiryDate(renderedAt)
  {
  }

  /** The account a login attempt is checked against: a demo account with the email, otherwise the first stored one. */
  function LookUp(demo: seq<LoginEntry>, stored: seq<LoginEntry>, email: string): (found: Option<LoginEntry>)
    ensures found.Some? ==> found.value.email == email
    ensures found.None? <==>
      (forall j :: 0 <= j < |demo| ==> demo[j].email != email)
      && (forall j :: 0 <= j < |stored| ==> stored[j].email != email)
  {
    match Find(demo, HasEmail(email))
    case Some(u) => Some(u)
    case None => Find(stored, HasEmail(email))
  }

  /** What a login attempt leads to; all but an error carry the account. */
  datatype LoginOutcome =
    | InvalidCredentials
    | PasswordExpired(user: LoginEntry)
    | FirstLoginChange(user: LoginEntry)
    | LoggedIn(user: LoginEntry)

  /** The error text the form shows for an outcome; the empty text for none. */
  function ErrorText(o: LoginOutcome): string
  {
    match o
    case InvalidCredentials => "Invalid email or password"
    case PasswordExpired(_) => "Your password has expired. Please change it to continue."
    case _ => ""
  }

  /** An expiry is checked only when it is set (non-zero), and then it must have passed. */
  predicate ExpiredNow(user: LoginEntry, now: int)
  {
    user.passwordExpiresAt != 0 && PasswordUtils.IsPasswordExpired(user.passwordExpiresAt, now)
  }

  /** `handleLogin`'s guard chain: unknown account, wrong password, expired, first login, success. */
  function LoginDecision(demo: seq<LoginEntry>, stored: seq<LoginEntry>, email: string, password: string, now: int): (o: LoginOutcome)
    ensures o == InvalidCredentials <==>
      LookUp(demo, stored, email).None? || !PasswordUtils.VerifyPassword(password, LookUp(demo, stored, email).value.passwordHash)
    ensures !o.InvalidCredentials? ==> o.user == LookUp(demo, stored, email).value
    ensures o.PasswordExpired? <==> !o.InvalidCredentials? && ExpiredNow(o.user, now)
    ensures o.FirstLoginChange? <==> !o.InvalidCredentials? && !ExpiredNow(o.user, now) && o.user.firstLogin
    ensures o.LoggedIn? <==> !o.InvalidCredentials? && !ExpiredNow(o.user, now) && !o.user.firstLogin
  {
    match LookUp(demo, stored, email)
    case None => InvalidCredentials
    case Some(user) =>
      if user.passwordHash != PasswordUtils.HashPassword(password) then InvalidCredentials
      else if ExpiredNow(user, now) then PasswordExpired(user)
      else if user.firstLogin then FirstLoginChange(user)
      else LoggedIn(user)
  }

  /** An unknown email and a wrong password are reported with the same text. */
  lemma UnknownAndWrongAlike(demo: seq<LoginEntry>, stored: seq<LoginEntry>, email: string, password: string, now: int)
    ensures LookUp(demo, stored, email).None? ==>
      ErrorText(LoginDecision(demo, stored, email, password, now)) == "Invalid email or password"
    ensures (LookUp(demo, stored, email).Some?
      && LookUp(demo, stored, email).value.passwordHash != PasswordUtils.HashPassword(password)) ==>
      ErrorText(LoginDecision(demo, stored, email, password, now)) == "Invalid email or password"
  {
  }

  /** A demo account with the email shadows the stored list: whatever is stored, the outcome is the same. */
  lemma DemoShadowsStored(demo: seq<LoginEntry>, stored1: seq<LoginEntry>, stored2: seq<LoginEntry>,
                          email: string, password: string, now: int)
    requires exists j :: 0 <= j < |demo| && demo[j].email == email
    ensures LoginDecision(demo, stored1, email, password, now) == LoginDecision(demo, stored2, email, password, now)
  {
    assert Find(demo, HasEmail(email)).Some?;
  }

  /** Only the account's own password gets past the second guard. */
  lemma OnlyOwnPasswordPasses(demo: seq<LoginEntry>, stored: seq<LoginEntry>, email: string, password: string, secret: string, now: int)
    requires LookUp(demo, stored, email).Some?
    requires LookUp(demo, stored, email).value.passwordHash == PasswordUtils.HashPassword(secret)
    ensures !LoginDecision(demo, stored, email, password, now).InvalidCredentials? <==> password == secret
  {
    PasswordUtils.VerifyHashed(password, secret);
  }

  /** No two demo accounts share an email. */
  lemma DemoEmailsDistinct()
    ensures forall i, j :: 0 <= i < j < |DemoTable| ==> DemoTable[i].1 != DemoTable[j].1
  {
    forall i, j | 0 <= i < j < |DemoTable|
      ensures DemoTable[i].1 != DemoTable[j].1
    {
      assert |DemoTable[i].1| != |DemoTable[j].1| || DemoTable[i].1[0] != DemoTable[j].1[0];
    }
  }

  /** An onboarded, unexpired demo account whose email no other demo account has logs in with its password. */
  lemma UniqueEmailLogsIn(demo: seq<LoginEntry>, stored: seq<LoginEntry>, k: int, password: string, now: int)
    requires 0 <= k < |demo|
    requires forall j :: 0 <= j < |demo| && j != k ==> demo[j].email != demo[k].email
    requires demo[k].passwordHash == PasswordUtils.HashPassword(password)
    requires !demo[k].firstLogin && !ExpiredNow(demo[k], now)
    ensures LoginDecision(demo, stored, demo[k].email, password, now) == LoggedIn(demo[k])
  {
    var p := HasEmail(demo[k].email);
    assert p(demo[k]);
    assert FirstIndex(demo, p) == k;
  }

  /** Every demo account logs in with its own password until its expiry instant, whatever is stored. */
  lemma DemoLogsIn(renderedAt: int, stored: seq<LoginEntry>, k: int, now: int)
    requires 0 <= k < |DemoTable|
    requires now <= renderedAt + 2_592_000_000
    ensures LoginDecision(DemoAccounts(renderedAt), stored, DemoTable[k].1, DemoTable[k].2, now)
      == LoggedIn(DemoAccounts(renderedAt)[k])
  {
    var demo := DemoAccounts(renderedAt);
    DemoEmailsDistinct();
    assert forall j :: 0 <= j < |demo| ==> demo[j].email == DemoTable[j].1;
    assert demo[k].passwordHash == PasswordUtils.HashPassword(DemoTable[k].2);
    UniqueEmailLogsIn(demo, stored, k, DemoTable[k].2, now);
  }

  /** The logged warning: fewer than 8 days left, rounding up, counting from now when no expiry is set. */
  predicate ExpiryWarning(user: LoginEntry, now: int)
  {
    PasswordUtils.DaysUntilExpiry(if user.passwordExpiresAt != 0 then user.passwordExpiresAt else now, now) <= 7
  }

  /** The warning fires exactly when no expiry is set or at most 7 days (in milliseconds) are left. */
  lemma ExpiryWarningSpec(user: LoginEntry, now: int)
    ensures ExpiryWarning(user, now) <==>
      user.passwordExpiresAt == 0 || user.passwordExpiresAt - now <= 7 * PasswordUtils.DayMs
  {
  }

  /** The current user `onPasswordChanged` stores: the pending account, onboarded, with a fresh expiry. */
  function AfterChange(pending: LoginEntry, now: int): (u: LoginEntry)
    ensures !u.firstLogin && u.passwordExpiresAt - now == 2_592_000_000
    ensures u.(firstLogin := pending.firstLogin, passwordExpiresAt := pending.passwordExpiresAt) == pending
  {
    pending.(firstLogin := false, passwordExpiresAt := now + 30 * 24 * 60 * 60 * 1000)
  }
}
