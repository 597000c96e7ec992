/**
 * The account records the front end keeps in the browser's key-value store:
 * full employee records (the `Employee` interface of
 * components/features/employee-management.tsx) and the shorter login entries
 * the login form looks up. Times are integer milliseconds; a time of 0 stands
 * for a missing (falsy) value.
 */
module Accounts {
  import opened Wrappers
  import PasswordUtils

  datatype Status = Active | Inactive

  /** An employee record of the `hospital_employees` list. */
  datatype Employee = Employee(
    id: string, name: string, email: string, role: string, phone: string,
    salary: real, status: Status, passwordHash: string, firstLogin: bool,
    passwordChangedAt: int, passwordExpiresAt: int, createdAt: int)

  /** A login entry of the `hospital_all_employees` list, or a demo account; `passwordChangedAt` is absent until a change. */
  datatype LoginEntry = LoginEntry(
    id: string, email: string, passwordHash: string, name: string, role: string,
    firstLogin: bool, passwordChangedAt: Option<int>, passwordExpiresAt: int)

  /** The test `e.id === id` on employee records. */
  function HasId(id: string): Employee -> bool
  {
    (e: Employee) => e.id == id
  }

  /** The test `u.id === id` on login entries. */
  function LoginHasId(id: string): LoginEntry -> bool
  {
    (u: LoginEntry) => u.id == id
  }

  /** The test `u.email === email` on login entries. */
  function HasEmail(email: string): LoginEntry -> bool
  {
    (u: LoginEntry) => u.email == email
  }

  /** One decimal digit. */
  function DigitChar(d: int): char
    requires 0 <= d < 10
  {
    ('0' as int + d) as char
  }

  /** The decimal digits of a natural number. */
  function Digits(n: nat): string
    decreases n
  {
    if n < 10 then [DigitChar(n)] else Digits(n / 10) + [DigitChar(n % 10)]
  }

  /** `n.toString()` for an integer. */
  function DecimalString(n: int): string
  {
    if n >= 0 then Digits(n) else "-" + Digits(-n)
  }

  /** The record `addEmployee` builds: id from the clock, active, on the onboarding password, which must be changed at first login. */
  function NewEmployee(name: string, email: string, role: string, phone: string, salary: real, now: int): (e: Employee)
    ensures e.status == Active && e.firstLogin
    ensures PasswordUtils.VerifyPassword(PasswordUtils.UniversalPassword(), e.passwordHash)
    ensures e.passwordChangedAt == now && e.createdAt == now
    ensures e.passwordExpiresAt - now == 2_592_000_000
  {
    Employee(DecimalString(now), name, email, role, phone, salary, Active,
      PasswordUtils.HashPassword(PasswordUtils.UniversalPassword()), true,
      now, PasswordUtils.PasswordExpiryDate(now), now)
  }

  /** The login entry `addEmployee` pushes beside a new record: the same identity, hash and expiry, and a first login pending. */
  function LoginOf(e: Employee): (l: LoginEntry)
    ensures l.id == e.id && l.email == e.email && l.passwordHash == e.passwordHash
    ensures l.name == e.name && l.role == e.role && l.passwordExpiresAt == e.passwordExpiresAt
    ensures l.firstLogin && l.passwordChangedAt.None?
  {
    LoginEntry(e.id, e.email, e.passwordHash, e.name, e.role, true, None, e.passwordExpiresAt)
  }

  /** `resetPassword` on a record: back to the onboarding password, first login pending, a fresh expiry. */
  function ResetEmployee(e: Employee, now: int): Employee
  {
    e.(passwordHash := PasswordUtils.HashPassword(PasswordUtils.UniversalPassword()),
       firstLogin := true, passwordExpiresAt := PasswordUtils.PasswordExpiryDate(now))
  }

  /** `resetPassword` on a login entry. */
  function ResetLogin(l: LoginEntry, now: int): LoginEntry
  {
    l.(passwordHash := PasswordUtils.HashPassword(PasswordUtils.UniversalPassword()),
       firstLogin := true, passwordExpiresAt := PasswordUtils.PasswordExpiryDate(now))
  }

  /** A reset record accepts only the onboarding password and keeps everything else, including when the password last changed. */
  lemma ResetEmployeeSpec(e: Employee, now: int, password: string)
    ensures PasswordUtils.VerifyPassword(password, ResetEmployee(e, now).passwordHash) <==> password == "Pass@123"
    ensures ResetEmployee(e, now).firstLogin
    ensures ResetEmployee(e, now).passwordExpiresAt - now == 2_592_000_000
    ensures ResetEmployee(e, now).(passwordHash := e.passwordHash, firstLogin := e.firstLogin,
      passwordExpiresAt := e.passwordExpiresAt) == e
  {
    PasswordUtils.VerifyHashed(password, PasswordUtils.UniversalPassword());
  }

  /** The record after a successful password change. */
  function ChangedEmployee(e: Employee, newPassword: string, now: int): Employee
  {
    e.(passwordHash := PasswordUtils.HashPassword(newPassword), firstLogin := false,
       passwordChangedAt := now, passwordExpiresAt := PasswordUtils.PasswordExpiryDate(now))
  }

  /** The login entry after a successful password change. */
  function ChangedLogin(l: LoginEntry, newPassword: string, now: int): LoginEntry
  {
    l.(passwordHash := PasswordUtils.HashPassword(newPassword), firstLogin := false,
       passwordChangedAt := Some(now), passwordExpiresAt := PasswordUtils.PasswordExpiryDate(now))
  }

  /** After a change, the record accepts exactly the new password, needs no first-login change and lasts 30 days from now. */
  lemma ChangedEmployeeSpec(e: Employee, newPassword: string, now: int, password: string)
    ensures PasswordUtils.VerifyPassword(password, ChangedEmployee(e, newPassword, now).passwordHash) <==> password == newPassword
    ensures !ChangedEmployee(e, newPassword, now).firstLogin
    ensures ChangedEmployee(e, newPassword, now).passwordChangedAt == now
    ensures ChangedEmployee(e, newPassword, now).passwordExpiresAt - now == 2_592_000_000
    ensures ChangedEmployee(e, newPassword, now).(passwordHash := e.passwordHash, firstLogin := e.firstLogin,
      passwordChangedAt := e.passwordChangedAt, passwordExpiresAt := e.passwordExpiresAt) == e
  {
    PasswordUtils.VerifyHashed(password, newPassword);
  }

  /** The same for a login entry: only its credentials change, and they change as the record's do. */
  lemma ChangedLoginSpec(l: LoginEntry, newPassword: string, now: int, password: string)
    ensures PasswordUtils.VerifyPassword(password, ChangedLogin(l, newPassword, now).passwordHash) <==> password == newPassword
    ensures !ChangedLogin(l, newPassword, now).firstLogin
    ensures ChangedLogin(l, newPassword, now).passwordChangedAt == Some(now)
    ensures ChangedLogin(l, newPassword, now).passwordExpiresAt - now == 2_592_000_000
    ensures ChangedLogin(l, newPassword, now).(passwordHash := l.passwordHash, firstLogin := l.firstLogin,
      passwordChangedAt := l.passwordChangedAt, passwordExpiresAt := l.passwordExpiresAt) == l
  {
    PasswordUtils.VerifyHashed(password, newPassword);
  }
}
