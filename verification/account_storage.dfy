/**
 * The browser store the account screens share: the employee records
 * (`hospital_employees`), the login entries (`hospital_all_employees`), the
 * per-employee snapshots written by a password change
 * (`hospital_employee_<id>`, keyed here by the id) and the signed-in user
 * (`hospital_user`). Each handler of components/features/employee-management.tsx,
 * components/features/password-change.tsx and components/login-form.tsx is a
 * method that rewrites the slots it writes and leaves the others alone.
 */
module AccountStorage {
  import opened Wrappers
  import opened Seqs
  import opened Accounts
  import PasswordUtils
  import LoginForm
  import PasswordChange

  /** The first half of `handleChangePassword`: the errors collected from the three inputs, in order. */
  method CollectErrors(employeeName: string, isFirstLogin: bool, current: string, newPassword: string, confirm: string)
    returns (newErrors: seq<PasswordChange.ChangeError>)
    ensures newErrors == PasswordChange.InputErrors(isFirstLogin, current, newPassword, confirm, employeeName)
  {
    newErrors := [];
    if !isFirstLogin && current == "" {
      newErrors := newErrors + [PasswordChange.CurrentRequired];
    }
    ghost var afterCurrent := newErrors;
    if newPassword == "" {
      newErrors := newErrors + [PasswordChange.NewRequired];
    } else {
      var validation := PasswordUtils.ValidatePassword(newPassword, employeeName);
      if !validation.valid {
        newErrors := newErrors + PasswordChange.WeakErrors(validation.errors);
      }
    }
    ghost var afterNew := newErrors;
    if newPassword != confirm {
      newErrors := newErrors + [PasswordChange.Mismatch];
    }
    assert afterCurrent == if !isFirstLogin && current == "" then [PasswordChange.CurrentRequired] else [];
    assert afterNew == afterCurrent + if newPassword == "" then [PasswordChange.NewRequired]
      else PasswordChange.WeakErrors(PasswordUtils.PolicyIssues(newPassword, employeeName));
    assert newErrors == PasswordChange.InputErrors(isFirstLogin, current, newPassword, confirm, employeeName);
  }

  class Storage {
    var employees: seq<Employee>
    var logins: seq<LoginEntry>
    var snapshots: map<string, Employee>
    var currentUser: Option<LoginEntry>

    /** An empty store: nothing saved under any key. */
    constructor ()
      ensures employees == [] && logins == [] && snapshots == map[] && currentUser == None
    {
      employees := [];
      logins := [];
      snapshots := map[];
      currentUser := None;
    }

    /** `addEmployee`: appends the new record and pushes its login entry; nothing already stored changes. */
    method AddEmployee(name: string, email: string, role: string, phone: string, salary: real, now: int)
      returns (e: Employee)
      modifies this
      ensures e == NewEmployee(name, email, role, phone, salary, now)
      ensures employees == old(employees) + [e]
      ensures logins == old(logins) + [LoginOf(e)]
      ensures snapshots == old(snapshots) && currentUser == old(currentUser)
    {
      e := NewEmployee(name, email, role, phone, salary, now);
      employees := employees + [e];
      logins := logins + [LoginOf(e)];
    }

    /** `deleteEmployee`: both lists keep, in order, exactly the entries with another id. */
    method DeleteEmployee(id: string)
      modifies this
      ensures employees == Filter(old(employees), (e: Employee) => e.id != id)
      ensures logins == Filter(old(logins), (u: LoginEntry) => u.id != id)
      ensures forall k :: 0 <= k < |employees| ==> employees[k].id != id
      ensures forall k :: 0 <= k < |logins| ==> logins[k].id != id
      ensures snapshots == old(snapshots) && currentUser == old(currentUser)
    {
      employees := Filter(employees, (e: Employee) => e.id != id);
      logins := Filter(logins, (u: LoginEntry) => u.id != id);
    }

    /** `resetPassword`: every entry with the id in both lists is reset; every other entry is unchanged. */
    method ResetPassword(id: string, now: int)
      modifies this
      ensures |employees| == |old(employees)| && |logins| == |old(logins)|
      ensures forall k :: 0 <= k < |employees| ==>
        employees[k] == if old(employees)[k].id == id then ResetEmployee(old(employees)[k], now) else old(employees)[k]
      ensures forall k :: 0 <= k < |logins| ==>
        logins[k] == if old(logins)[k].id == id then ResetLogin(old(logins)[k], now) else old(logins)[k]
      ensures snapshots == old(snapshots) && currentUser == old(currentUser)
    {
      employees := seq(|employees|, k requires 0 <= k < |employees| reads this =>
        if employees[k].id == id then ResetEmployee(employees[k], now) else employees[k]);
      logins := seq(|logins|, k requires 0 <= k < |logins| reads this =>
        if logins[k].id == id then ResetLogin(logins[k], now) else logins[k]);
    }

    /**
     * `handleChangePassword`: collects the input errors, finds the record,
     * checks the current password unless this is a first login, then writes the
     * changed record to the list and its snapshot, and the first login entry
     * with the id. Every outcome but `Changed` leaves the store as it was.
     */
    method ChangePassword(employeeId: string, employeeName: string, isFirstLogin: bool,
                          current: string, newPassword: string, confirm: string, now: int)
      returns (outcome: PasswordChange.ChangeOutcome)
      modifies this
      ensures outcome == PasswordChange.ChangeResult(old(employees), old(snapshots), employeeId, employeeName,
        isFirstLogin, current, newPassword, confirm)
      ensures !outcome.Changed? ==>
        employees == old(employees) && logins == old(logins) && snapshots == old(snapshots)
      ensures outcome.Changed? ==>
        var k := FirstIndex(old(employees), HasId(employeeId));
        0 <= k
        && employees == old(employees)[k := ChangedEmployee(old(employees)[k], newPassword, now)]
        && snapshots == old(snapshots)[employeeId := ChangedEmployee(old(employees)[k], newPassword, now)]
        && logins == PasswordChange.UpdateLogin(old(logins), employeeId, newPassword, now)
      ensures currentUser == old(currentUser)
    {
      var newErrors := CollectErrors(employeeName, isFirstLogin, current, newPassword, confirm);
      if |newErrors| > 0 {
        return PasswordChange.Rejected(newErrors);
      }

      var employeeIndex := FirstIndex(employees, HasId(employeeId));
      if employeeIndex == -1 {
        return PasswordChange.NoSuchEmployee;
      }
      var employee := employees[employeeIndex];
      if !isFirstLogin {
        var empData := if employeeId in snapshots then snapshots[employeeId] else employee;
        if empData.passwordHash == "" || empData.passwordHash != PasswordUtils.HashPassword(current) {
          return PasswordChange.Rejected([PasswordChange.CurrentIncorrect]);
        }
      }

      var updated := ChangedEmployee(employee, newPassword, now);
      employees := employees[employeeIndex := updated];
      snapshots := snapshots[employeeId := updated];
      var userIndex := FirstIndex(logins, LoginHasId(employeeId));
      if userIndex != -1 {
        logins := logins[userIndex := ChangedLogin(logins[userIndex], newPassword, now)];
      }
      return PasswordChange.Changed;
    }

    /**
     * `handleLogin` on a form rendered at `renderedAt`: the guard chain over the
     * demo accounts and the stored login entries; only a successful login
     * stores the account as the signed-in user.
     */
    method HandleLogin(email: string, password: string, now: int, renderedAt: int)
      returns (outcome: LoginForm.LoginOutcome)
      modifies this`currentUser
      ensures outcome == LoginForm.LoginDecision(LoginForm.DemoAccounts(renderedAt), logins, email, password, now)
      ensures currentUser == if outcome.LoggedIn? then Some(outcome.user) else old(currentUser)
    {
      outcome := LoginForm.LoginDecision(LoginForm.DemoAccounts(renderedAt), logins, email, password, now);
      if outcome.LoggedIn? {
        currentUser := Some(outcome.user);
      }
    }

    /** `onPasswordChanged`: the pending account, onboarded and with a fresh expiry, becomes the signed-in user. */
    method CompletePasswordChange(pending: LoginEntry, now: int)
      modifies this`currentUser
      ensures currentUser == Some(LoginForm.AfterChange(pending, now))
    {
      currentUser := Some(pending.(firstLogin := false, passwordExpiresAt := now + 30 * 24 * 60 * 60 * 1000));
    }
  }

  /**
   * A freshly added account whose email is new (no demo account and no stored
   * entry has it) must change its password: logging in with the onboarding
   * password within 30 days leads to the first-login change.
   */
  lemma NewAccountMustChange(demo: seq<LoginEntry>, logins: seq<LoginEntry>, name: string, email: string, role: string,
                             phone: string, salary: real, created: int, now: int)
    requires forall j :: 0 <= j < |demo| ==> demo[j].email != email
    requires forall j :: 0 <= j < |logins| ==> logins[j].email != email
    requires now <= created + 2_592_000_000
    ensures var entry := LoginOf(NewEmployee(name, email, role, phone, salary, created));
      LoginForm.LoginDecision(demo, logins + [entry], email, PasswordUtils.UniversalPassword(), now)
        == LoginForm.FirstLoginChange(entry)
  {
    var entry := LoginOf(NewEmployee(name, email, role, phone, salary, created));
    FindAfterMisses(logins, [entry], HasEmail(email));
    assert HasEmail(email)(entry);
    assert FirstIndex([entry], HasEmail(email)) == 0;
    assert LoginForm.LookUp(demo, logins + [entry], email) == Some(entry);
  }
}
