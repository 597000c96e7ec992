/**
 * The decisions of the password-change form
 * (components/features/password-change.tsx): the errors collected from the
 * three inputs, the check of the current password against the stored record,
 * and the outcome of a submission.
 */
module PasswordChange {
  import opened Wrappers
  import opened Seqs
  import opened Accounts
  import PasswordUtils
  import Base64

  /** The errors the form reports; `Weak` carries a reason of the strength policy. */
  datatype ChangeError =
    | CurrentRequired
    | NewRequired
    | Weak(issue: PasswordUtils.Issue)
    | Mismatch
    | CurrentIncorrect

  /** The text shown for each error. */
  function ErrorText(e: ChangeError): string
  {
    match e
    case CurrentRequired => "Current password is required"
    case NewRequired => "New password is required"
    case Weak(i) => PasswordUtils.Message(i)
    case Mismatch => "Passwords do not match"
    case CurrentIncorrect => "Current password is incorrect"
  }

  /** The strength reasons as form errors, in the same order. */
  function WeakErrors(issues: seq<PasswordUtils.Issue>): (errors: seq<ChangeError>)
    ensures |errors| == |issues|
    ensures forall k :: 0 <= k < |issues| ==> errors[k] == Weak(issues[k])
  {
    seq(|issues|, k requires 0 <= k < |issues| => Weak(issues[k]))
  }

  /** The strength errors are exactly the `Weak` wrappings of the reasons. */
  lemma WeakErrorsSpec(issues: seq<PasswordUtils.Issue>)
    ensures forall e :: e in WeakErrors(issues) <==> e.Weak? && e.issue in issues
    ensures WeakErrors(issues) == [] <==> issues == []
  {
    forall e
      ensures e in WeakErrors(issues) <==> e.Weak? && e.issue in issues
    {
      if e.Weak? && e.issue in issues {
        var k :| 0 <= k < |issues| && issues[k] == e.issue;
        assert WeakErrors(issues)[k] == e;
      }
    }
  }

  /** The errors collected from the inputs, in the order the form checks them. */
  function InputErrors(isFirstLogin: bool, current: string, newPassword: string, confirm: string, name: string): seq<ChangeError>
  {
    (if !isFirstLogin && current == "" then [CurrentRequired] else [])
    + (if newPassword == "" then [NewRequired] else WeakErrors(PasswordUtils.PolicyIssues(newPassword, name)))
    + (if newPassword != confirm then [Mismatch] else [])
  }

  /** The input errors split into the three checks the form makes, in order. */
  lemma InputErrorsParts(isFirstLogin: bool, current: string, newPassword: string, confirm: string, name: string, x: ChangeError)
    ensures x in InputErrors(isFirstLogin, current, newPassword, confirm, name) <==>
      (x == CurrentRequired && !isFirstLogin && current == "")
      || (newPassword == "" && x == NewRequired)
      || (newPassword != "" && x in WeakErrors(PasswordUtils.PolicyIssues(newPassword, name)))
      || (x == Mismatch && newPassword != confirm)
  {
    var a: seq<ChangeError> := if !isFirstLogin && current == "" then [CurrentRequired] else [];
    var b := if newPassword == "" then [NewRequired] else WeakErrors(PasswordUtils.PolicyIssues(newPassword, name));
    var c: seq<ChangeError> := if newPassword != confirm then [Mismatch] else [];
    assert InputErrors(isFirstLogin, current, newPassword, confirm, name) == a + b + c;
    assert x in a + b + c <==> x in a || x in b || x in c;
  }

  /**
   * Each input error is reported exactly when its condition holds; the policy
   * reasons appear only for a non-empty new password; the input stage never
   * reports an incorrect current password.
   */
  lemma InputErrorsSpec(isFirstLogin: bool, current: string, newPassword: string, confirm: string, name: string)
    ensures CurrentRequired in InputErrors(isFirstLogin, current, newPassword, confirm, name)
      <==> !isFirstLogin && current == ""
    ensures NewRequired in InputErrors(isFirstLogin, current, newPassword, confirm, name) <==> newPassword == ""
    ensures forall i :: (Weak(i) in InputErrors(isFirstLogin, current, newPassword, confirm, name)
      <==> newPassword != "" && i in PasswordUtils.PolicyIssues(newPassword, name))
    ensures Mismatch in InputErrors(isFirstLogin, current, newPassword, confirm, name) <==> newPassword != confirm
    ensures CurrentIncorrect !in InputErrors(isFirstLogin, current, newPassword, confirm, name)
  {
    var issues := PasswordUtils.PolicyIssues(newPassword, name);
    WeakErrorsSpec(issues);
    InputErrorsParts(isFirstLogin, current, newPassword, confirm, name, CurrentRequired);
    InputErrorsParts(isFirstLogin, current, newPassword, confirm, name, NewRequired);
    InputErrorsParts(isFirstLogin, current, newPassword, confirm, name, Mismatch);
    InputErrorsParts(isFirstLogin, current, newPassword, confirm, name, CurrentIncorrect);
    forall i
      ensures Weak(i) in InputErrors(isFirstLogin, current, newPassword, confirm, name)
        <==> newPassword != "" && i in issues
    {
      InputErrorsParts(isFirstLogin, current, newPassword, confirm, name, Weak(i));
    }
  }

  /** The inputs pass exactly when every check passes. */
  lemma InputErrorsEmpty(isFirstLogin: bool, current: string, newPassword: string, confirm: string, name: string)
    ensures InputErrors(isFirstLogin, current, newPassword, confirm, name) == [] <==>
      (isFirstLogin || current != "") && newPassword != ""
      && PasswordUtils.PolicyIssues(newPassword, name) == [] && newPassword == confirm
  {
    WeakErrorsSpec(PasswordUtils.PolicyIssues(newPassword, name));
  }

  /**
   * The current-password check: the snapshot of the record if one is stored,
   * otherwise the record itself, must hold a non-empty hash of `current`.
   */
  predicate CurrentAccepted(record: Employee, snapshot: Option<Employee>, current: string)
  {
    var data := if snapshot.Some? then snapshot.value else record;
    data.passwordHash != "" && data.passwordHash == PasswordUtils.HashPassword(current)
  }

  /** For a non-empty current password the non-empty-hash guard is redundant: the check is plain verification. */
  lemma CurrentAcceptedSpec(record: Employee, snapshot: Option<Employee>, current: string)
    requires current != ""
    ensures CurrentAccepted(record, snapshot, current) <==>
      PasswordUtils.VerifyPassword(current, (if snapshot.Some? then snapshot.value else record).passwordHash)
  {
    assert Base64.Utf8(current) != [];
  }

  /** What a submission leads to. */
  datatype ChangeOutcome = Rejected(errors: seq<ChangeError>) | NoSuchEmployee | Changed

  /** The outcome of `handleChangePassword` against the stored records and snapshots. */
  function ChangeResult(employees: seq<Employee>, snapshots: map<string, Employee>, id: string, name: string,
                        isFirstLogin: bool, current: string, newPassword: string, confirm: string): (o: ChangeOutcome)
    ensures o.Changed? ==>
      InputErrors(isFirstLogin, current, newPassword, confirm, name) == []
      && (exists k :: 0 <= k < |employees| && employees[k].id == id)
    ensures o == NoSuchEmployee <==>
      InputErrors(isFirstLogin, current, newPassword, confirm, name) == []
      && forall k :: 0 <= k < |employees| ==> employees[k].id != id
    ensures o == Rejected([CurrentIncorrect]) ==> !isFirstLogin
    ensures o.Rejected? ==> o.errors != []
    ensures InputErrors(isFirstLogin, current, newPassword, confirm, name) != [] ==>
      o == Rejected(InputErrors(isFirstLogin, current, newPassword, confirm, name))
    ensures var k := FirstIndex(employees, HasId(id));
      var snapshot := if id in snapshots then Some(snapshots[id]) else None;
      (o == Rejected([CurrentIncorrect]) <==>
        InputErrors(isFirstLogin, current, newPassword, confirm, name) == [] && 0 <= k
        && !isFirstLogin && !CurrentAccepted(employees[k], snapshot, current))
      && (o == Changed <==>
        InputErrors(isFirstLogin, current, newPassword, confirm, name) == [] && 0 <= k
        && (isFirstLogin || CurrentAccepted(employees[k], snapshot, current)))
  {
    var errors := InputErrors(isFirstLogin, current, newPassword, confirm, name);
    if errors != [] then
      InputErrorsSpec(isFirstLogin, current, newPassword, confirm, name);
      Rejected(errors)
    else
      var k := FirstIndex(employees, HasId(id));
      if k == -1 then NoSuchEmployee
      else if !isFirstLogin
        && !CurrentAccepted(employees[k], if id in snapshots then Some(snapshots[id]) else None, current)
      then Rejected([CurrentIncorrect])
      else Changed
  }

  /** A first-login change never checks the current password: valid inputs and a known id always change it. */
  lemma FirstLoginSkipsCurrent(employees: seq<Employee>, snapshots: map<string, Employee>, id: string, name: string,
                               current: string, newPassword: string, confirm: string)
    requires InputErrors(true, current, newPassword, confirm, name) == []
    requires exists k :: 0 <= k < |employees| && employees[k].id == id
    ensures ChangeResult(employees, snapshots, id, name, true, current, newPassword, confirm) == Changed
  {
  }

  /** A change that is not a first login succeeds only if the current password verifies against the snapshot or record. */
  lemma ChangeNeedsCurrent(employees: seq<Employee>, snapshots: map<string, Employee>, id: string, name: string,
                           current: string, newPassword: string, confirm: string)
    requires ChangeResult(employees, snapshots, id, name, false, current, newPassword, confirm) == Changed
    ensures current != ""
    ensures var k := FirstIndex(employees, HasId(id));
      0 <= k && PasswordUtils.VerifyPassword(current,
        (if id in snapshots then snapshots[id] else employees[k]).passwordHash)
  {
    InputErrorsSpec(false, current, newPassword, confirm, name);
    var k := FirstIndex(employees, HasId(id));
    CurrentAcceptedSpec(employees[k], if id in snapshots then Some(snapshots[id]) else None, current);
  }

  /** The login list after a change: the first entry with the id gets the new credentials, nothing else changes. */
  function UpdateLogin(logins: seq<LoginEntry>, id: string, newPassword: string, now: int): (r: seq<LoginEntry>)
    ensures |r| == |logins|
    ensures forall k :: 0 <= k < |logins| && logins[k].id != id ==> r[k] == logins[k]
    ensures forall k :: 0 <= k < |logins| && logins[k].id == id ==>
      r[k] == logins[k] || r[k] == ChangedLogin(logins[k], newPassword, now)
    ensures forall k :: 0 <= k < |logins| && k != FirstIndex(logins, LoginHasId(id)) ==> r[k] == logins[k]
    ensures (exists k :: 0 <= k < |logins| && logins[k].id == id) ==>
      var k := FirstIndex(logins, LoginHasId(id));
      r[k] == ChangedLogin(logins[k], newPassword, now)
  {
    var k := FirstIndex(logins, LoginHasId(id));
    if k == -1 then logins else logins[k := ChangedLogin(logins[k], newPassword, now)]
  }
}
