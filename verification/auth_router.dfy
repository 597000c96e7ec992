/**
 * The back end's account routes (backend/routers/auth.py) over the `users`
 * table: registration on the onboarding password, login with a 30-minute
 * access token, password change and admin reset. Each route's HTTP errors
 * are checked in the order the route raises them. Times are integer
 * microseconds, `now` is a parameter and so is the bcrypt salt of each new
 * hash.
 */
module AuthRouter {
  import opened Wrappers
  import opened Seqs
  import opened Text
  import opened Http
  import BackendUtils

  /** Thirty minutes, the lifetime of an access token, in microseconds. */
  const AccessTokenExpireUs: int := 30 * 60 * 1_000_000

  /** A row of the `users` table (`updated_at` is left out). */
  datatype User = User(
    id: int, email: string, passwordHash: BackendUtils.PasswordHash, name: string, role: string,
    firstLogin: bool, passwordChangedAt: int, passwordExpiresAt: int, createdAt: int)

  /** The claims of an access token: subject email, user id, role and expiry instant. */
  datatype Token = Token(sub: string, userId: int, role: string, exp: int)

  const InvalidCredentials: HttpError := HttpError(401, "Invalid credentials")
  const PasswordExpired: HttpError := HttpError(403, "Password expired. Please change your password.")
  const EmailTaken: HttpError := HttpError(400, "Email already registered")
  const UserNotFound: HttpError := HttpError(404, "User not found")
  const OldPasswordIncorrect: HttpError := HttpError(401, "Old password is incorrect")
  const PasswordsDiffer: HttpError := HttpError(400, "Passwords do not match")
  const NotAdmin: HttpError := HttpError(403, "Only admins can reset passwords")

  /** The filter `User.email == email`. */
  function EmailIs(email: string): User -> bool
  {
    (u: User) => u.email == email
  }

  /** The filter `User.id == id`. */
  function IdIs(id: int): User -> bool
  {
    (u: User) => u.id == id
  }

  /** The row a new registration inserts: the onboarding password, a first login pending, 30 days to expiry. */
  function NewUser(id: int, email: string, name: string, role: string, now: int, salt: int): (u: User)
    ensures forall p :: BackendUtils.VerifyPassword(p, u.passwordHash) <==> p == BackendUtils.BackUniversalPassword()
    ensures u.firstLogin && u.passwordExpiresAt - now == 30 * BackendUtils.DayUs
  {
    User(id, email, BackendUtils.HashPassword("Pass@123", salt), name, role, true, now,
      BackendUtils.PasswordExpiryDate(now), now)
  }

  /** The answer of `login`: bad credentials, then expiry; otherwise a token, a first login not being refused. */
  function LoginResult(users: seq<User>, email: string, password: string, now: int): (r: Result<(Token, User)>)
    ensures var k := FirstIndex(users, EmailIs(email));
      (r == Failure(InvalidCredentials) <==>
        k == -1 || !BackendUtils.VerifyPassword(password, users[k].passwordHash))
      && (r == Failure(PasswordExpired) <==>
        k != -1 && BackendUtils.VerifyPassword(password, users[k].passwordHash)
        && BackendUtils.IsPasswordExpired(users[k].passwordExpiresAt, now))
      && (r.Success? <==>
        k != -1 && BackendUtils.VerifyPassword(password, users[k].passwordHash)
        && !BackendUtils.IsPasswordExpired(users[k].passwordExpiresAt, now))
      && (r.Success? ==>
        r.value.1 == users[k] && r.value.0.sub == email && r.value.0.userId == users[k].id
        && r.value.0.role == users[k].role && r.value.0.exp - now == AccessTokenExpireUs)
  {
    var k := FirstIndex(users, EmailIs(email));
    if k == -1 || !BackendUtils.VerifyPassword(password, users[k].passwordHash) then Failure(InvalidCredentials)
    else if BackendUtils.IsPasswordExpired(users[k].passwordExpiresAt, now) then Failure(PasswordExpired)
    else
      var user := users[k];
      Success((Token(user.email, user.id, user.role, now + AccessTokenExpireUs), user))
  }

  /** The row after a successful `change_password`. */
  function ChangedUser(u: User, newPassword: string, now: int, salt: int): User
  {
    u.(passwordHash := BackendUtils.HashPassword(newPassword, salt), firstLogin := false,
       passwordExpiresAt := BackendUtils.PasswordExpiryDate(now), passwordChangedAt := now)
  }

  /** The row after `reset_password`; when the password last changed is kept. */
  function ResetUser(u: User, now: int, salt: int): User
  {
    u.(passwordHash := BackendUtils.HashPassword("Pass@123", salt), firstLogin := true,
       passwordExpiresAt := BackendUtils.PasswordExpiryDate(now))
  }

  class UserTable {
    var users: seq<User>
    var nextId: int

    /** Ids are positive, below the next one to hand out, and ids and emails are unique. */
    ghost predicate Valid()
      reads this
    {
      nextId >= 1
      && (forall k :: 0 <= k < |users| ==> 1 <= users[k].id < nextId)
      && (forall j, k :: 0 <= j < k < |users| ==> users[j].id != users[k].id && users[j].email != users[k].email)
    }

    /** An empty table. */
    constructor ()
      ensures Valid() && users == []
    {
      users := [];
      nextId := 1;
    }

    /**
     * `register`: refuses a taken email; otherwise inserts a row on the
     * onboarding password. The password in the request is not used.
     */
    method Register(email: string, password: string, name: string, role: string, now: int, salt: int)
      returns (r: Result<User>)
      requires Valid()
      modifies this
      ensures Valid()
      ensures r.Failure? <==> exists k :: 0 <= k < |old(users)| && old(users)[k].email == email
      ensures r.Failure? ==> r.error == EmailTaken && users == old(users) && nextId == old(nextId)
      ensures r.Success? ==>
        r.value == NewUser(old(nextId), email, name, role, now, salt)
        && users == old(users) + [r.value] && nextId == old(nextId) + 1
    {
      var k := FirstIndex(users, EmailIs(email));
      if k != -1 {
        return Failure(EmailTaken);
      }
      var user := NewUser(nextId, email, name, role, now, salt);
      users := users + [user];
      nextId := nextId + 1;
      return Success(user);
    }

    /** `login`: reads the table and changes nothing. */
    method Login(email: string, password: string, now: int) returns (r: Result<(Token, User)>)
      ensures r == LoginResult(users, email, password, now)
    {
      var k := FirstIndex(users, EmailIs(email));
      if k == -1 {
        return Failure(InvalidCredentials);
      }
      var user := users[k];
      if !BackendUtils.VerifyPassword(password, user.passwordHash) {
        return Failure(InvalidCredentials);
      }
      if BackendUtils.IsPasswordExpired(user.passwordExpiresAt, now) {
        return Failure(PasswordExpired);
      }
      var token := Token(user.email, user.id, user.role, now + AccessTokenExpireUs);
      return Success((token, user));
    }

    /**
     * `change_password`: unknown user (404), wrong old password (401),
     * mismatch (400), then the policy's joined message (400); only a request
     * passing all four rewrites the row.
     */
    method ChangePassword(userId: int, oldPassword: string, newPassword: string, confirm: string, now: int, salt: int)
      returns (r: Result<string>)
      requires Valid()
      modifies this
      ensures Valid() && nextId == old(nextId)
      ensures var k := FirstIndex(old(users), IdIs(userId));
        if k == -1 then r == Failure(UserNotFound)
        else if !BackendUtils.VerifyPassword(oldPassword, old(users)[k].passwordHash) then r == Failure(OldPasswordIncorrect)
        else if newPassword != confirm then r == Failure(PasswordsDiffer)
        else if BackendUtils.BackIssues(newPassword, old(users)[k].name) != [] then
          r == Failure(HttpError(400, Join(BackendUtils.BackMessages(BackendUtils.BackIssues(newPassword, old(users)[k].name)), "; ")))
        else
          r == Success("Password changed successfully")
          && users == old(users)[k := ChangedUser(old(users)[k], newPassword, now, salt)]
      ensures r.Failure? ==> users == old(users)
    {
      var k := FirstIndex(users, IdIs(userId));
      if k == -1 {
        return Failure(UserNotFound);
      }
      var user := users[k];
      if !BackendUtils.VerifyPassword(oldPassword, user.passwordHash) {
        return Failure(OldPasswordIncorrect);
      }
      if newPassword != confirm {
        return Failure(PasswordsDiffer);
      }
      var isValid, message := BackendUtils.ValidatePassword(newPassword, user.name);
      if !isValid {
        return Failure(HttpError(400, message));
      }
      users := users[k := ChangedUser(user, newPassword, now, salt)];
      return Success("Password changed successfully");
    }

    /**
     * `reset_password`: only an existing admin may reset (403), the email must
     * exist (404); the row goes back to the onboarding password.
     */
    method ResetPassword(email: string, adminId: int, now: int, salt: int) returns (r: Result<string>)
      requires Valid()
      modifies this
      ensures Valid() && nextId == old(nextId)
      ensures var a := FirstIndex(old(users), IdIs(adminId));
        var k := FirstIndex(old(users), EmailIs(email));
        if a == -1 || old(users)[a].role != "admin" then r == Failure(NotAdmin)
        else if k == -1 then r == Failure(UserNotFound)
        else
          r == Success("Password reset successfully")
          && users == old(users)[k := ResetUser(old(users)[k], now, salt)]
      ensures r.Failure? ==> users == old(users)
    {
      var a := FirstIndex(users, IdIs(adminId));
      if a == -1 || users[a].role != "admin" {
        return Failure(NotAdmin);
      }
      var k := FirstIndex(users, EmailIs(email));
      if k == -1 {
        return Failure(UserNotFound);
      }
      users := users[k := ResetUser(users[k], now, salt)];
      return Success("Password reset successfully");
    }
  }

  /**
   * A registered account logs in on the onboarding password until its expiry,
   * although its first login is still pending: the back end does not force
   * the change.
   */
  lemma RegisteredLogsInBeforeChange(users: seq<User>, id: int, email: string, name: string, role: string,
                                     created: int, salt: int, now: int)
    requires forall j :: 0 <= j < |users| ==> users[j].email != email
    requires now <= created + 30 * BackendUtils.DayUs
    ensures var u := NewUser(id, email, name, role, created, salt);
      LoginResult(users + [u], email, "Pass@123", now).Success?
      && LoginResult(users + [u], email, "Pass@123", now).value.1.firstLogin
  {
    var u := NewUser(id, email, name, role, created, salt);
    FirstIndexAfterMisses(users, [u], EmailIs(email));
    assert EmailIs(email)(u);
    assert FirstIndex([u], EmailIs(email)) == 0;
  }

  /** After a change, the row accepts exactly the new password, has no first login pending and lasts 30 days. */
  lemma ChangedUserSpec(u: User, newPassword: string, now: int, salt: int, password: string)
    ensures BackendUtils.VerifyPassword(password, ChangedUser(u, newPassword, now, salt).passwordHash) <==> password == newPassword
    ensures !ChangedUser(u, newPassword, now, salt).firstLogin
    ensures ChangedUser(u, newPassword, now, salt).passwordExpiresAt - now == 30 * BackendUtils.DayUs
    ensures ChangedUser(u, newPassword, now, salt).passwordChangedAt == now
    ensures ChangedUser(u, newPassword, now, salt).(passwordHash := u.passwordHash, firstLogin := u.firstLogin,
      passwordExpiresAt := u.passwordExpiresAt, passwordChangedAt := u.passwordChangedAt) == u
  {
  }

  /** After a reset, the row accepts exactly the onboarding password and keeps its id, email, name, role and change time. */
  lemma ResetUserSpec(u: User, now: int, salt: int, password: string)
    ensures BackendUtils.VerifyPassword(password, ResetUser(u, now, salt).passwordHash) <==> password == "Pass@123"
    ensures ResetUser(u, now, salt).firstLogin
    ensures ResetUser(u, now, salt).passwordChangedAt == u.passwordChangedAt
    ensures ResetUser(u, now, salt).(passwordHash := u.passwordHash, firstLogin := u.firstLogin,
      passwordExpiresAt := u.passwordExpiresAt) == u
  {
  }
}
