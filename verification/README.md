# Hospital management system: credential policy, time clock and record stores

This project is a Dafny model of the rule-bearing core of a hospital management system. The system has a React front end that keeps its records in the browser's key-value store, and a FastAPI back end over SQL tables. The model covers three parts, and every front-end and back-end rule it models is stated in its own terms and proved about:

1. **Credentials.**
   - The password-strength policy:
     - the front end checks each name part of more than two characters;
     - the back end checks the whole name.
   - The fixed onboarding password "Pass@123".
   - The front end's Base64-of-UTF-8 password "hash", with its round trip.
   - The 30-day expiry and the days left: the front end rounds up, the back end rounds down.
   - The flows built on those rules:
     - the login guard chain;
     - the password-change form and its writes;
     - admin account creation, deletion and reset;
     - the back end's register / login / change-password / reset-password routes, whose HTTP errors are raised in a fixed order.
2. **Time clock and pay.**
   - The hours of a shift:
     - uncapped, rounded half up, on the front end;
     - capped at 8 and rounded half to even on the back end.
   - The overtime beyond eight hours.
   - The back end's one-open-shift-per-employee-and-day rule.
   - An employee's hours summed from the clock records.
   - Overtime pay at 1.5 × salary/160 per hour, rounded to cents.
   - Payment requests and their approve / reject / pay workflow.
3. **Record stores.**
   - Inventory: reorder threshold and total stock value.
   - Pharmacy: low-stock threshold, pending prescriptions and the admin-only add.
   - Appointments: required fields, the reminder text, and the upcoming list (scheduled, earliest first, at most ten).
   - Cleaning: default wards, logging a cleaning and booking a ward.

Conventions used throughout:

- **Time and the clock.**
  - Front-end time is integer milliseconds; back-end time is integer microseconds, the resolution of Python's `datetime`.
  - The current time is always a parameter `now`.
  - The local date renderings (`toLocaleDateString`, `toLocaleString`) are string parameters.
- **Numbers.** Hours and money are exact `real`s. `Math.round(x * 100) / 100` is written out as rounding half up to hundredths, and Python's `round(x, 2)` as rounding half to even.
- **State.**
  - Each screen's stored lists are `seq` fields of a class whose methods state the whole new state.
  - Each back-end table is a `seq` of rows in a class whose `Valid()` invariant the routes preserve.
  - A route answers with `Success(value)` or `Failure(HttpError(status, detail))`.

Modules (one file each):

- **Shared:**
  - `Wrappers` (Option);
  - `Seqs` (`filter`, `find`, `findIndex`);
  - `Text` (ASCII lower-casing, JavaScript `split`, `includes`, `join`, UTF-16 length);
  - `Rounding`;
  - `Base64` (the UTF-8 encoder and the RFC 4648 section 4 encoder with a ghost decoder);
  - `Http`.
- **Credential policy:** `PasswordUtils` (lib/password-utils.ts), `BackendUtils` (backend/utils.py), `PolicyDifferences`.
- **Front-end accounts:** `Accounts` (record types and record updates), `LoginForm`, `PasswordChange`, `AccountStorage` (the shared browser store and its handlers).
- **Back-end routes:** `AuthRouter` (backend/routers/auth.py), `EmployeesRouter` (backend/routers/employees.py).
- **Time clock and pay:** `EmployeeClockIn`, `PaymentRequests`.
- **Record stores:** `Inventory`, `Pharmacy`, `Appointments`, `Cleaning`.

## Model

| member | source | states |
|---|---|---|
| `PasswordUtils.RuleIssuesSpec` | lib/password-utils.ts:14-32 | each of the four class checks (UTF-16 length < 8, no `[A-Z]`, no `[a-z]`, no special character) reports its reason exactly when it fails; none short-circuits another; the name reason never comes from them |
| `PasswordUtils.NameIssuesSpec` | lib/password-utils.ts:34-40 | the name walk adds only "cannot contain your name" entries, exactly as many as there are parts of more than two units occurring in the lower-cased password (so at most one per part), and none exactly when no part occurs |
| `PasswordUtils.NameIssuesCount` | lib/password-utils.ts:34-40 | one name entry per part that occurs in the lower-cased password: the count equals the number of parts the name filter keeps |
| `PasswordUtils.PolicyIssuesSpec` | lib/password-utils.ts:11-46 | every reason is reported exactly when its check fails; the list is empty exactly when all five checks pass |
| `PasswordUtils.CheckClasses` | lib/password-utils.ts:12-32 | the push-based class checks produce exactly the four-check reason list |
| `PasswordUtils.ValidatePassword` | lib/password-utils.ts:11-46 | the errors built by pushing (class checks, then the loop over name parts) are exactly the policy's reasons in order, and `valid` holds iff there are none |
| `PasswordUtils.UniversalMeetsRules` | lib/password-utils.ts:1-32 | "Pass@123" passes the length, upper-case, lower-case and special-character checks |
| `PasswordUtils.UniversalOnlyNameCanFail` | lib/password-utils.ts:1-46 | for any name, the only reasons "Pass@123" can get are name hits against "pass@123" |
| `PasswordUtils.UniversalRejectedForNamePass` | lib/password-utils.ts:1-46 | an employee named "Pass" gets exactly one reason for the onboarding password: it contains the name |
| `PasswordUtils.HashPassword` | lib/password-utils.ts:63-66 | the hash has 4·⌈n/3⌉ characters for n UTF-8 bytes |
| `PasswordUtils.HashAlphabet` | lib/password-utils.ts:63-66 | every hash character is in the RFC 4648 section 4 alphabet or is the pad `=` |
| `PasswordUtils.VerifyHashed` | lib/password-utils.ts:63-70 | a password verifies against the hash of `q` iff it is `q` (the round trip and injectivity) |
| `PasswordUtils.DaysUntilExpiry` | lib/password-utils.ts:81-84 | the result is the ceiling of the time left in days: (d − 1) days < left ≤ d days |
| `PasswordUtils.FreshExpiry` | lib/password-utils.ts:72-84 | a new expiry is now + 2,592,000,000 ms; it is not expired at that instant and is expired 1 ms later; 30 days are left at issue |
| `PasswordUtils.DaysLeftAndExpiry` | lib/password-utils.ts:77-84 | no days are left iff expiry ≤ now; expired implies no days left; not expired with no days left iff now == expiry |
| `BackendUtils.BackMessages` | backend/utils.py:61-76 | each reason becomes the back end's text for it, in the same order |
| `BackendUtils.BackIssuesSpec` | backend/utils.py:52-76 | each of the five checks (code-point length, classes, the 11-character special set, the whole lower-cased name as a substring) reports exactly when it fails; the list is empty iff all pass |
| `BackendUtils.ValidatePassword` | backend/utils.py:52-81 | `ok` iff no check fails; then the message is "Password is valid", otherwise the failing texts in check order joined by "; " |
| `BackendUtils.EmptyNameAlwaysFails` | backend/utils.py:75-76 | an empty name is contained in every password, so the name check always fails |
| `BackendUtils.BackUniversalMeetsClasses` | backend/utils.py:47-73 | "Pass@123" has at least 8 code points and an upper-case, a lower-case and a special character |
| `BackendUtils.BackUniversalValidFor` | backend/utils.py:47-81 | "Pass@123" validates for a name iff the lower-cased name does not occur in "pass@123" |
| `BackendUtils.VerifyHashed` | backend/utils.py:14-22 | a password verifies against a hash iff it is the hashed password, for every salt |
| `BackendUtils.DaysUntilExpiry` | backend/utils.py:94-97 | the result is `timedelta.days`, the floor of the time left in days |
| `BackendUtils.FreshExpiry` | backend/utils.py:84-97 | not expired at exactly 30 days, expired 1 µs later, 30 whole days left at issue |
| `BackendUtils.DaysLeftAndExpiry` | backend/utils.py:89-97 | expired iff the days left are negative |
| `BackendUtils.SplitHours` | backend/utils.py:105-109 | regular ≤ 8 and overtime ≥ 0, they add up to the total, and the split is (total, 0) up to 8 hours and (8, the rest) from 8 hours |
| `BackendUtils.WorkedHoursAddUp` | backend/utils.py:100-111 | after rounding, the two parts add up to the rounded shift; regular ≤ 8, overtime ≥ 0 |
| `PolicyDifferences.BackSpecialWithinFront` | backend/utils.py:72-73 | a back-end special character is also a front-end one |
| `PolicyDifferences.ParenOnlyFrontSpecial` | lib/password-utils.ts:29-32 | `(` counts as special for the front end only |
| `PolicyDifferences.SpecialSetWitness` | backend/utils.py:72-73 | "Password(1" passes the front end's special check and fails the back end's |
| `PolicyDifferences.LengthRuleStricterInBack` | backend/utils.py:63-64 | too short for the front end (UTF-16 units) implies too short for the back end (code points) |
| `PolicyDifferences.LengthWitness` | lib/password-utils.ts:14-17 | seven code points, one outside the Basic Multilingual Plane, pass the front end's length check and fail the back end's |
| `PolicyDifferences.NameRulesAgreeOnOneWord` | backend/utils.py:75-76 | for a one-word name of at least three units the two name rules agree |
| `PolicyDifferences.ShortNameWitness` | lib/password-utils.ts:34-40 | the name "Al" is ignored by the front end but refused by the back end in "Always@1" |
| `PolicyDifferences.WholeNameWitness` | backend/utils.py:75-76 | for "Jane Doe" and "JaneDoe@123" the front end refuses on a part and the back end accepts the whole name |
| `PolicyDifferences.DaysRoundingDiffers` | backend/utils.py:94-97 | for the same instants the front end's days left are the back end's plus one, unless the time left is a whole number of days |
| `Base64.Utf8` | lib/password-utils.ts:65 | at least one byte per character, and empty exactly for the empty string |
| `Base64.Utf8Injective` | lib/password-utils.ts:63-70 | different strings have different UTF-8 bytes |
| `Base64.Encode` | lib/password-utils.ts:65 | 4·⌈n/3⌉ characters for n bytes |
| `Base64.EncodeAlphabet` | lib/password-utils.ts:65 | only alphabet characters and `=` appear |
| `Base64.DecodeEncode` | lib/password-utils.ts:63-70 | decoding undoes encoding |
| `Base64.EncodeInjective` | lib/password-utils.ts:63-70 | different byte strings have different encodings |
| `Rounding.Round2HalfUp` | components/features/employee-clock-in.tsx:65-66 | the result is a whole number of hundredths within half a hundredth of x (strictly below, at most above) |
| `Rounding.Round2HalfUpUnique` | components/features/employee-clock-in.tsx:65-66 | those two facts determine the result: any whole number of hundredths in that range is `Round2HalfUp(x)` |
| `Rounding.Round2HalfEven` | backend/utils.py:111 | the result is a whole number of hundredths within half a hundredth of x, and an even number of hundredths when x lies exactly halfway |
| `Rounding.Round2HalfEvenUnique` | backend/utils.py:111 | those three facts determine the result: any whole number of hundredths that meets them is `Round2HalfEven(x)` |
| `Rounding.Round2HalfUpMonotone` | components/features/payment-requests.tsx:27 | rounding half up never reverses an order |
| `Rounding.Round2HalfEvenMonotone` | backend/utils.py:111 | rounding half to even never reverses an order |
| `Text.ToLower` | lib/password-utils.ts:35-37 | same length, no upper-case letter left, each character lower-cased |
| `Text.Split` | lib/password-utils.ts:35 | at least one part, and no part contains the separator |
| `Text.JoinSplit` | lib/password-utils.ts:35 | joining the parts of a split with the separator gives the string back |
| `Text.Join` | backend/utils.py:79 | no parts give the empty text; one part gives that part |
| `Text.Utf16Length` | lib/password-utils.ts:15 | between one and two units per character |
| `Text.Utf16LengthBmp` | lib/password-utils.ts:15 | for Basic Multilingual Plane text the UTF-16 length is the character count |
| `Accounts.NewEmployee` | components/features/employee-management.tsx:41-57 | the new record is active, has firstLogin set, verifies "Pass@123", changed at now, expires 30 days later |
| `Accounts.LoginOf` | components/features/employee-management.tsx:62-72 | the login entry has the record's id, email, hash, name, role and expiry, with firstLogin set |
| `Accounts.ResetEmployeeSpec` | components/features/employee-management.tsx:93-104 | a reset record accepts exactly "Pass@123", has firstLogin set and a fresh 30-day expiry; every other field, passwordChangedAt included, is kept |
| `Accounts.ChangedEmployeeSpec` | components/features/password-change.tsx:69-76 | a changed record accepts exactly the new password, has firstLogin cleared, changed at now, expires 30 days later; nothing else changes |
| `Accounts.ChangedLoginSpec` | components/features/password-change.tsx:86-93 | after a change the login entry accepts exactly the new password, has firstLogin cleared, the change time set to now and a 30-day expiry; every other field is kept |
| `AccountStorage.CollectErrors` | components/features/password-change.tsx:21-43 | the pushes produce exactly the form's input-error list |
| `AccountStorage.Storage.AddEmployee` | components/features/employee-management.tsx:41-80 | appends the new record and its login entry; nothing else changes |
| `AccountStorage.Storage.DeleteEmployee` | components/features/employee-management.tsx:82-91 | both lists keep, in order, exactly the entries with another id; no entry with the id is left |
| `AccountStorage.Storage.ResetPassword` | components/features/employee-management.tsx:93-123 | every entry with the id in both lists is reset, every other entry is unchanged |
| `AccountStorage.Storage.ChangePassword` | components/features/password-change.tsx:21-107 | the outcome is the form's decision; any outcome other than a change writes nothing; a change rewrites the first record with the id, its snapshot and the first login entry with the id |
| `AccountStorage.Storage.HandleLogin` | components/login-form.tsx:91-140 | the outcome is the guard chain's decision; only a login stores the signed-in user |
| `AccountStorage.Storage.CompletePasswordChange` | components/login-form.tsx:163-172 | the signed-in user becomes the pending account, onboarded with a fresh expiry |
| `AccountStorage.NewAccountMustChange` | components/features/employee-management.tsx:41-80 | a freshly added account with a new email, logging in with "Pass@123" within 30 days, is sent to the first-login change |
| `LoginForm.DemoAccountsFresh` | components/login-form.tsx:16-89 | eight demo accounts, all onboarded, each expiring 30 days after the render |
| `LoginForm.LookUp` | components/login-form.tsx:95-102 | an account found has the email; none is found iff neither a demo account nor a stored entry has it |
| `LoginForm.LoginDecision` | components/login-form.tsx:91-140 | invalid credentials iff the account is unknown or the hash differs; otherwise expired iff the expiry is set and past, then a first-login change iff firstLogin, else a login |
| `LoginForm.UnknownAndWrongAlike` | components/login-form.tsx:104-114 | an unknown email and a wrong password get the same outcome and text |
| `LoginForm.DemoShadowsStored` | components/login-form.tsx:95-102 | when a demo account has the email, the stored list does not affect the outcome |
| `LoginForm.OnlyOwnPasswordPasses` | components/login-form.tsx:109-114 | the password guard is passed iff the password is the account's own |
| `LoginForm.DemoEmailsDistinct` | components/login-form.tsx:16-89 | no two demo accounts share an email |
| `LoginForm.UniqueEmailLogsIn` | components/login-form.tsx:91-140 | an onboarded, unexpired demo account with a unique email logs in with its password |
| `LoginForm.DemoLogsIn` | components/login-form.tsx:16-140 | every demo account logs in with its own password until its expiry, whatever is stored |
| `LoginForm.ExpiryWarningSpec` | components/login-form.tsx:131-135 | the warning fires iff no expiry is set or at most seven days are left |
| `LoginForm.AfterChange` | components/login-form.tsx:163-168 | the stored user is the pending account with firstLogin cleared and expiry now + 30 days |
| `PasswordChange.WeakErrors` | components/features/password-change.tsx:34-37 | one strength error per policy reason, in order |
| `PasswordChange.WeakErrorsSpec` | components/features/password-change.tsx:34-37 | the strength errors are exactly the policy's reasons; there are none iff there are no reasons |
| `PasswordChange.InputErrorsParts` | components/features/password-change.tsx:21-43 | an error is collected iff one of the three checks produces it |
| `PasswordChange.InputErrorsSpec` | components/features/password-change.tsx:21-43 | "current required" iff not a first login and current is empty; "new required" iff new is empty; each policy reason iff new is non-empty and fails it; "mismatch" iff new ≠ confirm; never "incorrect" |
| `PasswordChange.InputErrorsEmpty` | components/features/password-change.tsx:21-48 | no input error iff current is given or this is a first login, new is non-empty and passes the policy, and confirm matches |
| `PasswordChange.CurrentAcceptedSpec` | components/features/password-change.tsx:59-67 | for a non-empty current password the check is verification against the snapshot, or the record when there is no snapshot |
| `PasswordChange.ChangeResult` | components/features/password-change.tsx:21-107 | input errors are rejected with exactly those errors; with clean inputs, "no such employee" iff no record has the id; otherwise "incorrect" iff it is not a first login and the current password does not verify against the snapshot (or the record), and the change goes through iff it is a first login or the current password verifies |
| `PasswordChange.FirstLoginSkipsCurrent` | components/features/password-change.tsx:59-67 | a first login with clean inputs and a known id always changes the password, whatever the current password |
| `PasswordChange.ChangeNeedsCurrent` | components/features/password-change.tsx:59-67 | outside a first login, a change means the current password verifies against the snapshot or the record |
| `PasswordChange.UpdateLogin` | components/features/password-change.tsx:82-95 | only the first entry with the id gets the new credentials, every other entry is kept; no entry with the id means no change |
| `EmployeeClockIn.CalculateHours` | components/features/employee-clock-in.tsx:16-20 | hours × 3,600,000 is the time between the instants in ms; non-negative iff start ≤ end |
| `EmployeeClockIn.OvertimeSpec` | components/features/employee-clock-in.tsx:61 | overtime ≥ 0; it is 0 up to 8 hours; from 8 hours, hours − overtime == 8 |
| `EmployeeClockIn.ClockedOutSpec` | components/features/employee-clock-in.tsx:56-70 | a closed record has its clock-out time; its worked hours are the shift's hours and its overtime the hours beyond 8, each a whole number of hundredths within half a hundredth; overtime is non-negative, zero up to 8 hours, and 8 below the worked hours from 8 hours on, after rounding; nothing else changes |
| `EmployeeClockIn.FrontUncappedBackCapped` | components/features/employee-clock-in.tsx:59-67 | past 8 hours the back end reports 8 worked hours while the front end reports 8 plus the overtime, which exceeds 8 once the shift reaches 8.005 hours |
| `EmployeeClockIn.TodayRecords` | components/features/employee-clock-in.tsx:75 | exactly the records dated today: a subsequence of the stored list, holding each such record as often as the list does |
| `EmployeeClockIn.ClockOutOfferedSpec` | components/features/employee-clock-in.tsx:159-166 | a just-closed record is not offered for clock-out; a just-opened one is |
| `EmployeeClockIn.ClockBoard.ClockIn` | components/features/employee-clock-in.tsx:35-54 | nothing changes without a selection or with an unlisted employee; otherwise one open record is appended |
| `EmployeeClockIn.ClockBoard.ClockOut` | components/features/employee-clock-in.tsx:56-73 | every record with the id is closed at now; the others are unchanged |
| `EmployeesRouter.RecordsOf` | backend/routers/employees.py:88-96 | exactly the employee's rows: a subsequence of the table, holding each such row as often as the table does |
| `EmployeesRouter.CloseKeepsOneOpen` | backend/routers/employees.py:48-85 | closing a row keeps "at most one open row per employee and day" |
| `EmployeesRouter.OpenKeepsOneOpen` | backend/routers/employees.py:13-45 | opening a row when the employee has no open row today keeps the rule |
| `EmployeesRouter.ClockTable.ClockIn` | backend/routers/employees.py:13-45 | 404 for an unknown employee; 400 when an open row was clocked in today; success iff neither; success adds one open row clocked in at now; the invariant is kept |
| `EmployeesRouter.ClockTable.ClockOut` | backend/routers/employees.py:48-85 | 404 for an unknown employee; 400 without an open row today; otherwise the first such row is closed with the back end's hours and nothing else changes |
| `EmployeesRouter.OvernightShiftStaysOpen` | backend/routers/employees.py:56-68 | a shift whose open row was clocked in on an earlier day is never found by clock-out |
| `AuthRouter.NewUser` | backend/routers/auth.py:28-38 | the new row verifies exactly "Pass@123", has first_login set and expires 30 days after now |
| `AuthRouter.LoginResult` | backend/routers/auth.py:51-77 | 401 for an unknown email or a wrong password, then 403 when expired; a token is issued iff neither applies, for the row, expiring 30 minutes after now; first_login is not consulted |
| `AuthRouter.UserTable.Register` | backend/routers/auth.py:20-48 | 400 iff the email is taken, then nothing changes; otherwise one new row on the onboarding password is added |
| `AuthRouter.UserTable.Login` | backend/routers/auth.py:51-77 | the route's answer is the login decision and the table is unchanged |
| `AuthRouter.UserTable.ChangePassword` | backend/routers/auth.py:80-113 | 404, 401, 400 mismatch and 400 invalid, in that order; any failure changes nothing; success rewrites only that row |
| `AuthRouter.UserTable.ResetPassword` | backend/routers/auth.py:116-139 | 403 unless the caller is an existing admin, then 404 for an unknown email; success resets only that row |
| `AuthRouter.RegisteredLogsInBeforeChange` | backend/routers/auth.py:51-77 | a registered account logs in on "Pass@123" before its expiry, although its first login is pending |
| `AuthRouter.ChangedUserSpec` | backend/routers/auth.py:105-109 | after a change the row accepts exactly the new password, has first_login cleared, password_changed_at set to now and a 30-day expiry; id, email, name and role are kept |
| `AuthRouter.ResetUserSpec` | backend/routers/auth.py:129-132 | after a reset the row accepts exactly "Pass@123", has first_login set and keeps password_changed_at |
| `PaymentRequests.OvertimeRate` | components/features/payment-requests.tsx:25-26 | the overtime rate is 3/320 of the monthly salary per hour |
| `PaymentRequests.CalculateOvertimePay` | components/features/payment-requests.tsx:24-28 | the pay is a whole number of cents within half a cent of rate × hours |
| `PaymentRequests.OvertimePayZero` | components/features/payment-requests.tsx:24-28 | no overtime earns 0 |
| `PaymentRequests.OvertimePayMonotone` | components/features/payment-requests.tsx:24-28 | for a non-negative salary, more overtime never earns less |
| `PaymentRequests.SumHoursAppend` | components/features/payment-requests.tsx:37-43 | the totals of a concatenation are the sums of the totals |
| `PaymentRequests.SumHoursNonNegative` | components/features/payment-requests.tsx:37-43 | records with non-negative hours give non-negative totals |
| `PaymentRequests.GetEmployeeWorkedHours` | components/features/payment-requests.tsx:30-49 | nothing stored gives zeros; otherwise each result is a whole number of hundredths within half a hundredth of the sum over the employee's records |
| `PaymentRequests.OtherRecordsIgnored` | components/features/payment-requests.tsx:34-35 | another employee's record does not change the hours |
| `PaymentRequests.OwnRecordAdds` | components/features/payment-requests.tsx:34-43 | the employee's own record adds its hours to the totals |
| `PaymentRequests.NewRequest` | components/features/payment-requests.tsx:76-98 | a pending request with the employee's identity and contacts and the recorded hours; its overtime pay comes from the salary and overtime; the amount includes the pay iff the type is "with overtime" |
| `PaymentRequests.OvertimeVariantAddsPay` | components/features/payment-requests.tsx:77-81 | the overtime variant asks exactly the overtime pay more than the basic one, and nothing more when no records are stored |
| `PaymentRequests.StatusActionsSpec` | components/features/payment-requests.tsx:251-274 | every offered change moves forward; rejected and paid offer none; paid only from approved; never back to pending |
| `PaymentRequests.PaymentBoard.SubmitRequest` | components/features/payment-requests.tsx:71-105 | an unknown employee changes nothing; otherwise the new request is appended |
| `PaymentRequests.PaymentBoard.UpdateStatus` | components/features/payment-requests.tsx:107-111 | the requests with the id take the new status; nothing else changes |
| `Inventory.LowStockItems` | components/features/inventory-management.tsx:62 | exactly the items at or below their minimum level: a subsequence of the list, holding each such item as often as the list does |
| `Inventory.ReorderBadgeMatchesList` | components/features/inventory-management.tsx:181-183 | a row has the Reorder badge iff its item is in the low-stock list |
| `Inventory.TotalValue` | components/features/inventory-management.tsx:63 | an empty list is worth 0 |
| `Inventory.TotalValueAppend` | components/features/inventory-management.tsx:63 | the value of a concatenation is the sum of the values |
| `Inventory.TotalValueReplace` | components/features/inventory-management.tsx:63 | replacing a row changes the total by the difference of the row values |
| `Inventory.NewItem` | components/features/inventory-management.tsx:38-47 | the item has the form's fields, an id from the clock and today's restock date |
| `Inventory.QuantityUpdated` | components/features/inventory-management.tsx:56-60 | only the rows with the id change, and only in quantity |
| `Inventory.QuantityUpdatedOne` | components/features/inventory-management.tsx:57 | with a unique id, the update replaces just that row |
| `Inventory.QuantityUpdatedValue` | components/features/inventory-management.tsx:56-63 | with a unique id, the total moves by (new − old quantity) × price |
| `Inventory.BackLowStockItems` | backend/routers/inventory.py:66-70 | exactly the items strictly below their level: a subsequence of the list, holding each such item as often as the list does |
| `Inventory.ThresholdsDiffer` | backend/routers/inventory.py:69 | an item exactly at its level is flagged by the screen and not by the back end; below it, by both |
| `Inventory.InventoryStore.HandleSubmit` | components/features/inventory-management.tsx:35-54 | one item is appended and the total grows by quantity × price |
| `Inventory.InventoryStore.UpdateQuantity` | components/features/inventory-management.tsx:56-60 | the items become the quantity-updated list |
| `Pharmacy.PendingPrescriptions` | components/features/pharmacy-management.tsx:74 | exactly the pending prescriptions: a subsequence of the list, holding each as often as the list does |
| `Pharmacy.LowStockMedicines` | components/features/pharmacy-management.tsx:75 | exactly the medicines with fewer than 10 units: a subsequence of the list, holding each as often as the list does |
| `Pharmacy.RedBadgeMatchesLowStock` | components/features/pharmacy-management.tsx:194-198 | a quantity badge is red iff the medicine is in the low-stock list |
| `Pharmacy.NewMedicine` | components/features/pharmacy-management.tsx:51-59 | the medicine has the form's fields and an id from the clock |
| `Pharmacy.StatusUpdated` | components/features/pharmacy-management.tsx:68-72 | only the prescriptions with the id change, and only in status |
| `Pharmacy.SettledLeavesPending` | components/features/pharmacy-management.tsx:245-250 | dispensing or cancelling removes exactly that prescription from the pending list and keeps the others in order |
| `Pharmacy.PharmacyStore.HandleAddMedicine` | components/features/pharmacy-management.tsx:49-66 | an admin's submission appends one medicine; any other role adds nothing; prescriptions are untouched |
| `Pharmacy.PharmacyStore.UpdatePrescriptionStatus` | components/features/pharmacy-management.tsx:68-72 | the prescriptions become the status-updated list; medicines are untouched |
| `Appointments.NewAppointment` | components/features/appointment-management.tsx:53-67 | scheduled, without notes, with the form's fields and the names of the patient and doctor found (or empty) |
| `Appointments.ReminderMessageSpec` | components/features/appointment-management.tsx:93 | the message is the fixed lead, then the doctor, " on ", the date, " at ", the time, each at its exact position |
| `Appointments.NewReminder` | components/features/appointment-management.tsx:80-97 | an "appointment" reminder, pending, with the patient's contacts, the appointment's id, date, time and doctor, and that message |
| `Appointments.AppointmentStatusUpdated` | components/features/appointment-management.tsx:100-104 | only the appointments with the id change, and only in status |
| `Appointments.ClosedLeavesScheduled` | components/features/appointment-management.tsx:100-107 | completing or cancelling an appointment removes exactly it from the scheduled ones and keeps the rest in order |
| `Appointments.InsertByDate` | components/features/appointment-management.tsx:108 | the insertion adds exactly one element |
| `Appointments.InsertByDateSorted` | components/features/appointment-management.tsx:108 | inserting into a date-sorted list keeps it sorted |
| `Appointments.SortByDate` | components/features/appointment-management.tsx:108 | the sort is a permutation |
| `Appointments.SortByDateSorted` | components/features/appointment-management.tsx:108 | the sort orders by date |
| `Appointments.UpcomingSpec` | components/features/appointment-management.tsx:106-109 | at most ten, only scheduled appointments of the store, earliest first, none repeated more often than among the scheduled ones, and exactly ten when there are more than ten scheduled (all of them otherwise) |
| `Appointments.UpcomingCounts` | components/features/appointment-management.tsx:106-109 | the list's multiset is contained in that of the scheduled appointments, and its length is the smaller of ten and their number |
| `Appointments.UpcomingEarliest` | components/features/appointment-management.tsx:106-109 | a scheduled appointment left out means the list is full and its last entry is not later |
| `Appointments.AppointmentBook.HandleSubmit` | components/features/appointment-management.tsx:45-78 | a missing field changes nothing; otherwise the appointment is appended, and one reminder is pushed when the patient is registered |
| `Appointments.AppointmentBook.SendAppointmentReminder` | components/features/appointment-management.tsx:80-98 | exactly one reminder is pushed |
| `Appointments.AppointmentBook.UpdateAppointmentStatus` | components/features/appointment-management.tsx:100-104 | the appointments become the status-updated list; reminders are untouched |
| `Cleaning.DefaultWardsSpec` | components/dashboards/cleaner-dashboard.tsx:46-53 | five default wards with ids "1".."5", never cleaned, none with more beds occupied than it has |
| `Cleaning.NewLog` | components/dashboards/cleaner-dashboard.tsx:65-74 | a completed entry by "Maria Garcia" with the selected area, type, time and notes |
| `Cleaning.CleanedWards` | components/dashboards/cleaner-dashboard.tsx:80-87 | the wards with the area's id become completed and cleaned at the stamp; the others are unchanged |
| `Cleaning.BookedWards` | components/dashboards/cleaner-dashboard.tsx:94-98 | only the cleaning status of the wards with the id changes |
| `Cleaning.CleaningOverridesBooking` | components/dashboards/cleaner-dashboard.tsx:80-98 | a logged cleaning overrides whatever status the ward was booked to |
| `Cleaning.CleanedWardsIdempotent` | components/dashboards/cleaner-dashboard.tsx:80-87 | logging the same cleaning twice leaves the wards as logging it once |
| `Cleaning.CleaningBoard.constructor` | components/dashboards/cleaner-dashboard.tsx:35-57 | the stored logs and wards, or no logs and the default wards |
| `Cleaning.CleaningBoard.HandleLogCleaning` | components/dashboards/cleaner-dashboard.tsx:59-92 | an empty area or time changes nothing; otherwise one log is appended and the matching wards are cleaned |
| `Cleaning.CleaningBoard.HandleWardBooking` | components/dashboards/cleaner-dashboard.tsx:94-98 | the wards become the booked list; the logs are untouched |

## Left out

- The HTTP client lib/api-client.ts is not part of this model. It is network I/O, and none of the modelled flows uses it.
- bcrypt is an ideal hash: a salt (a parameter) and the protected secret. Its 72-byte truncation is not modelled.
- A JWT token is its claims and expiry. Signing, encoding and `verify_token` are not modelled.
- Reading the clock (`Date.now()`, `datetime.utcnow()`) is not modelled. The instant is a parameter, and so are the local date and time strings `toLocaleDateString` and `toLocaleString` produce.
- Floating-point artefacts of `Math.round` and Python `round` are not modelled. Both are exact roundings of reals.
- `parseInt`/`parseFloat` and their `NaN` are not modelled. The forms' numbers arrive as parsed integers or reals.
- The `|| 0` for a missing hours field is not modelled. A record always has both hour fields.
- Lower-casing maps ASCII letters only. Unicode case mapping is left out.
- Strings are sequences of Unicode scalar values. JavaScript strings may also hold lone surrogates, which `Buffer.from` encodes as U+FFFD; such strings are not modelled. For them the front end's hash is not injective, so `Base64.Utf8Injective` and `PasswordUtils.VerifyHashed` hold only for well-formed strings, and UTF-16 lengths are counted for well-formed strings only.
- The back end's `.like(strftime(...))` filter on the clock-in timestamp is taken as "clocked in on today's UTC day".
- `new Date(date).getTime()` in the appointment sort is the number the date's digits spell. This orders the date picker's "YYYY-MM-DD" values as their timestamps do; malformed dates are not modelled.
- JSON (de)serialisation of the browser store, `alert`, `setTimeout`, `console.log` and React state updates are not modelled. Each handler reads and writes the stored lists directly, so two handlers never see stale component state.
- `updated_at` columns and the thin CRUD routes of the back end are not modelled. The one rule among those routes, the low-stock alert, is modelled.
- Rendering is not modelled, except for the few conditions a property is about: the Reorder badge, the red quantity badge, the Clock Out button, the admin-only Add Medicine control and the payment actions. `getStatusColor` is left out.
- The appointment form is opened only by a receptionist or an admin. That role check is in the rendering and is not modelled.
- `EmployeeClockIn.ClockBoard.ClockIn`: a selected employee missing from the list makes the source fail on `emp.name`; the model changes nothing in that case.
- `Appointments.AppointmentBook.HandleSubmit`: an unregistered patient makes the source's reminder step fail after the appointment was stored; the model stores the appointment and pushes no reminder.
- A handler that reads the clock more than once is modelled as reading it once: every reading in one call is the same instant `now`, including the readings hidden in `getPasswordExpiryDate()`. This covers `addEmployee` (id, `passwordChangedAt`, expiry, `createdAt`), `resetPassword` (the two expiries), `handleChangePassword` (`passwordChangedAt` and expiry of both stored copies), `handleClockIn` (id, clock-in time, date), `handleLogCleaning` (id, date), the payment request (id, `requestDate`) and the appointment handler (the appointment's id, the reminder's id and its `createdAt`). The reminder's own id is therefore not modelled as a separate value, and its `createdAt` is that instant as an integer rather than its ISO string. Real readings can differ by a few milliseconds, so values the model has equal may differ.

## Behaviour worth knowing

These facts about the source as written are stated by lemmas of the model:

- The back end never forces the first-login change: `AuthRouter.RegisteredLogsInBeforeChange` logs a freshly registered account in on "Pass@123". The front end sends such an account to the change form (`AccountStorage.NewAccountMustChange`).
- `register` ignores the password in the request and always stores "Pass@123" (`AuthRouter.UserTable.Register`).
- The back end's clock-out looks only at rows clocked in today (UTC), so a shift that crosses midnight can never be clocked out (`EmployeesRouter.OvernightShiftStaysOpen`).
- The screen flags an item at exactly its minimum level, and the back end's alert does not (`Inventory.ThresholdsDiffer`).
- The two password policies disagree on the special set, the length measure, the name rule and the days left (`PolicyDifferences`).
