/**
 * The back end's clock routes (backend/routers/employees.py) over the
 * `clock_records` table: clock in, clock out and an employee's records.
 * Times are integer microseconds; the text filter on the clock-in timestamp
 * is taken as "the clock-in falls on today's UTC day".
 */
module EmployeesRouter {
  import opened Wrappers
  import opened Seqs
  import opened Http
  import BackendUtils

  /** A row of `clock_records`; `clockOut` is absent while the shift is open. */
  datatype ClockRow = ClockRow(
    id: int, employeeId: int, clockIn: int, clockOut: Option<int>,
    workedHours: real, overtimeHours: real, createdAt: int)

  const EmployeeNotFound: HttpError := HttpError(404, "Employee not found")
  const AlreadyClockedIn: HttpError := HttpError(400, "Already clocked in")
  const NoActiveRecord: HttpError := HttpError(400, "No active clock in record")

  /** The UTC day an instant falls on. */
  function Day(t: int): int
  {
    t / BackendUtils.DayUs
  }

  /** The filter both routes use: the employee's row, clocked in today, not yet clocked out. */
  function OpenToday(employeeId: int, now: int): ClockRow -> bool
  {
    (r: ClockRow) => r.employeeId == employeeId && Day(r.clockIn) == Day(now) && r.clockOut.None?
  }

  /** No employee has two open rows clocked in on the same day. */
  ghost predicate OneOpenPerDay(rows: seq<ClockRow>)
  {
    forall j, k :: (0 <= j < k < |rows| && rows[j].clockOut.None? && rows[k].clockOut.None?
      && rows[j].employeeId == rows[k].employeeId) ==> Day(rows[j].clockIn) != Day(rows[k].clockIn)
  }

  /** A row closed at `now` with the back end's hours. */
  function Closed(r: ClockRow, now: int): ClockRow
  {
    var hours := BackendUtils.CalculateWorkedHours(r.clockIn, now);
    r.(clockOut := Some(now), workedHours := hours.0, overtimeHours := hours.1)
  }

  /** `get_clock_records`: exactly the rows of the employee, in table order. */
  function RecordsOf(rows: seq<ClockRow>, employeeId: int): (mine: seq<ClockRow>)
    ensures forall k :: 0 <= k < |mine| ==> mine[k].employeeId == employeeId && mine[k] in rows
    ensures forall j :: 0 <= j < |rows| && rows[j].employeeId == employeeId ==> rows[j] in mine
    ensures Subsequence(mine, rows)
    ensures forall r :: multiset(mine)[r] == if r.employeeId == employeeId then multiset(rows)[r] else 0
  {
    FilterOrderAndCounts(rows, (r: ClockRow) => r.employeeId == employeeId);
    Filter(rows, (r: ClockRow) => r.employeeId == employeeId)
  }

  /** Closing one open row keeps the rule: the closed row is no longer open and no other row changes. */
  lemma CloseKeepsOneOpen(rows: seq<ClockRow>, k: int, now: int)
    requires OneOpenPerDay(rows) && 0 <= k < |rows|
    ensures OneOpenPerDay(rows[k := Closed(rows[k], now)])
  {
    var rows' := rows[k := Closed(rows[k], now)];
    forall i, j | 0 <= i < j < |rows'| && rows'[i].clockOut.None? && rows'[j].clockOut.None?
      && rows'[i].employeeId == rows'[j].employeeId
      ensures Day(rows'[i].clockIn) != Day(rows'[j].clockIn)
    {
      assert i != k && j != k;
    }
  }

  /** Opening a row keeps the rule when the employee had no open row clocked in today. */
  lemma OpenKeepsOneOpen(rows: seq<ClockRow>, row: ClockRow, now: int)
    requires OneOpenPerDay(rows)
    requires row.clockIn == now
    requires forall j :: 0 <= j < |rows| ==> !OpenToday(row.employeeId, now)(rows[j])
    ensures OneOpenPerDay(rows + [row])
  {
    var rows' := rows + [row];
    forall i, j | 0 <= i < j < |rows'| && rows'[i].clockOut.None? && rows'[j].clockOut.None?
      && rows'[i].employeeId == rows'[j].employeeId
      ensures Day(rows'[i].clockIn) != Day(rows'[j].clockIn)
    {
      if j == |rows| {
        assert !OpenToday(row.employeeId, now)(rows[i]);
      }
    }
  }

  /** The clock records and the ids of the `employees` table, which these routes only read. */
  class ClockTable {
    const employeeIds: set<int>
    var rows: seq<ClockRow>
    var nextId: int

    /** Row ids are positive and below the next one, and at most one row per employee and day is open. */
    ghost predicate Valid()
      reads this
    {
      nextId >= 1
      && (forall k :: 0 <= k < |rows| ==> 1 <= rows[k].id < nextId)
      && OneOpenPerDay(rows)
    }

    /** An empty table beside the given employees. */
    constructor (employees: set<int>)
      ensures Valid() && rows == [] && employeeIds == employees
    {
      employeeIds := employees;
      rows := [];
      nextId := 1;
    }

    /**
     * `clock_in`: an unknown employee (404), then an open row clocked in today
     * (400); otherwise one open row is added.
     */
    method ClockIn(employeeId: int, now: int) returns (r: Result<ClockRow>)
      requires Valid()
      modifies this
      ensures Valid()
      ensures employeeId !in employeeIds ==> r == Failure(EmployeeNotFound)
      ensures employeeId in employeeIds && (exists j :: 0 <= j < |old(rows)| && OpenToday(employeeId, now)(old(rows)[j])) ==>
        r == Failure(AlreadyClockedIn)
      ensures r.Success? <==>
        employeeId in employeeIds && forall j :: 0 <= j < |old(rows)| ==> !OpenToday(employeeId, now)(old(rows)[j])
      ensures r.Failure? ==> rows == old(rows) && nextId == old(nextId)
      ensures r.Success? ==>
        r.value == ClockRow(old(nextId), employeeId, now, None, 0.0, 0.0, now)
        && rows == old(rows) + [r.value] && nextId == old(nextId) + 1
    {
      if employeeId !in employeeIds {
        return Failure(EmployeeNotFound);
      }
      var today := FirstIndex(rows, OpenToday(employeeId, now));
      if today != -1 {
        return Failure(AlreadyClockedIn);
      }
      var row := ClockRow(nextId, employeeId, now, None, 0.0, 0.0, now);
      OpenKeepsOneOpen(rows, row, now);
      rows := rows + [row];
      nextId := nextId + 1;
      return Success(row);
    }

    /**
     * `clock_out`: an unknown employee (404), then no open row clocked in
     * today (400); otherwise that row is closed with the back end's hours and
     * nothing else changes.
     */
    method ClockOut(employeeId: int, now: int) returns (r: Result<ClockRow>)
      requires Valid()
      modifies this
      ensures Valid() && nextId == old(nextId)
      ensures employeeId !in employeeIds ==> r == Failure(EmployeeNotFound)
      ensures employeeId in employeeIds && (forall j :: 0 <= j < |old(rows)| ==> !OpenToday(employeeId, now)(old(rows)[j])) ==>
        r == Failure(NoActiveRecord)
      ensures r.Success? <==>
        employeeId in employeeIds && exists j :: 0 <= j < |old(rows)| && OpenToday(employeeId, now)(old(rows)[j])
      ensures r.Failure? ==> rows == old(rows)
      ensures r.Success? ==>
        var k := FirstIndex(old(rows), OpenToday(employeeId, now));
        0 <= k && r.value == Closed(old(rows)[k], now) && rows == old(rows)[k := r.value]
    {
      if employeeId !in employeeIds {
        return Failure(EmployeeNotFound);
      }
      var k := FirstIndex(rows, OpenToday(employeeId, now));
      if k == -1 {
        return Failure(NoActiveRecord);
      }
      var closed := Closed(rows[k], now);
      CloseKeepsOneOpen(rows, k, now);
      rows := rows[k := closed];
      return Success(closed);
    }
  }

  /**
   * A shift clocked in on one UTC day cannot be clocked out on the next: the
   * route looks only at rows clocked in today, so an overnight shift stays open.
   */
  lemma OvernightShiftStaysOpen(rows: seq<ClockRow>, employeeId: int, now: int)
    requires forall j :: 0 <= j < |rows| && rows[j].employeeId == employeeId && rows[j].clockOut.None? ==>
      Day(rows[j].clockIn) < Day(now)
    ensures FirstIndex(rows, OpenToday(employeeId, now)) == -1
  {
  }
}
