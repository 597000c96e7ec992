/**
 * The front end's clock-in board (components/features/employee-clock-in.tsx):
 * the stored clock records, clocking in and out, the hours of a shift and the
 * "today" view. Times are integer milliseconds; a record's local date is the
 * `toLocaleDateString()` rendering, given by the caller as a string.
 */
module EmployeeClockIn {
  import opened Wrappers
  import opened Seqs
  import opened Rounding
  import opened Accounts
  import BackendUtils

  /** A stored clock record; `clockOutTime` is absent while the shift is open. */
  datatype ClockRecord = ClockRecord(
    id: string, employeeId: string, employeeName: string, clockInTime: int,
    clockOutTime: Option<int>, date: string, workedHours: real, overtimeHours: real)

  /** `calculateHours`: the time between two instants in hours. */
  function CalculateHours(start: int, end: int): (hours: real)
    ensures hours * 3_600_000.0 == (end - start) as real
    ensures hours >= 0.0 <==> start <= end
  {
    (end - start) as real / (1000 * 60 * 60) as real
  }

  /** `Math.max(0, hours - 8)`: the hours beyond eight. */
  function Overtime(hours: real): real
  {
    if 0.0 > hours - 8.0 then 0.0 else hours - 8.0
  }

  /** Overtime is never negative, is zero up to eight hours, and beyond eight it is what remains after eight. */
  lemma OvertimeSpec(hours: real)
    ensures Overtime(hours) >= 0.0
    ensures hours <= 8.0 ==> Overtime(hours) == 0.0
    ensures hours >= 8.0 ==> hours - Overtime(hours) == 8.0
  {
  }

  /** The record `handleClockIn` appends: open, with no hours yet. */
  function OpenRecord(id: string, employeeId: string, employeeName: string, now: int, today: string): ClockRecord
  {
    ClockRecord(id, employeeId, employeeName, now, None, today, 0.0, 0.0)
  }

  /** A record closed at `now`: hours rounded half up to cents, uncapped, and the overtime beyond eight hours. */
  function ClockedOut(r: ClockRecord, now: int): ClockRecord
  {
    var hours := CalculateHours(r.clockInTime, now);
    r.(clockOutTime := Some(now), workedHours := Round2HalfUp(hours), overtimeHours := Round2HalfUp(Overtime(hours)))
  }

  /**
   * A closed record has its clock-out time; its worked hours are the whole
   * shift and its overtime the hours beyond eight, each to the nearest
   * hundredth; overtime is non-negative, zero for at most eight hours, and
   * exactly eight below the worked hours otherwise (rounding does not break
   * this); nothing else changes.
   */
  lemma ClockedOutSpec(r: ClockRecord, now: int)
    ensures ClockedOut(r, now).clockOutTime == Some(now)
    ensures var h := CalculateHours(r.clockInTime, now);
      h - 0.005 < ClockedOut(r, now).workedHours <= h + 0.005
      && Overtime(h) - 0.005 < ClockedOut(r, now).overtimeHours <= Overtime(h) + 0.005
    ensures WholeHundredths(ClockedOut(r, now).workedHours) && WholeHundredths(ClockedOut(r, now).overtimeHours)
    ensures ClockedOut(r, now).overtimeHours >= 0.0
    ensures CalculateHours(r.clockInTime, now) <= 8.0 ==> ClockedOut(r, now).overtimeHours == 0.0
    ensures CalculateHours(r.clockInTime, now) >= 8.0 ==>
      ClockedOut(r, now).workedHours - ClockedOut(r, now).overtimeHours == 8.0
    ensures ClockedOut(r, now).(clockOutTime := r.clockOutTime, workedHours := r.workedHours,
      overtimeHours := r.overtimeHours) == r
  {
    var hours := CalculateHours(r.clockInTime, now);
    OvertimeSpec(hours);
    RoundHundredths(0);
    Round2HalfUpMonotone(0.0, Overtime(hours));
    if hours >= 8.0 {
      Round2HalfUpShift(Overtime(hours), 8);
      assert Overtime(hours) + 8 as real == hours;
    }
  }

  /**
   * For the same shift, the back end caps the regular hours at 8 while the
   * front end records all of them: past eight hours the back end reports 8
   * and the front end 8 plus the overtime, which is more than 8 once the
   * shift reaches eight hours and half a hundredth.
   */
  lemma FrontUncappedBackCapped(r: ClockRecord, now: int)
    requires CalculateHours(r.clockInTime, now) >= 8.0
    ensures BackendUtils.CalculateWorkedHours(r.clockInTime * 1000, now * 1000).0 == 8.0
    ensures ClockedOut(r, now).workedHours == 8.0 + ClockedOut(r, now).overtimeHours
    ensures CalculateHours(r.clockInTime, now) >= 8.005 ==> ClockedOut(r, now).workedHours > 8.0
  {
    ClockedOutSpec(r, now);
    RoundHundredths(800);
    assert BackendUtils.ShiftHours(r.clockInTime * 1000, now * 1000) == CalculateHours(r.clockInTime, now);
  }

  /** The "today" view: exactly the records dated today, in stored order. */
  function TodayRecords(records: seq<ClockRecord>, today: string): (view: seq<ClockRecord>)
    ensures forall k :: 0 <= k < |view| ==> view[k].date == today && view[k] in records
    ensures forall j :: 0 <= j < |records| && records[j].date == today ==> records[j] in view
    ensures Subsequence(view, records)
    ensures forall r :: multiset(view)[r] == if r.date == today then multiset(records)[r] else 0
  {
    FilterOrderAndCounts(records, (r: ClockRecord) => r.date == today);
    Filter(records, (r: ClockRecord) => r.date == today)
  }

  /** The board offers "Clock Out" only on an open record. */
  predicate ClockOutOffered(r: ClockRecord)
  {
    r.clockOutTime.None?
  }

  /** A record just closed is no longer offered for clock-out, and a record just opened is. */
  lemma ClockOutOfferedSpec(r: ClockRecord, now: int, id: string, employeeId: string, name: string, today: string)
    ensures !ClockOutOffered(ClockedOut(r, now))
    ensures ClockOutOffered(OpenRecord(id, employeeId, name, now, today))
  {
  }

  /** The clock records of the browser store (`hospital_clock_records`). */
  class ClockBoard {
    var records: seq<ClockRecord>

    /** An empty board. */
    constructor ()
      ensures records == []
    {
      records := [];
    }

    /**
     * `handleClockIn` with the employee list read from the store: nothing when
     * no employee is selected or the selected one is not listed (the source
     * then fails on the missing record), otherwise one open record appended.
     */
    method ClockIn(selected: string, employees: seq<Employee>, now: int, today: string)
      modifies this
      ensures selected == "" || Find(employees, HasId(selected)).None? ==> records == old(records)
      ensures selected != "" && Find(employees, HasId(selected)).Some? ==>
        records == old(records)
          + [OpenRecord(DecimalString(now), selected, Find(employees, HasId(selected)).value.name, now, today)]
    {
      if selected == "" {
        return;
      }
      var emp := Find(employees, HasId(selected));
      if emp.None? {
        return;
      }
      var newRecord := OpenRecord(DecimalString(now), selected, emp.value.name, now, today);
      records := records + [newRecord];
    }

    /** `handleClockOut`: every record with the id is closed at `now`; every other record is unchanged. */
    method ClockOut(recordId: string, now: int)
      modifies this
      ensures |records| == |old(records)|
      ensures forall k :: 0 <= k < |records| ==>
        records[k] == if old(records)[k].id == recordId then ClockedOut(old(records)[k], now) else old(records)[k]
    {
      records := seq(|records|, k requires 0 <= k < |records| reads this =>
        if records[k].id == recordId then ClockedOut(records[k], now) else records[k]);
    }
  }
}
