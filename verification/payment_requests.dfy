/**
 * The payment-request board (components/features/payment-requests.tsx):
 * overtime pay from a monthly salary, an employee's worked hours summed from
 * the clock records, submitting a request and moving it through the review
 * workflow. Amounts and hours are exact reals; the parsed amount of the form
 * and the clock are parameters.
 */
module PaymentRequests {
  import opened Wrappers
  import opened Seqs
  import opened Rounding
  import opened Accounts
  import opened EmployeeClockIn

  datatype Status = Pending | Approved | Rejected | Paid

  /** Whether the overtime pay is added to the requested amount. */
  datatype PayType = Basic | WithOvertime

  datatype PaymentRequest = PaymentRequest(
    id: string, employeeId: string, employeeName: string, amount: real, reason: string,
    status: Status, requestDate: int, email: string, phone: string, bankDetails: string,
    workedHours: real, overtimeHours: real, overtimePay: real, payType: PayType)

  /** The hourly rate on 160 hours a month, times one and a half. */
  function OvertimeRate(monthlySalary: real): (rate: real)
    ensures rate == monthlySalary * 3.0 / 320.0
  {
    var hourlyRate := monthlySalary / 160.0;
    hourlyRate * 1.5
  }

  /**
   * `calculateOvertimePay`: 160 regular hours a month, overtime at one and a
   * half times the hourly rate, rounded half up to cents.
   */
  function CalculateOvertimePay(monthlySalary: real, overtimeHours: real): (pay: real)
    ensures OvertimeRate(monthlySalary) * overtimeHours - 0.005 < pay
    ensures pay <= OvertimeRate(monthlySalary) * overtimeHours + 0.005
    ensures WholeHundredths(pay)
  {
    Round2HalfUp(OvertimeRate(monthlySalary) * overtimeHours)
  }

  /** Scaling by a non-negative factor keeps an order. */
  lemma ScaleMonotone(a: real, x: real, y: real)
    requires a >= 0.0 && x <= y
    ensures a * x <= a * y
  {
    assert a * y - a * x == a * (y - x);
  }

  /** No overtime earns nothing. */
  lemma OvertimePayZero(monthlySalary: real)
    ensures CalculateOvertimePay(monthlySalary, 0.0) == 0.0
  {
    assert OvertimeRate(monthlySalary) * 0.0 == 0 as real / 100.0;
    RoundHundredths(0);
  }

  /** For a non-negative salary, more overtime never earns less. */
  lemma OvertimePayMonotone(monthlySalary: real, h1: real, h2: real)
    requires monthlySalary >= 0.0 && h1 <= h2
    ensures CalculateOvertimePay(monthlySalary, h1) <= CalculateOvertimePay(monthlySalary, h2)
  {
    var x, y := OvertimeRate(monthlySalary) * h1, OvertimeRate(monthlySalary) * h2;
    assert CalculateOvertimePay(monthlySalary, h1) == Round2HalfUp(x);
    assert CalculateOvertimePay(monthlySalary, h2) == Round2HalfUp(y);
    ScaleMonotone(OvertimeRate(monthlySalary), h1, h2);
    Round2HalfUpMonotone(x, y);
  }

  /** The running totals of `reduce` over some records: worked hours and overtime hours. */
  function SumHours(records: seq<ClockRecord>): (real, real)
  {
    if records == [] then (0.0, 0.0)
    else
      var acc := SumHours(records[..|records| - 1]);
      var last := records[|records| - 1];
      (acc.0 + last.workedHours, acc.1 + last.overtimeHours)
  }

  /** The totals of two runs of records add up. */
  lemma {:induction false} SumHoursAppend(a: seq<ClockRecord>, b: seq<ClockRecord>)
    ensures SumHours(a + b).0 == SumHours(a).0 + SumHours(b).0
    ensures SumHours(a + b).1 == SumHours(a).1 + SumHours(b).1
  {
    if b == [] {
      assert a + b == a;
    } else {
      assert (a + b)[..|a + b| - 1] == a + b[..|b| - 1];
      SumHoursAppend(a, b[..|b| - 1]);
    }
  }

  /** Totals of records whose hours are never negative are never negative. */
  lemma {:induction false} SumHoursNonNegative(records: seq<ClockRecord>)
    requires forall k :: 0 <= k < |records| ==> records[k].workedHours >= 0.0 && records[k].overtimeHours >= 0.0
    ensures SumHours(records).0 >= 0.0 && SumHours(records).1 >= 0.0
  {
    if records != [] {
      SumHoursNonNegative(records[..|records| - 1]);
    }
  }

  /** The filter `r.employeeId === employeeId`. */
  function OfEmployee(employeeId: string): ClockRecord -> bool
  {
    (r: ClockRecord) => r.employeeId == employeeId
  }

  /** The records of one employee, in stored order. */
  function RecordsFor(records: seq<ClockRecord>, employeeId: string): seq<ClockRecord>
  {
    Filter(records, OfEmployee(employeeId))
  }

  /**
   * `getEmployeeWorkedHours`: nothing stored gives zero hours; otherwise the
   * employee's records are summed and each total is rounded half up to cents.
   */
  function GetEmployeeWorkedHours(stored: Option<seq<ClockRecord>>, employeeId: string): (hours: (real, real))
    ensures stored.None? ==> hours == (0.0, 0.0)
    ensures stored.Some? ==>
      var totals := SumHours(RecordsFor(stored.value, employeeId));
      totals.0 - 0.005 < hours.0 <= totals.0 + 0.005 && totals.1 - 0.005 < hours.1 <= totals.1 + 0.005
    ensures WholeHundredths(hours.0) && WholeHundredths(hours.1)
  {
    if stored.None? then (0.0, 0.0)
    else
      var totals := SumHours(RecordsFor(stored.value, employeeId));
      (Round2HalfUp(totals.0), Round2HalfUp(totals.1))
  }

  /** A record of another employee does not change an employee's hours. */
  lemma OtherRecordsIgnored(records: seq<ClockRecord>, r: ClockRecord, employeeId: string)
    requires r.employeeId != employeeId
    ensures GetEmployeeWorkedHours(Some(records + [r]), employeeId) == GetEmployeeWorkedHours(Some(records), employeeId)
  {
    FilterAppend(records, [r], OfEmployee(employeeId));
    assert [r][1..] == [];
    assert RecordsFor([r], employeeId) == [];
    assert RecordsFor(records, employeeId) + [] == RecordsFor(records, employeeId);
  }

  /** A record of the employee adds its hours to the employee's unrounded totals. */
  lemma OwnRecordAdds(records: seq<ClockRecord>, r: ClockRecord, employeeId: string)
    requires r.employeeId == employeeId
    ensures SumHours(RecordsFor(records + [r], employeeId)).0 == SumHours(RecordsFor(records, employeeId)).0 + r.workedHours
    ensures SumHours(RecordsFor(records + [r], employeeId)).1 == SumHours(RecordsFor(records, employeeId)).1 + r.overtimeHours
  {
    var own := RecordsFor(records, employeeId);
    assert RecordsFor(records + [r], employeeId) == own + [r] by {
      FilterAppend(records, [r], OfEmployee(employeeId));
      assert [r][1..] == [];
      assert RecordsFor([r], employeeId) == [r];
    }
    assert SumHours([r]).0 == r.workedHours && SumHours([r]).1 == r.overtimeHours by {
      assert [r][..0] == [];
    }
    SumHoursAppend(own, [r]);
  }

  /** The request `submitRequest` appends for employee `emp`: pending, with the overtime pay from its recorded overtime. */
  function NewRequest(emp: Employee, stored: Option<seq<ClockRecord>>, amount: real, reason: string,
                      bankDetails: string, payType: PayType, now: int): (r: PaymentRequest)
    ensures r.status == Pending && r.id == DecimalString(now) && r.requestDate == now
    ensures r.employeeId == emp.id && r.employeeName == emp.name && r.email == emp.email && r.phone == emp.phone
    ensures (r.workedHours, r.overtimeHours) == GetEmployeeWorkedHours(stored, emp.id)
    ensures r.overtimePay == CalculateOvertimePay(emp.salary, r.overtimeHours)
    ensures r.amount == if payType == WithOvertime then amount + r.overtimePay else amount
    ensures r.reason == reason && r.bankDetails == bankDetails && r.payType == payType
  {
    var hours := GetEmployeeWorkedHours(stored, emp.id);
    var overtimePay := CalculateOvertimePay(emp.salary, hours.1);
    var totalAmount := if payType == WithOvertime then amount + overtimePay else amount;
    PaymentRequest(DecimalString(now), emp.id, emp.name, totalAmount, reason, Pending, now,
      emp.email, emp.phone, bankDetails, hours.0, hours.1, overtimePay, payType)
  }

  /** The overtime variant asks for exactly the overtime pay more than the basic one. */
  lemma OvertimeVariantAddsPay(emp: Employee, stored: Option<seq<ClockRecord>>, amount: real, reason: string,
                               bankDetails: string, now: int)
    ensures NewRequest(emp, stored, amount, reason, bankDetails, WithOvertime, now).amount
      == NewRequest(emp, stored, amount, reason, bankDetails, Basic, now).amount
       + NewRequest(emp, stored, amount, reason, bankDetails, Basic, now).overtimePay
    ensures stored.None? ==>
      NewRequest(emp, stored, amount, reason, bankDetails, WithOvertime, now).amount == amount
  {
    OvertimePayZero(emp.salary);
  }

  /** The status changes the board offers: approve or reject a pending request, mark an approved one paid. */
  function StatusActions(s: Status): (actions: seq<Status>)
  {
    match s
    case Pending => [Approved, Rejected]
    case Approved => [Paid]
    case Rejected => []
    case Paid => []
  }

  /** How far along the workflow a status is. */
  function Stage(s: Status): nat
  {
    match s
    case Pending => 0
    case Approved => 1
    case Rejected => 2
    case Paid => 2
  }

  /**
   * Every offered change moves a request forward, rejected and paid requests
   * offer none, and only an approved request can be marked paid.
   */
  lemma StatusActionsSpec(s: Status, t: Status)
    ensures t in StatusActions(s) ==> Stage(s) < Stage(t)
    ensures StatusActions(s) == [] <==> s == Rejected || s == Paid
    ensures t in StatusActions(s) && t == Paid ==> s == Approved
    ensures t in StatusActions(s) ==> t != Pending
  {
  }

  /** The stored payment requests (`hospital_payment_requests`). */
  class PaymentBoard {
    var requests: seq<PaymentRequest>

    /** An empty board. */
    constructor ()
      ensures requests == []
    {
      requests := [];
    }

    /**
     * `submitRequest` against the listed employees and the stored clock
     * records: an unknown employee changes nothing; otherwise the new pending
     * request is appended.
     */
    method SubmitRequest(employees: seq<Employee>, stored: Option<seq<ClockRecord>>, employeeId: string,
                         amount: real, reason: string, bankDetails: string, payType: PayType, now: int)
      modifies this
      ensures Find(employees, HasId(employeeId)).None? ==> requests == old(requests)
      ensures Find(employees, HasId(employeeId)).Some? ==>
        requests == old(requests)
          + [NewRequest(Find(employees, HasId(employeeId)).value, stored, amount, reason, bankDetails, payType, now)]
    {
      var emp := Find(employees, HasId(employeeId));
      if emp.None? {
        return;
      }
      var newRequest := NewRequest(emp.value, stored, amount, reason, bankDetails, payType, now);
      requests := requests + [newRequest];
    }

    /** `updateStatus`: every request with the id takes the new status; nothing else changes. */
    method UpdateStatus(id: string, newStatus: Status)
      modifies this
      ensures |requests| == |old(requests)|
      ensures forall k :: 0 <= k < |requests| ==>
        requests[k] == if old(requests)[k].id == id then old(requests)[k].(status := newStatus) else old(requests)[k]
    {
      requests := seq(|requests|, k requires 0 <= k < |requests| reads this =>
        if requests[k].id == id then requests[k].(status := newStatus) else requests[k]);
    }
  }
}
