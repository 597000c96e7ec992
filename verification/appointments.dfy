/**
 * The appointment screen (components/features/appointment-management.tsx):
 * scheduling an appointment with its reminder, changing an appointment's
 * status, and the list of upcoming appointments (scheduled ones, earliest
 * date first, at most ten). The clock is a parameter; a date from the date
 * picker ("YYYY-MM-DD") is ordered by the number its digits spell, which
 * orders such dates as their timestamps do.
 */
module Appointments {
  import opened Wrappers
  import opened Seqs
  import opened Text
  import opened Accounts

  datatype AppointmentStatus = Scheduled | Completed | Cancelled

  datatype Appointment = Appointment(
    id: string, patientId: string, patientName: string, doctorId: string, doctorName: string,
    date: string, time: string, reason: string, status: AppointmentStatus, notes: string)

  /** A registered patient, as far as scheduling reads it. */
  datatype Patient = Patient(id: string, name: string, email: string, phone: string)

  datatype Doctor = Doctor(id: string, name: string)

  /** A row of `hospital_reminders`. */
  datatype Reminder = Reminder(
    id: string, kind: string, patientId: string, patientName: string, patientEmail: string,
    patientPhone: string, appointmentId: string, date: string, time: string, doctor: string,
    message: string, status: string, createdAt: int)

  /** The fixed list of doctors the form offers. */
  const Doctors: seq<Doctor> := [
    Doctor("doc1", "Dr. James Kariuki"),
    Doctor("doc2", "Dr. Sarah Omondi"),
    Doctor("doc3", "Dr. Peter Mwangi")
  ]

  /** The filter `p.id === id` on patients. */
  function PatientIs(id: string): Patient -> bool
  {
    (p: Patient) => p.id == id
  }

  /** The filter `d.id === id` on doctors. */
  function DoctorIs(id: string): Doctor -> bool
  {
    (d: Doctor) => d.id == id
  }

  /** `x?.name || ""`: the name of what was found, or the empty string. */
  function PatientName(p: Option<Patient>): string
  {
    if p.Some? then p.value.name else ""
  }

  function DoctorName(d: Option<Doctor>): string
  {
    if d.Some? then d.value.name else ""
  }

  /** The four fields the form requires are filled in. */
  predicate RequiredFilled(patientId: string, doctorId: string, date: string, time: string)
  {
    patientId != "" && doctorId != "" && date != "" && time != ""
  }

  /** The appointment `handleSubmit` appends: scheduled, without notes, named after the patient and doctor found. */
  function NewAppointment(patients: seq<Patient>, patientId: string, doctorId: string, date: string, time: string,
                          reason: string, now: int): (a: Appointment)
    ensures a.status == Scheduled && a.notes == "" && a.id == DecimalString(now)
    ensures a.patientId == patientId && a.doctorId == doctorId && a.date == date && a.time == time && a.reason == reason
    ensures a.patientName == PatientName(Find(patients, PatientIs(patientId)))
    ensures a.doctorName == DoctorName(Find(Doctors, DoctorIs(doctorId)))
  {
    Appointment(DecimalString(now), patientId, PatientName(Find(patients, PatientIs(patientId))), doctorId,
      DoctorName(Find(Doctors, DoctorIs(doctorId))), date, time, reason, Scheduled, "")
  }

  const ReminderLead: string := "Reminder: You have an appointment with "

  /** The text of an appointment reminder. */
  function ReminderMessage(doctorName: string, date: string, time: string): string
  {
    ReminderLead + doctorName + " on " + date + " at " + time
  }

  /** The reminder names the doctor, the date and the time, each at its own place after the fixed lead. */
  lemma ReminderMessageSpec(doctorName: string, date: string, time: string)
    ensures var m := ReminderMessage(doctorName, date, time);
      var d := |ReminderLead|;
      OccursAt(m, ReminderLead, 0) && OccursAt(m, doctorName, d)
      && OccursAt(m, date, d + |doctorName| + 4)
      && OccursAt(m, time, d + |doctorName| + 4 + |date| + 4)
      && |m| == d + |doctorName| + |date| + |time| + 8
  {
    var m := ReminderMessage(doctorName, date, time);
    var d := |ReminderLead|;
    var i := d + |doctorName| + 4;
    var j := i + |date| + 4;
    assert m == ReminderLead + doctorName + " on " + date + " at " + time;
    assert m[..d] == ReminderLead;
    assert m[d..d + |doctorName|] == doctorName;
    assert m[i..i + |date|] == date;
    assert m[j..j + |time|] == time;
  }

  /** The reminder `sendAppointmentReminder` pushes for a patient and a new appointment. */
  function NewReminder(patient: Patient, a: Appointment, now: int): (r: Reminder)
    ensures r.kind == "appointment" && r.status == "pending" && r.createdAt == now
    ensures r.appointmentId == a.id && r.date == a.date && r.time == a.time && r.doctor == a.doctorName
    ensures r.patientId == patient.id && r.patientName == patient.name
    ensures r.patientEmail == patient.email && r.patientPhone == patient.phone
    ensures r.message == ReminderMessage(a.doctorName, a.date, a.time)
  {
    Reminder(DecimalString(now), "appointment", patient.id, patient.name, patient.email, patient.phone,
      a.id, a.date, a.time, a.doctorName, ReminderMessage(a.doctorName, a.date, a.time), "pending", now)
  }

  /** The list after `updateAppointmentStatus`: the appointments with the id take the new status. */
  function AppointmentStatusUpdated(appointments: seq<Appointment>, id: string, newStatus: AppointmentStatus)
    : (r: seq<Appointment>)
    ensures |r| == |appointments|
    ensures forall k :: 0 <= k < |appointments| ==>
      r[k] == if appointments[k].id == id then appointments[k].(status := newStatus) else appointments[k]
  {
    seq(|appointments|, k requires 0 <= k < |appointments| =>
      if appointments[k].id == id then appointments[k].(status := newStatus) else appointments[k])
  }

  /** The value of the decimal digits of a string, read left to right; other characters are skipped. */
  function DigitValue(s: string): nat
  {
    if s == [] then 0
    else
      var c := s[|s| - 1];
      if '0' <= c <= '9' then DigitValue(s[..|s| - 1]) * 10 + (c as int - '0' as int)
      else DigitValue(s[..|s| - 1])
  }

  /** The sort key of an appointment: its date as a number (2024-03-05 becomes 20240305). */
  function DateKey(a: Appointment): nat
  {
    DigitValue(a.date)
  }

  /** Earliest date first. */
  ghost predicate SortedByDate(s: seq<Appointment>)
  {
    forall i, j :: 0 <= i < j < |s| ==> DateKey(s[i]) <= DateKey(s[j])
  }

  /** Places `a` after every entry whose date is not later, keeping the order of `s`. */
  function InsertByDate(a: Appointment, s: seq<Appointment>): (r: seq<Appointment>)
    ensures multiset(r) == multiset(s) + multiset{a}
    ensures |r| == |s| + 1
  {
    if s == [] then [a]
    else if DateKey(a) < DateKey(s[0]) then [a] + s
    else
      assert s == [s[0]] + s[1..];
      [s[0]] + InsertByDate(a, s[1..])
  }

  /** Inserting into a list sorted by date keeps it sorted. */
  lemma {:induction false} InsertByDateSorted(a: Appointment, s: seq<Appointment>)
    requires SortedByDate(s)
    ensures SortedByDate(InsertByDate(a, s))
  {
    if s != [] && DateKey(a) >= DateKey(s[0]) {
      var tail := InsertByDate(a, s[1..]);
      InsertByDateSorted(a, s[1..]);
      forall k | 0 <= k < |tail|
        ensures DateKey(s[0]) <= DateKey(tail[k])
      {
        InsertByDateMember(a, s[1..], tail[k]);
        if tail[k] != a {
          var j :| 0 <= j < |s[1..]| && s[1..][j] == tail[k];
          assert s[j + 1] == tail[k];
        }
      }
      assert InsertByDate(a, s) == [s[0]] + tail;
    }
  }

  /** Every entry of an insertion is the inserted one or an entry of the list. */
  lemma InsertByDateMember(a: Appointment, s: seq<Appointment>, x: Appointment)
    requires x in InsertByDate(a, s)
    ensures x == a || x in s
  {
    assert x in multiset(InsertByDate(a, s));
  }

  /** `.sort` by date: a stable insertion sort on the date key. */
  function SortByDate(s: seq<Appointment>): (r: seq<Appointment>)
    ensures multiset(r) == multiset(s)
    ensures |r| == |s|
  {
    if s == [] then []
    else
      assert s == s[..|s| - 1] + [s[|s| - 1]];
      InsertByDate(s[|s| - 1], SortByDate(s[..|s| - 1]))
  }

  /** The sort orders by date. */
  lemma {:induction false} SortByDateSorted(s: seq<Appointment>)
    ensures SortedByDate(SortByDate(s))
  {
    if s != [] {
      SortByDateSorted(s[..|s| - 1]);
      InsertByDateSorted(s[|s| - 1], SortByDate(s[..|s| - 1]));
    }
  }

  /** The filter `apt.status === "scheduled"`. */
  predicate IsScheduled(a: Appointment)
  {
    a.status == Scheduled
  }

  /** The filter "another id than `id`". */
  function OtherAppointment(id: string): Appointment -> bool
  {
    (a: Appointment) => a.id != id
  }

  /**
   * Completing or cancelling an appointment takes it off the scheduled ones
   * and leaves the other scheduled ones as they were, in the same order.
   */
  lemma {:induction false} ClosedLeavesScheduled(appointments: seq<Appointment>, id: string, newStatus: AppointmentStatus)
    requires newStatus != Scheduled
    ensures Filter(AppointmentStatusUpdated(appointments, id, newStatus), IsScheduled)
      == Filter(Filter(appointments, IsScheduled), OtherAppointment(id))
  {
    if appointments != [] {
      var a := appointments[0];
      var rest := appointments[1..];
      var a' := if a.id == id then a.(status := newStatus) else a;
      assert AppointmentStatusUpdated(appointments, id, newStatus) == [a'] + AppointmentStatusUpdated(rest, id, newStatus);
      assert ([a'] + AppointmentStatusUpdated(rest, id, newStatus))[1..] == AppointmentStatusUpdated(rest, id, newStatus);
      ClosedLeavesScheduled(rest, id, newStatus);
      if IsScheduled(a) {
        assert Filter(appointments, IsScheduled) == [a] + Filter(rest, IsScheduled);
        assert ([a] + Filter(rest, IsScheduled))[1..] == Filter(rest, IsScheduled);
      }
    }
  }

  /** `upcomingAppointments`: the scheduled appointments sorted by date, the first ten. */
  function UpcomingAppointments(appointments: seq<Appointment>): seq<Appointment>
  {
    var sorted := SortByDate(Filter(appointments, IsScheduled));
    if |sorted| <= 10 then sorted else sorted[..10]
  }

  /**
   * The upcoming list holds only scheduled appointments of the store, earliest
   * first, at most ten of them.
   */
  lemma UpcomingSpec(appointments: seq<Appointment>)
    ensures var u := UpcomingAppointments(appointments);
      |u| <= 10
      && (forall k :: 0 <= k < |u| ==> u[k].status == Scheduled && u[k] in appointments)
      && SortedByDate(u)
    ensures multiset(UpcomingAppointments(appointments)) <= multiset(Filter(appointments, IsScheduled))
    ensures var n := |Filter(appointments, IsScheduled)|;
      |UpcomingAppointments(appointments)| == if n <= 10 then n else 10
  {
    var scheduled := Filter(appointments, IsScheduled);
    var sorted := SortByDate(scheduled);
    var u := UpcomingAppointments(appointments);
    UpcomingCounts(appointments);
    assert SortedByDate(u) by {
      SortByDateSorted(scheduled);
      assert u == sorted[..|u|];
    }
    forall k | 0 <= k < |u|
      ensures u[k].status == Scheduled && u[k] in appointments
    {
      assert u[k] in multiset(u);
      assert u[k] in multiset(scheduled);
    }
  }

  /** The upcoming list is a prefix of the sorted scheduled ones, so it repeats none of them. */
  lemma UpcomingCounts(appointments: seq<Appointment>)
    ensures multiset(UpcomingAppointments(appointments)) <= multiset(Filter(appointments, IsScheduled))
    ensures var n := |Filter(appointments, IsScheduled)|;
      |UpcomingAppointments(appointments)| == if n <= 10 then n else 10
  {
    var sorted := SortByDate(Filter(appointments, IsScheduled));
    var u := UpcomingAppointments(appointments);
    assert sorted == u + sorted[|u|..];
  }

  /**
   * The upcoming list holds the earliest: a scheduled appointment left out
   * means the list is full and ends no later than it.
   */
  lemma UpcomingEarliest(appointments: seq<Appointment>, a: Appointment)
    requires a in appointments && a.status == Scheduled
    requires a !in UpcomingAppointments(appointments)
    ensures |UpcomingAppointments(appointments)| == 10
    ensures DateKey(UpcomingAppointments(appointments)[9]) <= DateKey(a)
  {
    var scheduled := Filter(appointments, IsScheduled);
    var sorted := SortByDate(scheduled);
    var u := UpcomingAppointments(appointments);
    SortByDateSorted(scheduled);
    assert u == sorted[..|u|];
    assert a in scheduled;
    assert a in multiset(scheduled);
    assert a in multiset(sorted);
    var j :| 0 <= j < |sorted| && sorted[j] == a;
    assert j >= |u|;
  }

  /** The stored appointments and reminders (`hospital_appointments`, `hospital_reminders`). */
  class AppointmentBook {
    var appointments: seq<Appointment>
    var reminders: seq<Reminder>

    /** An empty book. */
    constructor ()
      ensures appointments == [] && reminders == []
    {
      appointments := [];
      reminders := [];
    }

    /**
     * `handleSubmit` with the registered patients: a missing required field
     * changes nothing. Otherwise the appointment is appended and one reminder
     * pushed for the patient; when the patient is not registered the
     * appointment is already stored and the reminder step fails, so no
     * reminder is pushed.
     */
    method HandleSubmit(patients: seq<Patient>, patientId: string, doctorId: string, date: string, time: string,
                        reason: string, now: int)
      modifies this
      ensures !RequiredFilled(patientId, doctorId, date, time) ==>
        appointments == old(appointments) && reminders == old(reminders)
      ensures RequiredFilled(patientId, doctorId, date, time) ==>
        appointments == old(appointments) + [NewAppointment(patients, patientId, doctorId, date, time, reason, now)]
      ensures RequiredFilled(patientId, doctorId, date, time) && Find(patients, PatientIs(patientId)).Some? ==>
        reminders == old(reminders) + [NewReminder(Find(patients, PatientIs(patientId)).value,
          NewAppointment(patients, patientId, doctorId, date, time, reason, now), now)]
      ensures Find(patients, PatientIs(patientId)).None? ==> reminders == old(reminders)
    {
      if !RequiredFilled(patientId, doctorId, date, time) {
        return;
      }
      var patient := Find(patients, PatientIs(patientId));
      var newAppointment := NewAppointment(patients, patientId, doctorId, date, time, reason, now);
      appointments := appointments + [newAppointment];
      if patient.None? {
        return;
      }
      SendAppointmentReminder(patient.value, newAppointment, now);
    }

    /** `sendAppointmentReminder`: pushes exactly one reminder. */
    method SendAppointmentReminder(patient: Patient, appointment: Appointment, now: int)
      modifies this
      ensures reminders == old(reminders) + [NewReminder(patient, appointment, now)]
      ensures appointments == old(appointments)
    {
      reminders := reminders + [NewReminder(patient, appointment, now)];
    }

    /** `updateAppointmentStatus`: only the status of the appointments with the id changes. */
    method UpdateAppointmentStatus(appointmentId: string, newStatus: AppointmentStatus)
      modifies this
      ensures appointments == AppointmentStatusUpdated(old(appointments), appointmentId, newStatus)
      ensures reminders == old(reminders)
    {
      appointments := AppointmentStatusUpdated(appointments, appointmentId, newStatus);
    }
  }
}
