/**
 * The cleaner's dashboard (components/dashboards/cleaner-dashboard.tsx): the
 * wards with their cleaning status (five defaults when none are stored), the
 * cleaning log, logging a cleaning and booking a ward's status. The clock and
 * its local renderings of the date and time are parameters.
 */
module Cleaning {
  import opened Wrappers
  import opened Accounts

  datatype AreaType = Washroom | WardArea | Common

  datatype CleaningStatus = Pending | InProgress | Completed

  datatype Ward = Ward(
    id: string, name: string, bedCount: int, occupiedBeds: int,
    lastCleaned: Option<string>, cleaningStatus: CleaningStatus)

  datatype CleaningLog = CleaningLog(
    id: string, area: string, areaType: AreaType, cleanedBy: string, cleaningTime: string,
    date: string, notes: string, completed: bool)

  /** The wards installed when none are stored. */
  const DefaultWards: seq<Ward> := [
    Ward("1", "Ward A", 10, 6, None, Completed),
    Ward("2", "Ward B", 8, 4, None, Pending),
    Ward("3", "ICU", 5, 3, None, InProgress),
    Ward("4", "Washroom 1", 1, 0, None, Completed),
    Ward("5", "Washroom 2", 1, 0, None, Pending)
  ]

  /** The default wards are five, with ids "1" to "5", no more beds occupied than they have, and never cleaned. */
  lemma DefaultWardsSpec()
    ensures |DefaultWards| == 5
    ensures forall k :: 0 <= k < 5 ==> DefaultWards[k].id == [('1' as int + k) as char]
    ensures forall k :: 0 <= k < 5 ==>
      0 <= DefaultWards[k].occupiedBeds <= DefaultWards[k].bedCount && DefaultWards[k].lastCleaned.None?
  {
  }

  /** The entry `handleLogCleaning` appends: completed, by the dashboard's cleaner. */
  function NewLog(area: string, areaType: AreaType, cleaningTime: string, notes: string, now: int, today: string)
    : (log: CleaningLog)
    ensures log.completed && log.cleanedBy == "Maria Garcia"
    ensures log.area == area && log.areaType == areaType && log.cleaningTime == cleaningTime && log.notes == notes
    ensures log.id == DecimalString(now) && log.date == today
  {
    CleaningLog(DecimalString(now), area, areaType, "Maria Garcia", cleaningTime, today, notes, true)
  }

  /** The wards after a cleaning of `area` logged at local time `stamp`. */
  function CleanedWards(wards: seq<Ward>, area: string, stamp: string): (r: seq<Ward>)
    ensures |r| == |wards|
    ensures forall k :: 0 <= k < |wards| && wards[k].id != area ==> r[k] == wards[k]
    ensures forall k :: 0 <= k < |wards| && wards[k].id == area ==>
      r[k].cleaningStatus == Completed && r[k].lastCleaned == Some(stamp)
      && r[k].(lastCleaned := wards[k].lastCleaned, cleaningStatus := wards[k].cleaningStatus) == wards[k]
  {
    seq(|wards|, k requires 0 <= k < |wards| =>
      if wards[k].id == area then wards[k].(lastCleaned := Some(stamp), cleaningStatus := Completed) else wards[k])
  }

  /** The wards after `handleWardBooking`: the wards with the id take the new status. */
  function BookedWards(wards: seq<Ward>, wardId: string, newStatus: CleaningStatus): (r: seq<Ward>)
    ensures |r| == |wards|
    ensures forall k :: 0 <= k < |wards| ==>
      r[k] == if wards[k].id == wardId then wards[k].(cleaningStatus := newStatus) else wards[k]
  {
    seq(|wards|, k requires 0 <= k < |wards| =>
      if wards[k].id == wardId then wards[k].(cleaningStatus := newStatus) else wards[k])
  }

  /** A logged cleaning overrides whatever status the ward was booked to. */
  lemma CleaningOverridesBooking(wards: seq<Ward>, area: string, newStatus: CleaningStatus, stamp: string)
    ensures CleanedWards(BookedWards(wards, area, newStatus), area, stamp) == CleanedWards(wards, area, stamp)
  {
    var a := CleanedWards(BookedWards(wards, area, newStatus), area, stamp);
    var b := CleanedWards(wards, area, stamp);
    assert forall k :: 0 <= k < |wards| ==> a[k] == b[k];
  }

  /** Logging the same cleaning twice leaves the wards as logging it once. */
  lemma CleanedWardsIdempotent(wards: seq<Ward>, area: string, stamp: string)
    ensures CleanedWards(CleanedWards(wards, area, stamp), area, stamp) == CleanedWards(wards, area, stamp)
  {
    var once := CleanedWards(wards, area, stamp);
    var twice := CleanedWards(once, area, stamp);
    assert forall k :: 0 <= k < |wards| ==> twice[k] == once[k];
  }

  /** The cleaning log (`cleaning_logs`) and the wards (`hospital_wards`). */
  class CleaningBoard {
    var logs: seq<CleaningLog>
    var wards: seq<Ward>

    /** The dashboard's first render: the stored lists, or no log and the default wards (which are then stored). */
    constructor (savedLogs: Option<seq<CleaningLog>>, savedWards: Option<seq<Ward>>)
      ensures logs == if savedLogs.Some? then savedLogs.value else []
      ensures wards == if savedWards.Some? then savedWards.value else DefaultWards
    {
      logs := if savedLogs.Some? then savedLogs.value else [];
      wards := if savedWards.Some? then savedWards.value else DefaultWards;
    }

    /**
     * `handleLogCleaning`: without an area or a cleaning time nothing changes;
     * otherwise one completed entry is appended and the ward with the
     * selected id is marked cleaned at `stamp`.
     */
    method HandleLogCleaning(selectedArea: string, areaType: AreaType, notes: string, cleaningTime: string,
                             now: int, today: string, stamp: string)
      modifies this
      ensures selectedArea == "" || cleaningTime == "" ==> logs == old(logs) && wards == old(wards)
      ensures selectedArea != "" && cleaningTime != "" ==>
        logs == old(logs) + [NewLog(selectedArea, areaType, cleaningTime, notes, now, today)]
        && wards == CleanedWards(old(wards), selectedArea, stamp)
    {
      if selectedArea == "" || cleaningTime == "" {
        return;
      }
      var newLog := NewLog(selectedArea, areaType, cleaningTime, notes, now, today);
      logs := logs + [newLog];
      wards := CleanedWards(wards, selectedArea, stamp);
    }

    /** `handleWardBooking`: only the cleaning status of the wards with the id changes. */
    method HandleWardBooking(wardId: string, newStatus: CleaningStatus)
      modifies this
      ensures wards == BookedWards(old(wards), wardId, newStatus)
      ensures logs == old(logs)
    {
      wards := BookedWards(wards, wardId, newStatus);
    }
  }
}
