/**
 * The dashboard's monthly figures: the number of employees, the late arrivals and the
 * absences among the attendance records of the current month.
 */
module Dashboard {
  import opened Text
  import opened Calendar
  import opened Clock
  import opened Tables
  import opened Records

  /** `LATE_THRESHOLD`: late means checking in after 5:10 PM. */
  const LateThreshold: string := "17:10"

  /** The records dated in the month and year of `now`. */
  function MonthRecords(allRecords: seq<AttendanceRecord>, now: CalendarDay): seq<AttendanceRecord>
  {
    Filter(allRecords, (r: AttendanceRecord) => r.date.month == now.month && r.date.year == now.year)
  }

  /** A late arrival: "Present", not approved, and a `timeIn` string greater than "17:10". */
  function IsLateArrival(r: AttendanceRecord): bool
  {
    r.status == Present && r.approval == No && Less(LateThreshold, r.timeIn)
  }

  function IsAbsence(r: AttendanceRecord): bool
  {
    r.status == Absent
  }

  datatype Metrics = Metrics(totalEmployees: nat, totalLateArrivals: nat, totalAbsents: nat)

  /** `fetchMetrics`: the staff count and the two counts over this month's records. */
  function FetchMetrics(employees: seq<Employee>, allRecords: seq<AttendanceRecord>, now: CalendarDay): Metrics
  {
    var monthRecords := MonthRecords(allRecords, now);
    Metrics(|employees|, Count(monthRecords, IsLateArrival), Count(monthRecords, IsAbsence))
  }

  /** Exactly the records of the current month and year are counted. */
  lemma MonthRecordsMembers(allRecords: seq<AttendanceRecord>, now: CalendarDay, r: AttendanceRecord)
    ensures r in MonthRecords(allRecords, now) <==> r in allRecords && r.date.month == now.month && r.date.year == now.year
  {
    FilterMembers(allRecords, (r: AttendanceRecord) => r.date.month == now.month && r.date.year == now.year, r);
  }

  /** A late arrival is never an absence, so the two figures together never exceed the month's records. */
  lemma LateAndAbsentBound(employees: seq<Employee>, allRecords: seq<AttendanceRecord>, now: CalendarDay)
    ensures var m := FetchMetrics(employees, allRecords, now);
      m.totalLateArrivals + m.totalAbsents <= |MonthRecords(allRecords, now)|
  {
    CountDisjoint(MonthRecords(allRecords, now), IsLateArrival, IsAbsence);
  }

  /** On a zero-padded clock reading, the string test `> "17:10"` means after 1030 minutes. */
  lemma LateByMinutes(r: AttendanceRecord)
    requires IsClock(r.timeIn)
    ensures IsLateArrival(r) <==> r.status == Present && r.approval == No && ClockMinutes(r.timeIn) > 1030
  {
    AfterTenPastFive(r.timeIn);
  }

  function IsLateByMinutes(r: AttendanceRecord): bool
  {
    r.status == Present && r.approval == No && IsClock(r.timeIn) && ClockMinutes(r.timeIn) > 1030
  }

  /**
   * When every record of the month carries a clock reading, the late-arrival figure is the
   * number of unapproved Present records after 5:10 PM.
   */
  lemma {:induction false} LateCountByMinutes(records: seq<AttendanceRecord>)
    requires forall i :: 0 <= i < |records| ==> IsClock(records[i].timeIn)
    ensures Count(records, IsLateArrival) == Count(records, IsLateByMinutes)
  {
    if records != [] {
      LateByMinutes(records[0]);
      LateCountByMinutes(records[1..]);
    }
  }
}
