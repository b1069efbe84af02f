/**
 * The attendance summary screen: per employee and month, the number of present, absent, late
 * and missing days, and the detail sheet of one employee's month.
 */
module AttendanceSummary {
  import opened Wrappers
  import opened Text
  import opened Calendar
  import opened Clock
  import opened Sorting
  import opened Tables
  import opened Records
  import opened SalarySheet

  // ---------------------------------------------------------------------------
  // Helpers
  // ---------------------------------------------------------------------------

  /**
   * `timeToMin`: 0 for an empty string, otherwise hours × 60 + minutes of `split(":")`, with
   * `None` for the `NaN` of a part that is missing or not a number.
   */
  function TimeToMin(s: string): Option<int>
  {
    if s == "" then Some(0) else Minutes(s)
  }

  /** An empty time reads as midnight; a clock reading as its minutes; the "-" of a synthetic row as `NaN`. */
  lemma TimeToMinValues(s: string)
    ensures s == "" ==> TimeToMin(s) == Some(0)
    ensures IsClock(s) ==> TimeToMin(s) == Some(ClockMinutes(s))
    ensures s == "-" ==> TimeToMin(s).None?
  {
    if IsClock(s) {
      MinutesOfClock(s);
    }
    if s == "-" {
      assert s[1..] == [] && Split(s[1..], ':') == [""];
      assert [s[0]] + Split(s[1..], ':')[0] == s;
      assert Split(s, ':') == [s];
      assert !IsDigit('-');
    }
  }

  /** `workingDays`: counts the days of the active month that are neither Sunday nor Saturday. */
  method WorkingDays(ym: Month) returns (cnt: int)
    ensures cnt == WorkingDaysUpTo(ym, DaysIn(ym))
    ensures 20 <= cnt <= 23
  {
    var dim := DaysIn(ym);
    cnt := 0;
    var d := 1;
    while d <= dim
      invariant 1 <= d <= dim + 1
      invariant cnt == WorkingDaysUpTo(ym, d - 1)
    {
      var dow := DayOfWeek(DayOf(ym, d));
      if dow != 0 && dow != 6 {
        cnt := cnt + 1;
      }
      d := d + 1;
    }
    WorkingDaysOfMonth(ym);
  }

  // ---------------------------------------------------------------------------
  // getDetail
  // ---------------------------------------------------------------------------

  /**
   * The loop of `getDetail`: for each day of the month not in `recorded`, a row with the
   * day's date, "Off" or "No Record", and "-" for the time and approval; no id.
   */
  method MissingDetailRows(recorded: set<CalendarDay>, ym: Month) returns (missing: seq<AttendanceRecord>)
    ensures missing == MissingRows(recorded, ym, DaysIn(ym), false)
  {
    var dim := DaysIn(ym);
    missing := [];
    var d := 1;
    while d <= dim
      invariant 1 <= d <= dim + 1
      invariant missing == MissingRows(recorded, ym, d - 1, false)
    {
      var ds := DayOf(ym, d);
      if ds !in recorded {
        missing := missing + [SyntheticRow(ds, "")];
      }
      d := d + 1;
    }
  }

  /**
   * `getDetail`: the employee's records of the month, unchanged, with the rows of the days
   * without a record, sorted by date.
   */
  method GetDetail(attendanceRecords: seq<AttendanceRecord>, empId: string, ym: Month) returns (detail: seq<AttendanceRecord>)
    ensures detail == MonthSheet(OwnRecordsInMonth(attendanceRecords, empId, ym), ym, false)
  {
    var existing := OwnRecordsInMonth(attendanceRecords, empId, ym);
    var missing := MissingDetailRows(RecordedDays(existing), ym);
    detail := MergeByDate(existing, missing);
  }

  /**
   * The detail sheet is sorted by date and keeps every record of the month as stored (no
   * reclassification); a day without a record has exactly one row, the "Off" or "No Record" row.
   */
  lemma DetailSheet(attendanceRecords: seq<AttendanceRecord>, empId: string, ym: Month, d: CalendarDay)
    requires InMonth(d, ym) && d !in RecordedDays(OwnRecordsInMonth(attendanceRecords, empId, ym))
    ensures var own := OwnRecordsInMonth(attendanceRecords, empId, ym);
      && SortedBy(MonthSheet(own, ym, false), DayKey)
      && multiset(own) <= multiset(MonthSheet(own, ym, false))
      && RowsOn(MonthSheet(own, ym, false), d) == 1
      && SyntheticRow(d, "") in MonthSheet(own, ym, false)
  {
    var own := OwnRecordsInMonth(attendanceRecords, empId, ym);
    SheetArrangement(own, ym, false);
    SheetCoversMonth(own, ym, false, d);
  }

  // ---------------------------------------------------------------------------
  // The summary cards
  // ---------------------------------------------------------------------------

  /** A row of `daily`: the day, its status and whether it was late. */
  datatype DayEntry = DayEntry(day: CalendarDay, status: Status, isLate: bool)

  /**
   * The summary's status of a day: Work From Home if any record says so, else Present, else
   * Absent, else "No Record".
   */
  function SummaryStatus(group: seq<AttendanceRecord>): (st: Status)
    ensures st == WorkFromHome <==> HasStatus(group, WorkFromHome)
    ensures st == Present <==> !HasStatus(group, WorkFromHome) && HasStatus(group, Present)
    ensures st == Absent <==> !HasStatus(group, WorkFromHome) && !HasStatus(group, Present) && HasStatus(group, Absent)
    ensures st in {WorkFromHome, Present, Absent, NoRecord}
  {
    if HasStatus(group, WorkFromHome) then WorkFromHome
    else if HasStatus(group, Present) then Present
    else if HasStatus(group, Absent) then Absent
    else NoRecord
  }

  /** A record of the day without approval whose time is after 17:10 (1030 minutes). */
  predicate LateRecord(r: AttendanceRecord)
  {
    r.approval == No && TimeToMin(r.timeIn).Some? && TimeToMin(r.timeIn).value > 1030
  }

  /** `isLate`: a Present or Work From Home day on which some record is late. */
  predicate DayIsLate(group: seq<AttendanceRecord>)
  {
    (SummaryStatus(group) == WorkFromHome || SummaryStatus(group) == Present)
    && exists i :: 0 <= i < |group| && LateRecord(group[i])
  }

  /** The entry for each of the given days, in that order. */
  function Entries(recs: seq<AttendanceRecord>, days: seq<CalendarDay>): (daily: seq<DayEntry>)
    ensures |daily| == |days|
    ensures forall i :: 0 <= i < |days| ==>
      daily[i] == DayEntry(days[i], SummaryStatus(DayGroup(recs, days[i])), DayIsLate(DayGroup(recs, days[i])))
  {
    if days == [] then []
    else [DayEntry(days[0], SummaryStatus(DayGroup(recs, days[0])), DayIsLate(DayGroup(recs, days[0])))] + Entries(recs, days[1..])
  }

  /** `filtered.filter(r => r.employeeId === emp.id)`: the month's records, then the employee's. */
  function CardRecords(attendanceRecords: seq<AttendanceRecord>, empId: string, ym: Month): seq<AttendanceRecord>
  {
    Filter(Filter(attendanceRecords, (r: AttendanceRecord) => InMonth(r.date, ym)), (r: AttendanceRecord) => r.employeeId == empId)
  }

  /** `daily`: one entry per distinct day of the employee's records of the month. */
  function Daily(attendanceRecords: seq<AttendanceRecord>, empId: string, ym: Month): seq<DayEntry>
  {
    var recs := CardRecords(attendanceRecords, empId, ym);
    Entries(recs, DistinctDays(recs))
  }

  /** The card's records are exactly the employee's records dated in the month. */
  lemma CardRecordsMembers(attendanceRecords: seq<AttendanceRecord>, empId: string, ym: Month, r: AttendanceRecord)
    ensures r in CardRecords(attendanceRecords, empId, ym) <==>
      r in attendanceRecords && r.employeeId == empId && InMonth(r.date, ym)
  {
    var month := Filter(attendanceRecords, (r: AttendanceRecord) => InMonth(r.date, ym));
    FilterMembers(attendanceRecords, (r: AttendanceRecord) => InMonth(r.date, ym), r);
    FilterMembers(month, (r: AttendanceRecord) => r.employeeId == empId, r);
  }

  /**
   * There is exactly one entry per recorded day: the entries' days are pairwise distinct and
   * are the days of the employee's records of the month.
   */
  lemma DailyOnePerDay(attendanceRecords: seq<AttendanceRecord>, empId: string, ym: Month)
    ensures var recs := CardRecords(attendanceRecords, empId, ym);
      var daily := Daily(attendanceRecords, empId, ym);
      && |daily| == |RecordedDays(recs)|
      && (forall i, j :: 0 <= i < j < |daily| ==> daily[i].day != daily[j].day)
      && (forall d :: d in RecordedDays(recs) <==> exists i :: 0 <= i < |daily| && daily[i].day == d)
  {
    var recs := CardRecords(attendanceRecords, empId, ym);
    var days := DistinctDays(recs);
    DistinctDaysCount(recs);
    var daily := Daily(attendanceRecords, empId, ym);
    forall d | d in RecordedDays(recs) ensures exists i :: 0 <= i < |daily| && daily[i].day == d {
      var i :| 0 <= i < |days| && days[i] == d;
      assert daily[i].day == d;
    }
  }

  function IsPresentEntry(e: DayEntry): bool { e.status == Present || e.status == WorkFromHome }
  function IsAbsentEntry(e: DayEntry): bool { e.status == Absent }
  function IsLateEntry(e: DayEntry): bool { e.isLate }

  /** The four numbers of an employee's card. */
  datatype Card = Card(presentCount: nat, absentCount: nat, lateCount: nat, missingCount: int)

  function CardOf(daily: seq<DayEntry>, workingDays: int): Card
  {
    Card(Count(daily, IsPresentEntry), Count(daily, IsAbsentEntry), Count(daily, IsLateEntry), workingDays - |daily|)
  }

  /**
   * On every card the late days are among the present days, present and absent days together
   * are at most the recorded days, and "No Record" is the working days minus the recorded days.
   */
  lemma CardBounds(attendanceRecords: seq<AttendanceRecord>, empId: string, ym: Month)
    ensures var recs := CardRecords(attendanceRecords, empId, ym);
      var card := CardOf(Daily(attendanceRecords, empId, ym), WorkingDaysUpTo(ym, DaysIn(ym)));
      && card.lateCount <= card.presentCount
      && card.presentCount + card.absentCount <= |RecordedDays(recs)|
      && card.missingCount == WorkingDaysUpTo(ym, DaysIn(ym)) - |RecordedDays(recs)|
  {
    var daily := Daily(attendanceRecords, empId, ym);
    DailyOnePerDay(attendanceRecords, empId, ym);
    forall e: DayEntry | IsLateEntry(e) && e in daily ensures IsPresentEntry(e) {
    }
    LateCountBound(daily);
    CountDisjoint(daily, IsPresentEntry, IsAbsentEntry);
  }

  /** The entries of `Entries` are late only on Present or Work From Home days. */
  lemma {:induction false} LateCountBound(daily: seq<DayEntry>)
    requires forall e :: e in daily && IsLateEntry(e) ==> IsPresentEntry(e)
    ensures Count(daily, IsLateEntry) <= Count(daily, IsPresentEntry)
  {
    if daily != [] {
      assert daily[0] in daily;
      LateCountBound(daily[1..]);
    }
  }

  /**
   * "No Record" is working days minus recorded days, so it can go negative only through
   * records on weekends: when none of the recorded days is a weekend day, it is not negative.
   */
  lemma MissingNonNegative(attendanceRecords: seq<AttendanceRecord>, empId: string, ym: Month)
    requires forall r :: r in CardRecords(attendanceRecords, empId, ym) ==> !IsWeekend(r.date)
    ensures CardOf(Daily(attendanceRecords, empId, ym), WorkingDaysUpTo(ym, DaysIn(ym))).missingCount >= 0
  {
    var recs := CardRecords(attendanceRecords, empId, ym);
    DailyOnePerDay(attendanceRecords, empId, ym);
    var recorded := RecordedDays(recs);
    forall d | d in recorded ensures InMonth(d, ym) && !IsWeekend(d) {
      var i :| 0 <= i < |recs| && recs[i].date == d;
      CardRecordsMembers(attendanceRecords, empId, ym, recs[i]);
    }
    WeekdaysFitMonth(recorded, ym, DaysIn(ym));
  }

  /** At most `WorkingDaysUpTo(ym, k)` distinct weekdays among the days 1..k of the month. */
  lemma {:induction false} WeekdaysFitMonth(recorded: set<CalendarDay>, ym: Month, k: int)
    requires 0 <= k <= DaysIn(ym)
    requires forall d :: d in recorded ==> InMonth(d, ym) && !IsWeekend(d) && d.day <= k
    ensures |recorded| <= WorkingDaysUpTo(ym, k)
  {
    if k == 0 {
      assert recorded == {};
    } else {
      var last := DayOf(ym, k);
      var rest := recorded - {last};
      forall d | d in rest ensures d.day <= k - 1 {
        assert d != last;
        assert d.year == ym.year && d.month == ym.month;
      }
      WeekdaysFitMonth(rest, ym, k - 1);
      if last in recorded {
        assert !IsWeekend(last);
      }
    }
  }
}
