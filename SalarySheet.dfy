/**
 * The attendance side of the salary-management screen: the normalisation of record dates,
 * the calendar keys and working days of a month, the reclassification of check-in times,
 * one employee's complete month sheet, and the one-row-per-day summary the overview table
 * counts.
 */
module SalarySheet {
  import opened Wrappers
  import opened Text
  import opened Calendar
  import opened Clock
  import opened Sorting
  import opened Tables
  import opened Records

  // ---------------------------------------------------------------------------
  // normalizeDate
  // ---------------------------------------------------------------------------

  /**
   * `normalizeDate` on its "M/D/YYYY" branch: the parts around '/' become
   * `${year}-${month.padStart(2)}-${day.padStart(2)}`, where a missing third part prints as
   * "undefined". Text without '/' goes through `new Date(...)`, which is not modelled (`None`).
   */
  function NormalizeDate(s: string): (r: Option<string>)
    ensures r.Some? <==> '/' in s
  {
    if '/' in s then
      var parts := Split(s, '/');
      var year := if |parts| >= 3 then parts[2] else "undefined";
      Some(year + "-" + PadStart2(parts[0]) + "-" + PadStart2(parts[1]))
    else None
  }

  /** On "M/D/Y" text the fields are reordered and month and day padded to two characters. */
  lemma NormalizeSlashed(m: string, d: string, y: string)
    requires '/' !in m && '/' !in d && '/' !in y
    ensures NormalizeDate(m + "/" + d + "/" + y) == Some(y + "-" + PadStart2(m) + "-" + PadStart2(d))
  {
    var parts := [m, d, y];
    assert Join(parts, '/') == m + "/" + d + "/" + y by {
      assert Join(parts[2..], '/') == y;
      assert Join(parts[1..], '/') == d + "/" + y;
    }
    SplitJoin(parts, '/');
    assert '/' in m + "/" + d + "/" + y by {
      assert (m + "/" + d + "/" + y)[|m|] == '/';
    }
  }

  /** Text with a single '/' has no year part: the result starts with "undefined". */
  lemma NormalizeWithoutYear(m: string, d: string)
    requires '/' !in m && '/' !in d
    ensures NormalizeDate(m + "/" + d) == Some("undefined" + "-" + PadStart2(m) + "-" + PadStart2(d))
  {
    var parts := [m, d];
    assert Join(parts, '/') == m + "/" + d by {
      assert Join(parts[1..], '/') == d;
    }
    SplitJoin(parts, '/');
    assert '/' in m + "/" + d by {
      assert (m + "/" + d)[|m|] == '/';
    }
  }

  /**
   * The date text a record stores ("M/D/YYYY", as `toLocaleDateString("en-US")` writes it)
   * normalises to the `YYYY-MM-DD` key of the same day, so a recorded day and its calendar
   * key match exactly when they denote the same day.
   */
  lemma NormalizeRecordDate(day: CalendarDay)
    ensures NormalizeDate(FormatMDY(day)) == Some(FormatYMD(day))
  {
    var m, d, y := NatToDecimal(day.month), NatToDecimal(day.day), NatToDecimal(day.year);
    NatToDecimalDigits(day.month); NatToDecimalDigits(day.day); NatToDecimalDigits(day.year);
    NoDash(m); NoDash(d); NoDash(y);
    NormalizeSlashed(m, d, y);
  }

  // ---------------------------------------------------------------------------
  // generateCalendarDays
  // ---------------------------------------------------------------------------

  /** The `YYYY-MM-DD` keys of the days of `ym`, the i-th key naming day i + 1. */
  function MonthKeys(ym: Month): (keys: seq<string>)
    ensures |keys| == DaysIn(ym)
  {
    seq(DaysIn(ym), i requires 0 <= i < DaysIn(ym) => FormatYMD(DayOf(ym, i + 1)))
  }

  /**
   * `generateCalendarDays(year, month)`: starts at day 1 and steps one day at a time while the
   * date is still in the month, pushing each day's key.
   */
  method GenerateCalendarDays(ym: Month) returns (days: seq<string>)
    ensures days == MonthKeys(ym)
  {
    ghost var keys := MonthKeys(ym);
    days := [];
    var date: CalendarDay := DayOf(ym, 1);
    while date.month == ym.month
      invariant |days| <= |keys|
      invariant days == keys[..|days|]
      invariant |days| < |keys| ==> date == DayOf(ym, |days| + 1)
      invariant |days| == |keys| ==> date.month != ym.month
      decreases |keys| - |days|
    {
      NextDayInMonth(ym, |days| + 1);
      assert keys[|days|] == FormatYMD(date);
      assert keys[..|days| + 1] == keys[..|days|] + [keys[|days|]];
      days := days + [FormatYMD(date)];
      date := NextDay(date);
    }
    assert keys[..|days|] == keys;
  }

  /** Within one month, a later day has a larger key under JavaScript's string `<`. */
  lemma SameMonthKeyOrder(a: CalendarDay, b: CalendarDay)
    requires a.year == b.year && a.month == b.month && a.day < b.day
    ensures Less(FormatYMD(a), FormatYMD(b))
  {
    var prefix := NatToDecimal(a.year) + "-" + PadStart2(NatToDecimal(a.month)) + "-";
    var da, db := PadStart2(NatToDecimal(a.day)), PadStart2(NatToDecimal(b.day));
    assert FormatYMD(a) == prefix + da && FormatYMD(b) == prefix + db;
    NatToDecimalDigits(a.day); NatToDecimalDigits(b.day);
    PadStart2Shape(NatToDecimal(a.day)); PadStart2Shape(NatToDecimal(b.day));
    PadStart2Value(NatToDecimal(a.day));
    PadStart2Value(NatToDecimal(b.day));
    TwoDigitOrder(da, db);
    LessPrefix(prefix, da, db);
  }

  /**
   * The generated keys are in strictly ascending string order, and each reads back as the
   * day of the month it names.
   */
  lemma MonthKeysOrdered(ym: Month)
    ensures forall i, j :: 0 <= i < j < |MonthKeys(ym)| ==> Less(MonthKeys(ym)[i], MonthKeys(ym)[j])
    ensures forall i :: 0 <= i < |MonthKeys(ym)| ==>
      ParseYMD(MonthKeys(ym)[i]) == Some(DayOf(ym, i + 1)) && InMonth(DayOf(ym, i + 1), ym)
  {
    var keys := MonthKeys(ym);
    forall i, j | 0 <= i < j < |keys| ensures Less(keys[i], keys[j]) {
      SameMonthKeyOrder(DayOf(ym, i + 1), DayOf(ym, j + 1));
    }
    forall i | 0 <= i < |keys| ensures ParseYMD(keys[i]) == Some(DayOf(ym, i + 1)) {
      FormatYMDParses(DayOf(ym, i + 1));
    }
  }

  // ---------------------------------------------------------------------------
  // calculateWorkingDays
  // ---------------------------------------------------------------------------

  /** `calculateWorkingDays`: counts the days of the month that fall Monday to Friday. */
  method CalculateWorkingDays(ym: Month) returns (workingDays: int)
    ensures workingDays == WorkingDaysUpTo(ym, DaysIn(ym))
  {
    var totalDays := DaysIn(ym);
    workingDays := 0;
    var day := 1;
    while day <= totalDays
      invariant 1 <= day <= totalDays + 1
      invariant workingDays == WorkingDaysUpTo(ym, day - 1)
    {
      var dateObj := DayOf(ym, day);
      var dayOfWeek := DayOfWeek(dateObj);
      if dayOfWeek != 0 && dayOfWeek != 6 {
        workingDays := workingDays + 1;
      }
      day := day + 1;
    }
  }

  /** 1 for a weekday number (0 = Sunday) that is Monday to Friday, else 0. */
  function WorkdayOf(w: int): int
  {
    if w % 7 == 0 || w % 7 == 6 then 0 else 1
  }

  /** Day `k + t` of a month falls `t` weekdays after day `k`. */
  lemma WeekdayLater(ym: Month, k: int, t: int)
    requires 1 <= k && 0 <= t && k + t <= DaysIn(ym)
    ensures WorkdayOf(DayOfWeek(DayOf(ym, k)) + t) == if IsWeekend(DayOf(ym, k + t)) then 0 else 1
  {
    SameMonthOrder(DayOf(ym, k), DayOf(ym, k + t));
  }

  /** The working-day indicators of `n` consecutive weekday numbers from `w`. */
  function WorkdaysFrom(w: int, n: nat): int
  {
    if n == 0 then 0 else WorkdaysFrom(w, n - 1) + WorkdayOf(w + n - 1)
  }

  /** Seven consecutive weekday numbers contain five of Monday to Friday. */
  lemma FiveWorkdays(w: int)
    requires 0 <= w < 7
    ensures WorkdaysFrom(w, 7) == 5
  {
    var total := WorkdayOf(w) + WorkdayOf(w + 1) + WorkdayOf(w + 2) + WorkdayOf(w + 3)
      + WorkdayOf(w + 4) + WorkdayOf(w + 5) + WorkdayOf(w + 6);
    assert WorkdaysFrom(w, 7) == total by {
      assert WorkdaysFrom(w, 1) == WorkdayOf(w);
      assert WorkdaysFrom(w, 3) == WorkdaysFrom(w, 2) + WorkdayOf(w + 2);
      assert WorkdaysFrom(w, 5) == WorkdaysFrom(w, 4) + WorkdayOf(w + 4);
      assert WorkdaysFrom(w, 7) == WorkdaysFrom(w, 6) + WorkdayOf(w + 6);
    }
    // Sunday and Saturday are 0 and 6 when w is 0; otherwise they are 7 and 6.
    if w == 0 {
      assert total == 0 + 1 + 1 + 1 + 1 + 1 + 0;
    } else {
      assert WorkdayOf(6) == 0 && WorkdayOf(7) == 0;
    }
  }

  /** The working days among days k..k+n-1 of a month, counted from the weekday of day k. */
  lemma {:induction false} WorkingDaysSpan(ym: Month, k: int, w: int, n: nat)
    requires 1 <= k <= DaysIn(ym) && k + n - 1 <= DaysIn(ym)
    requires w == DayOfWeek(DayOf(ym, k))
    ensures WorkingDaysUpTo(ym, k + n - 1) == WorkingDaysUpTo(ym, k - 1) + WorkdaysFrom(w, n)
  {
    if n > 0 {
      WorkingDaysSpan(ym, k, w, n - 1);
      WeekdayLater(ym, k, n - 1);
      assert WorkingDaysUpTo(ym, k + n - 1)
        == WorkingDaysUpTo(ym, k + n - 2) + if IsWeekend(DayOf(ym, k + n - 1)) then 0 else 1;
    }
  }

  /** Any seven consecutive days of a month hold exactly five working days. */
  lemma WeekOfWorkingDays(ym: Month, k: int)
    requires 0 <= k && k + 7 <= DaysIn(ym)
    ensures WorkingDaysUpTo(ym, k + 7) == WorkingDaysUpTo(ym, k) + 5
  {
    var w := DayOfWeek(DayOf(ym, k + 1));
    FiveWorkdays(w);
    WorkingDaysSpan(ym, k + 1, w, 7);
  }

  /** Each further day adds at most one working day. */
  lemma {:induction false} WorkingDaysGrowth(ym: Month, i: int, j: int)
    requires 0 <= i <= j <= DaysIn(ym)
    ensures WorkingDaysUpTo(ym, i) <= WorkingDaysUpTo(ym, j) <= WorkingDaysUpTo(ym, i) + (j - i)
    decreases j - i
  {
    if i < j {
      WorkingDaysGrowth(ym, i, j - 1);
    }
  }

  /** Every month has between 20 and 23 working days. */
  lemma WorkingDaysOfMonth(ym: Month)
    ensures 20 <= WorkingDaysUpTo(ym, DaysIn(ym)) <= 23
  {
    WeekOfWorkingDays(ym, 0);
    WeekOfWorkingDays(ym, 7);
    WeekOfWorkingDays(ym, 14);
    WeekOfWorkingDays(ym, 21);
    assert WorkingDaysUpTo(ym, 0) == 0;
    WorkingDaysGrowth(ym, 28, DaysIn(ym));
  }

  // ---------------------------------------------------------------------------
  // Reclassifying check-in times
  // ---------------------------------------------------------------------------

  /** The status a Present check-in earns: after 20:00 "Half Present", after 17:10 "Late Arrival". */
  function DerivedStatus(minutes: int): (st: Status)
    ensures st == HalfPresent <==> minutes > 20 * 60
    ensures st == LateArrival <==> 17 * 60 + 10 < minutes <= 20 * 60
    ensures st == Present <==> minutes <= 17 * 60 + 10
  {
    if minutes > 20 * 60 then HalfPresent
    else if minutes > 17 * 60 + 10 then LateArrival
    else Present
  }

  /** How serious a derived status is: Present < Late Arrival < Half Present. */
  function Severity(st: Status): nat
  {
    match st
    case HalfPresent => 2
    case LateArrival => 1
    case _ => 0
  }

  /** A later check-in never earns a milder status. */
  lemma DerivedStatusMonotone(a: int, b: int)
    requires a <= b
    ensures Severity(DerivedStatus(a)) <= Severity(DerivedStatus(b))
  {
  }

  /**
   * The `.map` over the merged rows: a Present row with a time whose minutes parse is given
   * its derived status; every other row is kept as it is.
   */
  function Reclassify(r: AttendanceRecord): (r': AttendanceRecord)
    ensures r' == r.(status := r'.status)
    ensures r.status != Present || r.timeIn == "-" ==> r' == r
    ensures r'.status != r.status ==> r.status == Present && (r'.status == HalfPresent || r'.status == LateArrival)
  {
    if r.status == Present && r.timeIn != "-" then
      match Minutes(r.timeIn)
      case Some(m) => r.(status := DerivedStatus(m))
      case None => r
    else r
  }

  /** On a Present row with a clock reading, the new status is the one its minutes earn. */
  lemma ReclassifyClock(r: AttendanceRecord)
    requires r.status == Present && IsClock(r.timeIn)
    ensures Reclassify(r).status == DerivedStatus(ClockMinutes(r.timeIn))
  {
    MinutesOfClock(r.timeIn);
    assert r.timeIn != "-" by {
      assert |r.timeIn| == 5;
    }
  }

  /** `rows.map(reclassify)`. */
  function Reclassified(rows: seq<AttendanceRecord>): (out: seq<AttendanceRecord>)
    ensures |out| == |rows|
    ensures forall i :: 0 <= i < |rows| ==> out[i] == Reclassify(rows[i])
  {
    if rows == [] then [] else [Reclassify(rows[0])] + Reclassified(rows[1..])
  }

  /** Reclassifying keeps every row's date, so the number of rows of each day is unchanged. */
  lemma {:induction false} ReclassifiedRowsOn(rows: seq<AttendanceRecord>, d: CalendarDay)
    ensures RowsOn(Reclassified(rows), d) == RowsOn(rows, d)
  {
    if rows != [] {
      ReclassifiedRowsOn(rows[1..], d);
      assert Reclassified(rows) == [Reclassify(rows[0])] + Reclassified(rows[1..]);
      assert rows == [rows[0]] + rows[1..];
      RowsOnAppend([Reclassify(rows[0])], Reclassified(rows[1..]), d);
      RowsOnAppend([rows[0]], rows[1..], d);
      RowsOnSingle(Reclassify(rows[0]), d);
      RowsOnSingle(rows[0], d);
    }
  }

  // ---------------------------------------------------------------------------
  // getEmployeeRecordsForMonth
  // ---------------------------------------------------------------------------

  /** One employee's sheet for `ym`: every record of the month plus a row per missing day. */
  function EmployeeSheet(attendanceRecords: seq<AttendanceRecord>, employeeId: string, ym: Month): seq<AttendanceRecord>
  {
    Reclassified(MonthSheet(OwnRecordsInMonth(attendanceRecords, employeeId, ym), ym, true))
  }

  /**
   * The `for` loop of `getEmployeeRecordsForMonth`: walks the days of the month and pushes a
   * synthetic row, its id the day's key, for each day not among the recorded dates.
   */
  method BuildMissingRecords(recordedDates: set<CalendarDay>, ym: Month) returns (missingRecords: seq<AttendanceRecord>)
    ensures missingRecords == MissingRows(recordedDates, ym, DaysIn(ym), true)
  {
    var totalDays := DaysIn(ym);
    missingRecords := [];
    var day := 1;
    while day <= totalDays
      invariant 1 <= day <= totalDays + 1
      invariant missingRecords == MissingRows(recordedDates, ym, day - 1, true)
    {
      var dateObj := DayOf(ym, day);
      if dateObj !in recordedDates {
        missingRecords := missingRecords + [SyntheticRow(dateObj, FormatYMD(dateObj))];
      }
      day := day + 1;
    }
  }

  /**
   * `getEmployeeRecordsForMonth`: selects the employee's records of the month, adds the
   * synthetic rows of the days without one, merges and sorts both by date, and reclassifies
   * the check-in times.
   */
  method GetEmployeeRecordsForMonth(attendanceRecords: seq<AttendanceRecord>, employeeId: string, ym: Month)
    returns (updatedRecords: seq<AttendanceRecord>)
    ensures updatedRecords == EmployeeSheet(attendanceRecords, employeeId, ym)
  {
    var records := OwnRecordsInMonth(attendanceRecords, employeeId, ym);
    var missingRecords := BuildMissingRecords(RecordedDays(records), ym);
    var mergedRecords := MergeByDate(records, missingRecords);
    updatedRecords := Reclassified(mergedRecords);
  }

  /**
   * The sheet is in date order and has one row per recorded document; a day of the month
   * without a record has exactly one row, the "Off" or "No Record" row keyed by that day.
   */
  lemma EmployeeSheetCovers(attendanceRecords: seq<AttendanceRecord>, employeeId: string, ym: Month, d: CalendarDay)
    requires InMonth(d, ym) && d !in RecordedDays(OwnRecordsInMonth(attendanceRecords, employeeId, ym))
    ensures SortedBy(EmployeeSheet(attendanceRecords, employeeId, ym), DayKey)
    ensures RowsOn(EmployeeSheet(attendanceRecords, employeeId, ym), d) == 1
    ensures SyntheticRow(d, FormatYMD(d)) in EmployeeSheet(attendanceRecords, employeeId, ym)
  {
    var own := OwnRecordsInMonth(attendanceRecords, employeeId, ym);
    var sheet := MonthSheet(own, ym, true);
    SheetArrangement(own, ym, true);
    SheetCoversMonth(own, ym, true, d);
    ReclassifiedRowsOn(sheet, d);
    var i :| 0 <= i < |sheet| && sheet[i] == SyntheticRow(d, SyntheticId(d, true));
    assert Reclassified(sheet)[i] == sheet[i];
  }

  /** Every record of the month appears in the sheet, reclassified. */
  lemma EmployeeSheetKeepsRecords(attendanceRecords: seq<AttendanceRecord>, employeeId: string, ym: Month, r: AttendanceRecord)
    requires r in OwnRecordsInMonth(attendanceRecords, employeeId, ym)
    ensures Reclassify(r) in EmployeeSheet(attendanceRecords, employeeId, ym)
  {
    var own := OwnRecordsInMonth(attendanceRecords, employeeId, ym);
    var sheet := MonthSheet(own, ym, true);
    SheetArrangement(own, ym, true);
    assert r in multiset(sheet);
    var i :| 0 <= i < |sheet| && sheet[i] == r;
    assert Reclassified(sheet)[i] == Reclassify(r);
  }

  // ---------------------------------------------------------------------------
  // The overview table: one row per day
  // ---------------------------------------------------------------------------

  /** A row of `dailyRecords`. */
  datatype DailyRecord = DailyRecord(date: CalendarDay, status: Status, timeIn: string, approval: Approval)

  predicate HasStatus(group: seq<AttendanceRecord>, st: Status)
  {
    exists i :: 0 <= i < |group| && group[i].status == st
  }

  /** Whether `a` sorts before or level with `b` when comparing `timeToMinutes`. */
  predicate NoLaterThan(a: AttendanceRecord, b: AttendanceRecord)
  {
    match Minutes(a.timeIn)
    case None => Minutes(b.timeIn).None?
    case Some(m) => Minutes(b.timeIn).None? || m <= Minutes(b.timeIn).value
  }

  /**
   * `presentRecs.sort(byMinutes)[0]`: the first of the records with the fewest minutes
   * (the sort is stable); records whose time does not parse are only chosen when no time does.
   */
  function Earliest(recs: seq<AttendanceRecord>): (e: AttendanceRecord)
    requires |recs| > 0
    ensures e in recs
    ensures forall r :: r in recs ==> NoLaterThan(e, r)
  {
    if |recs| == 1 then recs[0]
    else
      var rest := Earliest(recs[1..]);
      assert recs == [recs[0]] + recs[1..];
      if NoLaterThan(recs[0], rest) then recs[0] else rest
  }

  function IsPresentWithTime(r: AttendanceRecord): bool
  {
    r.status == Present && r.timeIn != "-"
  }

  /**
   * The reduction of one day's records: Work From Home wins, then Present (the earliest timed
   * Present record, its status derived from its minutes), then Absent, else the first record.
   * `None` when the day has a Present record but none with a time: the code then reads a
   * property of `undefined` and the table cannot be rendered.
   */
  function ReduceDay(group: seq<AttendanceRecord>): (r: Option<DailyRecord>)
    requires |group| > 0
  {
    if HasStatus(group, WorkFromHome) then
      Some(DailyRecord(group[0].date, WorkFromHome, "-", NotApplicable))
    else if HasStatus(group, Present) then
      var presentRecs := Filter(group, IsPresentWithTime);
      if presentRecs == [] then None
      else
        var earliest := Earliest(presentRecs);
        var minutes := Minutes(earliest.timeIn);
        var derived := if minutes.Some? then DerivedStatus(minutes.value) else Present;
        Some(DailyRecord(earliest.date, derived, earliest.timeIn, earliest.approval))
    else if HasStatus(group, Absent) then
      Some(DailyRecord(group[0].date, Absent, "-", NotApplicable))
    else
      Some(DailyRecord(group[0].date, group[0].status, group[0].timeIn, group[0].approval))
  }

  /** The status a day reduces to, by the priority Work From Home, Present, Absent, first record. */
  lemma ReduceDayPriority(group: seq<AttendanceRecord>)
    requires |group| > 0
    requires ReduceDay(group).Some?
    ensures var st := ReduceDay(group).value.status;
      && (st == WorkFromHome <==> HasStatus(group, WorkFromHome) || (!HasStatus(group, Present) && !HasStatus(group, Absent) && group[0].status == WorkFromHome))
      && (HasStatus(group, WorkFromHome) ==> st == WorkFromHome)
      && (!HasStatus(group, WorkFromHome) && HasStatus(group, Present) ==> st == Present || st == LateArrival || st == HalfPresent)
      && (!HasStatus(group, WorkFromHome) && !HasStatus(group, Present) && HasStatus(group, Absent) ==> st == Absent)
      && (!HasStatus(group, WorkFromHome) && !HasStatus(group, Present) && !HasStatus(group, Absent) ==> st == group[0].status)
  {
  }

  /**
   * On a day with Present records, the chosen record is a timed Present record of that day
   * whose time is no later than any other's, and its status is the one its minutes earn.
   */
  lemma ReducePresentDay(group: seq<AttendanceRecord>, d: CalendarDay)
    requires |group| > 0 && forall i :: 0 <= i < |group| ==> group[i].date == d
    requires !HasStatus(group, WorkFromHome) && HasStatus(group, Present)
    ensures ReduceDay(group).None? <==> forall r :: r in group && r.status == Present ==> r.timeIn == "-"
    ensures ReduceDay(group).Some? ==>
      exists e :: e in group && IsPresentWithTime(e)
        && (forall r :: r in group && IsPresentWithTime(r) ==> NoLaterThan(e, r))
        && ReduceDay(group).value == DailyRecord(d, if Minutes(e.timeIn).Some? then DerivedStatus(Minutes(e.timeIn).value) else Present, e.timeIn, e.approval)
  {
    var presentRecs := Filter(group, IsPresentWithTime);
    forall r ensures r in presentRecs <==> r in group && IsPresentWithTime(r) {
      FilterMembers(group, IsPresentWithTime, r);
    }
    if presentRecs != [] {
      var e := Earliest(presentRecs);
      assert e in group;
    } else {
      forall r | r in group && r.status == Present ensures r.timeIn == "-" {
        assert r !in presentRecs;
      }
    }
  }

  /** The daily rows for the given days, in that order; `None` as soon as one day fails. */
  function ReduceDays(rs: seq<AttendanceRecord>, days: seq<CalendarDay>): (out: Option<seq<DailyRecord>>)
    requires forall i :: 0 <= i < |days| ==> days[i] in RecordedDays(rs)
    ensures out.Some? ==> |out.value| == |days|
    ensures out.Some? ==> forall i :: 0 <= i < |days| ==> out.value[i].date == days[i]
  {
    if days == [] then Some([])
    else
      DayGroupOf(rs, days[0]);
      var first := ReduceDay(DayGroup(rs, days[0]));
      var rest := ReduceDays(rs, days[1..]);
      if first.None? || rest.None? then None
      else
        ReduceDayDate(DayGroup(rs, days[0]), days[0]);
        Some([first.value] + rest.value)
  }

  /** Every record of a day's group carries that day, and so does the daily row. */
  lemma ReduceDayDate(group: seq<AttendanceRecord>, d: CalendarDay)
    requires |group| > 0
    requires forall r :: r in group ==> r.date == d
    requires ReduceDay(group).Some?
    ensures ReduceDay(group).value.date == d
  {
    if !HasStatus(group, WorkFromHome) && HasStatus(group, Present) {
      var presentRecs := Filter(group, IsPresentWithTime);
      FilterMembers(group, IsPresentWithTime, Earliest(presentRecs));
    }
  }

  /**
   * `Object.values(byDate).map(reduce)`: one row per distinct day of the employee's records,
   * the days in order of first appearance.
   */
  function DailyRecords(rs: seq<AttendanceRecord>): (daily: Option<seq<DailyRecord>>)
  {
    ReduceDays(rs, DistinctDays(rs))
  }

  /** There is one daily row per recorded day, and no two rows share a day. */
  lemma DailyRecordsDistinct(rs: seq<AttendanceRecord>)
    requires DailyRecords(rs).Some?
    ensures |DailyRecords(rs).value| == |RecordedDays(rs)|
    ensures forall i, j :: 0 <= i < j < |DailyRecords(rs).value| ==>
      DailyRecords(rs).value[i].date != DailyRecords(rs).value[j].date
    ensures forall i :: 0 <= i < |DailyRecords(rs).value| ==> DailyRecords(rs).value[i].date in RecordedDays(rs)
  {
    DistinctDaysCount(rs);
  }

  /** The distinct days are as many as the recorded days. */
  lemma {:induction false} DistinctDaysCount(rs: seq<AttendanceRecord>)
    ensures |DistinctDays(rs)| == |RecordedDays(rs)|
  {
    if rs != [] {
      var init := rs[..|rs| - 1];
      var d := rs[|rs| - 1].date;
      var recorded, distinct := RecordedDays(init), DistinctDays(init);
      DistinctDaysCount(init);
      RecordedDaysLast(rs);
      if d in distinct {
        assert recorded + {d} == recorded;
      } else {
        assert d !in recorded;
        assert |recorded + {d}| == |recorded| + 1;
        assert DistinctDays(rs) == distinct + [d];
      }
    }
  }

  // ---------------------------------------------------------------------------
  // The counts of the overview table
  // ---------------------------------------------------------------------------

  function IsPresentOrRemote(d: DailyRecord): bool { d.status == Present || d.status == WorkFromHome }
  function IsLate(d: DailyRecord): bool { d.status == LateArrival }
  function IsHalf(d: DailyRecord): bool { d.status == HalfPresent }
  function IsAbsent(d: DailyRecord): bool { d.status == Absent }

  /** "Present": Present and Work From Home days, plus late and half days. */
  function PresentCount(daily: seq<DailyRecord>): nat
  {
    Count(daily, IsPresentOrRemote) + Count(daily, IsLate) + Count(daily, IsHalf)
  }

  /** "Missing": working days of the month minus days with any record; negative when weekend days were recorded. */
  function MissingCount(workingDays: int, daily: seq<DailyRecord>): int
  {
    workingDays - |daily|
  }

  /**
   * Each day is counted at most once: present and absent days together are at most the
   * number of days, and the late and half days are part of the present count.
   */
  lemma {:induction false} DailyCountsBound(daily: seq<DailyRecord>)
    ensures PresentCount(daily) + Count(daily, IsAbsent) <= |daily|
    ensures Count(daily, IsLate) <= PresentCount(daily) && Count(daily, IsHalf) <= PresentCount(daily)
  {
    if daily != [] {
      DailyCountsBound(daily[1..]);
    }
  }

  /**
   * The "Missing" count is the month's working days minus the number of distinct days with a
   * record, so it never exceeds 23; weekend days with a record also reduce it, so it can be
   * negative.
   */
  lemma MissingCountBound(ym: Month, rs: seq<AttendanceRecord>)
    requires DailyRecords(rs).Some?
    ensures MissingCount(WorkingDaysUpTo(ym, DaysIn(ym)), DailyRecords(rs).value)
      == WorkingDaysUpTo(ym, DaysIn(ym)) - |RecordedDays(rs)|
    ensures MissingCount(WorkingDaysUpTo(ym, DaysIn(ym)), DailyRecords(rs).value) <= 23
  {
    DailyRecordsDistinct(rs);
    WorkingDaysOfMonth(ym);
  }
}
