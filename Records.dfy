/**
 * The attendance data both monthly screens work on: employees, attendance records, the
 * synthetic row a day without any record receives, the merge of recorded and synthetic rows
 * sorted by date, and the grouping of a month's records by day.
 */
module Records {
  import opened Calendar
  import opened Sorting
  import opened Tables

  datatype Status =
    | Present | Absent | WorkFromHome | ApprovedLeave | EmergencyLeave | MedicalLeave
    | HalfPresent | LateArrival | Off | Holiday | NoRecord

  /** `lateArrivalApproved`: "Yes", "No", or the "-" of a synthetic row. */
  datatype Approval = Yes | No | NotApplicable

  datatype EmploymentType = Standard | Remote | Myself

  datatype Employee = Employee(id: string, name: string, role: string, employmentType: EmploymentType, salary: real)

  /**
   * An attendance document. `date` is the calendar day its "M/D/YYYY" text denotes;
   * synthetic rows have empty `employeeId`, `name` and `role`.
   */
  datatype AttendanceRecord = AttendanceRecord(
    id: string, employeeId: string, name: string, role: string,
    date: CalendarDay, status: Status, timeIn: string, approval: Approval)

  /** The sort key of `(a, b) => new Date(a.date) - new Date(b.date)`. */
  function DayKey(r: AttendanceRecord): int
  {
    DayNumber(r.date)
  }

  /** `records.filter(r => r.employeeId === employeeId && <date in the selected month>)`. */
  function OwnRecordsInMonth(records: seq<AttendanceRecord>, employeeId: string, ym: Month): seq<AttendanceRecord>
  {
    Filter(records, (r: AttendanceRecord) => r.employeeId == employeeId && InMonth(r.date, ym))
  }

  /** The set of recorded days (`new Set(records.map(r => normalizeDate(r.date)))`). */
  function RecordedDays(rs: seq<AttendanceRecord>): set<CalendarDay>
  {
    set i | 0 <= i < |rs| :: rs[i].date
  }

  /** The row given to a day without any record: "Off" at the weekend, "No Record" otherwise. */
  function SyntheticRow(d: CalendarDay, id: string): (r: AttendanceRecord)
  {
    AttendanceRecord(id, "", "", "", d, if IsWeekend(d) then Off else NoRecord, "-", NotApplicable)
  }

  /** The id a synthetic row carries: its `YYYY-MM-DD` key when `tagged`, none otherwise. */
  function SyntheticId(d: CalendarDay, tagged: bool): string
  {
    if tagged then FormatYMD(d) else ""
  }

  /** Synthetic rows for the days 1..k of `ym` that are not in `recorded`, in day order. */
  function MissingRows(recorded: set<CalendarDay>, ym: Month, k: int, tagged: bool): seq<AttendanceRecord>
    requires 0 <= k <= DaysIn(ym)
  {
    if k == 0 then []
    else
      var d := DayOf(ym, k);
      MissingRows(recorded, ym, k - 1, tagged) + if d in recorded then [] else [SyntheticRow(d, SyntheticId(d, tagged))]
  }

  /** `[...records, ...missing].sort(byDate)`. */
  function MergeByDate(own: seq<AttendanceRecord>, missing: seq<AttendanceRecord>): seq<AttendanceRecord>
  {
    SortBy(own + missing, DayKey)
  }

  // ---------------------------------------------------------------------------
  // What the synthetic rows are
  // ---------------------------------------------------------------------------

  /** Each synthetic row is the row of an unrecorded day of the month, in ascending day order. */
  lemma {:induction false} MissingRowsShape(recorded: set<CalendarDay>, ym: Month, k: int, tagged: bool)
    requires 0 <= k <= DaysIn(ym)
    ensures forall i :: 0 <= i < |MissingRows(recorded, ym, k, tagged)| ==>
      var r := MissingRows(recorded, ym, k, tagged)[i];
      InMonth(r.date, ym) && 1 <= r.date.day <= k && r.date !in recorded
      && r == SyntheticRow(r.date, SyntheticId(r.date, tagged))
    ensures forall i, j :: 0 <= i < j < |MissingRows(recorded, ym, k, tagged)| ==>
      MissingRows(recorded, ym, k, tagged)[i].date.day < MissingRows(recorded, ym, k, tagged)[j].date.day
  {
    if k > 0 {
      MissingRowsShape(recorded, ym, k - 1, tagged);
    }
  }

  /** The number of rows dated `d`. */
  function RowsOn(rows: seq<AttendanceRecord>, d: CalendarDay): nat
  {
    Count(rows, (r: AttendanceRecord) => r.date == d)
  }

  lemma RowsOnAppend(a: seq<AttendanceRecord>, b: seq<AttendanceRecord>, d: CalendarDay)
    ensures RowsOn(a + b, d) == RowsOn(a, d) + RowsOn(b, d)
  {
    FilterAppend(a, b, (r: AttendanceRecord) => r.date == d);
  }

  lemma RowsOnSingle(x: AttendanceRecord, d: CalendarDay)
    ensures RowsOn([x], d) == if x.date == d then 1 else 0
  {
    assert [x][1..] == [];
  }

  /** The rows added for day `k` (none when it is recorded). */
  function RowsForDay(recorded: set<CalendarDay>, ym: Month, k: int, tagged: bool): seq<AttendanceRecord>
    requires 1 <= k <= DaysIn(ym)
  {
    var e := DayOf(ym, k);
    if e in recorded then [] else [SyntheticRow(e, SyntheticId(e, tagged))]
  }

  lemma MissingRowsStep(recorded: set<CalendarDay>, ym: Month, k: int, tagged: bool, d: CalendarDay)
    requires 1 <= k <= DaysIn(ym)
    ensures MissingRows(recorded, ym, k, tagged) == MissingRows(recorded, ym, k - 1, tagged) + RowsForDay(recorded, ym, k, tagged)
    ensures RowsOn(MissingRows(recorded, ym, k, tagged), d)
      == RowsOn(MissingRows(recorded, ym, k - 1, tagged), d) + RowsOn(RowsForDay(recorded, ym, k, tagged), d)
  {
    RowsOnAppend(MissingRows(recorded, ym, k - 1, tagged), RowsForDay(recorded, ym, k, tagged), d);
  }

  /** Day `k` contributes one row dated `d` when it is the unrecorded day `d`, and none otherwise. */
  lemma RowsForDayOn(recorded: set<CalendarDay>, ym: Month, k: int, tagged: bool, d: CalendarDay)
    requires 1 <= k <= DaysIn(ym) && InMonth(d, ym)
    ensures RowsOn(RowsForDay(recorded, ym, k, tagged), d) == if d.day == k && d !in recorded then 1 else 0
    ensures d.day == k && d !in recorded ==> RowsForDay(recorded, ym, k, tagged) == [SyntheticRow(d, SyntheticId(d, tagged))]
  {
    var last := RowsForDay(recorded, ym, k, tagged);
    if last != [] {
      RowsOnSingle(last[0], d);
    }
  }

  /** Every unrecorded day up to `k` has exactly one synthetic row, and that row is its own. */
  lemma {:induction false} MissingRowsCover(recorded: set<CalendarDay>, ym: Month, k: int, tagged: bool, d: CalendarDay)
    requires 0 <= k <= DaysIn(ym)
    requires InMonth(d, ym) && 1 <= d.day <= k && d !in recorded
    ensures RowsOn(MissingRows(recorded, ym, k, tagged), d) == 1
    decreases k
  {
    if d.day == k {
      CoverAtDay(recorded, ym, k, tagged, d);
    } else {
      MissingRowsCover(recorded, ym, k - 1, tagged, d);
      CoverCarried(recorded, ym, k, tagged, d);
    }
  }

  /** A day with a synthetic row dated on it has its own synthetic row among them. */
  lemma MissingRowOf(recorded: set<CalendarDay>, ym: Month, k: int, tagged: bool, d: CalendarDay)
    requires 0 <= k <= DaysIn(ym)
    requires RowsOn(MissingRows(recorded, ym, k, tagged), d) > 0
    ensures SyntheticRow(d, SyntheticId(d, tagged)) in MissingRows(recorded, ym, k, tagged)
  {
    var rows := MissingRows(recorded, ym, k, tagged);
    var p := (r: AttendanceRecord) => r.date == d;
    var f := Filter(rows, p)[0];
    FilterMembers(rows, p, f);
    MissingRowsShape(recorded, ym, k, tagged);
  }

  /** Day `d` itself adds its synthetic row to the rows of the earlier days, which hold none of `d`. */
  lemma CoverAtDay(recorded: set<CalendarDay>, ym: Month, k: int, tagged: bool, d: CalendarDay)
    requires 1 <= k <= DaysIn(ym)
    requires InMonth(d, ym) && d.day == k && d !in recorded
    ensures RowsOn(MissingRows(recorded, ym, k, tagged), d) == 1
  {
    MissingRowsStep(recorded, ym, k, tagged, d);
    RowsForDayOn(recorded, ym, k, tagged, d);
    EarlierRowsOtherDays(recorded, ym, k - 1, tagged, d);
  }

  /** A later day `k` leaves the count and the membership for an earlier day `d` as they were. */
  lemma CoverCarried(recorded: set<CalendarDay>, ym: Month, k: int, tagged: bool, d: CalendarDay)
    requires 1 <= k <= DaysIn(ym)
    requires InMonth(d, ym) && d.day < k
    ensures RowsOn(MissingRows(recorded, ym, k, tagged), d) == RowsOn(MissingRows(recorded, ym, k - 1, tagged), d)
  {
    MissingRowsStep(recorded, ym, k, tagged, d);
    RowsForDayOn(recorded, ym, k, tagged, d);
  }

  /** The synthetic rows of days 1..k say nothing about a later day. */
  lemma {:induction false} EarlierRowsOtherDays(recorded: set<CalendarDay>, ym: Month, k: int, tagged: bool, d: CalendarDay)
    requires 0 <= k < d.day && k <= DaysIn(ym) && InMonth(d, ym)
    ensures RowsOn(MissingRows(recorded, ym, k, tagged), d) == 0
  {
    if k > 0 {
      EarlierRowsOtherDays(recorded, ym, k - 1, tagged, d);
      MissingRowsStep(recorded, ym, k, tagged, d);
      RowsForDayOn(recorded, ym, k, tagged, d);
    }
  }

  /** Records none of which is dated `d` have no row on `d`. */
  lemma {:induction false} NoRowsOn(rs: seq<AttendanceRecord>, d: CalendarDay)
    requires d !in RecordedDays(rs)
    ensures RowsOn(rs, d) == 0
  {
    if rs != [] {
      assert RecordedDays(rs[1..]) <= RecordedDays(rs) by {
        forall e | e in RecordedDays(rs[1..]) ensures e in RecordedDays(rs) {
          var i :| 0 <= i < |rs[1..]| && rs[1..][i].date == e;
          assert rs[i + 1].date == e;
        }
      }
      NoRowsOn(rs[1..], d);
      assert rs[0].date in RecordedDays(rs);
    }
  }

  /** The number of days 1..k of `ym` that are in `recorded`. */
  function RecordedUpTo(recorded: set<CalendarDay>, ym: Month, k: int): (n: nat)
    requires 0 <= k <= DaysIn(ym)
  {
    if k == 0 then 0 else RecordedUpTo(recorded, ym, k - 1) + if DayOf(ym, k) in recorded then 1 else 0
  }

  /** Synthetic and recorded days together make up the days 1..k. */
  lemma {:induction false} MissingRowsLength(recorded: set<CalendarDay>, ym: Month, k: int, tagged: bool)
    requires 0 <= k <= DaysIn(ym)
    ensures |MissingRows(recorded, ym, k, tagged)| + RecordedUpTo(recorded, ym, k) == k
  {
    if k > 0 {
      MissingRowsLength(recorded, ym, k - 1, tagged);
    }
  }

  /** The days of `recorded` numbered at most `k` within their month. */
  function DaysUpTo(recorded: set<CalendarDay>, k: int): set<CalendarDay>
  {
    set d | d in recorded && d.day <= k
  }

  /** For a set of days of `ym`, counting its days 1..k one by one gives its days up to k. */
  lemma {:induction false} RecordedUpToCard(recorded: set<CalendarDay>, ym: Month, k: int)
    requires 0 <= k <= DaysIn(ym)
    requires forall d :: d in recorded ==> InMonth(d, ym)
    ensures RecordedUpTo(recorded, ym, k) == |DaysUpTo(recorded, k)|
  {
    if k > 0 {
      RecordedUpToCard(recorded, ym, k - 1);
      DaysUpToStep(recorded, ym, k);
    }
  }

  /** Day `k` joins the days up to `k - 1` exactly when it is recorded. */
  lemma DaysUpToStep(recorded: set<CalendarDay>, ym: Month, k: int)
    requires 1 <= k <= DaysIn(ym)
    requires forall d :: d in recorded ==> InMonth(d, ym)
    ensures DaysUpTo(recorded, k) == DaysUpTo(recorded, k - 1) + (if DayOf(ym, k) in recorded then {DayOf(ym, k)} else {})
    ensures DayOf(ym, k) !in DaysUpTo(recorded, k - 1)
  {
  }

  /** Records with pairwise distinct dates have as many recorded days as records. */
  lemma {:induction false} DistinctDatesCount(rs: seq<AttendanceRecord>)
    requires forall i, j :: 0 <= i < j < |rs| ==> rs[i].date != rs[j].date
    ensures |RecordedDays(rs)| == |rs|
  {
    if rs != [] {
      var init := rs[..|rs| - 1];
      DistinctDatesCount(init);
      RecordedDaysLast(rs);
      assert rs[|rs| - 1].date !in RecordedDays(init);
    }
  }

  // ---------------------------------------------------------------------------
  // The merged month sheet
  // ---------------------------------------------------------------------------

  /** The sheet of one employee and month before any reclassification. */
  function MonthSheet(own: seq<AttendanceRecord>, ym: Month, tagged: bool): seq<AttendanceRecord>
  {
    MergeByDate(own, MissingRows(RecordedDays(own), ym, DaysIn(ym), tagged))
  }

  /** The sheet is sorted by date and is a rearrangement of the recorded and synthetic rows. */
  lemma SheetArrangement(own: seq<AttendanceRecord>, ym: Month, tagged: bool)
    ensures SortedBy(MonthSheet(own, ym, tagged), DayKey)
    ensures multiset(MonthSheet(own, ym, tagged))
      == multiset(own) + multiset(MissingRows(RecordedDays(own), ym, DaysIn(ym), tagged))
  {
  }

  /**
   * The sheet holds every recorded row unchanged, and gives every day of the month without a
   * record exactly one row: the synthetic row of that day.
   */
  lemma SheetCoversMonth(own: seq<AttendanceRecord>, ym: Month, tagged: bool, d: CalendarDay)
    requires InMonth(d, ym) && d !in RecordedDays(own)
    ensures multiset(own) <= multiset(MonthSheet(own, ym, tagged))
    ensures RowsOn(MonthSheet(own, ym, tagged), d) == 1
    ensures SyntheticRow(d, SyntheticId(d, tagged)) in MonthSheet(own, ym, tagged)
  {
    var missing := MissingRows(RecordedDays(own), ym, DaysIn(ym), tagged);
    var sheet := MonthSheet(own, ym, tagged);
    SheetArrangement(own, ym, tagged);
    MissingRowsCover(RecordedDays(own), ym, DaysIn(ym), tagged, d);
    MissingRowOf(RecordedDays(own), ym, DaysIn(ym), tagged, d);
    assert multiset(sheet) == multiset(own + missing);
    CountPermutation(sheet, own + missing, (r: AttendanceRecord) => r.date == d);
    RowsOnAppend(own, missing, d);
    NoRowsOn(own, d);
    assert SyntheticRow(d, SyntheticId(d, tagged)) in multiset(sheet);
  }

  /**
   * When the month's records carry pairwise distinct dates (one record per day), the sheet
   * has exactly one row per day of the month. Duplicate same-day records are not collapsed,
   * so without that hypothesis the sheet is longer.
   */
  lemma SheetLength(own: seq<AttendanceRecord>, ym: Month, tagged: bool)
    requires forall i :: 0 <= i < |own| ==> InMonth(own[i].date, ym)
    requires forall i, j :: 0 <= i < j < |own| ==> own[i].date != own[j].date
    ensures |MonthSheet(own, ym, tagged)| == DaysIn(ym)
  {
    var recorded := RecordedDays(own);
    var missing := MissingRows(recorded, ym, DaysIn(ym), tagged);
    MissingRowsLength(recorded, ym, DaysIn(ym), tagged);
    assert forall d :: d in recorded ==> InMonth(d, ym);
    RecordedUpToCard(recorded, ym, DaysIn(ym));
    assert DaysUpTo(recorded, DaysIn(ym)) == recorded;
    DistinctDatesCount(own);
    assert |MonthSheet(own, ym, tagged)| == |own + missing| == |own| + |missing|;
  }

  // ---------------------------------------------------------------------------
  // Grouping by day
  // ---------------------------------------------------------------------------

  /** Appending a record adds its day to the recorded days. */
  lemma RecordedDaysLast(rs: seq<AttendanceRecord>)
    requires rs != []
    ensures RecordedDays(rs) == RecordedDays(rs[..|rs| - 1]) + {rs[|rs| - 1].date}
  {
    var init := rs[..|rs| - 1];
    forall e | e in RecordedDays(rs) ensures e in RecordedDays(init) + {rs[|rs| - 1].date} {
      var i :| 0 <= i < |rs| && rs[i].date == e;
      if i < |rs| - 1 { assert init[i] == rs[i]; }
    }
    forall e | e in RecordedDays(init) ensures e in RecordedDays(rs) {
      var i :| 0 <= i < |init| && init[i].date == e;
      assert rs[i] == init[i];
    }
  }

  /** The days of `rs` in order of first appearance: the keys of the `byDate` object. */
  function DistinctDays(rs: seq<AttendanceRecord>): (days: seq<CalendarDay>)
    ensures forall i, j :: 0 <= i < j < |days| ==> days[i] != days[j]
    ensures forall d :: d in days <==> d in RecordedDays(rs)
  {
    if rs == [] then []
    else
      var init := rs[..|rs| - 1];
      var prev := DistinctDays(init);
      var d := rs[|rs| - 1].date;
      RecordedDaysLast(rs);
      if d in prev then prev else prev + [d]
  }

  /** `byDate[day]`: the records of that day, in record order. */
  function DayGroup(rs: seq<AttendanceRecord>, d: CalendarDay): seq<AttendanceRecord>
  {
    Filter(rs, (r: AttendanceRecord) => r.date == d)
  }

  /** A recorded day's group is non-empty and holds only that day's records. */
  lemma DayGroupOf(rs: seq<AttendanceRecord>, d: CalendarDay)
    requires d in RecordedDays(rs)
    ensures |DayGroup(rs, d)| > 0
    ensures forall r :: r in DayGroup(rs, d) <==> r in rs && r.date == d
  {
    var p := (r: AttendanceRecord) => r.date == d;
    var i :| 0 <= i < |rs| && rs[i].date == d;
    FilterMembers(rs, p, rs[i]);
    forall r ensures r in DayGroup(rs, d) <==> r in rs && r.date == d {
      FilterMembers(rs, p, r);
    }
  }

}
