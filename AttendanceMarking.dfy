/**
 * The attendance mark sheet: marking one employee for the selected day, marking every eligible
 * employee for a holiday, editing a marked record, and the two lists the screen shows. The
 * wall-clock hour, today's date and the outcome of each store write are parameters.
 */
module AttendanceMarking {
  import opened Wrappers
  import opened Text
  import opened Calendar
  import opened Clock
  import opened Tables
  import opened Records
  import opened SalarySheet

  // ---------------------------------------------------------------------------
  // The guards
  // ---------------------------------------------------------------------------

  /** `isWithinAttendanceWindow`: from 11:00 up to 02:59 of the next day. */
  predicate InWindow(hour: int)
  {
    hour >= 11 || hour < 3
  }

  /** Over the hours of a day, the window is closed exactly from 03:00 to 10:59. */
  lemma WindowHours(hour: int)
    requires 0 <= hour < 24
    ensures !InWindow(hour) <==> 3 <= hour <= 10
  {
  }

  /** Why `markAttendance` stops, or that it goes ahead. */
  datatype MarkOutcome = MarkOutsideWindow | NoEmployeeSelected | FutureDate | MarkAccepted

  /**
   * The guards of `markAttendance` in their order: the window, then a selected employee
   * (non-blank name and role, non-empty id), then a selected day that is not after today.
   */
  function MarkGuard(hour: int, employeeId: string, name: string, role: string,
                     selectedDate: CalendarDay, today: CalendarDay): (g: MarkOutcome)
    ensures g == MarkOutsideWindow <==> !InWindow(hour)
    ensures g == NoEmployeeSelected <==> InWindow(hour) && (IsBlank(name) || IsBlank(role) || employeeId == "")
    ensures g == FutureDate ==> DayNumber(selectedDate) > DayNumber(today)
    ensures g == MarkAccepted <==>
      InWindow(hour) && !IsBlank(name) && !IsBlank(role) && employeeId != "" && DayNumber(selectedDate) <= DayNumber(today)
  {
    if !InWindow(hour) then MarkOutsideWindow
    else if IsBlank(name) || IsBlank(role) || employeeId == "" then NoEmployeeSelected
    else if DayNumber(selectedDate) > DayNumber(today) then FutureDate
    else MarkAccepted
  }

  // ---------------------------------------------------------------------------
  // Status finalisation: on create and on edit
  // ---------------------------------------------------------------------------

  /**
   * The status `markAttendance` stores: "Off" on a weekend, "Holiday" kept, "Present" turned
   * into "Half Present" at "20:00" or later without approval, anything else as selected.
   */
  function CreateStatus(date: CalendarDay, status: Status, time: string, approval: Approval): (st: Status)
    ensures IsWeekend(date) ==> st == Off
    ensures !IsWeekend(date) && status != Present ==> st == status
    ensures st == HalfPresent && status != HalfPresent ==>
      !IsWeekend(date) && status == Present && !Less(time, "20:00") && approval == No
    ensures !IsWeekend(date) && status == Present && !Less(time, "20:00") && approval == No ==> st == HalfPresent
    ensures !IsWeekend(date) && !(status == Present && !Less(time, "20:00") && approval == No) ==> st == status
  {
    if IsWeekend(date) then Off
    else if status == Holiday then Holiday
    else if status == Present && !Less(time, "20:00") && approval == No then HalfPresent
    else status
  }

  /**
   * The status `updateRecord` stores: "Off" on a weekend, "Holiday" and "Work From Home" turned
   * into "Present", "Present" turned into "Half Present" at "20:00" or later without approval.
   */
  function EditStatus(date: CalendarDay, status: Status, time: string, approval: Approval): (st: Status)
    ensures IsWeekend(date) ==> st == Off
    ensures !IsWeekend(date) && (status == Holiday || status == WorkFromHome) ==> st == Present
    ensures st != status && st != Off ==>
      (st == Present && (status == Holiday || status == WorkFromHome))
      || (st == HalfPresent && status == Present && !Less(time, "20:00") && approval == No)
    ensures !IsWeekend(date) && status == Present && !Less(time, "20:00") && approval == No ==> st == HalfPresent
    ensures !IsWeekend(date) && status != Holiday && status != WorkFromHome
            && !(status == Present && !Less(time, "20:00") && approval == No)
            ==> st == status
  {
    if IsWeekend(date) then Off
    else if status == Holiday then Present
    else if status == Present && !Less(time, "20:00") && approval == No then HalfPresent
    else if status == WorkFromHome then Present
    else status
  }

  /** Create and edit finalise alike, except for "Holiday" and "Work From Home" on a weekday. */
  lemma CreateEditDiffer(date: CalendarDay, status: Status, time: string, approval: Approval)
    ensures CreateStatus(date, status, time, approval) != EditStatus(date, status, time, approval) <==>
      !IsWeekend(date) && (status == Holiday || status == WorkFromHome)
  {
  }

  /** On a clock reading, the create-time "Half Present" rule means 1200 minutes or later on a weekday. */
  lemma CreateHalfPresent(date: CalendarDay, time: string)
    requires IsClock(time)
    ensures CreateStatus(date, Present, time, No) == HalfPresent <==> !IsWeekend(date) && ClockMinutes(time) >= 1200
  {
    AtOrAfterEightPm(time);
  }

  /**
   * The two "Half Present" thresholds disagree at exactly 20:00: marking a weekday check-in
   * at "20:00" stores "Half Present", while the monthly sheet reads a "Present" row at "20:00"
   * as "Late Arrival".
   */
  lemma EightPmThresholds(date: CalendarDay, r: AttendanceRecord)
    requires !IsWeekend(date)
    requires r.status == Present && r.timeIn == "20:00"
    ensures CreateStatus(date, Present, "20:00", No) == HalfPresent
    ensures Reclassify(r).status == LateArrival
  {
    assert IsClock("20:00") && ClockMinutes("20:00") == 1200;
    ReclassifyClock(r);
  }

  /**
   * The record `updateRecord` writes: the edited record with the edit-time status and the
   * modal's time, every other field (id, employee, name, role, date, approval) kept.
   */
  function FinaliseOnEdit(selectedDate: CalendarDay, rec: AttendanceRecord, time: string): (r: AttendanceRecord)
    ensures r == rec.(status := r.status, timeIn := time)
    ensures r.status == EditStatus(selectedDate, rec.status, time, rec.approval)
  {
    rec.(status := EditStatus(selectedDate, rec.status, time, rec.approval), timeIn := time)
  }

  // ---------------------------------------------------------------------------
  // Who may still be marked, and the holiday rows
  // ---------------------------------------------------------------------------

  /** `attendance.some(record => record.employeeId === id && record.date === <the day>)`. */
  predicate HasRecordOn(attendance: seq<AttendanceRecord>, employeeId: string, date: CalendarDay)
  {
    exists i :: 0 <= i < |attendance| && attendance[i].employeeId == employeeId && attendance[i].date == date
  }

  predicate IsEligible(e: Employee, attendance: seq<AttendanceRecord>, date: CalendarDay)
  {
    e.employmentType != Remote && e.employmentType != Myself && !HasRecordOn(attendance, e.id, date)
  }

  /**
   * `filteredEmployees` and `eligibleEmployees`: the employees, in order, that are neither
   * Remote nor "Myself" and hold no record for the day.
   */
  function Eligible(employees: seq<Employee>, attendance: seq<AttendanceRecord>, date: CalendarDay): seq<Employee>
  {
    Filter(employees, (e: Employee) => IsEligible(e, attendance, date))
  }

  /** An employee is offered exactly when listed, neither Remote nor "Myself", and not yet marked. */
  lemma EligibleMembers(employees: seq<Employee>, attendance: seq<AttendanceRecord>, date: CalendarDay, e: Employee)
    ensures e in Eligible(employees, attendance, date) <==>
      e in employees && e.employmentType != Remote && e.employmentType != Myself && !HasRecordOn(attendance, e.id, date)
  {
    FilterMembers(employees, (e: Employee) => IsEligible(e, attendance, date), e);
  }

  /** The record the holiday loop writes for one employee: "Off" on a weekend, else "Present", not approved. */
  function HolidayRecord(e: Employee, date: CalendarDay, time: string, id: string): AttendanceRecord
  {
    AttendanceRecord(id, e.id, e.name, e.role, date, if IsWeekend(date) then Off else Present, time, No)
  }

  /**
   * The rows the holiday loop appends: one per eligible employee whose write succeeds, in
   * order, carrying the id the store assigned.
   */
  function HolidayRows(eligible: seq<Employee>, date: CalendarDay, time: string, writeOk: seq<bool>, newIds: seq<string>): seq<AttendanceRecord>
    requires |writeOk| == |eligible| && |newIds| == |eligible|
  {
    if eligible == [] then []
    else
      var n := |eligible| - 1;
      HolidayRows(eligible[..n], date, time, writeOk[..n], newIds[..n])
      + if writeOk[n] then [HolidayRecord(eligible[n], date, time, newIds[n])] else []
  }

  /**
   * Every holiday row is for the day and time, "Off" on a weekend and "Present" otherwise,
   * not approved, and belongs to an eligible employee whose write succeeded.
   */
  lemma {:induction false} HolidayRowsShape(eligible: seq<Employee>, date: CalendarDay, time: string, writeOk: seq<bool>, newIds: seq<string>, r: AttendanceRecord)
    requires |writeOk| == |eligible| && |newIds| == |eligible|
    requires r in HolidayRows(eligible, date, time, writeOk, newIds)
    ensures r.date == date && r.timeIn == time && r.approval == No
    ensures r.status == if IsWeekend(date) then Off else Present
    ensures exists j :: 0 <= j < |eligible| && writeOk[j] && r.employeeId == eligible[j].id && r.name == eligible[j].name
  {
    var n := |eligible| - 1;
    var rest := HolidayRows(eligible[..n], date, time, writeOk[..n], newIds[..n]);
    if r in rest {
      HolidayRowsShape(eligible[..n], date, time, writeOk[..n], newIds[..n], r);
      var j :| 0 <= j < n && writeOk[..n][j] && r.employeeId == eligible[..n][j].id && r.name == eligible[..n][j].name;
      assert writeOk[j] && eligible[j] == eligible[..n][j];
    } else {
      assert r == HolidayRecord(eligible[n], date, time, newIds[n]);
    }
  }

  /**
   * A failed write skips only its own employee: every eligible employee whose write succeeds
   * holds a record for the day afterwards, whatever happened to the others.
   */
  lemma {:induction false} HolidayRowsCover(eligible: seq<Employee>, date: CalendarDay, time: string, writeOk: seq<bool>, newIds: seq<string>, j: int)
    requires |writeOk| == |eligible| && |newIds| == |eligible|
    requires 0 <= j < |eligible| && writeOk[j]
    ensures HasRecordOn(HolidayRows(eligible, date, time, writeOk, newIds), eligible[j].id, date)
  {
    var n := |eligible| - 1;
    var rest := HolidayRows(eligible[..n], date, time, writeOk[..n], newIds[..n]);
    var rows := HolidayRows(eligible, date, time, writeOk, newIds);
    if j < n {
      HolidayRowsCover(eligible[..n], date, time, writeOk[..n], newIds[..n], j);
      var i :| 0 <= i < |rest| && rest[i].employeeId == eligible[..n][j].id && rest[i].date == date;
      assert rows[i] == rest[i];
    } else {
      assert rows[|rest|] == HolidayRecord(eligible[n], date, time, newIds[n]);
    }
  }

  /** Exactly one row per successful write. */
  lemma {:induction false} HolidayRowsCount(eligible: seq<Employee>, date: CalendarDay, time: string, writeOk: seq<bool>, newIds: seq<string>)
    requires |writeOk| == |eligible| && |newIds| == |eligible|
    ensures |HolidayRows(eligible, date, time, writeOk, newIds)| == Count(writeOk, (ok: bool) => ok)
  {
    if eligible != [] {
      var n := |eligible| - 1;
      HolidayRowsCount(eligible[..n], date, time, writeOk[..n], newIds[..n]);
      assert writeOk == writeOk[..n] + [writeOk[n]];
      FilterAppend(writeOk[..n], [writeOk[n]], (ok: bool) => ok);
    }
  }

  /**
   * The loop of `markHolidayAttendanceForAll`: one write per eligible employee, in order; the
   * record of each successful write is appended, a failed write is skipped.
   */
  method WriteHolidayRecords(eligible: seq<Employee>, date: CalendarDay, time: string, writeOk: seq<bool>, newIds: seq<string>)
    returns (written: seq<AttendanceRecord>)
    requires |writeOk| == |eligible| && |newIds| == |eligible|
    ensures written == HolidayRows(eligible, date, time, writeOk, newIds)
  {
    written := [];
    var i := 0;
    while i < |eligible|
      invariant 0 <= i <= |eligible|
      invariant written == HolidayRows(eligible[..i], date, time, writeOk[..i], newIds[..i])
    {
      assert eligible[..i + 1][..i] == eligible[..i];
      assert writeOk[..i + 1][..i] == writeOk[..i] && newIds[..i + 1][..i] == newIds[..i];
      if writeOk[i] {
        written := written + [HolidayRecord(eligible[i], date, time, newIds[i])];
      }
      i := i + 1;
    }
    assert eligible[..i] == eligible && writeOk[..i] == writeOk && newIds[..i] == newIds;
  }

  lemma HasRecordOnAppend(a: seq<AttendanceRecord>, b: seq<AttendanceRecord>, employeeId: string, date: CalendarDay)
    ensures HasRecordOn(a + b, employeeId, date) <==> HasRecordOn(a, employeeId, date) || HasRecordOn(b, employeeId, date)
  {
    if HasRecordOn(a, employeeId, date) {
      var i :| 0 <= i < |a| && a[i].employeeId == employeeId && a[i].date == date;
      assert (a + b)[i] == a[i];
    }
    if HasRecordOn(b, employeeId, date) {
      var i :| 0 <= i < |b| && b[i].employeeId == employeeId && b[i].date == date;
      assert (a + b)[|a| + i] == b[i];
    }
    if HasRecordOn(a + b, employeeId, date) {
      var i :| 0 <= i < |a + b| && (a + b)[i].employeeId == employeeId && (a + b)[i].date == date;
      if i >= |a| {
        assert b[i - |a|] == (a + b)[i];
      } else {
        assert a[i] == (a + b)[i];
      }
    }
  }

  /**
   * When every write succeeds, marking the holiday leaves nobody eligible: a second run finds
   * everyone marked and writes nothing.
   */
  lemma HolidayLeavesNoneEligible(employees: seq<Employee>, attendance: seq<AttendanceRecord>, date: CalendarDay, time: string, writeOk: seq<bool>, newIds: seq<string>)
    requires var eligible := Eligible(employees, attendance, date);
      |writeOk| == |eligible| && |newIds| == |eligible| && forall j :: 0 <= j < |writeOk| ==> writeOk[j]
    ensures var eligible := Eligible(employees, attendance, date);
      Eligible(employees, attendance + HolidayRows(eligible, date, time, writeOk, newIds), date) == []
  {
    var eligible := Eligible(employees, attendance, date);
    var rows := HolidayRows(eligible, date, time, writeOk, newIds);
    var after := Eligible(employees, attendance + rows, date);
    if after != [] {
      var e := after[0];
      EligibleMembers(employees, attendance + rows, date, e);
      HasRecordOnAppend(attendance, rows, e.id, date);
      EligibleMembers(employees, attendance, date, e);
      var j :| 0 <= j < |eligible| && eligible[j] == e;
      HolidayRowsCover(eligible, date, time, writeOk, newIds, j);
      assert false;
    }
  }

  // ---------------------------------------------------------------------------
  // The record list filter
  // ---------------------------------------------------------------------------

  /**
   * `filteredAttendanceRecords`' test: a non-blank name filter must occur, lower-cased, in the
   * lower-cased name, and a status filter other than "All" (`None`) must equal the status.
   */
  predicate Shown(r: AttendanceRecord, filterName: string, filterStatus: Option<Status>)
  {
    (IsBlank(filterName) || Contains(ToLower(r.name), ToLower(filterName)))
    && (filterStatus.None? || r.status == filterStatus.value)
  }

  function FilteredRecords(attendance: seq<AttendanceRecord>, filterName: string, filterStatus: Option<Status>): seq<AttendanceRecord>
  {
    Filter(attendance, (r: AttendanceRecord) => Shown(r, filterName, filterStatus))
  }

  /** A record is listed exactly when it is in the list, its name contains the filter text, and its status matches. */
  lemma FilteredMembers(attendance: seq<AttendanceRecord>, filterName: string, filterStatus: Option<Status>, r: AttendanceRecord)
    ensures r in FilteredRecords(attendance, filterName, filterStatus) <==>
      r in attendance
      && (IsBlank(filterName) || exists k :: OccursAt(ToLower(r.name), ToLower(filterName), k))
      && (filterStatus.None? || r.status == filterStatus.value)
  {
    var shown := (x: AttendanceRecord) => Shown(x, filterName, filterStatus);
    FilterMembers(attendance, shown, r);
    assert shown(r) == Shown(r, filterName, filterStatus);
    ContainsAt(ToLower(r.name), ToLower(filterName));
  }

  /** With a blank name filter and "All", the whole list is shown, in order. */
  lemma {:induction false} NoFilterShowsAll(attendance: seq<AttendanceRecord>, filterName: string)
    requires IsBlank(filterName)
    ensures FilteredRecords(attendance, filterName, None) == attendance
  {
    if attendance != [] {
      NoFilterShowsAll(attendance[1..], filterName);
      assert attendance == [attendance[0]] + attendance[1..];
    }
  }

  // ---------------------------------------------------------------------------
  // The screen
  // ---------------------------------------------------------------------------

  /** Why `updateRecord` stops, or that it goes ahead. */
  datatype UpdateOutcome =
    | UpdateOutsideWindow
    | NothingOpen                 // no record in the modal: reading its name throws
    | BlankNameOrRole
    | UpdateAccepted

  function UpdateGuard(hour: int, editRecord: Option<AttendanceRecord>): (g: UpdateOutcome)
    ensures g == UpdateAccepted <==>
      InWindow(hour) && editRecord.Some? && !IsBlank(editRecord.value.name) && !IsBlank(editRecord.value.role)
    ensures g == UpdateOutsideWindow <==> !InWindow(hour)
  {
    if !InWindow(hour) then UpdateOutsideWindow
    else if editRecord.None? then NothingOpen
    else if IsBlank(editRecord.value.name) || IsBlank(editRecord.value.role) then BlankNameOrRole
    else UpdateAccepted
  }

  /** Why the holiday loop does not run, or that it ran. */
  datatype HolidayOutcome = HolidayNotConfirmed | HolidayOutsideWindow | NobodyEligible | HolidayMarked

  /** The mark sheet's state: the day's records and the two forms. */
  class MarkSheet {
    var employees: seq<Employee>
    /** The records of the selected day, as fetched, plus those marked since. */
    var attendance: seq<AttendanceRecord>
    var selectedDate: CalendarDay
    var selectedTime: string
    var employeeId: string
    var name: string
    var role: string
    var status: Status
    var lateArrivalApproved: Approval
    var holidayOption: Approval
    var isHolidayModalOpen: bool
    var editRecord: Option<AttendanceRecord>
    var updateSelectedTime: string
    var isModalOpen: bool

    constructor (employees: seq<Employee>, attendance: seq<AttendanceRecord>, selectedDate: CalendarDay, now: string)
      ensures this.employees == employees && this.attendance == attendance && this.selectedDate == selectedDate
      ensures selectedTime == now && updateSelectedTime == now
      ensures employeeId == "" && name == "" && role == "" && status == Present && lateArrivalApproved == No
      ensures holidayOption == No && !isHolidayModalOpen && editRecord.None? && !isModalOpen
    {
      this.employees := employees;
      this.attendance := attendance;
      this.selectedDate := selectedDate;
      selectedTime := now;
      updateSelectedTime := now;
      employeeId := "";
      name := "";
      role := "";
      status := Present;
      lateArrivalApproved := No;
      holidayOption := No;
      isHolidayModalOpen := false;
      editRecord := None;
      isModalOpen := false;
    }

    /**
     * `markAttendance`: after the three guards, writes one record with the finalised status
     * and the store's id; when the write succeeds, appends it to the list and clears the
     * employee, name, role and approval fields (the selected status stays).
     */
    method MarkAttendance(hour: int, today: CalendarDay, newId: string, writeOk: bool) returns (outcome: MarkOutcome)
      modifies this`attendance, this`employeeId, this`name, this`role, this`lateArrivalApproved
      ensures outcome == MarkGuard(hour, old(employeeId), old(name), old(role), selectedDate, today)
      ensures outcome != MarkAccepted || !writeOk ==> unchanged(this)
      ensures outcome == MarkAccepted && writeOk ==>
        && attendance == old(attendance) + [AttendanceRecord(newId, old(employeeId), old(name), old(role), selectedDate,
             CreateStatus(selectedDate, status, selectedTime, old(lateArrivalApproved)), selectedTime, old(lateArrivalApproved))]
        && employeeId == "" && name == "" && role == "" && lateArrivalApproved == No
    {
      if !InWindow(hour) {
        return MarkOutsideWindow;
      }
      if IsBlank(name) || IsBlank(role) || employeeId == "" {
        return NoEmployeeSelected;
      }
      if DayNumber(selectedDate) > DayNumber(today) {
        return FutureDate;
      }
      outcome := MarkAccepted;
      var finalStatus := CreateStatus(selectedDate, status, selectedTime, lateArrivalApproved);
      var newRecord := AttendanceRecord(newId, employeeId, name, role, selectedDate, finalStatus, selectedTime, lateArrivalApproved);
      if writeOk {
        attendance := attendance + [newRecord];
        employeeId := "";
        name := "";
        role := "";
        lateArrivalApproved := No;
      }
    }

    /**
     * `markHolidayAttendanceForAll`: after its guards, writes a holiday record for every
     * eligible employee, one at a time; a failed write skips that employee only. Then closes
     * the holiday modal and resets its option.
     */
    method MarkHolidayAttendanceForAll(hour: int, writeOk: seq<bool>, newIds: seq<string>) returns (outcome: HolidayOutcome)
      requires |writeOk| == |Eligible(employees, attendance, selectedDate)| && |newIds| == |writeOk|
      modifies this`attendance, this`isHolidayModalOpen, this`holidayOption
      ensures outcome == HolidayNotConfirmed <==> old(holidayOption) != Yes
      ensures outcome == HolidayOutsideWindow <==> old(holidayOption) == Yes && !InWindow(hour)
      ensures outcome == NobodyEligible <==>
        old(holidayOption) == Yes && InWindow(hour) && Eligible(employees, old(attendance), selectedDate) == []
      ensures outcome != HolidayMarked ==> unchanged(this)
      ensures outcome == HolidayMarked ==>
        && attendance == old(attendance) + HolidayRows(Eligible(employees, old(attendance), selectedDate), selectedDate, selectedTime, writeOk, newIds)
        && !isHolidayModalOpen && holidayOption == No
    {
      if holidayOption != Yes {
        return HolidayNotConfirmed;
      }
      if !InWindow(hour) {
        return HolidayOutsideWindow;
      }
      var eligible := Eligible(employees, attendance, selectedDate);
      if |eligible| == 0 {
        return NobodyEligible;
      }
      outcome := HolidayMarked;
      var written := WriteHolidayRecords(eligible, selectedDate, selectedTime, writeOk, newIds);
      attendance := attendance + written;
      isHolidayModalOpen := false;
      holidayOption := No;
    }

    /**
     * `openEditModal`: opens the record in the modal, with its time, only when the list holds
     * a record of that employee for the selected day.
     */
    method OpenEditModal(record: AttendanceRecord) returns (found: bool)
      modifies this`editRecord, this`updateSelectedTime, this`isModalOpen
      ensures found <==> HasRecordOn(attendance, record.employeeId, selectedDate)
      ensures found ==> editRecord == Some(record) && updateSelectedTime == record.timeIn && isModalOpen
      ensures !found ==> unchanged(this)
    {
      found := false;
      var i := 0;
      while i < |attendance|
        invariant 0 <= i <= |attendance|
        invariant !found <==> forall j :: 0 <= j < i ==> !(attendance[j].employeeId == record.employeeId && attendance[j].date == selectedDate)
      {
        if attendance[i].employeeId == record.employeeId && attendance[i].date == selectedDate {
          found := true;
        }
        i := i + 1;
      }
      if found {
        editRecord := Some(record);
        updateSelectedTime := record.timeIn;
        isModalOpen := true;
      }
    }

    /**
     * `updateRecord`: after its guards, finalises the edited record with the modal's time and,
     * when the write succeeds, replaces every list entry with its id, closes the modal and
     * clears the edited record.
     */
    method UpdateRecord(hour: int, writeOk: bool) returns (outcome: UpdateOutcome)
      modifies this`attendance, this`isModalOpen, this`editRecord
      ensures outcome == UpdateGuard(hour, old(editRecord))
      ensures outcome != UpdateAccepted || !writeOk ==> unchanged(this)
      ensures outcome == UpdateAccepted && writeOk ==>
        var u := FinaliseOnEdit(selectedDate, old(editRecord).value, updateSelectedTime);
        && attendance == ReplaceWhere(old(attendance), (r: AttendanceRecord) => r.id == u.id, u)
        && !isModalOpen && editRecord.None?
    {
      if !InWindow(hour) {
        return UpdateOutsideWindow;
      }
      if editRecord.None? {
        return NothingOpen;
      }
      if IsBlank(editRecord.value.name) || IsBlank(editRecord.value.role) {
        return BlankNameOrRole;
      }
      outcome := UpdateAccepted;
      var updated := FinaliseOnEdit(selectedDate, editRecord.value, updateSelectedTime);
      if writeOk {
        attendance := ReplaceWhere(attendance, (r: AttendanceRecord) => r.id == updated.id, updated);
        isModalOpen := false;
        editRecord := None;
      }
    }
  }
}
