/**
 * The salary half of the salary-management screen: computing one employee's salary for a
 * month from the attendance sheet, and confirming the resulting receipt into the employee's
 * table of salary documents, one per month.
 */
module SalaryPay {
  import opened Wrappers
  import opened Calendar
  import opened Tables
  import opened Records
  import opened SalaryLeave
  import opened SalarySheet

  /** The receipt `handleCalculateSalary` builds (the amounts before `toFixed(2)`). */
  datatype Receipt = Receipt(
    employeeId: string, employeeName: string, role: string, month: Month,
    lateArrivalCount: nat, fullLeave: nat, halfPresentCount: nat,
    deduction: real, calculatedSalary: real)

  /** A document of an employee's "salaries" collection: the receipt and the two status flags. */
  datatype SalaryDoc = SalaryDoc(id: string, receipt: Receipt, calculated: bool, sent: bool)

  // ---------------------------------------------------------------------------
  // handleCalculateSalary
  // ---------------------------------------------------------------------------

  /** `employees.find(e => e.id === id)`. */
  function FindEmployee(employees: seq<Employee>, id: string): (r: Option<Employee>)
    ensures r.None? <==> forall i :: 0 <= i < |employees| ==> employees[i].id != id
    ensures r.Some? ==> r.value.id == id
    ensures r.Some? ==> exists i :: 0 <= i < |employees| && employees[i] == r.value && forall j :: 0 <= j < i ==> employees[j].id != id
  {
    if employees == [] then None
    else if employees[0].id == id then Some(employees[0])
    else
      var r := FindEmployee(employees[1..], id);
      if r.Some? then
        var i :| 0 <= i < |employees[1..]| && employees[1..][i] == r.value && forall j :: 0 <= j < i ==> employees[1..][j].id != id;
        assert employees[i + 1] == r.value;
        r
      else r
  }

  function IsFullLeave(r: AttendanceRecord): bool { r.status == Absent || r.status == NoRecord }
  function IsUnapprovedLate(r: AttendanceRecord): bool { r.status == LateArrival && r.approval != Yes }
  function IsHalfPresent(r: AttendanceRecord): bool { r.status == HalfPresent }

  /** The dates of the rows: `.map(r => normalizeDate(r.date))`. */
  function Dates(rows: seq<AttendanceRecord>): (ds: seq<CalendarDay>)
    ensures |ds| == |rows|
    ensures forall i :: 0 <= i < |rows| ==> ds[i] == rows[i].date
  {
    if rows == [] then [] else [rows[0].date] + Dates(rows[1..])
  }

  /** The leave figures of a sheet: sandwich-counted full leave, unapproved late arrivals, half days. */
  datatype LeaveFigures = LeaveFigures(fullLeave: nat, lateArrivalCount: nat, halfPresentCount: nat, extraLeave: nat)

  function Figures(sheet: seq<AttendanceRecord>, publicHolidays: seq<string>): LeaveFigures
  {
    LeaveFigures(
      SandwichLeave(Dates(Filter(sheet, IsFullLeave)), publicHolidays),
      Count(sheet, IsUnapprovedLate),
      Count(sheet, IsHalfPresent),
      ComputeExtraLeave(Count(sheet, IsUnapprovedLate)))
  }

  /** `effective = fullLeave + halfPresentCount * 0.5 + extraLeave`. */
  function EffectiveLeave(f: LeaveFigures): (e: real)
    ensures e >= 0.0
  {
    f.fullLeave as real + f.halfPresentCount as real * 0.5 + f.extraLeave as real
  }

  /** Remote employees lose nothing; everyone else loses a day's pay per effective leave day. */
  function Deduction(employee: Employee, ym: Month, effective: real): real
  {
    if employee.employmentType == Remote then 0.0
    else employee.salary / DaysIn(ym) as real * effective
  }

  /** What pressing "Calculate" leads to. */
  datatype Calculation =
    | NoSelection                          // no employee selected: nothing happens
    | UnknownEmployee                      // the selected id names no employee: nothing happens
    | NotEligible                          // a "Myself" employee: an alert, no receipt
    | Calculated(effective: real, receipt: Receipt)

  /**
   * The salary arithmetic of `handleCalculateSalary` on an employee's month sheet: the
   * sandwich-counted Absent and No Record days (no public holidays are listed), the unapproved
   * late arrivals and their penalty, the half days, and the resulting deduction and salary.
   */
  function SalaryFor(employee: Employee, records: seq<AttendanceRecord>, ym: Month): (c: Calculation)
    ensures c.Calculated? && c.receipt.employeeId == employee.id && c.receipt.month == ym
    ensures c.receipt.fullLeave == SandwichLeave(Dates(Filter(records, IsFullLeave)), [])
    ensures c.receipt.lateArrivalCount == Count(records, IsUnapprovedLate)
    ensures c.receipt.halfPresentCount == Count(records, IsHalfPresent)
    ensures c.effective == c.receipt.fullLeave as real + c.receipt.halfPresentCount as real * 0.5
                           + ComputeExtraLeave(c.receipt.lateArrivalCount) as real
    ensures c.receipt.deduction == Deduction(employee, ym, c.effective)
    ensures c.receipt.calculatedSalary + c.receipt.deduction == employee.salary
  {
    var f := Figures(records, []);
    var effective := EffectiveLeave(f);
    var deduction := Deduction(employee, ym, effective);
    Calculated(effective, Receipt(employee.id, employee.name, employee.role, ym,
      f.lateArrivalCount, f.fullLeave, f.halfPresentCount, deduction, employee.salary - deduction))
  }

  /**
   * `handleCalculateSalary` without its state updates: nothing without a selected employee or
   * when the id names none, no receipt for a "Myself" employee, and otherwise the salary
   * computed on that employee's sheet for the month.
   */
  function CalculateSalary(employees: seq<Employee>, attendanceRecords: seq<AttendanceRecord>,
                           selectedEmployeeId: Option<string>, ym: Month): (c: Calculation)
    ensures c.NoSelection? <==> selectedEmployeeId.None? || selectedEmployeeId.value == ""
    ensures c.UnknownEmployee? <==> !c.NoSelection? && FindEmployee(employees, selectedEmployeeId.value).None?
    ensures c.NotEligible? <==>
      (!c.NoSelection? && !c.UnknownEmployee? && FindEmployee(employees, selectedEmployeeId.value).value.employmentType == Myself)
    ensures c.Calculated? ==> c.receipt.employeeId == selectedEmployeeId.value && c.receipt.month == ym
  {
    if selectedEmployeeId.None? || selectedEmployeeId.value == "" then NoSelection
    else
      var id := selectedEmployeeId.value;
      match FindEmployee(employees, id)
      case None => UnknownEmployee
      case Some(employee) =>
        if employee.employmentType == Myself then NotEligible
        else SalaryFor(employee, EmployeeSheet(attendanceRecords, id, ym), ym)
  }

  // ---------------------------------------------------------------------------
  // checkSalaryExists and the upsert of handleConfirmSalary
  // ---------------------------------------------------------------------------

  /** The index of the last document for `month`, or -1. */
  function LastIndexFor(docs: seq<SalaryDoc>, month: Month): (k: int)
    ensures -1 <= k < |docs|
    ensures k >= 0 ==> docs[k].receipt.month == month
    ensures forall j :: k < j < |docs| ==> docs[j].receipt.month != month
  {
    if docs == [] then -1
    else if docs[|docs| - 1].receipt.month == month then |docs| - 1
    else LastIndexFor(docs[..|docs| - 1], month)
  }

  /**
   * `checkSalaryExists`: walks the employee's salary documents and keeps the last one for the
   * month, or `null`.
   */
  method CheckSalaryExists(salaries: seq<SalaryDoc>, monthToCheck: Month) returns (existingRecord: Option<Receipt>)
    ensures existingRecord.None? <==> forall i :: 0 <= i < |salaries| ==> salaries[i].receipt.month != monthToCheck
    ensures existingRecord.Some? ==> existingRecord.value == salaries[LastIndexFor(salaries, monthToCheck)].receipt
  {
    existingRecord := None;
    var i := 0;
    while i < |salaries|
      invariant 0 <= i <= |salaries|
      invariant existingRecord.None? <==> LastIndexFor(salaries[..i], monthToCheck) < 0
      invariant existingRecord.Some? ==> existingRecord.value == salaries[LastIndexFor(salaries[..i], monthToCheck)].receipt
    {
      assert salaries[..i + 1][..i] == salaries[..i];
      if salaries[i].receipt.month == monthToCheck {
        existingRecord := Some(salaries[i].receipt);
      }
      i := i + 1;
    }
    assert salaries[..i] == salaries;
  }

  /** The document stored on confirmation: the receipt, `salariescalculatestatus: true`, `SalarySend: false`. */
  function Confirmed(id: string, receipt: Receipt): SalaryDoc
  {
    SalaryDoc(id, receipt, true, false)
  }

  /**
   * The upsert of `handleConfirmSalary`: the last document for the receipt's month is
   * overwritten in place and keeps its id; without one, a document with the store's new id is
   * appended.
   */
  function Upsert(docs: seq<SalaryDoc>, receipt: Receipt, newId: string): (r: seq<SalaryDoc>)
    ensures var k := LastIndexFor(docs, receipt.month);
      && (k >= 0 ==> |r| == |docs| && r[k] == Confirmed(docs[k].id, receipt))
      && (k < 0 ==> |r| == |docs| + 1 && r[|docs|] == Confirmed(newId, receipt))
      && forall i :: 0 <= i < |docs| && i != k ==> r[i] == docs[i]
  {
    var k := LastIndexFor(docs, receipt.month);
    if k >= 0 then docs[k := Confirmed(docs[k].id, receipt)]
    else docs + [Confirmed(newId, receipt)]
  }

  /** After confirming, looking up the receipt's month finds the confirmed receipt. */
  lemma UpsertThenCheck(docs: seq<SalaryDoc>, receipt: Receipt, newId: string)
    ensures var r := Upsert(docs, receipt, newId);
      var k := LastIndexFor(r, receipt.month);
      k >= 0 && r[k].receipt == receipt && r[k].calculated && !r[k].sent
  {
    var r := Upsert(docs, receipt, newId);
    var k0 := LastIndexFor(docs, receipt.month);
    var k := LastIndexFor(r, receipt.month);
    if k0 >= 0 {
      assert r[k0].receipt.month == receipt.month;
      assert k == k0;
    } else {
      assert k == |docs|;
    }
  }

  /** Confirming the same receipt twice leaves the table as confirming it once. */
  lemma UpsertIdempotent(docs: seq<SalaryDoc>, receipt: Receipt, newId: string, newId2: string)
    ensures Upsert(Upsert(docs, receipt, newId), receipt, newId2) == Upsert(docs, receipt, newId)
  {
    var r := Upsert(docs, receipt, newId);
    var k0 := LastIndexFor(docs, receipt.month);
    var k := LastIndexFor(r, receipt.month);
    if k0 >= 0 {
      assert r[k0].receipt.month == receipt.month;
      assert k == k0;
    } else {
      assert k == |docs|;
    }
    assert r[k := Confirmed(r[k].id, receipt)] == r;
  }
}
