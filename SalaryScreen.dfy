/**
 * The salary modal of the salary-management screen: what the salary calculation guarantees,
 * and the screen state that `handleCalculateSalary` and `handleConfirmSalary` update.
 */
module SalaryScreen {
  import opened Wrappers
  import opened Calendar
  import opened Tables
  import opened Records
  import opened SalaryLeave
  import opened SalarySheet
  import opened SalaryPay

  // ---------------------------------------------------------------------------
  // What the calculation guarantees
  // ---------------------------------------------------------------------------

  /** A Remote employee is paid the full base salary. */
  lemma RemoteFullPay(employee: Employee, records: seq<AttendanceRecord>, ym: Month)
    requires employee.employmentType == Remote
    ensures SalaryFor(employee, records, ym).receipt.deduction == 0.0
    ensures SalaryFor(employee, records, ym).receipt.calculatedSalary == employee.salary
  {
  }

  /**
   * A non-Remote employee's pay, the base less the deduction as `SalaryFor` computes it, is
   * the base salary scaled by the share of the month not taken as effective leave.
   */
  lemma PayShareOfMonth(employee: Employee, ym: Month, effective: real, pay: real)
    requires employee.employmentType != Remote
    requires pay + Deduction(employee, ym, effective) == employee.salary
    ensures pay == employee.salary * (1.0 - effective / DaysIn(ym) as real)
  {
    var days := DaysIn(ym) as real;
    assert Deduction(employee, ym, effective) == employee.salary / days * effective;
    assert employee.salary / days * effective == employee.salary * (effective / days);
  }

  /** For a non-Remote employee each further day of effective leave costs one daily rate. */
  lemma LeaveDayCost(employee: Employee, ym: Month, effective: real)
    requires employee.employmentType != Remote
    ensures Deduction(employee, ym, effective + 1.0) == Deduction(employee, ym, effective) + employee.salary / DaysIn(ym) as real
  {
  }

  /** A whole month of effective leave costs a non-Remote employee the whole base salary. */
  lemma WholeMonthCost(employee: Employee, ym: Month)
    requires employee.employmentType != Remote
    ensures Deduction(employee, ym, DaysIn(ym) as real) == employee.salary
  {
  }

  /**
   * The effective leave is at least one day per Absent or No Record row plus half a day per
   * Half Present row, and the late count is that of the Late Arrival rows not approved.
   */
  lemma LeaveFiguresOf(employee: Employee, records: seq<AttendanceRecord>, ym: Month)
    ensures var c := SalaryFor(employee, records, ym);
      && c.effective >= Count(records, IsFullLeave) as real + Count(records, IsHalfPresent) as real * 0.5
      && Count(records, IsFullLeave) <= c.receipt.fullLeave <= 3 * Count(records, IsFullLeave)
      && c.receipt.lateArrivalCount == Count(records, IsUnapprovedLate)
      && c.receipt.halfPresentCount == Count(records, IsHalfPresent)
  {
    var leave := Dates(Filter(records, IsFullLeave));
    SandwichBounds(leave, []);
    assert |leave| == Count(records, IsFullLeave);
  }

  /** With a non-negative base, the deduction is non-negative and the salary at most the base. */
  lemma PayAtMostBase(employee: Employee, records: seq<AttendanceRecord>, ym: Month)
    requires employee.salary >= 0.0
    ensures 0.0 <= SalaryFor(employee, records, ym).receipt.deduction
    ensures SalaryFor(employee, records, ym).receipt.calculatedSalary <= employee.salary
  {
    DeductionNonNegative(employee, ym, SalaryFor(employee, records, ym).effective);
  }

  lemma DeductionNonNegative(employee: Employee, ym: Month, effective: real)
    requires employee.salary >= 0.0 && effective >= 0.0
    ensures 0.0 <= Deduction(employee, ym, effective)
  {
    var rate := employee.salary / DaysIn(ym) as real;
    assert rate >= 0.0;
  }

  /** More effective leave never raises the pay of a non-Remote employee with a non-negative base. */
  lemma DeductionMonotone(employee: Employee, ym: Month, e1: real, e2: real)
    requires employee.salary >= 0.0 && e1 <= e2
    ensures Deduction(employee, ym, e1) <= Deduction(employee, ym, e2)
  {
  }

  /**
   * The decisions of `handleCalculateSalary`: no selected employee, an id naming nobody, a
   * "Myself" employee, or the employee's month sheet built and the salary computed on it.
   */
  method CalculationFor(employees: seq<Employee>, attendanceRecords: seq<AttendanceRecord>,
                        selectedEmployeeId: Option<string>, ym: Month) returns (c: Calculation)
    ensures c == CalculateSalary(employees, attendanceRecords, selectedEmployeeId, ym)
  {
    if selectedEmployeeId.None? || selectedEmployeeId.value == "" {
      return NoSelection;
    }
    var id := selectedEmployeeId.value;
    var employee := FindEmployee(employees, id);
    if employee.None? {
      return UnknownEmployee;
    }
    if employee.value.employmentType == Myself {
      return NotEligible;
    }
    var records := GetEmployeeRecordsForMonth(attendanceRecords, id, ym);
    c := SalaryFor(employee.value, records, ym);
  }

  // ---------------------------------------------------------------------------
  // The modal's state and handlers
  // ---------------------------------------------------------------------------

  /** The screen state `handleCalculateSalary` and `handleConfirmSalary` work on. */
  class SalaryScreen {
    /** Every employee's "salaries" collection, by employee id. */
    var salaries: map<string, seq<SalaryDoc>>
    var selectedEmployeeId: Option<string>
    var effectiveLeave: real
    var calculatedSalary: real
    var calculationReceipt: Option<Receipt>
    var salaryConfirmed: bool

    constructor (salaries: map<string, seq<SalaryDoc>>)
      ensures this.salaries == salaries && selectedEmployeeId.None? && calculationReceipt.None?
      ensures effectiveLeave == 0.0 && calculatedSalary == 0.0 && !salaryConfirmed
    {
      this.salaries := salaries;
      selectedEmployeeId := None;
      effectiveLeave := 0.0;
      calculatedSalary := 0.0;
      calculationReceipt := None;
      salaryConfirmed := false;
    }

    /** An employee's salary documents; none yet when the collection does not exist. */
    function SalariesOf(id: string): seq<SalaryDoc>
      reads this
    {
      if id in salaries then salaries[id] else []
    }

    /**
     * `handleCalculateSalary`: leaves the calculation fields alone when nothing is calculated
     * and otherwise stores the effective leave, the salary and the receipt.
     */
    method HandleCalculateSalary(employees: seq<Employee>, attendanceRecords: seq<AttendanceRecord>, ym: Month)
      modifies this`effectiveLeave, this`calculatedSalary, this`calculationReceipt
      ensures var c := CalculateSalary(employees, attendanceRecords, old(selectedEmployeeId), ym);
        c.Calculated? ==> (effectiveLeave, calculatedSalary, calculationReceipt) == (c.effective, c.receipt.calculatedSalary, Some(c.receipt))
      ensures !CalculateSalary(employees, attendanceRecords, old(selectedEmployeeId), ym).Calculated? ==> unchanged(this)
    {
      var outcome := CalculationFor(employees, attendanceRecords, selectedEmployeeId, ym);
      if !outcome.Calculated? {
        return;
      }
      effectiveLeave := outcome.effective;
      calculatedSalary := outcome.receipt.calculatedSalary;
      calculationReceipt := Some(outcome.receipt);
    }

    /**
     * `handleConfirmSalary`: with an employee selected and a receipt calculated, reads that
     * employee's salary documents, finds the last one for the receipt's month, overwrites it or
     * appends a new one with the id the store assigns, and marks the salary confirmed.
     */
    method HandleConfirmSalary(newId: string)
      modifies this`salaries, this`salaryConfirmed
      ensures selectedEmployeeId.None? || selectedEmployeeId.value == "" || calculationReceipt.None? ==> unchanged(this)
      ensures selectedEmployeeId.Some? && selectedEmployeeId.value != "" && calculationReceipt.Some? ==>
        salaries == old(salaries)[selectedEmployeeId.value :=
          Upsert(old(SalariesOf(selectedEmployeeId.value)), calculationReceipt.value, newId)]
        && salaryConfirmed
    {
      if selectedEmployeeId.None? || selectedEmployeeId.value == "" || calculationReceipt.None? {
        return;
      }
      var id := selectedEmployeeId.value;
      var receipt := calculationReceipt.value;
      var snap := SalariesOf(id);
      var existing := -1;
      var i := 0;
      while i < |snap|
        invariant 0 <= i <= |snap|
        invariant existing == LastIndexFor(snap[..i], receipt.month)
      {
        assert snap[..i + 1][..i] == snap[..i];
        if snap[i].receipt.month == receipt.month {
          existing := i;
        }
        i := i + 1;
      }
      assert snap[..i] == snap;
      if existing >= 0 {
        salaries := salaries[id := snap[existing := Confirmed(snap[existing].id, receipt)]];
      } else {
        salaries := salaries[id := snap + [Confirmed(newId, receipt)]];
      }
      salaryConfirmed := true;
    }
  }
}
