# HR console: attendance and salary rules

This project models the rules of an HR console that a small company uses to mark daily
attendance, review monthly attendance summaries, compute salaries from leave, show dashboard
figures and keep a table of employee credentials. The model covers what the five screens compute
and what they change in their in-memory lists:

- **Salary management** (`SalaryMngWithAttandance.jsx`):
  - normalising `M/D/YYYY` dates to `YYYY-MM-DD`;
  - listing the days of a month and counting its working days;
  - building an employee's monthly sheet, with one synthetic "Off" / "No Record" row per
    unrecorded day, sorted by date, with Present rows reclassified by check-in minute;
  - the sandwich-leave counter and the late-arrival penalty table;
  - the salary calculation and the month-keyed upsert of confirmed receipts;
  - the per-day reduction and counts of the summary table.
- **Attendance marking** (`Attandance.jsx`):
  - the hour window;
  - marking one employee, with its guards and the create-time status rules;
  - the "holiday for all" loop, where each employee's write succeeds or fails on its own;
  - the record filter, the edit modal, and replacing an edited record by id with the edit-time
    status rules.
- **Attendance summary** (`AttendanceSummary.jsx`):
  - `timeToMin` and the working-day count;
  - the detail sheet (like the salary sheet, without reclassification);
  - the per-day cards with their present / absent / late / missing figures.
- **Dashboard** (`Dashboard.jsx`): the month filter and the late-arrival and absence counts.
- **Credentials** (`EmployeeCredentialsPage.jsx`):
  - form validation;
  - replace-by-id, append and delete on the table;
  - closing the form;
  - the security-code gate on viewing and exporting.

Modules:

- **Foundations:**
  - `Wrappers`: `Option`.
  - `Text`: split / join, decimal digits, `padStart`, JS string order, lower-casing, substring
    search.
  - `Calendar`: Gregorian dates as `(year, month, day)`, day numbers, weekdays, formatting and
    parsing, working days.
  - `Clock`: `HH:MM` readings and minutes.
  - `Sorting`: a stable insertion sort by an integer key.
  - `Tables`: filter, count, replace-where.
  - `Records`: employees, attendance records and the monthly sheet shared by two screens.
- **Salary screen:** `SalaryLeave`, `SalarySheet`, `SalaryPay` and `SalaryScreen`. The last one
  holds the screen's state as a class.
- **Attendance marking:** `AttendanceMarking`, whose class `MarkSheet` holds the marking screen's
  state.
- **Attendance summary:** `AttendanceSummary`.
- **Dashboard:** `Dashboard`.
- **Credentials:** `Credentials`, whose class `CredentialsPage` holds the table, the form and
  the modals.

The wall-clock hour, "today", the time of day, the store's new document ids and whether each
store write succeeds are all parameters. The store itself is the in-memory list the screen
keeps.

## Model

| member | source | states |
|---|---|---|
| SalarySheet.NormalizeDate | src/Component/SalaryMngWithAttandance.jsx:10-21 | The slash branch applies exactly when the input contains "/"; other inputs go to the `Date` branch, which is not modelled (None). |
| SalarySheet.NormalizeSlashed | src/Component/SalaryMngWithAttandance.jsx:11-16 | `M/D/Y` becomes `Y-MM-DD`: month and day padded to two characters, year copied verbatim. |
| SalarySheet.NormalizeWithoutYear | src/Component/SalaryMngWithAttandance.jsx:12-16 | With only one slash, `parts[2]` is undefined and the year becomes the text "undefined". |
| SalarySheet.NormalizeRecordDate | src/Component/SalaryMngWithAttandance.jsx:10-16 | A record date written `M/D/YYYY` normalises to that day's `YYYY-MM-DD` key. |
| Calendar.FormatYMDParses | src/Component/AttendanceSummary.jsx:10-16 | `toYMD` gives a zero-padded `YYYY-MM-DD` string that parses back to the same calendar day. |
| Calendar.FormatYMDInjective | src/Component/AttendanceSummary.jsx:10-16 | Different days get different `YYYY-MM-DD` keys, so keying by date groups exactly by day. |
| Calendar.DaysInMonth | src/Component/SalaryMngWithAttandance.jsx:168 | `new Date(y, m, 0).getDate()`: 28 to 31 days, and 29 exactly in February of a Gregorian leap year. |
| Calendar.DayOfWeek | src/Component/Attandance.jsx:26-29 | The weekday is in 0..6 (Sunday = 0); weekends are days 0 and 6. |
| Calendar.NextWeekday | src/Component/SalaryMngWithAttandance.jsx:34-37 | Stepping a date forward by one day moves its weekday forward by one, modulo 7. |
| Calendar.KnownWeekdays | src/Component/SalaryMngWithAttandance.jsx:37 | Anchors the weekday function: 7 June 2024 is a Friday. |
| Calendar.IsWeekend | src/Component/Attandance.jsx:26-29 | Definition: the weekday is 0 or 6. The weekday is DayOfWeek, pinned by KnownWeekdays and advanced by NextWeekday. |
| Calendar.NextDay | src/Component/SalaryMngWithAttandance.jsx:34-35 | `setDate(getDate() + 1)` yields the day whose day number is one more. |
| Calendar.FormatYMD | src/Component/AttendanceSummary.jsx:10-16 | Definition of the zero-padded `YYYY-MM-DD` key. FormatYMDParses and FormatYMDInjective characterise it. |
| Calendar.WorkingDaysUpTo | src/Component/SalaryMngWithAttandance.jsx:204-217 | The number of weekdays among the first k days of a month is between 0 and k. |
| Clock.MinutesOfClock | src/Component/SalaryMngWithAttandance.jsx:110-113 | On an `HH:MM` reading, `timeToMinutes` is hours × 60 + minutes. |
| Clock.Minutes | src/Component/SalaryMngWithAttandance.jsx:110-113 | Definition of `timeToMinutes`: split at ":", `Number` on both parts, NaN as None. MinutesOfClock gives its value on clock readings. |
| Clock.ClockOrder | src/Component/Attandance.jsx:131 | On zero-padded `HH:MM` readings, JS string order agrees with minute order. |
| Clock.AtOrAfterEightPm | src/Component/Attandance.jsx:131 | `time >= "20:00"` holds exactly when the reading is at least 1200 minutes. |
| Clock.AfterTenPastFive | src/Pages/Dashboard.jsx:11 | `time > "17:10"` holds exactly when the reading is more than 1030 minutes. |
| Text.Split | src/Component/SalaryMngWithAttandance.jsx:12 | `split` yields at least one part, exactly one when the separator is absent, and no part contains the separator. |
| Text.SplitJoin | src/Component/SalaryMngWithAttandance.jsx:12 | Splitting a join of separator-free parts gives back the parts. |
| Text.PadStart2Shape | src/Component/SalaryMngWithAttandance.jsx:13-14 | `padStart(2, "0")` keeps the string as its suffix and pads with '0' up to length 2. |
| Text.PadStart2Value | src/Component/SalaryMngWithAttandance.jsx:53-54 | Padding a digit string keeps its decimal value. |
| Text.NatToDecimalDigits | src/Component/SalaryMngWithAttandance.jsx:53-54 | `String(n)` is a digit string whose value is n, one digit exactly below 10 and two exactly in 10..99. |
| Text.JsNumberDigits | src/Component/AttendanceSummary.jsx:49 | `Number(part)` of a digit string is its decimal value, and of a blank string 0. |
| Text.JsNumberPadded | src/Component/SalaryMngWithAttandance.jsx:110-113 | Whitespace around a numeral is ignored, so " 9" reads as 9. |
| Text.JsNumberSigned | src/Component/SalaryMngWithAttandance.jsx:110-113 | A leading '+' or '-' gives the signed value of the digits; a lone sign is NaN. |
| Text.JsNumber | src/Component/AttendanceSummary.jsx:49 | Definition of `Number(part)` on integer numerals. JsNumberDigits, JsNumberPadded and JsNumberSigned characterise it. |
| Text.Less | src/Component/Attandance.jsx:131 | Definition of JS string `<`. ClockOrder and TwoDigitOrder relate it to numeric order. |
| Text.TwoDigitOrder | src/Component/SalaryMngWithAttandance.jsx:26 | For two-digit fields, string order is numeric order; this is what makes `.sort()` of date keys chronological. |
| Text.ContainsAt | src/Component/Attandance.jsx:221 | `includes` holds exactly when the pattern occurs at some position. |
| Text.ToLower | src/Component/Attandance.jsx:221 | `toLowerCase` keeps the length and lower-cases character by character. |
| Tables.Filter | src/Component/Attandance.jsx:213-228 | `filter` keeps only entries satisfying the predicate and never grows the list. |
| Tables.FilterMembers | src/Component/EmployeeCredentialsPage.jsx:96 | An entry is in a filtered list exactly when it is in the list and satisfies the predicate. |
| Tables.FilterAppend | src/Component/Attandance.jsx:202 | Filtering distributes over appending. |
| Tables.CountDisjoint | src/Pages/Dashboard.jsx:47-57 | Two counts over exclusive predicates add up to at most the length of the list. |
| Tables.CountPermutation | src/Component/SalaryMngWithAttandance.jsx:186 | Sorting does not change any count. |
| Tables.ReplaceWhere | src/Component/Attandance.jsx:277 | `map(x => match ? y : x)` keeps the length and every non-matching entry, and puts y at every match. |
| Tables.Count | src/Pages/Dashboard.jsx:47-57 | Definition of `filter(p).length`. CountDisjoint and CountPermutation state its properties. |
| Sorting.SortBy | src/Component/SalaryMngWithAttandance.jsx:185-186 | Sorting by date gives a list sorted by day number that is a permutation of its input. |
| Records.MissingRowsShape | src/Component/SalaryMngWithAttandance.jsx:170-184 | Every synthetic row is for an unrecorded day of the month: "Off" on weekends, "No Record" otherwise, with "-" time and approval; rows come in day order. |
| Records.MissingRowsCover | src/Component/SalaryMngWithAttandance.jsx:170-184 | Every unrecorded day of the month gets exactly one synthetic row. |
| Records.MissingRowsLength | src/Component/AttendanceSummary.jsx:82-94 | The number of synthetic rows is the month's length minus its recorded days. |
| Records.SheetArrangement | src/Component/SalaryMngWithAttandance.jsx:185-186 | The merged sheet is sorted by date and is exactly the records plus the synthetic rows. |
| Records.SheetCoversMonth | src/Component/SalaryMngWithAttandance.jsx:166-186 | The sheet keeps every record, and each unrecorded day has exactly one row on it: its synthetic row. |
| Records.SheetLength | src/Component/AttendanceSummary.jsx:70-98 | With one record per day, the sheet has one row per day of the month. |
| Records.DistinctDays | src/Component/SalaryMngWithAttandance.jsx:598-603 | The keys of `byDate` are the distinct recorded days, each once. |
| Records.DayGroupOf | src/Component/SalaryMngWithAttandance.jsx:598-603 | A day's group is non-empty and holds exactly the records of that day. |
| Records.SyntheticRow | src/Component/SalaryMngWithAttandance.jsx:170-184 | Definition of the row for an unrecorded day. MissingRowsShape states its fields. |
| Records.MissingRows | src/Component/SalaryMngWithAttandance.jsx:169-184 | Definition of the missing-day rows. MissingRowsShape, MissingRowsCover and MissingRowsLength characterise it. |
| Records.MonthSheet | src/Component/AttendanceSummary.jsx:70-98 | Definition of the merged, date-sorted month sheet. SheetArrangement, SheetCoversMonth and SheetLength characterise it. |
| SalarySheet.GenerateCalendarDays | src/Component/SalaryMngWithAttandance.jsx:48-59 | The loop yields the `YYYY-MM-DD` keys of the month's days in order. |
| SalarySheet.MonthKeys | src/Component/SalaryMngWithAttandance.jsx:48-59 | There are exactly as many keys as days in the month. |
| SalarySheet.MonthKeysOrdered | src/Component/SalaryMngWithAttandance.jsx:48-59 | The keys are strictly ascending, and key i parses to day i + 1 of the month. |
| SalarySheet.SameMonthKeyOrder | src/Component/SalaryMngWithAttandance.jsx:26 | Within a month, an earlier day has a smaller key. |
| SalarySheet.CalculateWorkingDays | src/Component/SalaryMngWithAttandance.jsx:204-217 | The loop counts the weekdays of the month. |
| SalarySheet.WeekOfWorkingDays | src/Component/SalaryMngWithAttandance.jsx:208-215 | Any seven consecutive days of a month hold exactly five working days. |
| SalarySheet.WorkingDaysGrowth | src/Component/SalaryMngWithAttandance.jsx:208-215 | Working days grow with the span of days, by at most one per day. |
| SalarySheet.WorkingDaysOfMonth | src/Component/SalaryMngWithAttandance.jsx:204-217 | Every month has between 20 and 23 working days. |
| SalarySheet.DerivedStatus | src/Component/SalaryMngWithAttandance.jsx:618-620 | More than 1200 minutes gives Half Present; more than 1030 gives Late Arrival; otherwise Present. |
| SalarySheet.DerivedStatusMonotone | src/Component/SalaryMngWithAttandance.jsx:192-196 | A later check-in never gets a milder status. |
| SalarySheet.Reclassify | src/Component/SalaryMngWithAttandance.jsx:189-199 | Only the status changes, only for a Present row with a time, and only to Half Present or Late Arrival. |
| SalarySheet.ReclassifyClock | src/Component/SalaryMngWithAttandance.jsx:190-196 | A Present row with an `HH:MM` time gets the status its minutes derive. |
| SalarySheet.Reclassified | src/Component/SalaryMngWithAttandance.jsx:189-200 | The map keeps the length and reclassifies row by row. |
| SalarySheet.ReclassifiedRowsOn | src/Component/SalaryMngWithAttandance.jsx:189-200 | Reclassification keeps the number of rows on every day. |
| SalarySheet.BuildMissingRecords | src/Component/SalaryMngWithAttandance.jsx:169-184 | The loop pushes exactly the synthetic rows of the unrecorded days, each with its date key as id. |
| SalarySheet.GetEmployeeRecordsForMonth | src/Component/SalaryMngWithAttandance.jsx:158-201 | The method builds the employee's month sheet: own records of the month, plus missing rows, sorted, then reclassified. |
| SalarySheet.EmployeeSheetCovers | src/Component/SalaryMngWithAttandance.jsx:166-199 | The sheet is sorted, and an unrecorded day has exactly one row, the "Off" / "No Record" row. |
| SalarySheet.EmployeeSheetKeepsRecords | src/Component/SalaryMngWithAttandance.jsx:160-199 | Each own record of the month appears in the sheet, reclassified. |
| SalarySheet.Earliest | src/Component/SalaryMngWithAttandance.jsx:614-615 | The record picked is one of the day's records and is no later than any other. |
| SalarySheet.ReduceDayPriority | src/Component/SalaryMngWithAttandance.jsx:606-635 | Work From Home wins; then Present (reduced to Present, Late Arrival or Half Present); then Absent; otherwise the first record's status. |
| SalarySheet.ReducePresentDay | src/Component/SalaryMngWithAttandance.jsx:612-627 | A Present day takes the earliest timed Present record, and its status is derived from that record's minutes. When no Present record has a time, the source reads a field of `undefined`; the model returns None. |
| SalarySheet.ReduceDays | src/Component/SalaryMngWithAttandance.jsx:606 | One daily record per listed day, carrying that day's date. |
| SalarySheet.ReduceDayDate | src/Component/SalaryMngWithAttandance.jsx:609-634 | The reduced record carries its day's date. |
| SalarySheet.DailyRecordsDistinct | src/Component/SalaryMngWithAttandance.jsx:598-635 | One daily record per recorded day, with pairwise distinct dates. |
| SalarySheet.DistinctDaysCount | src/Component/SalaryMngWithAttandance.jsx:598-603 | The number of `byDate` groups is the number of recorded days. |
| SalarySheet.DailyCountsBound | src/Component/SalaryMngWithAttandance.jsx:638-643 | Present (including late and half days) plus absent days is at most the number of days; late and half counts are each at most present. |
| SalarySheet.MissingCountBound | src/Component/SalaryMngWithAttandance.jsx:645 | "Missing" is the working days minus the recorded days, unclamped, and at most 23. |
| SalarySheet.EmployeeSheet | src/Component/SalaryMngWithAttandance.jsx:158-201 | Definition of one employee's month sheet. GetEmployeeRecordsForMonth is proved equal to it; EmployeeSheetCovers and EmployeeSheetKeepsRecords characterise it. |
| SalarySheet.ReduceDay | src/Component/SalaryMngWithAttandance.jsx:606-635 | Definition of a day's reduction. ReduceDayPriority, ReducePresentDay and ReduceDayDate characterise it. |
| SalarySheet.DailyRecords | src/Component/SalaryMngWithAttandance.jsx:598-635 | Definition: group by day, then reduce each group. ReduceDays, DailyRecordsDistinct and DistinctDaysCount characterise it. |
| SalarySheet.PresentCount | src/Component/SalaryMngWithAttandance.jsx:638-640 | Definition: Present and Work From Home days plus late and half days. DailyCountsBound bounds it. |
| SalarySheet.MissingCount | src/Component/SalaryMngWithAttandance.jsx:645 | Definition: working days minus daily rows. MissingCountBound bounds it. |
| SalaryLeave.ComputeExtraLeave | src/Component/SalaryMngWithAttandance.jsx:68-76 | 5 to 31 late arrivals cost n / 5 days (k for 5k..5k+4, 6 for 30 and 31); fewer than 5 or more than 31 cost 0; never more than 6. |
| SalaryLeave.ExtraLeaveMonotone | src/Component/SalaryMngWithAttandance.jsx:68-76 | The penalty grows with the count up to 31, then drops from 6 to 0 at 32. |
| SalaryLeave.CalculateSandwichLeave | src/Component/SalaryMngWithAttandance.jsx:24-45 | The nested loops compute the sandwich total of the specification function. |
| SalaryLeave.ChargeBridges | src/Component/SalaryMngWithAttandance.jsx:27-43 | The outer loop adds to the leave-day count the bridge after every leave day but the last. |
| SalaryLeave.ChargeGap | src/Component/SalaryMngWithAttandance.jsx:31-42 | The inner loop adds the weekend or holiday days of a 1- or 2-day gap. |
| SalaryLeave.Bridge | src/Component/SalaryMngWithAttandance.jsx:31-42 | A gap adds at most 2 days, and adds something only when it is 1 or 2 days long. |
| SalaryLeave.SandwichBounds | src/Component/SalaryMngWithAttandance.jsx:24-45 | No leave days give 0; otherwise the total is between the number of leave days and three times it. |
| SalaryLeave.SandwichOnlyShortGaps | src/Component/SalaryMngWithAttandance.jsx:32 | Without gaps of 1 or 2 days, the total is exactly the number of leave days. |
| SalaryLeave.SandwichHolidaysMonotone | src/Component/SalaryMngWithAttandance.jsx:38 | Listing more public holidays never lowers the total. |
| SalaryLeave.BridgesMonotone | src/Component/SalaryMngWithAttandance.jsx:38 | For any order of leave days, every bridge and so their sum can only grow with the holiday list. |
| SalaryLeave.SandwichPair | src/Component/SalaryMngWithAttandance.jsx:26-43 | Two leave days, in either order, cost 2 plus their bridged gap days. |
| SalaryLeave.FridayAndMonday | src/Component/SalaryMngWithAttandance.jsx:24-45 | A Friday and the following Monday cost 4 days: the weekend is sandwiched. |
| SalaryLeave.ThursdayAndMonday | src/Component/SalaryMngWithAttandance.jsx:32 | A 3-day gap is never charged, so Thursday and Monday cost 2. |
| SalaryLeave.JuneExample | src/Component/SalaryMngWithAttandance.jsx:24-45 | Friday 7 June 2024 and Monday 10 June 2024 cost 4 days. |
| SalaryLeave.Chargeable | src/Component/SalaryMngWithAttandance.jsx:37-38 | Definition: a Saturday, a Sunday or a listed holiday. Bridge and ChargeGap count these days. |
| SalaryLeave.SandwichLeave | src/Component/SalaryMngWithAttandance.jsx:24-45 | Definition: leave days plus the bridges between consecutive sorted days. CalculateSandwichLeave is proved equal to it; SandwichBounds, SandwichOnlyShortGaps and SandwichHolidaysMonotone characterise it. |
| SalaryPay.FindEmployee | src/Component/SalaryMngWithAttandance.jsx:265 | `find` returns the first employee with the id, or None exactly when nobody has it. |
| SalaryPay.Dates | src/Component/SalaryMngWithAttandance.jsx:285-288 | The leave dates are the rows' dates, in order. |
| SalaryPay.EffectiveLeave | src/Component/SalaryMngWithAttandance.jsx:298 | Effective leave is never negative. |
| SalaryPay.Figures | src/Component/SalaryMngWithAttandance.jsx:285-297 | Definition of the four leave figures. SalaryFor states each of them; LeaveFiguresOf bounds them. |
| SalaryPay.Deduction | src/Component/SalaryMngWithAttandance.jsx:303-305 | Definition of the deduction. RemoteFullPay, LeaveDayCost, WholeMonthCost, DeductionNonNegative, DeductionMonotone and PayShareOfMonth characterise it. |
| SalaryPay.SalaryFor | src/Component/SalaryMngWithAttandance.jsx:271-320 | The receipt belongs to the employee and the month; full leave is the sandwich count of the Absent / No Record dates with no public holidays; the late and half-day counts are those of the sheet; effective leave is full leave + 0.5 × half days + `computeExtraLeave(late)`; the deduction is `Deduction` of that, and salary plus deduction is the base. |
| SalaryPay.CalculateSalary | src/Component/SalaryMngWithAttandance.jsx:263-270 | No selection, an unknown id and a "Myself" employee each stop the calculation; otherwise a receipt is made for that employee and month. |
| SalaryPay.LastIndexFor | src/Component/SalaryMngWithAttandance.jsx:333-339 | The index found is the last receipt for the month, or -1 when there is none. |
| SalaryPay.CheckSalaryExists | src/Component/SalaryMngWithAttandance.jsx:221-231 | The loop returns the last receipt for the month, or null exactly when none matches. |
| SalaryPay.Upsert | src/Component/SalaryMngWithAttandance.jsx:341-369 | An existing receipt for the month is overwritten in place at the same length; otherwise exactly one receipt is appended; every other receipt is untouched. |
| SalaryPay.UpsertThenCheck | src/Component/SalaryMngWithAttandance.jsx:221-231 | After confirming, looking up the month finds the confirmed, unsent receipt. |
| SalaryPay.UpsertIdempotent | src/Component/SalaryMngWithAttandance.jsx:323-369 | Confirming the same receipt twice leaves the table as confirming it once. |
| SalaryScreen.RemoteFullPay | src/Component/SalaryMngWithAttandance.jsx:303-306 | A Remote employee has no deduction and is paid the base salary. |
| SalaryScreen.PayShareOfMonth | src/Component/SalaryMngWithAttandance.jsx:303-306 | For a non-Remote employee, pay that with the deduction makes up the base (as `SalaryFor` ensures) is base × (1 − effective / days in month). |
| SalaryScreen.LeaveDayCost | src/Component/SalaryMngWithAttandance.jsx:305 | For non-Remote staff, each further day of effective leave costs exactly base / days-in-month. |
| SalaryScreen.WholeMonthCost | src/Component/SalaryMngWithAttandance.jsx:305 | A whole month of effective leave deducts exactly the base salary. |
| SalaryScreen.LeaveFiguresOf | src/Component/SalaryMngWithAttandance.jsx:285-298 | The receipt counts unapproved late arrivals and half days. Full leave is between the Absent / No Record rows and three times them. Effective leave is at least full days plus half of the half days. |
| SalaryScreen.PayAtMostBase | src/Component/SalaryMngWithAttandance.jsx:303-306 | With a non-negative base, the deduction is non-negative and pay never exceeds the base. |
| SalaryScreen.DeductionNonNegative | src/Component/SalaryMngWithAttandance.jsx:303-305 | The deduction is never negative. |
| SalaryScreen.DeductionMonotone | src/Component/SalaryMngWithAttandance.jsx:303-305 | More effective leave never lowers the deduction. |
| SalaryScreen.CalculationFor | src/Component/SalaryMngWithAttandance.jsx:263-298 | The early returns and the calculation agree with the salary specification. |
| SalaryScreen.SalaryScreen.HandleCalculateSalary | src/Component/SalaryMngWithAttandance.jsx:263-321 | Stores the effective leave, the salary and the receipt of the calculation; an early return changes nothing. |
| SalaryScreen.SalaryScreen.HandleConfirmSalary | src/Component/SalaryMngWithAttandance.jsx:323-371 | Without a selection or a receipt nothing changes; otherwise the employee's receipt table is upserted and the salary marked confirmed. |
| AttendanceMarking.WindowHours | src/Component/Attandance.jsx:105-109 | Marking is refused exactly between 03:00 and 10:59. |
| AttendanceMarking.MarkGuard | src/Component/Attandance.jsx:111-123 | Guards in order: window, then a selected employee (non-blank name and role, non-empty id), then a date not in the future. |
| AttendanceMarking.CreateStatus | src/Component/Attandance.jsx:124-136 | A weekend forces Off. On a weekday, Present at or after "20:00" (JS string order) without approval becomes Half Present, and every other selection is stored as selected. |
| AttendanceMarking.EditStatus | src/Component/Attandance.jsx:251-267 | A weekend forces Off. On a weekday, Holiday and Work From Home become Present, Present at or after "20:00" (JS string order) without approval becomes Half Present, and every other status is kept. |
| AttendanceMarking.CreateEditDiffer | src/Component/Attandance.jsx:124-136 | Create and edit finalise differently exactly on a weekday, for Holiday or Work From Home. |
| AttendanceMarking.CreateHalfPresent | src/Component/Attandance.jsx:131-132 | For an unapproved Present mark, Half Present means a weekday at 1200 minutes or later. |
| AttendanceMarking.EightPmThresholds | src/Component/Attandance.jsx:131 | At exactly "20:00" the marking screen says Half Present while the salary sheet says Late Arrival. |
| AttendanceMarking.FinaliseOnEdit | src/Component/Attandance.jsx:269-273 | The edited record keeps every field except the status, set by the edit rules, and the time, set to the modal's time. |
| AttendanceMarking.EligibleMembers | src/Component/Attandance.jsx:175-180 | Eligible for holiday marking: not Remote, not Myself, and no record on the date. |
| AttendanceMarking.HolidayRowsShape | src/Component/Attandance.jsx:185-206 | Each holiday row is for an eligible employee whose write succeeded: on the date, at the time, unapproved, Off on weekends and Present otherwise. |
| AttendanceMarking.HolidayRowsCover | src/Component/Attandance.jsx:196-205 | Each employee whose write succeeded now holds a record on the date, whatever happened to the others. |
| AttendanceMarking.HolidayRowsCount | src/Component/Attandance.jsx:185-206 | One row per successful write. |
| AttendanceMarking.WriteHolidayRecords | src/Component/Attandance.jsx:185-206 | The loop appends the holiday row of each eligible employee whose write succeeded, in order. |
| AttendanceMarking.HasRecordOnAppend | src/Component/Attandance.jsx:179 | An employee has a record on the date in an appended list exactly when one of the parts has it. |
| AttendanceMarking.HolidayLeavesNoneEligible | src/Component/Attandance.jsx:175-206 | When every write succeeds, nobody remains eligible afterwards. |
| AttendanceMarking.FilteredMembers | src/Component/Attandance.jsx:220-228 | A record is shown exactly when the name filter is blank or occurs case-insensitively in its name, and the status filter is "All" or equal. |
| AttendanceMarking.NoFilterShowsAll | src/Component/Attandance.jsx:220-228 | With no filters, every record is shown, in order. |
| AttendanceMarking.UpdateGuard | src/Component/Attandance.jsx:241-249 | An update proceeds exactly in the window with a record open whose name and role are not blank. |
| AttendanceMarking.InWindow | src/Component/Attandance.jsx:105-109 | Definition of `isWithinAttendanceWindow`. WindowHours characterises it. |
| AttendanceMarking.Eligible | src/Component/Attandance.jsx:175-180 | Definition of the eligible employees. EligibleMembers characterises it; HolidayLeavesNoneEligible states what holiday marking leaves. |
| AttendanceMarking.HolidayRecord | src/Component/Attandance.jsx:186-194 | Definition of one holiday row. HolidayRowsShape states its fields. |
| AttendanceMarking.HolidayRows | src/Component/Attandance.jsx:185-206 | Definition of the appended holiday rows. WriteHolidayRecords is proved equal to it; HolidayRowsShape, HolidayRowsCover and HolidayRowsCount characterise it. |
| AttendanceMarking.FilteredRecords | src/Component/Attandance.jsx:220-228 | Definition of the filtered table. FilteredMembers and NoFilterShowsAll characterise it. |
| AttendanceMarking.MarkSheet.MarkAttendance | src/Component/Attandance.jsx:111-162 | When the guards pass and the write succeeds, exactly one finalised record is appended and the id, name, role and approval are reset; otherwise nothing changes. |
| AttendanceMarking.MarkSheet.MarkHolidayAttendanceForAll | src/Component/Attandance.jsx:164-209 | Refused without "Yes", outside the window or with nobody eligible; otherwise appends the successful holiday rows, then closes the modal and resets the option. |
| AttendanceMarking.MarkSheet.OpenEditModal | src/Component/Attandance.jsx:230-239 | Opens the modal on the record, with its time, exactly when the employee has a record on the date; otherwise changes nothing. |
| AttendanceMarking.MarkSheet.UpdateRecord | src/Component/Attandance.jsx:241-283 | On success, only entries with the edited record's id are replaced by the finalised record, and the modal closes; otherwise nothing changes. |
| AttendanceSummary.TimeToMinValues | src/Component/AttendanceSummary.jsx:47-51 | An empty time is 0; an `HH:MM` time is its minutes; "-" is NaN. |
| AttendanceSummary.WorkingDays | src/Component/AttendanceSummary.jsx:53-62 | The loop counts the month's weekdays, which are between 20 and 23. |
| AttendanceSummary.MissingDetailRows | src/Component/AttendanceSummary.jsx:81-94 | The loop pushes exactly the id-less synthetic rows of the unrecorded days. |
| AttendanceSummary.GetDetail | src/Component/AttendanceSummary.jsx:70-98 | The method builds the unreclassified month sheet of the employee's records. |
| AttendanceSummary.DetailSheet | src/Component/AttendanceSummary.jsx:70-98 | The detail sheet is sorted and keeps the records unchanged; an unrecorded day has exactly one "Off" / "No Record" row. |
| AttendanceSummary.SummaryStatus | src/Component/AttendanceSummary.jsx:225-234 | Work From Home, then Present, then Absent, else "No Record", each exactly when the higher ones are absent. |
| AttendanceSummary.Entries | src/Component/AttendanceSummary.jsx:223-241 | One entry per day, with that day's status and late flag. |
| AttendanceSummary.CardRecordsMembers | src/Component/AttendanceSummary.jsx:64-68 | A card counts exactly the employee's records in the active month. |
| AttendanceSummary.DailyOnePerDay | src/Component/AttendanceSummary.jsx:212-241 | One entry per recorded day, with distinct days that cover all recorded days. |
| AttendanceSummary.CardBounds | src/Component/AttendanceSummary.jsx:244-249 | Late is at most present; present plus absent is at most the recorded days; missing is working days minus recorded days, unclamped. |
| AttendanceSummary.LateCountBound | src/Component/AttendanceSummary.jsx:237-246 | Late days are only counted on present days, so late never exceeds present. |
| AttendanceSummary.MissingNonNegative | src/Component/AttendanceSummary.jsx:249 | Missing goes negative only through records on weekends. |
| AttendanceSummary.WeekdaysFitMonth | src/Component/AttendanceSummary.jsx:249 | A set of weekday dates of the month is no larger than its working days. |
| AttendanceSummary.TimeToMin | src/Component/AttendanceSummary.jsx:47-51 | Definition of `timeToMin`. TimeToMinValues characterises it. |
| AttendanceSummary.LateRecord | src/Component/AttendanceSummary.jsx:238 | Definition: unapproved and later than 1030 minutes. Entries carries it as each day's late flag. |
| AttendanceSummary.CardRecords | src/Component/AttendanceSummary.jsx:64-68 | Definition of the month's records of one employee. CardRecordsMembers characterises it. |
| AttendanceSummary.Daily | src/Component/AttendanceSummary.jsx:212-241 | Definition of the daily entries. Entries and DailyOnePerDay characterise it. |
| AttendanceSummary.CardOf | src/Component/AttendanceSummary.jsx:243-249 | Definition of the card figures. CardBounds, LateCountBound and MissingNonNegative bound them. |
| Dashboard.MonthRecordsMembers | src/Pages/Dashboard.jsx:37-44 | Exactly the records of the current month and year are counted. |
| Dashboard.LateAndAbsentBound | src/Pages/Dashboard.jsx:47-57 | Late arrivals and absences are disjoint, so together they are at most the month's records. |
| Dashboard.LateByMinutes | src/Pages/Dashboard.jsx:47-52 | For an `HH:MM` time, a late arrival is an unapproved Present record after 1030 minutes. |
| Dashboard.LateCountByMinutes | src/Pages/Dashboard.jsx:47-52 | When all times are `HH:MM`, the late figure counts unapproved Present records after 5:10 PM. |
| Dashboard.MonthRecords | src/Pages/Dashboard.jsx:37-44 | Definition of this month's records. MonthRecordsMembers characterises it. |
| Dashboard.IsLateArrival | src/Pages/Dashboard.jsx:47-52 | Definition of a late arrival. LateByMinutes restates it in minutes. |
| Dashboard.FetchMetrics | src/Pages/Dashboard.jsx:37-58 | Definition of `fetchMetrics`' three figures. LateAndAbsentBound bounds them, and LateCountByMinutes gives the late count in minutes. |
| Credentials.InitialFormIncomplete | src/Component/EmployeeCredentialsPage.jsx:17-25 | The reset form has no id and would be rejected by validation. |
| Credentials.ReplaceById | src/Component/EmployeeCredentialsPage.jsx:77-81 | Replacement keeps the length and every other entry, and puts the form at the entries with its id. |
| Credentials.ReplaceByIdIdempotent | src/Component/EmployeeCredentialsPage.jsx:77-81 | Submitting the same edit twice has the effect of submitting it once. |
| Credentials.AppendNew | src/Component/EmployeeCredentialsPage.jsx:82-84 | Appending keeps the prior entries and adds exactly one, the form under the new id. |
| Credentials.DeleteMembers | src/Component/EmployeeCredentialsPage.jsx:92-97 | Deleting keeps exactly the entries with another id. |
| Credentials.DeleteAbsent | src/Component/EmployeeCredentialsPage.jsx:96 | Deleting an id that no entry carries changes nothing. |
| Credentials.AppendThenDelete | src/Component/EmployeeCredentialsPage.jsx:82-97 | Deleting the entry just added under a fresh id restores the table. |
| Credentials.CredentialsPage.OpenModal | src/Component/EmployeeCredentialsPage.jsx:59-62 | The form holds the chosen entry, or the initial form for a new one. |
| Credentials.CredentialsPage.CloseModal | src/Component/EmployeeCredentialsPage.jsx:63-66 | Closing hides the form and resets it to the initial form. |
| Credentials.CredentialsPage.HandleSubmit | src/Component/EmployeeCredentialsPage.jsx:70-90 | An empty field or a failed write changes nothing. With an id, the entry with that id is replaced; without one, one entry is appended under the new id. Then the form closes and resets. |
| Credentials.CredentialsPage.HandleDelete | src/Component/EmployeeCredentialsPage.jsx:92-101 | After confirmation and a successful delete, the entries with the id are dropped and the view closes; otherwise nothing changes. |
| Credentials.CredentialsPage.HandleView | src/Component/EmployeeCredentialsPage.jsx:103-111 | The entry is shown exactly when the code is "9899"; otherwise nothing changes. |
| Credentials.ExportAllowed | src/Component/EmployeeCredentialsPage.jsx:117-123 | Export proceeds exactly when the code is "9899". |
| Credentials.Complete | src/Component/EmployeeCredentialsPage.jsx:73-75 | Definition of the "fill all fields" test. InitialFormIncomplete shows the reset form fails it. |
| Credentials.DeleteById | src/Component/EmployeeCredentialsPage.jsx:96 | Definition of the delete filter. DeleteMembers, DeleteAbsent and AppendThenDelete characterise it. |

## Left out

- PDF generation (receipts, monthly reports, the credentials export table) is rendering through a library outside this model.
- Store access (Firestore reads, writes, queries, timestamps such as `createdAt`) is not modelled. The store is the screen's in-memory list, a write's success is a boolean parameter, and a new document id is a string parameter.
- React rendering, CSS choices, `alert`, `confirm` and `prompt` are not modelled. Dialog answers are parameters (`confirmed`, `code`), and refusals are outcome values.
- Authentication, routing and the layouts are outside the modelled screens.
- JavaScript `Date` parsing and time zones are not modelled:
  - dates are `(year, month, day)` triples with a closed-form Gregorian weekday;
  - the month filters compare year and month directly;
  - the non-slash branch of `normalizeDate` (`toISOString`) is None;
  - the `${year}-${month}-${day}` strings built for weekday tests are taken to mean the day they name.
- Sorting by `new Date(...)` and `.sort()` on `YYYY-MM-DD` keys are modelled as chronological order: a stable sort by day number. Ties keep the input order, which a JS engine's sort also does.
- The "YYYY-MM" month text and its `split("-").map(Number)` are a `Month` value, and an ill-formed month string is not modelled.
- `toFixed(2)` formatting of the receipt, and the display-only recomputation of the deduction, are not modelled. Money is an exact `real`.
- `openSalaryModal`, `closeSalaryModal`, `handleEmployeeSelect`, `handleEditChange` and the other field setters only copy values into state; they are not modelled.
- SalaryScreen.SalaryScreen.HandleConfirmSalary: a failed store write (the `catch`) is not modelled; the receipt is always stored.
- AttendanceMarking.MarkSheet.MarkHolidayAttendanceForAll: the per-employee `setAttendance(prev => [...prev, row])` calls are one append of all successful rows in loop order. That is the same final list.
- AttendanceMarking.MarkSheet.UpdateRecord: with no record open, the source throws a TypeError reading `editRecord.name`; the model reports `NothingOpen` and changes nothing.
- `String.prototype.trim`, and the whitespace `Number` skips, are modelled for the usual JS whitespace characters, not the full Unicode space separator class. `toLowerCase` is modelled for ASCII letters only.
- SalarySheet.Earliest: readings that are not `HH:MM` (NaN in JS) make the comparator inconsistent; the model orders them after every parsable time.
- Text.JsNumber: only integer numerals are read. `Number` also accepts fractions ("5.5"), exponents ("1e2"), radix prefixes ("0x10", "0b1", "0o7") and "Infinity"; the model reads these as NaN. A check-in time in one of those forms is then left unreclassified.
- Salary arithmetic is stated through `Deduction` (base / days × effective leave) rather than by evaluating concrete receipts; no floating-point rounding is modelled.
- AttendanceSummary.WorkingDays: the count is of weekdays of the `Month` value; parsing the active-month string is not modelled.

## Where the code and its messages differ

- The marking window accepts hours from 11:00 through 02:59 (`hour >= 11 || hour < 3`). The alert text says 17:00 to 02:00. The model follows the code.
- More than 31 unapproved late arrivals carry no penalty: `computeExtraLeave` returns 0 above 31. The model keeps this (`SalaryLeave.ExtraLeaveMonotone`).
- The Half Present threshold differs between screens. Marking uses `time >= "20:00"`. The salary sheet uses `minutes > 1200`, so "20:00" is Half Present on one screen and Late Arrival on the other (`AttendanceMarking.EightPmThresholds`).
- The salary sheet does not collapse several records on the same day. The one-row-per-day length (`Records.SheetLength`) holds only when the records have distinct dates.
