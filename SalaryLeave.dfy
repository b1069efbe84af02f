/**
 * The two leave rules of the salary screen: the late-arrival penalty table and the
 * sandwich-leave counter, which charges the weekend or holiday days lying in a gap of one or
 * two days between consecutive full-leave days.
 */
module SalaryLeave {
  import opened Calendar
  import opened Sorting

  // ---------------------------------------------------------------------------
  // Late-arrival penalty
  // ---------------------------------------------------------------------------

  /**
   * `computeExtraLeave`: one day of leave for every five unapproved late arrivals, up to six
   * for 30 or 31; fewer than five, and anything above 31, cost nothing.
   */
  function ComputeExtraLeave(lateArrivalCount: nat): (k: nat)
    ensures k <= 6
    ensures 5 <= lateArrivalCount <= 31 ==> k == lateArrivalCount / 5
    ensures lateArrivalCount < 5 || lateArrivalCount > 31 ==> k == 0
  {
    var n := lateArrivalCount;
    if 5 <= n <= 9 then 1
    else if 10 <= n <= 14 then 2
    else if 15 <= n <= 19 then 3
    else if 20 <= n <= 24 then 4
    else if 25 <= n <= 29 then 5
    else if 30 <= n <= 31 then 6
    else 0
  }

  /** Within the table the penalty never falls as late arrivals grow; past 31 it drops to 0. */
  lemma ExtraLeaveMonotone(a: nat, b: nat)
    requires a <= b <= 31
    ensures ComputeExtraLeave(a) <= ComputeExtraLeave(b)
    ensures ComputeExtraLeave(31) == 6 && ComputeExtraLeave(32) == 0
  {
    assert a / 5 <= b / 5;
  }

  // ---------------------------------------------------------------------------
  // Sandwich leave
  // ---------------------------------------------------------------------------

  /** A day in a gap is charged when it is a Saturday, a Sunday or a listed holiday. */
  predicate Chargeable(d: CalendarDay, publicHolidays: seq<string>)
  {
    IsWeekend(d) || FormatYMD(d) in publicHolidays
  }

  /** The chargeable days among the `j` days that follow `a`. */
  function ChargeableAfter(a: CalendarDay, j: nat, publicHolidays: seq<string>): (n: nat)
    ensures n <= j
  {
    if j == 0 then 0
    else ChargeableAfter(a, j - 1, publicHolidays) + if Chargeable(AddDays(a, j), publicHolidays) then 1 else 0
  }

  /** The number of whole days strictly between `a` and `b`. */
  function Gap(a: CalendarDay, b: CalendarDay): int
  {
    DayNumber(b) - DayNumber(a) - 1
  }

  /** What two consecutive leave days add: the chargeable days of a gap of one or two days. */
  function Bridge(a: CalendarDay, b: CalendarDay, publicHolidays: seq<string>): (n: nat)
    ensures n <= 2
    ensures n > 0 ==> 1 <= Gap(a, b) <= 2
  {
    var g := Gap(a, b);
    if 1 <= g <= 2 then ChargeableAfter(a, g, publicHolidays) else 0
  }

  /** The bridge after each leave day but the last, in the order given. */
  function BridgeValues(sorted: seq<CalendarDay>, publicHolidays: seq<string>): seq<nat>
    requires |sorted| > 0
  {
    seq(|sorted| - 1, k requires 0 <= k < |sorted| - 1 => Bridge(sorted[k], sorted[k + 1], publicHolidays))
  }

  function Sum(s: seq<nat>): nat
  {
    if s == [] then 0 else Sum(s[..|s| - 1]) + s[|s| - 1]
  }

  /** The leave days in chronological order. */
  function Chronological(days: seq<CalendarDay>): seq<CalendarDay>
  {
    SortBy(days, DayNumber)
  }

  /** The total `calculateSandwichLeave` returns: the leave days plus every bridge. */
  function SandwichLeave(appliedLeaveDays: seq<CalendarDay>, publicHolidays: seq<string>): nat
  {
    if |appliedLeaveDays| == 0 then 0
    else
      var sorted := Chronological(appliedLeaveDays);
      |sorted| + Sum(BridgeValues(sorted, publicHolidays))
  }

  /** `calculateSandwichLeave`: sorts the leave days, then charges each one and every bridge. */
  method CalculateSandwichLeave(appliedLeaveDays: seq<CalendarDay>, publicHolidays: seq<string>) returns (totalDeducted: nat)
    ensures totalDeducted == SandwichLeave(appliedLeaveDays, publicHolidays)
  {
    if |appliedLeaveDays| == 0 {
      return 0;
    }
    var sortedLeaveDays := Chronological(appliedLeaveDays);
    ghost var bridges := BridgeValues(sortedLeaveDays, publicHolidays);
    totalDeducted := ChargeBridges(sortedLeaveDays, publicHolidays, |sortedLeaveDays|, bridges);
  }

  /**
   * The outer loop of `calculateSandwichLeave`: adds to `start` the bridge after each leave
   * day but the last; `bridges` names those bridges.
   */
  method ChargeBridges(sorted: seq<CalendarDay>, publicHolidays: seq<string>, start: nat, ghost bridges: seq<nat>)
    returns (totalDeducted: nat)
    requires |sorted| > 0 && |bridges| == |sorted| - 1
    requires forall k :: 0 <= k < |bridges| ==> bridges[k] == Bridge(sorted[k], sorted[k + 1], publicHolidays)
    ensures totalDeducted == start + Sum(bridges)
  {
    totalDeducted := start;
    var i := 0;
    while i < |sorted| - 1
      invariant 0 <= i <= |bridges|
      invariant totalDeducted == start + Sum(bridges[..i])
    {
      var added := ChargeGap(sorted[i], sorted[i + 1], publicHolidays);
      assert bridges[..i + 1][..i] == bridges[..i];
      totalDeducted := totalDeducted + added;
      i := i + 1;
    }
    assert bridges[..i] == bridges;
  }

  /** The inner loop of `calculateSandwichLeave`: the charged days between `current` and `next`. */
  method ChargeGap(current: CalendarDay, next: CalendarDay, publicHolidays: seq<string>) returns (added: nat)
    ensures added == Bridge(current, next, publicHolidays)
  {
    added := 0;
    var gapDays := Gap(current, next);
    if gapDays > 0 && gapDays <= 2 {
      var j := 1;
      while j <= gapDays
        invariant 1 <= j <= gapDays + 1
        invariant added == ChargeableAfter(current, j - 1, publicHolidays)
      {
        var gapDate := AddDays(current, j);
        if Chargeable(gapDate, publicHolidays) {
          added := added + 1;
        }
        j := j + 1;
      }
    }
  }

  /** A sum of terms each at most `c` is at most `c` times their number. */
  lemma {:induction false} SumBound(s: seq<nat>, c: nat)
    requires forall k :: 0 <= k < |s| ==> s[k] <= c
    ensures Sum(s) <= c * |s|
  {
    if s != [] {
      SumBound(s[..|s| - 1], c);
    }
  }

  /** Termwise smaller terms have a smaller sum; termwise equal ones, the same sum. */
  lemma {:induction false} SumMonotone(s: seq<nat>, t: seq<nat>)
    requires |s| == |t| && forall k :: 0 <= k < |s| ==> s[k] <= t[k]
    ensures Sum(s) <= Sum(t)
  {
    if s != [] {
      SumMonotone(s[..|s| - 1], t[..|t| - 1]);
    }
  }

  lemma {:induction false} SumZero(s: seq<nat>)
    requires forall k :: 0 <= k < |s| ==> s[k] == 0
    ensures Sum(s) == 0
  {
    if s != [] {
      SumZero(s[..|s| - 1]);
    }
  }

  /** Every leave day is charged, and each one adds at most the two days of the gap after it. */
  lemma SandwichBounds(appliedLeaveDays: seq<CalendarDay>, publicHolidays: seq<string>)
    ensures |appliedLeaveDays| <= SandwichLeave(appliedLeaveDays, publicHolidays)
    ensures SandwichLeave(appliedLeaveDays, publicHolidays) <= 3 * |appliedLeaveDays|
    ensures |appliedLeaveDays| == 0 ==> SandwichLeave(appliedLeaveDays, publicHolidays) == 0
  {
    if |appliedLeaveDays| > 0 {
      var sorted := Chronological(appliedLeaveDays);
      SumBound(BridgeValues(sorted, publicHolidays), 2);
    }
  }

  /**
   * Only gaps of one or two days add anything: when no two leave days are two or three days
   * apart, the total is just the number of leave days, whatever the holidays.
   */
  lemma SandwichOnlyShortGaps(appliedLeaveDays: seq<CalendarDay>, publicHolidays: seq<string>)
    requires forall i, j :: 0 <= i < |appliedLeaveDays| && 0 <= j < |appliedLeaveDays| ==>
      DayNumber(appliedLeaveDays[j]) - DayNumber(appliedLeaveDays[i]) != 2
      && DayNumber(appliedLeaveDays[j]) - DayNumber(appliedLeaveDays[i]) != 3
    ensures SandwichLeave(appliedLeaveDays, publicHolidays) == |appliedLeaveDays|
  {
    if |appliedLeaveDays| > 0 {
      var sorted := Chronological(appliedLeaveDays);
      NoShortGaps(appliedLeaveDays, sorted);
      var bridges := BridgeValues(sorted, publicHolidays);
      forall k | 0 <= k < |bridges|
        ensures bridges[k] == 0
      {
        assert !(1 <= Gap(sorted[k], sorted[k + 1]) <= 2);
      }
      SumZero(bridges);
    }
  }

  /** A reordering of days no two of which are two or three days apart has no gap of one or two days. */
  lemma NoShortGaps(days: seq<CalendarDay>, sorted: seq<CalendarDay>)
    requires multiset(sorted) == multiset(days)
    requires forall i, j :: 0 <= i < |days| && 0 <= j < |days| ==>
      DayNumber(days[j]) - DayNumber(days[i]) != 2 && DayNumber(days[j]) - DayNumber(days[i]) != 3
    ensures forall k :: 0 <= k < |sorted| - 1 ==> !(1 <= Gap(sorted[k], sorted[k + 1]) <= 2)
  {
    forall k | 0 <= k < |sorted| - 1
      ensures !(1 <= Gap(sorted[k], sorted[k + 1]) <= 2)
    {
      assert sorted[k] in multiset(days) && sorted[k + 1] in multiset(days);
      var i :| 0 <= i < |days| && days[i] == sorted[k];
      var j :| 0 <= j < |days| && days[j] == sorted[k + 1];
    }
  }

  lemma {:induction false} ChargeableAfterMonotone(a: CalendarDay, j: nat, h: seq<string>, h': seq<string>)
    requires forall s :: s in h ==> s in h'
    ensures ChargeableAfter(a, j, h) <= ChargeableAfter(a, j, h')
  {
    if j > 0 {
      ChargeableAfterMonotone(a, j - 1, h, h');
      var d := AddDays(a, j);
      assert Chargeable(d, h) ==> Chargeable(d, h') by {
        if FormatYMD(d) in h { assert FormatYMD(d) in h'; }
      }
    }
  }

  /** Listing more public holidays never lowers the total. */
  lemma SandwichHolidaysMonotone(appliedLeaveDays: seq<CalendarDay>, h: seq<string>, h': seq<string>)
    requires forall s :: s in h ==> s in h'
    ensures SandwichLeave(appliedLeaveDays, h) <= SandwichLeave(appliedLeaveDays, h')
  {
    if |appliedLeaveDays| > 0 {
      BridgesMonotone(Chronological(appliedLeaveDays), h, h');
    }
  }

  /** Each bridge, and so their sum, can only grow with the holiday list. */
  lemma BridgesMonotone(sorted: seq<CalendarDay>, h: seq<string>, h': seq<string>)
    requires |sorted| > 0
    requires forall s :: s in h ==> s in h'
    ensures Sum(BridgeValues(sorted, h)) <= Sum(BridgeValues(sorted, h'))
  {
    var b, b' := BridgeValues(sorted, h), BridgeValues(sorted, h');
    forall k | 0 <= k < |b|
      ensures b[k] <= b'[k]
    {
      var g := Gap(sorted[k], sorted[k + 1]);
      if 1 <= g <= 2 {
        ChargeableAfterMonotone(sorted[k], g, h, h');
      }
    }
    SumMonotone(b, b');
  }

  /** Two days in either order come out earlier first. */
  lemma ChronologicalPair(a: CalendarDay, b: CalendarDay)
    requires DayNumber(a) < DayNumber(b)
    ensures Chronological([a, b]) == [a, b] && Chronological([b, a]) == [a, b]
  {
    assert [a, b][1..] == [b] && [b, a][1..] == [a];
    assert Chronological([b]) == [b] && Chronological([a]) == [a];
  }

  /** A pair of leave days is charged twice plus the bridge between them, in either order. */
  lemma SandwichPair(a: CalendarDay, b: CalendarDay, publicHolidays: seq<string>)
    requires DayNumber(a) < DayNumber(b)
    ensures SandwichLeave([a, b], publicHolidays) == 2 + Bridge(a, b, publicHolidays)
    ensures SandwichLeave([b, a], publicHolidays) == 2 + Bridge(a, b, publicHolidays)
  {
    ChronologicalPair(a, b);
    var bridges := BridgeValues([a, b], publicHolidays);
    assert bridges == [Bridge(a, b, publicHolidays)];
    assert Sum(bridges) == Sum([]) + Bridge(a, b, publicHolidays);
  }

  /** The two days after a Friday are Saturday and Sunday. */
  lemma FridayWeekend(fri: CalendarDay, d: CalendarDay)
    requires DayOfWeek(fri) == 5
    requires DayNumber(d) == DayNumber(fri) + 1 || DayNumber(d) == DayNumber(fri) + 2
    ensures IsWeekend(d)
  {
    var n := DayNumber(fri) + 1;
    assert n % 7 == 5;
    assert (n + 1) % 7 == 6 && (n + 2) % 7 == 0;
  }

  /**
   * The policy's rule: leave on a Friday and the following Monday charges the weekend as
   * well, four days in all, whichever order the two days are listed in.
   */
  lemma FridayAndMonday(fri: CalendarDay, mon: CalendarDay)
    requires DayOfWeek(fri) == 5 && DayNumber(mon) == DayNumber(fri) + 3
    ensures SandwichLeave([fri, mon], []) == 4 && SandwichLeave([mon, fri], []) == 4
  {
    SandwichPair(fri, mon, []);
    FridayWeekend(fri, AddDays(fri, 1));
    FridayWeekend(fri, AddDays(fri, 2));
    assert ChargeableAfter(fri, 1, []) == 1;
  }

  /** A Thursday and the following Monday leave a three-day gap, which charges nothing. */
  lemma ThursdayAndMonday(thu: CalendarDay, mon: CalendarDay, publicHolidays: seq<string>)
    requires DayNumber(mon) == DayNumber(thu) + 4
    ensures SandwichLeave([thu, mon], publicHolidays) == 2
  {
    SandwichPair(thu, mon, publicHolidays);
  }

  /** The example of the payslip's policy text: Friday 7 and Monday 10 June 2024. */
  lemma JuneExample(fri: CalendarDay, mon: CalendarDay)
    requires fri == Date(2024, 6, 7) && mon == Date(2024, 6, 10)
    ensures SandwichLeave([fri, mon], []) == 4
  {
    KnownWeekdays(fri);
    SameMonthOrder(fri, mon);
    FridayAndMonday(fri, mon);
  }
}
