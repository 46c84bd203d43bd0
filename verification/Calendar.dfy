/**
 Calendar dates and their arithmetic.  Date.UTC reads the years 0 to 99 as 1900 to 1999, so a bank
 date lies in the years 100 to 9999, and a shift that lands below year 100 either fails or goes astray.
 */
module Calendar {
  import opened Outcomes

  datatype Date = Date(year: int, month: int, day: int)

  predicate Leap(year: int) {
    year % 4 == 0 && (year % 100 != 0 || year % 400 == 0)
  }

  function MonthLength(year: int, month: int): (n: nat)
    ensures 28 <= n <= 31
  {
    if month == 2 then if Leap(year) then 29 else 28
    else if month == 4 || month == 6 || month == 9 || month == 11 then 30
    else 31
  }

  predicate IsDate(d: Date) {
    1 <= d.month <= 12 && 1 <= d.day <= MonthLength(d.year, d.month)
  }

  /** What parseBankDate accepts. */
  predicate IsBankDate(d: Date) {
    100 <= d.year <= 9999 && IsDate(d)
  }

  /** The order of the ISO texts. */
  predicate Before(a: Date, b: Date) {
    a.year < b.year || (a.year == b.year && (a.month < b.month || (a.month == b.month && a.day < b.day)))
  }

  predicate AtMost(a: Date, b: Date) {
    a == b || Before(a, b)
  }

  // ---- counting days ----

  function YearLength(year: int): nat {
    if Leap(year) then 366 else 365
  }

  function DaysBeforeYear(year: nat): nat {
    if year == 0 then 0 else DaysBeforeYear(year - 1) + YearLength(year - 1)
  }

  function DaysBeforeMonth(year: int, month: nat): nat {
    if month <= 1 then 0 else DaysBeforeMonth(year, month - 1) + MonthLength(year, month - 1)
  }

  /** Days since the start of year 0. */
  function DayNumber(d: Date): nat
    requires d.year >= 0 && IsDate(d)
  {
    DaysBeforeYear(d.year) + DaysBeforeMonth(d.year, d.month) + d.day - 1
  }

  lemma TwelveMonths(year: int)
    ensures DaysBeforeMonth(year, 12) + MonthLength(year, 12) == YearLength(year)
  {
    var feb := 31 + MonthLength(year, 2);
    assert DaysBeforeMonth(year, 2) == 31;
    assert DaysBeforeMonth(year, 3) == feb;
    assert DaysBeforeMonth(year, 4) == feb + 31;
    assert DaysBeforeMonth(year, 5) == feb + 61;
    assert DaysBeforeMonth(year, 6) == feb + 92;
    assert DaysBeforeMonth(year, 7) == feb + 122;
    assert DaysBeforeMonth(year, 8) == feb + 153;
    assert DaysBeforeMonth(year, 9) == feb + 184;
    assert DaysBeforeMonth(year, 10) == feb + 214;
    assert DaysBeforeMonth(year, 11) == feb + 245;
  }

  lemma {:induction false} MonthsGrow(year: int, a: nat, b: nat)
    requires 1 <= a < b
    ensures DaysBeforeMonth(year, a) + MonthLength(year, a) <= DaysBeforeMonth(year, b)
  {
    if a < b - 1 {
      MonthsGrow(year, a, b - 1);
    }
  }

  lemma {:induction false} YearsGrow(a: nat, b: nat)
    requires a < b
    ensures DaysBeforeYear(a) + YearLength(a) <= DaysBeforeYear(b)
  {
    if a < b - 1 {
      YearsGrow(a, b - 1);
    }
  }

  lemma WithinYear(d: Date)
    requires IsDate(d)
    ensures DaysBeforeMonth(d.year, d.month) + d.day <= YearLength(d.year)
  {
    TwelveMonths(d.year);
    if d.month < 12 {
      MonthsGrow(d.year, d.month, 12);
    }
  }

  lemma EarlierHasSmallerNumber(a: Date, b: Date)
    requires a.year >= 0 && IsDate(a) && b.year >= 0 && IsDate(b) && Before(a, b)
    ensures DayNumber(a) < DayNumber(b)
  {
    WithinYear(a);
    if a.year < b.year {
      YearsGrow(a.year, b.year);
    } else if a.month < b.month {
      MonthsGrow(a.year, a.month, b.month);
    }
  }

  /** Day numbers order dates as their texts do. */
  lemma NumbersFollowOrder(a: Date, b: Date)
    requires a.year >= 0 && IsDate(a) && b.year >= 0 && IsDate(b)
    ensures DayNumber(a) < DayNumber(b) <==> Before(a, b)
    ensures DayNumber(a) == DayNumber(b) <==> a == b
  {
    if Before(a, b) {
      EarlierHasSmallerNumber(a, b);
    } else if Before(b, a) {
      EarlierHasSmallerNumber(b, a);
    }
  }

  // ---- adding days ----

  function NextDay(d: Date): Date {
    if d.day < MonthLength(d.year, d.month) then d.(day := d.day + 1)
    else if d.month < 12 then Date(d.year, d.month + 1, 1)
    else Date(d.year + 1, 1, 1)
  }

  function PreviousDay(d: Date): Date {
    if d.day > 1 then d.(day := d.day - 1)
    else if d.month > 1 then Date(d.year, d.month - 1, MonthLength(d.year, d.month - 1))
    else Date(d.year - 1, 12, MonthLength(d.year - 1, 12))
  }

  lemma NextDayCounts(d: Date)
    requires d.year >= 0 && IsDate(d)
    ensures IsDate(NextDay(d)) && NextDay(d).year >= 0 && DayNumber(NextDay(d)) == DayNumber(d) + 1
  {
    TwelveMonths(d.year);
  }

  lemma PreviousDayCounts(d: Date)
    requires d.year >= 1 && IsDate(d)
    ensures IsDate(PreviousDay(d)) && DayNumber(PreviousDay(d)) == DayNumber(d) - 1
  {
    TwelveMonths(d.year - 1);
  }

  /** addDays: the instant moves by whole days and must print as a bank date again. */
  function AddDays(d: Date, n: int): Option<Date>
    requires IsBankDate(d)
    decreases if n < 0 then 0 - n else n
  {
    if n == 0 then Some(d)
    else
      NextDayCounts(d);
      PreviousDayCounts(d);
      var next := if n > 0 then NextDay(d) else PreviousDay(d);
      if !IsBankDate(next) then None else AddDays(next, if n > 0 then n - 1 else n + 1)
  }

  /** The sum is the bank date with that day number, if there is one. */
  lemma {:induction false} AddDaysIsExact(d: Date, n: int, e: Date)
    requires IsBankDate(d) && IsBankDate(e)
    ensures AddDays(d, n) == Some(e) <==> DayNumber(e) == DayNumber(d) + n
    decreases if n < 0 then 0 - n else n
  {
    NumbersFollowOrder(d, e);
    if n > 0 {
      NextDayCounts(d);
      if IsBankDate(NextDay(d)) {
        AddDaysIsExact(NextDay(d), n - 1, e);
      } else {
        assert d.year == 9999;
        NumbersFollowOrder(e, NextDay(d));
      }
    } else if n < 0 {
      PreviousDayCounts(d);
      if IsBankDate(PreviousDay(d)) {
        AddDaysIsExact(PreviousDay(d), n + 1, e);
      } else {
        NumbersFollowOrder(PreviousDay(d), e);
      }
    }
  }

  lemma {:induction false} AddDaysIsBankDate(d: Date, n: int)
    requires IsBankDate(d) && AddDays(d, n).Some?
    ensures IsBankDate(AddDays(d, n).value)
    decreases if n < 0 then 0 - n else n
  {
    if n > 0 {
      NextDayCounts(d);
      AddDaysIsBankDate(NextDay(d), n - 1);
    } else if n < 0 {
      PreviousDayCounts(d);
      AddDaysIsBankDate(PreviousDay(d), n + 1);
    }
  }

  // ---- shifting months and years ----

  /** How Date.UTC reads a year. */
  function UtcYear(year: int): int {
    if 0 <= year <= 99 then 1900 + year else year
  }

  function Min(a: int, b: int): int {
    if a < b then a else b
  }

  /** bankDateAt(Date.UTC(year, month - 1, min(day, last day))). */
  function ClampedDate(year: int, month: int, day: int): Option<Date> {
    var y := UtcYear(year);
    if 100 <= y <= 9999 then Some(Date(y, month, Min(day, MonthLength(y, month)))) else None
  }

  function MonthIndex(d: Date): int {
    d.year * 12 + d.month - 1
  }

  function ShiftMonth(d: Date, months: int): Option<Date> {
    var index := MonthIndex(d) + months;
    ClampedDate(index / 12, index % 12 + 1, d.day)
  }

  function ShiftYear(d: Date, years: int): Option<Date> {
    ClampedDate(d.year + years, d.month, d.day)
  }

  /** The date `months` later with the day clamped to the month's end. */
  predicate IsShift(d: Date, months: int, e: Date) {
    IsBankDate(e) && MonthIndex(e) == MonthIndex(d) + months && e.day == Min(d.day, MonthLength(e.year, e.month))
  }

  lemma YearShiftIsTwelveMonths(d: Date, years: int)
    requires IsBankDate(d)
    ensures ShiftYear(d, years) == ShiftMonth(d, 12 * years)
  {
    var index := MonthIndex(d) + 12 * years;
    assert index == (d.year + years) * 12 + (d.month - 1);
    assert index / 12 == d.year + years && index % 12 == d.month - 1;
  }

  /** A shift is right exactly when its target month lies in a year that Date.UTC reads as written. */
  lemma ShiftIsRightExactly(d: Date, months: int)
    requires IsBankDate(d)
    ensures (ShiftMonth(d, months).Some? && IsShift(d, months, ShiftMonth(d, months).value)) <==>
            1200 <= MonthIndex(d) + months < 120_000
    ensures 0 <= MonthIndex(d) + months < 1200 ==>
              ShiftMonth(d, months).Some? && MonthIndex(ShiftMonth(d, months).value) == MonthIndex(d) + months + 22_800
    ensures MonthIndex(d) + months < 0 || MonthIndex(d) + months >= 120_000 <==> ShiftMonth(d, months).None?
  {
    var index := MonthIndex(d) + months;
    assert index == 12 * (index / 12) + index % 12;
  }

  /** Shifts on the same side of year 100 keep the order. */
  lemma ShiftKeepsOrder(a: Date, b: Date, months: int)
    requires IsBankDate(a) && IsBankDate(b) && AtMost(a, b)
    requires ShiftMonth(a, months).Some? && ShiftMonth(b, months).Some?
    requires MonthIndex(a) + months >= 1200 || MonthIndex(b) + months < 1200
    ensures AtMost(ShiftMonth(a, months).value, ShiftMonth(b, months).value)
  {
    ShiftIsRightExactly(a, months);
    ShiftIsRightExactly(b, months);
  }

  ghost predicate Monotone(months: int) {
    forall a, b {:trigger ShiftMonth(a, months), ShiftMonth(b, months)} ::
      IsBankDate(a) && IsBankDate(b) && AtMost(a, b) && ShiftMonth(a, months).Some? && ShiftMonth(b, months).Some? ==>
        AtMost(ShiftMonth(a, months).value, ShiftMonth(b, months).value)
  }

  /**
   A shift is monotone on all bank dates exactly when it never carries some below year 100 and leaves others
   above.
   */
  lemma MonotoneExactly(months: int)
    ensures Monotone(months) <==> months >= 0 || months <= -118_800
  {
    if months >= 0 || months <= -118_800 {
      forall a, b | IsBankDate(a) && IsBankDate(b) && AtMost(a, b) && ShiftMonth(a, months).Some?
        && ShiftMonth(b, months).Some?
        ensures AtMost(ShiftMonth(a, months).value, ShiftMonth(b, months).value)
      {
        ShiftKeepsOrder(a, b, months);
      }
    } else {
      var a, b := FirstOfMonth(1199 - months), FirstOfMonth(1200 - months);
      ShiftIsRightExactly(a, months);
      ShiftIsRightExactly(b, months);
      assert !AtMost(ShiftMonth(a, months).value, ShiftMonth(b, months).value);
    }
  }

  function FirstOfMonth(index: int): (d: Date)
    ensures IsDate(d) && MonthIndex(d) == index && d.day == 1
  {
    assert index == 12 * (index / 12) + index % 12;
    Date(index / 12, index % 12 + 1, 1)
  }

}
