/** Normalising the two date ranges of a period comparison. */
module PeriodComparison {
  import opened Outcomes
  import opened Calendar

  datatype Mode = PreviousPeriod | PreviousMonth | PreviousYear | Custom

  /** Four, two and two digits with hyphens; None is any other text. */
  type RawDate = Option<Date>

  datatype Input = Input(
    mode: Mode,
    currentFrom: RawDate,
    currentTo: RawDate,
    comparisonFrom: Option<RawDate>,
    comparisonTo: Option<RawDate>,
    idsValid: bool,
    sameElapsedDays: bool)

  datatype Ranges = Ranges(currentFrom: Date, currentTo: Date, comparisonFrom: Date, comparisonTo: Date)

  datatype PeriodError =
    | InvalidDate | CurrentRange | InvalidId | CustomDatesMissing | CustomDatesUnexpected | ComparisonRange

  const MAX_DAYS: int := 367

  function DayCount(from: Date, to: Date): int
    requires IsBankDate(from) && IsBankDate(to)
  {
    DayNumber(to) - DayNumber(from) + 1
  }

  function Parse(raw: RawDate): (d: Option<Date>)
    ensures d.Some? ==> IsBankDate(d.value)
  {
    if raw.Some? && IsBankDate(raw.value) then raw else None
  }

  predicate Acceptable(from: Date, to: Date)
    requires IsBankDate(from) && IsBankDate(to)
  {
    !Before(to, from) && DayCount(from, to) <= MAX_DAYS
  }

  /** The comparison range before any clipping. */
  function ComparisonFor(input: Input, from: Date, to: Date): Result<(Date, Date), PeriodError>
    requires IsBankDate(from) && IsBankDate(to)
  {
    if input.mode.Custom? then
      if input.comparisonFrom.None? || input.comparisonTo.None? then Err(CustomDatesMissing)
      else Pair(Parse(input.comparisonFrom.value), Parse(input.comparisonTo.value))
    else if input.comparisonFrom.Some? || input.comparisonTo.Some? then Err(CustomDatesUnexpected)
    else if input.mode.PreviousMonth? then Pair(ShiftMonth(from, -1), ShiftMonth(to, -1))
    else if input.mode.PreviousYear? then Pair(ShiftYear(from, -1), ShiftYear(to, -1))
    else
      var last := AddDays(from, -1);
      if last.None? then Err(InvalidDate)
      else
        AddDaysIsBankDate(from, -1);
        Pair(AddDays(last.value, 1 - DayCount(from, to)), last)
  }

  function Pair(a: Option<Date>, b: Option<Date>): Result<(Date, Date), PeriodError> {
    if a.None? || b.None? then Err(InvalidDate) else Ok((a.value, b.value))
  }

  lemma ComparisonIsBankDates(input: Input, from: Date, to: Date)
    requires IsBankDate(from) && IsBankDate(to) && ComparisonFor(input, from, to).Ok?
    ensures IsBankDate(ComparisonFor(input, from, to).value.0) && IsBankDate(ComparisonFor(input, from, to).value.1)
  {
    if input.mode.PreviousPeriod? {
      AddDaysIsBankDate(from, -1);
      AddDaysIsBankDate(AddDays(from, -1).value, 1 - DayCount(from, to));
    }
  }

  /** The previous period ends the day before and is as long, so it never fails the second check. */
  lemma PreviousPeriodIsAdjacent(input: Input, from: Date, to: Date)
    requires IsBankDate(from) && IsBankDate(to) && Acceptable(from, to)
    requires input.mode.PreviousPeriod? && ComparisonFor(input, from, to).Ok?
    ensures var range := ComparisonFor(input, from, to).value;
            && IsBankDate(range.0) && IsBankDate(range.1)
            && NextDay(range.1) == from
            && DayCount(range.0, range.1) == DayCount(from, to)
            && Acceptable(range.0, range.1)
  {
    var last := AddDays(from, -1).value;
    var length := DayCount(from, to);
    ComparisonIsBankDates(input, from, to);
    var first := AddDays(last, 1 - length).value;
    AddDaysIsExact(from, -1, last);
    AddDaysIsExact(last, 1 - length, first);
    NextDayCounts(last);
    NumbersFollowOrder(NextDay(last), from);
    NumbersFollowOrder(from, to);
    NumbersFollowOrder(last, first);
  }

  /** The first `days` days of a range of at least that many. */
  lemma Prefix(from: Date, to: Date, days: int)
    requires IsBankDate(from) && IsBankDate(to) && 1 <= days <= DayCount(from, to)
    ensures AddDays(from, days - 1).Some? && IsBankDate(AddDays(from, days - 1).value)
    ensures DayCount(from, AddDays(from, days - 1).value) == days
    ensures AtMost(AddDays(from, days - 1).value, to)
    decreases DayNumber(to)
  {
    if DayCount(from, to) == days {
      AddDaysIsExact(from, days - 1, to);
    } else {
      NumbersFollowOrder(from, to);
      PreviousDayCounts(to);
      var earlier := PreviousDay(to);
      NumbersFollowOrder(from, earlier);
      NumbersFollowOrder(earlier, to);
      assert IsBankDate(earlier);
      Prefix(from, earlier, days);
    }
  }

  /** An accepted comparison: both ranges in order and at most 367 days, and of one length when clipped. */
  ghost predicate Accepted(input: Input, r: Ranges) {
    && input.idsValid
    && IsBankDate(r.currentFrom) && IsBankDate(r.currentTo) && IsBankDate(r.comparisonFrom)
       && IsBankDate(r.comparisonTo)
    && Acceptable(r.currentFrom, r.currentTo) && Acceptable(r.comparisonFrom, r.comparisonTo)
    && input.currentFrom == Some(r.currentFrom) && input.currentTo.Some? && IsBankDate(input.currentTo.value)
    && AtMost(r.currentTo, input.currentTo.value)
    && var whole := ComparisonFor(input, r.currentFrom, input.currentTo.value);
       && whole.Ok? && IsBankDate(whole.value.0) && IsBankDate(whole.value.1)
       && r.comparisonFrom == whole.value.0 && AtMost(r.comparisonTo, whole.value.1)
       && if input.sameElapsedDays
          then DayCount(r.currentFrom, r.currentTo) == DayCount(r.comparisonFrom, r.comparisonTo)
               == Min(DayCount(r.currentFrom, input.currentTo.value), DayCount(whole.value.0, whole.value.1))
          else r.currentTo == input.currentTo.value && r.comparisonTo == whole.value.1
  }

  /** When the input is refused, and why. */
  ghost predicate RefusedFor(input: Input, error: PeriodError) {
    var from, to := Parse(input.currentFrom), Parse(input.currentTo);
    if from.None? || to.None? then error == InvalidDate
    else if !Acceptable(from.value, to.value) then error == CurrentRange
    else if !input.idsValid then error == InvalidId
    else
      match ComparisonFor(input, from.value, to.value)
      case Err(e) => error == e
      case Ok(range) =>
        IsBankDate(range.0) && IsBankDate(range.1) && !Acceptable(range.0, range.1) && error == ComparisonRange
  }

  /** normalizeComparisonInput, reassigning the range ends branch by branch. */
  method NormalizeComparisonInput(input: Input) returns (r: Result<Ranges, PeriodError>)
    ensures r.Ok? ==> Accepted(input, r.value) && forall error :: !RefusedFor(input, error)
    ensures r.Err? ==> RefusedFor(input, r.error)
    ensures input.mode.PreviousPeriod? ==> r != Err(ComparisonRange)
  {
    var from, to := Parse(input.currentFrom), Parse(input.currentTo);
    if from.None? || to.None? {
      return Err(InvalidDate);
    }
    var currentFrom, currentTo := from.value, to.value;
    if Before(currentTo, currentFrom) {
      return Err(CurrentRange);
    }
    if DayCount(currentFrom, currentTo) > MAX_DAYS {
      return Err(CurrentRange);
    }
    if !input.idsValid {
      return Err(InvalidId);
    }
    var calculated := ComparisonFor(input, currentFrom, currentTo);
    if calculated.Err? {
      return Err(calculated.error);
    }
    var comparisonFrom, comparisonTo := calculated.value.0, calculated.value.1;
    ComparisonIsBankDates(input, currentFrom, currentTo);
    if input.mode.PreviousPeriod? {
      PreviousPeriodIsAdjacent(input, currentFrom, currentTo);
    }
    if Before(comparisonTo, comparisonFrom) || DayCount(comparisonFrom, comparisonTo) > MAX_DAYS {
      return Err(ComparisonRange);
    }
    if input.sameElapsedDays {
      var comparableDays := Min(DayCount(currentFrom, currentTo), DayCount(comparisonFrom, comparisonTo));
      NumbersFollowOrder(currentFrom, currentTo);
      NumbersFollowOrder(comparisonFrom, comparisonTo);
      Prefix(currentFrom, currentTo, comparableDays);
      Prefix(comparisonFrom, comparisonTo, comparableDays);
      currentTo := AddDays(currentFrom, comparableDays - 1).value;
      comparisonTo := AddDays(comparisonFrom, comparableDays - 1).value;
      NumbersFollowOrder(currentTo, currentFrom);
      NumbersFollowOrder(comparisonTo, comparisonFrom);
    }
    r := Ok(Ranges(currentFrom, currentTo, comparisonFrom, comparisonTo));
  }
}
