/**
 * The proleptic Gregorian calendar of `java.time.LocalDate`: validity, the epoch-day
 * count, date comparison, and the week/month/year arithmetic the schedule engine uses.
 */
module Calendar {

  datatype Date = Date(year: int, month: int, day: int)

  /**
   * `IsoChronology.isLeapYear`. Java's `%` and Dafny's `%` differ only in the sign of a
   * nonzero remainder, so tests against zero agree for negative years too.
   */
  predicate IsLeapYear(year: int) {
    year % 4 == 0 && (year % 100 != 0 || year % 400 == 0)
  }

  /** `LocalDate.lengthOfMonth`. */
  function LengthOfMonth(year: int, month: int): int {
    if month == 2 then (if IsLeapYear(year) then 29 else 28)
    else if month == 4 || month == 6 || month == 9 || month == 11 then 30
    else 31
  }

  /** `LocalDate.lengthOfYear`. */
  function LengthOfYear(year: int): int {
    if IsLeapYear(year) then 366 else 365
  }

  predicate Valid(d: Date) {
    1 <= d.month <= 12 && 1 <= d.day <= LengthOfMonth(d.year, d.month)
  }

  /** A date `LocalDate` can hold (apart from its year bound, which is not modelled here). */
  type LocalDate = d: Date | Valid(d) witness Date(1970, 1, 1)

  function Min(a: int, b: int): int {
    if a <= b then a else b
  }

  // ---------------------------------------------------------------------------
  // Epoch day: `LocalDate.toEpochDay`
  // ---------------------------------------------------------------------------

  const DAYS_0000_TO_1970: int := 719528

  /**
   * The leap-day term of `toEpochDay`. For negative years Java writes `y / -4` with
   * truncating division; for `y < 0` that is `(-y) / 4` with floor division.
   */
  function LeapDaysBefore(y: int): int {
    if y >= 0 then (y + 3) / 4 - (y + 99) / 100 + (y + 399) / 400
    else -((-y) / 4 - (-y) / 100 + (-y) / 400)
  }

  /** Days from the first of January to the first of `month`, as `toEpochDay` computes it. */
  function MonthOffset(year: int, month: int): int {
    (367 * month - 362) / 12 + (if month > 2 then (if IsLeapYear(year) then -1 else -2) else 0)
  }

  /** `LocalDate.toEpochDay`: days since 1970-01-01. */
  function EpochDay(d: Date): int {
    365 * d.year + LeapDaysBefore(d.year) + MonthOffset(d.year, d.month) + d.day - 1 - DAYS_0000_TO_1970
  }

  lemma MonthOffsetStep(year: int, month: int)
    requires 1 <= month < 12
    ensures MonthOffset(year, month + 1) == MonthOffset(year, month) + LengthOfMonth(year, month)
  {
    if month == 1 {} else if month == 2 {} else if month == 3 {} else if month == 4 {}
    else if month == 5 {} else if month == 6 {} else if month == 7 {} else if month == 8 {}
    else if month == 9 {} else if month == 10 {} else {}
  }

  lemma {:induction false} MonthOffsetMonotone(year: int, m1: int, m2: int)
    requires 1 <= m1 < m2 <= 12
    ensures MonthOffset(year, m1) + LengthOfMonth(year, m1) <= MonthOffset(year, m2)
    decreases m2 - m1
  {
    MonthOffsetStep(year, m1);
    if m1 + 1 < m2 {
      MonthOffsetMonotone(year, m1 + 1, m2);
    }
  }

  /** Every month of a year starts at or after the year's first day and ends inside the year. */
  lemma MonthWithinYear(year: int, month: int)
    requires 1 <= month <= 12
    ensures 0 <= MonthOffset(year, month)
    ensures MonthOffset(year, month) + LengthOfMonth(year, month) <= LengthOfYear(year)
  {
    assert MonthOffset(year, 12) + 31 == LengthOfYear(year);
    if month < 12 {
      MonthOffsetMonotone(year, month, 12);
    }
    if 1 < month {
      MonthOffsetMonotone(year, 1, month);
    }
  }

  lemma DivStep(n: int, k: int)
    requires k == 4 || k == 100 || k == 400
    ensures n / k - (n - 1) / k == (if n % k == 0 then 1 else 0)
  {
  }

  lemma DivisorsOfCentury(y: int)
    ensures y % 100 == 0 ==> y % 4 == 0
    ensures y % 400 == 0 ==> y % 100 == 0
    ensures (y + 4) % 4 == y % 4 && (y + 100) % 100 == y % 100 && (y + 400) % 400 == y % 400
    ensures (y % 4 == 0 <==> (-y) % 4 == 0) && (y % 100 == 0 <==> (-y) % 100 == 0)
    ensures y % 400 == 0 <==> (-y) % 400 == 0
  {
    if y % 100 == 0 { assert y == 4 * (25 * (y / 100)); }
    if y % 400 == 0 { assert y == 100 * (4 * (y / 400)); }
    ModShift4(y);
    ModShift100(y);
    ModShift400(y);
  }

  /** Adding the divisor keeps the remainder, and negation keeps divisibility: by 4, 100 and 400. */
  lemma ModShift4(y: int)
    ensures (y + 4) % 4 == y % 4 && (y % 4 == 0 <==> (-y) % 4 == 0)
  {
    assert y == 4 * (y / 4) + y % 4;
    if (-y) % 4 == 0 { assert y == 4 * -((-y) / 4); }
  }

  lemma ModShift100(y: int)
    ensures (y + 100) % 100 == y % 100 && (y % 100 == 0 <==> (-y) % 100 == 0)
  {
    assert y == 100 * (y / 100) + y % 100;
    if (-y) % 100 == 0 { assert y == 100 * -((-y) / 100); }
  }

  lemma ModShift400(y: int)
    ensures (y + 400) % 400 == y % 400 && (y % 400 == 0 <==> (-y) % 400 == 0)
  {
    assert y == 400 * (y / 400) + y % 400;
    if (-y) % 400 == 0 { assert y == 400 * -((-y) / 400); }
  }

  /** The number of leap years counted by `LeapDaysBefore` grows by one after each leap year. */
  lemma LeapIndicator(a: int, b: int, c: int, y: int)
    requires a == (if y % 4 == 0 then 1 else 0)
    requires b == (if y % 100 == 0 then 1 else 0)
    requires c == (if y % 400 == 0 then 1 else 0)
    ensures a - b + c == (if IsLeapYear(y) then 1 else 0)
  {
    DivisorsOfCentury(y);
  }

  lemma LeapDaysStepNonNegative(y: int)
    requires y >= 0
    ensures LeapDaysBefore(y + 1) == LeapDaysBefore(y) + (if IsLeapYear(y) then 1 else 0)
  {
    DivisorsOfCentury(y);
    DivStep(y + 4, 4);
    DivStep(y + 100, 100);
    DivStep(y + 400, 400);
    LeapIndicator((y + 4) / 4 - (y + 3) / 4, (y + 100) / 100 - (y + 99) / 100, (y + 400) / 400 - (y + 399) / 400, y);
  }

  lemma LeapDaysStepNegative(y: int)
    requires y < -1
    ensures LeapDaysBefore(y + 1) == LeapDaysBefore(y) + (if IsLeapYear(y) then 1 else 0)
  {
    DivisorsOfCentury(y);
    DivStep(-y, 4);
    DivStep(-y, 100);
    DivStep(-y, 400);
    LeapIndicator((-y) / 4 - (-y - 1) / 4, (-y) / 100 - (-y - 1) / 100, (-y) / 400 - (-y - 1) / 400, y);
  }

  /** Going from year `y` to `y + 1` adds a leap day exactly when `y` is a leap year. */
  lemma LeapDaysStep(y: int)
    ensures LeapDaysBefore(y + 1) == LeapDaysBefore(y) + (if IsLeapYear(y) then 1 else 0)
  {
    if y >= 0 {
      LeapDaysStepNonNegative(y);
    } else if y < -1 {
      LeapDaysStepNegative(y);
    }
  }

  function YearStart(year: int): int {
    EpochDay(Date(year, 1, 1))
  }

  lemma YearStep(year: int)
    ensures YearStart(year + 1) == YearStart(year) + LengthOfYear(year)
  {
    LeapDaysStep(year);
  }

  lemma {:induction false} YearMonotone(y1: int, y2: int)
    requires y1 < y2
    ensures YearStart(y1) + LengthOfYear(y1) <= YearStart(y2)
    decreases y2 - y1
  {
    YearStep(y1);
    if y1 + 1 < y2 {
      YearMonotone(y1 + 1, y2);
    }
  }

  // ---------------------------------------------------------------------------
  // Comparison: `LocalDate.compareTo`, `isAfter`, `isBefore`
  // ---------------------------------------------------------------------------

  /** `LocalDate.compareTo0`: year difference, then month difference, then day difference. */
  function CompareDates(a: Date, b: Date): int {
    if a.year != b.year then a.year - b.year
    else if a.month != b.month then a.month - b.month
    else a.day - b.day
  }

  predicate IsAfter(a: Date, b: Date) {
    CompareDates(a, b) > 0
  }

  predicate IsBefore(a: Date, b: Date) {
    CompareDates(a, b) < 0
  }

  /** An earlier date has a smaller epoch day. */
  lemma EpochDayMonotone(a: LocalDate, b: LocalDate)
    requires IsBefore(a, b)
    ensures EpochDay(a) < EpochDay(b)
  {
    MonthWithinYear(a.year, a.month);
    MonthWithinYear(b.year, b.month);
    if a.year < b.year {
      YearMonotone(a.year, b.year);
    } else if a.month < b.month {
      MonthOffsetMonotone(a.year, a.month, b.month);
    }
  }

  /** `compareTo` orders dates exactly as their epoch days are ordered. */
  lemma CompareAgreesWithEpochDay(a: LocalDate, b: LocalDate)
    ensures CompareDates(a, b) < 0 <==> EpochDay(a) < EpochDay(b)
    ensures CompareDates(a, b) == 0 <==> a == b
    ensures CompareDates(a, b) > 0 <==> EpochDay(a) > EpochDay(b)
  {
    if CompareDates(a, b) < 0 {
      EpochDayMonotone(a, b);
    } else if CompareDates(b, a) < 0 {
      EpochDayMonotone(b, a);
    }
  }

  /** Two valid dates with the same epoch day are the same date. */
  lemma EpochDayInjective(a: LocalDate, b: LocalDate)
    requires EpochDay(a) == EpochDay(b)
    ensures a == b
  {
    CompareAgreesWithEpochDay(a, b);
  }

  // ---------------------------------------------------------------------------
  // Day and week arithmetic: `plusDays`, `plusWeeks`, `minusWeeks`
  // ---------------------------------------------------------------------------

  function NextDay(d: LocalDate): (r: LocalDate)
    ensures EpochDay(r) == EpochDay(d) + 1
  {
    if d.day < LengthOfMonth(d.year, d.month) then
      Date(d.year, d.month, d.day + 1)
    else if d.month < 12 then
      MonthOffsetStep(d.year, d.month);
      Date(d.year, d.month + 1, 1)
    else
      LeapDaysStep(d.year);
      Date(d.year + 1, 1, 1)
  }

  function PrevDay(d: LocalDate): (r: LocalDate)
    ensures EpochDay(r) == EpochDay(d) - 1
  {
    var r: LocalDate :=
      if d.day > 1 then Date(d.year, d.month, d.day - 1)
      else if d.month > 1 then Date(d.year, d.month - 1, LengthOfMonth(d.year, d.month - 1))
      else Date(d.year - 1, 12, 31);
    assert NextDay(r) == d;
    r
  }

  /**
   * `LocalDate.plusDays`: Java converts to the epoch day, adds `n` and converts back.
   * The result is the one valid date whose epoch day is `EpochDay(d) + n`
   * (see `EpochDayInjective`).
   */
  function PlusDays(d: LocalDate, n: int): (r: LocalDate)
    ensures EpochDay(r) == EpochDay(d) + n
    decreases if n >= 0 then n else -n
  {
    if n == 0 then d
    else if n > 0 then PlusDays(NextDay(d), n - 1)
    else PlusDays(PrevDay(d), n + 1)
  }

  /** `LocalDate.plusWeeks`: `plusDays(7 * n)`. */
  function PlusWeeks(d: LocalDate, n: int): (r: LocalDate)
    ensures EpochDay(r) == EpochDay(d) + 7 * n
  {
    PlusDays(d, 7 * n)
  }

  /** `LocalDate.minusWeeks`: `plusWeeks(-n)`. */
  function MinusWeeks(d: LocalDate, n: int): (r: LocalDate)
    ensures EpochDay(r) == EpochDay(d) - 7 * n
  {
    PlusWeeks(d, -n)
  }

  // ---------------------------------------------------------------------------
  // Month and year arithmetic: `plusMonths`, `minusMonths`, `plusYears`, `minusYears`
  // ---------------------------------------------------------------------------

  /** `LocalDate.getProlepticMonth`: months since January of year 0. */
  function ProlepticMonth(d: Date): int {
    d.year * 12 + d.month - 1
  }

  /** `LocalDate.resolvePreviousValid`: clamp the day to the length of the target month. */
  function ResolvePreviousValid(year: int, month: int, day: int): (r: LocalDate)
    requires 1 <= month <= 12 && 1 <= day
    ensures r.year == year && r.month == month
    ensures r.day == Min(day, LengthOfMonth(year, month))
  {
    Date(year, month, Min(day, LengthOfMonth(year, month)))
  }

  /** `LocalDate.plusMonths`: floor-divide the shifted proleptic month by 12, then clamp the day. */
  function PlusMonths(d: LocalDate, n: int): (r: LocalDate)
    ensures ProlepticMonth(r) == ProlepticMonth(d) + n
    ensures r.day == Min(d.day, LengthOfMonth(r.year, r.month))
  {
    var calcMonths := ProlepticMonth(d) + n;
    ResolvePreviousValid(calcMonths / 12, calcMonths % 12 + 1, d.day)
  }

  /** `LocalDate.minusMonths`: `plusMonths(-n)`. */
  function MinusMonths(d: LocalDate, n: int): (r: LocalDate)
    ensures ProlepticMonth(r) == ProlepticMonth(d) - n
    ensures r.day == Min(d.day, LengthOfMonth(r.year, r.month))
  {
    PlusMonths(d, -n)
  }

  /** `LocalDate.plusYears`: same month, day clamped (29 February becomes 28 February). */
  function PlusYears(d: LocalDate, n: int): (r: LocalDate)
    ensures r.year == d.year + n && r.month == d.month
    ensures r.day == Min(d.day, LengthOfMonth(r.year, r.month))
  {
    ResolvePreviousValid(d.year + n, d.month, d.day)
  }

  /** `LocalDate.minusYears`: `plusYears(-n)`. */
  function MinusYears(d: LocalDate, n: int): (r: LocalDate)
    ensures r.year == d.year - n && r.month == d.month
    ensures r.day == Min(d.day, LengthOfMonth(r.year, r.month))
  {
    PlusYears(d, -n)
  }

  // ---------------------------------------------------------------------------
  // Properties of the arithmetic
  // ---------------------------------------------------------------------------

  /** Moving forward by a positive number of days gives a strictly later date. */
  lemma PlusDaysIsAfter(d: LocalDate, n: int)
    ensures n > 0 ==> IsAfter(PlusDays(d, n), d)
    ensures n < 0 ==> IsBefore(PlusDays(d, n), d)
    ensures n == 0 <==> PlusDays(d, n) == d
  {
    CompareAgreesWithEpochDay(PlusDays(d, n), d);
  }

  /** Subtracting the weeks just added gives the original date back. */
  lemma WeeksRoundTrip(d: LocalDate, n: int)
    ensures MinusWeeks(PlusWeeks(d, n), n) == d
    ensures PlusWeeks(MinusWeeks(d, n), n) == d
  {
    EpochDayInjective(MinusWeeks(PlusWeeks(d, n), n), d);
    EpochDayInjective(PlusWeeks(MinusWeeks(d, n), n), d);
  }

  /** Subtracting the months just added gives the original date back when no clamping happened. */
  lemma MonthsRoundTrip(d: LocalDate, n: int)
    requires d.day <= 28
    ensures MinusMonths(PlusMonths(d, n), n) == d
  {
  }

  /** Subtracting the years just added gives the original date back unless it is 29 February. */
  lemma YearsRoundTrip(d: LocalDate, n: int)
    requires !(d.month == 2 && d.day == 29)
    ensures MinusYears(PlusYears(d, n), n) == d
  {
  }

  /** The clamp loses information: from 29 February 2024, one year on and back lands on the 28th. */
  lemma LeapDayClamp()
    ensures PlusYears(Date(2024, 2, 29), 1) == Date(2025, 2, 28)
    ensures MinusYears(PlusYears(Date(2024, 2, 29), 1), 1) == Date(2024, 2, 28)
  {
  }

  /** Advancing by at least one week gives a strictly later date; retreating, a strictly earlier one. */
  lemma AdvanceWeeksIsAfter(d: LocalDate, n: int)
    requires n >= 1
    ensures IsAfter(PlusWeeks(d, n), d) && IsBefore(MinusWeeks(d, n), d)
  {
    var m := 7 * -n;
    assert PlusWeeks(d, n) == PlusDays(d, 7 * n);
    assert MinusWeeks(d, n) == PlusDays(d, m);
    PlusDaysIsAfter(d, 7 * n);
    PlusDaysIsAfter(d, m);
  }

  /** Advancing by at least one month gives a strictly later date; retreating, a strictly earlier one. */
  lemma AdvanceMonthsIsAfter(d: LocalDate, n: int)
    requires n >= 1
    ensures IsAfter(PlusMonths(d, n), d) && IsBefore(MinusMonths(d, n), d)
  {
  }

  /** Advancing by at least one year gives a strictly later date; retreating, a strictly earlier one. */
  lemma AdvanceYearsIsAfter(d: LocalDate, n: int)
    requires n >= 1
    ensures IsAfter(PlusYears(d, n), d) && IsBefore(MinusYears(d, n), d)
  {
  }
}
