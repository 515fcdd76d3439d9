/** Proleptic Gregorian calendar dates and the three java.time operations the
    decision engine relies on: `plusMonths`, `plus(Period)` and the year count
    of `Period.between`. */
module Calendar {

  function Min(a: int, b: int): int {
    if a <= b then a else b
  }

  /** Leap years of the proleptic Gregorian calendar. */
  predicate IsLeapYear(year: int) {
    year % 4 == 0 && (year % 100 != 0 || year % 400 == 0)
  }

  /** Number of days in a month. */
  function LengthOfMonth(year: int, month: int): (n: int)
    requires 1 <= month <= 12
    ensures 28 <= n <= 31
    ensures n == 29 <==> month == 2 && IsLeapYear(year)
  {
    if month == 2 then (if IsLeapYear(year) then 29 else 28)
    else if month == 4 || month == 6 || month == 9 || month == 11 then 30
    else 31
  }

  /** Raw year/month/day fields; only the valid ones form a `Date`. */
  datatype YearMonthDay = YMD(year: int, month: int, day: int) {
    predicate IsValid() {
      1 <= month <= 12 && 1 <= day <= LengthOfMonth(year, month)
    }
  }

  /** A calendar date, as a java.time.LocalDate always is. */
  type Date = d: YearMonthDay | d.IsValid() witness YMD(1970, 1, 1)

  /** Months elapsed since January of year 0. */
  function ProlepticMonth(d: YearMonthDay): int {
    d.year * 12 + d.month - 1
  }

  /** Chronological order: year, then month, then day (`isBefore`). */
  predicate IsBefore(a: YearMonthDay, b: YearMonthDay) {
    a.year < b.year
    || (a.year == b.year && a.month < b.month)
    || (a.year == b.year && a.month == b.month && a.day < b.day)
  }

  /** `a.isAfter(b)`: a strict total order on dates, the converse of
      `IsBefore`; of two distinct dates exactly one is after the other. */
  predicate IsAfter(a: YearMonthDay, b: YearMonthDay)
    ensures IsAfter(a, b) ==> !IsBefore(a, b) && a != b
    ensures IsAfter(a, b) || IsBefore(a, b) || a == b
  {
    IsBefore(b, a)
  }

  /** For valid dates the order is that of the proleptic month, then the day. */
  lemma IsBeforeByMonths(a: Date, b: Date)
    ensures IsBefore(a, b) <==>
              ProlepticMonth(a) < ProlepticMonth(b)
              || (ProlepticMonth(a) == ProlepticMonth(b) && a.day < b.day)
  {
  }

  /** `d.plusMonths(n)`: move `n` months along the calendar and keep the day
      of month, clamped to the length of the month reached. */
  function PlusMonths(d: Date, n: int): (r: Date)
    ensures ProlepticMonth(r) == ProlepticMonth(d) + n
    ensures r.day <= d.day
    ensures r.day == d.day <==> d.day <= LengthOfMonth(r.year, r.month)
    ensures r.day < d.day ==> r.day == LengthOfMonth(r.year, r.month)
  {
    var total := ProlepticMonth(d) + n;
    // Java uses floorDiv/floorMod here; with a positive divisor they agree
    // with Dafny's Euclidean division.
    var year := total / 12;
    var month := total % 12 + 1;
    YMD(year, month, Min(d.day, LengthOfMonth(year, month)))
  }

  /** Moving forward by more months gives a strictly later date. */
  lemma PlusMonthsStrictlyIncreasing(d: Date, m: int, n: int)
    requires m < n
    ensures IsBefore(PlusMonths(d, m), PlusMonths(d, n))
  {
    IsBeforeByMonths(PlusMonths(d, m), PlusMonths(d, n));
  }

  /** Adding the same number of months keeps the order of two dates. */
  lemma PlusMonthsMonotone(a: Date, b: Date, n: int)
    requires !IsBefore(b, a)
    ensures !IsBefore(PlusMonths(b, n), PlusMonths(a, n))
  {
    IsBeforeByMonths(a, b);
    IsBeforeByMonths(PlusMonths(a, n), PlusMonths(b, n));
    var ra, rb := PlusMonths(a, n), PlusMonths(b, n);
    if ProlepticMonth(a) == ProlepticMonth(b) {
      assert ra.year == rb.year && ra.month == rb.month;
    }
  }

  /** When the day of month survives the move, moving back undoes it. */
  lemma PlusMonthsRoundTrip(d: Date, n: int)
    requires d.day <= LengthOfMonth(PlusMonths(d, n).year, PlusMonths(d, n).month)
    ensures PlusMonths(PlusMonths(d, n), -n) == d
  {
    var r := PlusMonths(d, n);
    var back := PlusMonths(r, -n);
    assert ProlepticMonth(back) == ProlepticMonth(d);
    assert back.year == d.year && back.month == d.month;
  }

  /** A java.time.Period with no days part: `years` years and `months` months. */
  datatype Period = Period(years: int, months: int) {
    function TotalMonths(): int {
      years * 12 + months
    }
  }

  /** `d.plus(p)`: java.time adds a period as its total number of months
      (then its days, which are zero here). */
  function PlusPeriod(d: Date, p: Period): (r: Date)
    ensures ProlepticMonth(r) == ProlepticMonth(d) + p.TotalMonths()
    ensures r.day == Min(d.day, LengthOfMonth(r.year, r.month))
  {
    PlusMonths(d, p.TotalMonths())
  }

  /** Total months of `Period.between(start, end)`: whole months elapsed, one
      fewer if the day of month has not yet been reached (one more, going
      backwards). */
  function PeriodMonthsBetween(start: Date, end: Date): (r: int)
    ensures var total := ProlepticMonth(end) - ProlepticMonth(start);
            r == total || r == total - 1 || r == total + 1
    ensures !IsBefore(end, start) ==> r >= 0
    ensures IsBefore(end, start) ==> r <= 0
  {
    IsBeforeByMonths(start, end);
    IsBeforeByMonths(end, start);
    var total := ProlepticMonth(end) - ProlepticMonth(start);
    var days := end.day - start.day;
    if total > 0 && days < 0 then total - 1
    else if total < 0 && days > 0 then total + 1
    else total
  }

  /** Java's `/` on integers: rounds toward zero. */
  function TruncDiv(a: int, b: int): int
    requires b > 0
  {
    if a >= 0 then a / b else -((-a) / b)
  }

  /** `Period.between(start, end).getYears()`. */
  function WholeYearsBetween(start: Date, end: Date): (r: int)
    ensures !IsBefore(end, start) ==> r >= 0
    ensures IsBefore(end, start) ==> r <= 0
  {
    TruncDiv(PeriodMonthsBetween(start, end), 12)
  }

  /** `(m1, d1)` comes before `(m2, d2)` within a year. */
  predicate EarlierInYear(m1: int, d1: int, m2: int, d2: int) {
    m1 < m2 || (m1 == m2 && d1 < d2)
  }

  /** Reference definition of age: the difference of the years, less one
      if this year's birthday (month and day) has not come yet. */
  function BirthdayAge(birth: Date, on: Date): int {
    on.year - birth.year - (if EarlierInYear(on.month, on.day, birth.month, birth.day) then 1 else 0)
  }

  /** From the birth date on, `Period.between` counts years as birthdays do. */
  lemma WholeYearsIsBirthdayAge(birth: Date, on: Date)
    requires !IsBefore(on, birth)
    ensures WholeYearsBetween(birth, on) == BirthdayAge(birth, on)
  {
    var years := on.year - birth.year;
    var total := ProlepticMonth(on) - ProlepticMonth(birth);
    assert total == 12 * years + (on.month - birth.month);
    var m := PeriodMonthsBetween(birth, on);
    if on.month > birth.month {
      assert years >= 0;
      assert 12 * years <= m <= 12 * years + 11;
      assert m / 12 == years;
    } else if on.month == birth.month && on.day >= birth.day {
      assert m == 12 * years;
    } else {
      assert years >= 1;
      assert 12 * years - 12 <= m <= 12 * years - 1;
      assert m / 12 == years - 1;
    }
  }

  /** Someone is at least `n` years old (n >= 1) exactly when the calendar
      has reached the month and day of birth in year `birth.year + n`. For a
      29 February birth in a common year that is 1 March. */
  lemma AgeReachedOnAnniversary(birth: Date, on: Date, n: int)
    requires n >= 1
    ensures WholeYearsBetween(birth, on) >= n <==>
              !IsBefore(on, YMD(birth.year + n, birth.month, birth.day))
  {
    if !IsBefore(on, birth) {
      WholeYearsIsBirthdayAge(birth, on);
    }
  }

  /** `Period.between` and `plusMonths` disagree for a 29 February birth:
      on 28 February 2022 someone born on 29 February 2004 is 17 whole years
      old, although the birth date plus 216 months is that very day. */
  lemma LeapDayBirthAge()
    ensures WholeYearsBetween(YMD(2004, 2, 29), YMD(2022, 2, 28)) == 17
    ensures PlusMonths(YMD(2004, 2, 29), 18 * 12) == YMD(2022, 2, 28)
  {
    assert PeriodMonthsBetween(YMD(2004, 2, 29), YMD(2022, 2, 28)) == 215;
  }
}
