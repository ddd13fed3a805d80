/** Civil dates (pkix-ct/src/log_list.rs, `days_from_civil`) against a count of
    the proleptic Gregorian calendar. */
module Calendar {
  import opened CtErrors
  import opened Outcomes

  datatype Date = Date(year: int, month: int, day: int)

  predicate IsLeap(year: int) {
    year % 4 == 0 && (year % 100 != 0 || year % 400 == 0)
  }

  function YearLength(year: int): int {
    if IsLeap(year) then 366 else 365
  }

  function MonthLength(year: int, month: int): int {
    if month == 2 then (if IsLeap(year) then 29 else 28)
    else if month in {4, 6, 9, 11} then 30
    else 31
  }

  predicate ValidDate(d: Date) {
    1 <= d.month <= 12 && 1 <= d.day <= MonthLength(d.year, d.month)
  }

  const EPOCH := Date(1970, 1, 1)

  // ----- counting days -----

  /** Days from 1970-01-01 to the first of January of `year`, year by year. */
  function DaysToYear(year: int): int
    decreases if year < 1970 then 1970 - year else year - 1970
  {
    if year == 1970 then 0
    else if year > 1970 then DaysToYear(year - 1) + YearLength(year - 1)
    else DaysToYear(year + 1) - YearLength(year)
  }

  /** Days from the first of January to the first of `month`, month by month. */
  function DaysToMonth(year: int, month: int): int
    decreases month
  {
    if month <= 1 then 0 else DaysToMonth(year, month - 1) + MonthLength(year, month - 1)
  }

  /** The number of days from 1970-01-01 to `d`. */
  function DayNumber(d: Date): int {
    DaysToYear(d.year) + DaysToMonth(d.year, d.month) + d.day - 1
  }

  function NextDay(d: Date): (next: Date)
    requires ValidDate(d)
    ensures ValidDate(next)
  {
    if d.day < MonthLength(d.year, d.month) then d.(day := d.day + 1)
    else if d.month < 12 then Date(d.year, d.month + 1, 1)
    else Date(d.year + 1, 1, 1)
  }

  function PreviousDay(d: Date): (previous: Date)
    requires ValidDate(d)
    ensures ValidDate(previous) && NextDay(previous) == d
  {
    if d.day > 1 then d.(day := d.day - 1)
    else if d.month > 1 then Date(d.year, d.month - 1, MonthLength(d.year, d.month - 1))
    else Date(d.year - 1, 12, 31)
  }

  /** The date `n` days after 1970-01-01, or before it when `n` is negative. */
  function DateOf(n: int): (d: Date)
    ensures ValidDate(d)
    decreases if n < 0 then -n else n
  {
    if n == 0 then EPOCH
    else if n > 0 then NextDay(DateOf(n - 1))
    else PreviousDay(DateOf(n + 1))
  }

  // ----- the closed form of the source -----

  /** Rust's integer division, which truncates toward zero. */
  function Truncated(a: int, b: int): int
    requires b > 0
  {
    if a >= 0 then a / b else -(-a / b)
  }

  function DaysFromCivil(year: int, month: nat, day: nat): CtResult<int> {
    if !(1 <= month <= 12) || !(1 <= day <= 31) then
      Err(ParseError)
    else
      var y := if month <= 2 then year - 1 else year;
      var era := Truncated(if y >= 0 then y else y - 399, 400);
      var yoe := y - era * 400;
      var doe := yoe * 365 + yoe / 4 - yoe / 100 + DayOfMarchYear(month, day);
      Ok(era * 146097 + doe - 719468)
  }

  /** `doy`: the day of a year that starts in March. */
  function DayOfMarchYear(month: nat, day: nat): int {
    MarchMonthStart(month) + day - 1
  }

  function MarchMonthStart(month: nat): int {
    (153 * (if month > 2 then month - 3 else month + 9) + 2) / 5
  }

  /** The source gives the range of the day of the year as [0, 365].  The day is not
      checked against the month, so 30 and 31 February pass it, and they alone. */
  lemma DayOfYearRange(month: nat, day: nat)
    requires 1 <= month <= 12 && 1 <= day <= 31
    ensures 0 <= DayOfMarchYear(month, day) <= 367
    ensures DayOfMarchYear(month, day) <= 365 <==> !(month == 2 && day >= 30)
    ensures DayOfMarchYear(2, 30) == 366 && DayOfMarchYear(2, 31) == 367
  {
  }

  /** The year of the era is in [0, 399] as the source says, so its cast to an unsigned
      integer changes nothing.  The day of the era is in [0, 146096] as the source says,
      except for those two dates in the last year of an era. */
  lemma IntermediateRanges(year: int, month: nat, day: nat)
    requires 1 <= month <= 12 && 1 <= day <= 31
    ensures var y := if month <= 2 then year - 1 else year;
            var era := Truncated(if y >= 0 then y else y - 399, 400);
            var yoe := y - era * 400;
            var doe := yoe * 365 + yoe / 4 - yoe / 100 + DayOfMarchYear(month, day);
            && 0 <= yoe <= 399 && yoe == y % 400
            && 0 <= doe
            && (doe <= 146096 <==> !(yoe == 399 && month == 2 && day >= 30))
  {
    EraIsFloor(if month <= 2 then year - 1 else year);
    DayOfYearRange(month, day);
  }

  lemma EraIsFloor(y: int)
    ensures Truncated(if y >= 0 then y else y - 399, 400) == y / 400
  {
  }

  /** Days before the first of March of year `y`, counted from that of year 0. */
  function MarchDays(y: int): int {
    365 * y + y / 4 - y / 100 + y / 400
  }

  lemma MarchDaysByEra(y: int)
    ensures var era := y / 400; var yoe := y - era * 400;
            era * 146097 + yoe * 365 + yoe / 4 - yoe / 100 == MarchDays(y)
  {
    var era := y / 400;
    var yoe := y - era * 400;
    assert y / 4 == 100 * era + yoe / 4;
    assert y / 100 == 4 * era + yoe / 100;
  }

  lemma MarchDaysStep(y: int)
    ensures MarchDays(y) - MarchDays(y - 1) == YearLength(y)
  {
    assert y / 4 - (y - 1) / 4 == if y % 4 == 0 then 1 else 0;
    assert y / 100 - (y - 1) / 100 == if y % 100 == 0 then 1 else 0;
    assert y / 400 - (y - 1) / 400 == if y % 400 == 0 then 1 else 0;
    CenturiesAreFourths(y);
  }

  lemma CenturiesAreFourths(y: int)
    ensures y % 100 == 0 ==> y % 4 == 0
    ensures y % 400 == 0 ==> y % 100 == 0
  {
    if y % 400 == 0 {
      Hundreds(y / 400);
    }
    if y % 100 == 0 {
      Fourths(y / 100);
    }
  }

  lemma Hundreds(q: int)
    ensures 400 * q % 100 == 0
  {
    assert 400 * q == 100 * (4 * q);
  }

  lemma Fourths(q: int)
    ensures 100 * q % 4 == 0
  {
    assert 100 * q == 4 * (25 * q);
  }

  lemma {:induction false} DaysToYearClosed(year: int)
    ensures DaysToYear(year) == MarchDays(year - 1) + 306 - 719468
    decreases if year < 1970 then 1970 - year else year - 1970
  {
    if year > 1970 {
      DaysToYearClosed(year - 1);
      MarchDaysStep(year - 1);
    } else if year < 1970 {
      DaysToYearClosed(year + 1);
      MarchDaysStep(year);
    }
  }

  lemma {:induction false} DaysToMonthClosed(year: int, month: int)
    requires 1 <= month <= 12
    ensures DaysToMonth(year, month)
            == if month <= 2 then (153 * (month + 9) + 2) / 5 - 306
               else YearLength(year) - 306 + (153 * (month - 3) + 2) / 5
  {
    if month <= 1 {
    } else {
      DaysToMonthClosed(year, month - 1);
    }
  }

  /** The year that a date belongs to when years start in March. */
  function MarchYear(year: int, month: nat): int {
    if month <= 2 then year - 1 else year
  }

  lemma DaysFromCivilByMarch(year: int, month: nat, day: nat)
    requires 1 <= month <= 12 && 1 <= day <= 31
    ensures DaysFromCivil(year, month, day)
            == Ok(MarchDays(MarchYear(year, month)) + MarchMonthStart(month) + day - 1 - 719468)
  {
    EraIsFloor(MarchYear(year, month));
    MarchDaysByEra(MarchYear(year, month));
  }

  lemma FirstOfMonthByMarch(year: int, month: nat)
    requires 1 <= month <= 12
    ensures DayNumber(Date(year, month, 1)) == MarchDays(MarchYear(year, month)) + MarchMonthStart(month) - 719468
  {
    DaysToYearClosed(year);
    DaysToMonthClosed(year, month);
    MarchDaysStep(year);
  }

  /** For every year and every month and day number the source accepts, the closed
      form is the calendar count.  Days past the end of a month are not rejected:
      they run on into the next one. */
  lemma DaysFromCivilCounts(year: int, month: nat, day: nat)
    ensures DaysFromCivil(year, month, day)
            == if 1 <= month <= 12 && 1 <= day <= 31 then Ok(DayNumber(Date(year, month, 1)) + day - 1)
               else Err(ParseError)
  {
    if 1 <= month <= 12 && 1 <= day <= 31 {
      DaysFromCivilByMarch(year, month, day);
      FirstOfMonthByMarch(year, month);
    }
  }

  // ----- the count and the calendar -----

  /** The next calendar day is always exactly one more. */
  lemma NextDayIsOneMore(d: Date)
    requires ValidDate(d)
    ensures DayNumber(NextDay(d)) == DayNumber(d) + 1
  {
    assert DaysToYear(d.year + 1) == DaysToYear(d.year) + YearLength(d.year);
  }

  /** Counting `n` days from the epoch leads to day number `n`, in both directions. */
  lemma {:induction false} DayNumberOfDateOf(n: int)
    ensures DayNumber(DateOf(n)) == n
    decreases if n < 0 then -n else n
  {
    if n > 0 {
      DayNumberOfDateOf(n - 1);
      NextDayIsOneMore(DateOf(n - 1));
    } else if n < 0 {
      DayNumberOfDateOf(n + 1);
      NextDayIsOneMore(DateOf(n));
    }
  }

  predicate Before(a: Date, b: Date) {
    || a.year < b.year
    || (a.year == b.year && (a.month < b.month || (a.month == b.month && a.day < b.day)))
  }

  lemma {:induction false} MonthsMonotone(year: int, m: int, m': int)
    requires 1 <= m < m' <= 12
    ensures DaysToMonth(year, m) + MonthLength(year, m) <= DaysToMonth(year, m')
    decreases m'
  {
    if m + 1 >= m' {
    } else {
      MonthsMonotone(year, m, m' - 1);
    }
  }

  lemma {:induction false} YearsMonotone(year: int, year': int)
    requires year < year'
    ensures DaysToYear(year) + YearLength(year) <= DaysToYear(year')
    decreases year' - year
  {
    assert DaysToYear(year') == DaysToYear(year' - 1) + YearLength(year' - 1);
    if year + 1 >= year' {
    } else {
      YearsMonotone(year, year' - 1);
    }
  }

  /** The day number of a date lies inside its year. */
  lemma DayNumberInYear(d: Date)
    requires ValidDate(d)
    ensures DaysToYear(d.year) <= DayNumber(d) < DaysToYear(d.year) + YearLength(d.year)
  {
    if d.month > 1 {
      MonthsMonotone(d.year, 1, d.month);
    }
    if d.month < 12 {
      MonthsMonotone(d.year, d.month, 12);
    }
  }

  /** Earlier dates have smaller day numbers. */
  lemma DayNumberMonotone(a: Date, b: Date)
    requires ValidDate(a) && ValidDate(b) && Before(a, b)
    ensures DayNumber(a) < DayNumber(b)
  {
    if a.year < b.year {
      DayNumberInYear(a);
      DayNumberInYear(b);
      YearsMonotone(a.year, b.year);
    } else if a.month < b.month {
      MonthsMonotone(a.year, a.month, b.month);
    }
  }

  /** The source computes `n` for a calendar date exactly when counting `n` days from the
      epoch, forward or backward, leads to that date. */
  lemma {:induction false} DaysFromCivilIsExact(d: Date, n: int)
    requires ValidDate(d)
    ensures DaysFromCivil(d.year, d.month, d.day) == Ok(n) <==> DateOf(n) == d
  {
    DaysFromCivilCounts(d.year, d.month, d.day);
    DayNumberOfDateOf(n);
    if Before(d, DateOf(n)) {
      DayNumberMonotone(d, DateOf(n));
    } else if Before(DateOf(n), d) {
      DayNumberMonotone(DateOf(n), d);
    }
  }

  /** The dates that the tests of the source pin. */
  lemma Landmarks()
    ensures DaysFromCivil(1970, 1, 1) == Ok(0)
    ensures DaysFromCivil(2000, 1, 1) == Ok(10957)
    ensures DaysFromCivil(2024, 3, 4) == Ok(19786)
  {
  }
}
