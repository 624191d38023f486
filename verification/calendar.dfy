/** Proleptic Gregorian calendar arithmetic on whole days.

    A calendar day is a (year, month, day) triple; an absolute day number counts
    days from 1970-01-01, the epoch of ECMAScript time values. Shifting a day by
    N days and taking the difference of two days are both done on day numbers,
    so no time of day, timezone offset or daylight-saving transition enters. */
module Calendar {

  datatype Day = Day(year: int, month: int, day: int)

  /** Leap years: divisible by 4, except centuries not divisible by 400. */
  predicate IsLeapYear(y: int) {
    y % 4 == 0 && (y % 100 != 0 || y % 400 == 0)
  }

  function YearLength(y: int): int {
    if IsLeapYear(y) then 366 else 365
  }

  function DaysInMonth(y: int, m: int): int
    requires 1 <= m <= 12
  {
    if m == 2 then (if IsLeapYear(y) then 29 else 28)
    else if m == 4 || m == 6 || m == 9 || m == 11 then 30
    else 31
  }

  /** A well-formed calendar day: month 1..12, day within that month. */
  predicate Valid(d: Day) {
    1 <= d.month <= 12 && 1 <= d.day <= DaysInMonth(d.year, d.month)
  }

  /** Days from 0000-01-01 to January 1st of year y (negative before year 0). */
  function DaysBeforeYear(y: int): int {
    365 * y + MultiplesBelow(y, 4) - MultiplesBelow(y, 100) + MultiplesBelow(y, 400)
  }

  /** The number of multiples of k in [0, y) for y >= 0; for y < 0, minus the
      number of multiples of k in [y, 0). */
  function MultiplesBelow(y: int, k: int): int
    requires k > 0
  {
    (y + k - 1) / k
  }

  /** Days from January 1st to the first of month m (m == 13 gives the year end),
      as the cumulative month table. */
  function DaysBeforeMonth(y: int, m: int): int
    requires 1 <= m <= 13
  {
    var leap := if m > 2 && IsLeapYear(y) then 1 else 0;
    leap +
    (if m == 1 then 0 else if m == 2 then 31 else if m == 3 then 59
     else if m == 4 then 90 else if m == 5 then 120 else if m == 6 then 151
     else if m == 7 then 181 else if m == 8 then 212 else if m == 9 then 243
     else if m == 10 then 273 else if m == 11 then 304 else if m == 12 then 334
     else 365)
  }

  /** Day number of 1970-01-01 counted from 0000-01-01. */
  const EpochOffset: int := 719528

  /** Absolute day number of a calendar day; 1970-01-01 is day 0. */
  function ToDays(d: Day): int
    requires Valid(d)
  {
    DaysBeforeYear(d.year) - EpochOffset + DaysBeforeMonth(d.year, d.month) + d.day - 1
  }

  /** Consecutive years are one year length apart. */
  lemma YearStep(y: int)
    ensures DaysBeforeYear(y + 1) == DaysBeforeYear(y) + YearLength(y)
  {
    MultiplesStep4(y);
    MultiplesStep100(y);
    MultiplesStep400(y);
    if y % 400 == 0 {
      Multiple400Is100(y);
    }
    if y % 100 == 0 {
      Multiple100Is4(y);
    }
  }

  /** Multiples of 400 are multiples of 100. */
  lemma Multiple400Is100(y: int)
    requires y % 400 == 0
    ensures y % 100 == 0
  {
    var q := y / 400;
    assert y == 400 * q;
    assert y == 100 * (4 * q);
  }

  /** Multiples of 100 are multiples of 4. */
  lemma Multiple100Is4(y: int)
    requires y % 100 == 0
    ensures y % 4 == 0
  {
    var q := y / 100;
    assert y == 100 * q;
    assert y == 4 * (25 * q);
  }

  /** Moving from y to y + 1 adds one multiple of 4 exactly when 4 divides y. */
  lemma MultiplesStep4(y: int)
    ensures MultiplesBelow(y + 1, 4) == MultiplesBelow(y, 4) + if y % 4 == 0 then 1 else 0
  {
  }

  /** The same step for multiples of 100. */
  lemma MultiplesStep100(y: int)
    ensures MultiplesBelow(y + 1, 100) == MultiplesBelow(y, 100) + if y % 100 == 0 then 1 else 0
  {
  }

  /** The same step for multiples of 400. */
  lemma MultiplesStep400(y: int)
    ensures MultiplesBelow(y + 1, 400) == MultiplesBelow(y, 400) + if y % 400 == 0 then 1 else 0
  {
  }

  /** The month table agrees with the month lengths, month by month. */
  lemma MonthStep(y: int, m: int)
    requires 1 <= m <= 12
    ensures DaysBeforeMonth(y, m + 1) == DaysBeforeMonth(y, m) + DaysInMonth(y, m)
    ensures DaysBeforeMonth(y, 13) == YearLength(y)
  {
  }

  /** Normalises (y, r) to the year that contains day r of a count starting at
      January 1st of y; r may be negative or exceed the year. */
  function YearWalk(y: int, r: int): (res: (int, int))
    ensures 0 <= res.1 < YearLength(res.0)
    ensures DaysBeforeYear(res.0) + res.1 == DaysBeforeYear(y) + r
    decreases if r < 0 then -r else 0, if r < 0 then 0 else r
  {
    if r < 0 then
      YearStep(y - 1);
      YearWalk(y - 1, r + YearLength(y - 1))
    else if r >= YearLength(y) then
      YearStep(y);
      YearWalk(y + 1, r - YearLength(y))
    else
      (y, r)
  }

  /** The day of year y that lies r days after the first of month m. */
  function MonthWalk(y: int, m: int, r: int): (d: Day)
    requires 1 <= m <= 12 && 0 <= r
    requires DaysBeforeMonth(y, m) + r < YearLength(y)
    ensures Valid(d) && d.year == y && m <= d.month
    ensures DaysBeforeMonth(y, d.month) + d.day - 1 == DaysBeforeMonth(y, m) + r
    decreases 12 - m
  {
    MonthStep(y, m);
    if r < DaysInMonth(y, m) then Day(y, m, r + 1)
    else MonthWalk(y, m + 1, r - DaysInMonth(y, m))
  }

  /** The calendar day with day number n. */
  function FromDays(n: int): (d: Day)
    ensures Valid(d) && ToDays(d) == n
  {
    var (y, r) := YearWalk(1970, n);
    MonthStep(y, 1);
    MonthWalk(y, 1, r)
  }

  /** Zero-based position of a day within its year. */
  function DayOfYear(d: Day): int
    requires Valid(d)
  {
    DaysBeforeMonth(d.year, d.month) + d.day - 1
  }

  lemma DayOfYearBounds(d: Day)
    requires Valid(d)
    ensures 0 <= DayOfYear(d) < YearLength(d.year)
  {
    MonthStep(d.year, d.month);
  }

  /** A later year starts no earlier than the end of an earlier one. */
  lemma {:induction false} YearsOrdered(a: int, b: int)
    requires a < b
    ensures DaysBeforeYear(a) + YearLength(a) <= DaysBeforeYear(b)
    decreases b - a
  {
    YearStep(a);
    if a + 1 < b {
      YearsOrdered(a + 1, b);
      assert YearLength(a + 1) > 0;
    }
  }

  /** Chronological order of calendar days: by year, then month, then day. */
  predicate Before(a: Day, b: Day) {
    a.year < b.year
    || (a.year == b.year && a.month < b.month)
    || (a.year == b.year && a.month == b.month && a.day < b.day)
  }

  lemma BeforeHasFewerDays(a: Day, b: Day)
    requires Valid(a) && Valid(b) && Before(a, b)
    ensures ToDays(a) < ToDays(b)
  {
    DayOfYearBounds(a);
    DayOfYearBounds(b);
    if a.year < b.year {
      YearsOrdered(a.year, b.year);
    } else if a.month < b.month {
      MonthStep(a.year, a.month);
    }
  }

  /** Day numbers order calendar days chronologically. */
  lemma OrderAgreesWithDays(a: Day, b: Day)
    requires Valid(a) && Valid(b)
    ensures Before(a, b) <==> ToDays(a) < ToDays(b)
    ensures a == b <==> ToDays(a) == ToDays(b)
  {
    if Before(a, b) {
      BeforeHasFewerDays(a, b);
    } else if a != b {
      BeforeHasFewerDays(b, a);
    }
  }

  /** Converting a day to its number and back yields the same day. */
  lemma FromDaysToDays(d: Day)
    requires Valid(d)
    ensures FromDays(ToDays(d)) == d
  {
    OrderAgreesWithDays(FromDays(ToDays(d)), d);
  }

  /** The day n days after d (before d when n is negative). */
  function Shift(d: Day, n: int): (r: Day)
    requires Valid(d)
    ensures Valid(r) && ToDays(r) == ToDays(d) + n
  {
    FromDays(ToDays(d) + n)
  }

  /** Signed number of days from a to b; positive when b is later. It is the
      shift that carries a to b. */
  function DaysBetween(a: Day, b: Day): (n: int)
    requires Valid(a) && Valid(b)
    ensures Shift(a, n) == b
  {
    FromDaysToDays(b);
    ToDays(b) - ToDays(a)
  }

  lemma ShiftZero(d: Day)
    requires Valid(d)
    ensures Shift(d, 0) == d
  {
    FromDaysToDays(d);
  }

  lemma ShiftCompose(d: Day, a: int, b: int)
    requires Valid(d)
    ensures Shift(Shift(d, a), b) == Shift(d, a + b)
  {
    OrderAgreesWithDays(Shift(Shift(d, a), b), Shift(d, a + b));
  }

  /** The difference undoes the shift, for every offset. */
  lemma DaysBetweenShift(d: Day, n: int)
    requires Valid(d)
    ensures DaysBetween(d, Shift(d, n)) == n
  {
  }

  /** Shifting two days by the same offset keeps their difference. */
  lemma ShiftKeepsDaysBetween(a: Day, b: Day, n: int)
    requires Valid(a) && Valid(b)
    ensures DaysBetween(Shift(a, n), Shift(b, n)) == DaysBetween(a, b)
  {
  }

  lemma DaysBetweenProperties(a: Day, b: Day)
    requires Valid(a) && Valid(b)
    ensures DaysBetween(a, a) == 0
    ensures DaysBetween(a, b) == -DaysBetween(b, a)
    ensures DaysBetween(a, b) == 0 <==> a == b
    ensures DaysBetween(a, b) > 0 <==> Before(a, b)
  {
    OrderAgreesWithDays(a, b);
  }

  /** The next calendar day, by rolling over month and year ends. */
  function NextDay(d: Day): Day
    requires Valid(d)
  {
    if d.day < DaysInMonth(d.year, d.month) then Day(d.year, d.month, d.day + 1)
    else if d.month < 12 then Day(d.year, d.month + 1, 1)
    else Day(d.year + 1, 1, 1)
  }

  /** The previous calendar day, by rolling back over month and year starts. */
  function PreviousDay(d: Day): Day
    requires Valid(d)
  {
    if d.day > 1 then Day(d.year, d.month, d.day - 1)
    else if d.month > 1 then Day(d.year, d.month - 1, DaysInMonth(d.year, d.month - 1))
    else Day(d.year - 1, 12, 31)
  }

  /** A shift by one day is the calendar successor, rollovers included. */
  lemma ShiftOneIsNextDay(d: Day)
    requires Valid(d)
    ensures Shift(d, 1) == NextDay(d)
  {
    var e := NextDay(d);
    MonthStep(d.year, d.month);
    YearStep(d.year);
    assert Valid(e) && ToDays(e) == ToDays(d) + 1;
    OrderAgreesWithDays(Shift(d, 1), e);
  }

  /** A shift by minus one day is the calendar predecessor. */
  lemma ShiftMinusOneIsPreviousDay(d: Day)
    requires Valid(d)
    ensures Shift(d, -1) == PreviousDay(d)
  {
    var e := PreviousDay(d);
    if d.month > 1 {
      MonthStep(d.year, d.month - 1);
    }
    YearStep(d.year - 1);
    MonthStep(d.year - 1, 12);
    assert Valid(e) && ToDays(e) == ToDays(d) - 1;
    OrderAgreesWithDays(Shift(d, -1), e);
  }

  /** February 29th follows February 28th exactly in leap years. */
  lemma AfterFebruary28(y: int)
    ensures Shift(Day(y, 2, 28), 1) == if IsLeapYear(y) then Day(y, 2, 29) else Day(y, 3, 1)
  {
    ShiftOneIsNextDay(Day(y, 2, 28));
  }
}
