/**
 * The proleptic Gregorian calendar as .NET's `DateTime` uses it. An instant is a
 * whole number of seconds since 0001-01-01 00:00:00 (`DateTime.Ticks` divided
 * by 10^7), and a day number counts days from 0001-01-01, which was a Monday.
 */
module Calendar {

  const SecondsPerMinute: nat := 60
  const SecondsPerHour: nat := 3600
  const SecondsPerDay: nat := 86400

  /** Seconds since 0001-01-01 00:00:00, local time. */
  type Instant = nat

  datatype Date = Date(year: int, month: int, day: int)

  predicate IsLeapYear(year: int) {
    year % 4 == 0 && (year % 100 != 0 || year % 400 == 0)
  }

  function DaysInYear(year: int): int {
    if IsLeapYear(year) then 366 else 365
  }

  /** Days of the year before the first of `month`; month 13 stands for the next January. */
  function DaysBeforeMonth(year: int, month: int): (r: int)
    requires 1 <= month <= 13
    ensures month == 1 ==> r == 0
    ensures month == 13 ==> r == DaysInYear(year)
  {
    var common := [0, 31, 59, 90, 120, 151, 181, 212, 243, 273, 304, 334, 365];
    common[month - 1] + (if IsLeapYear(year) && month > 2 then 1 else 0)
  }

  /** `DateTime.DaysInMonth`. */
  function DaysInMonth(year: int, month: int): (r: int)
    requires 1 <= month <= 12
    ensures 28 <= r <= 31
    ensures r == 29 <==> month == 2 && IsLeapYear(year)
    ensures r == 28 <==> month == 2 && !IsLeapYear(year)
    ensures r == 30 <==> month in {4, 6, 9, 11}
  {
    DaysBeforeMonth(year, month + 1) - DaysBeforeMonth(year, month)
  }

  /** Days from 0001-01-01 to January 1 of `year`: the lengths of the years before it. */
  function DaysBeforeYear(year: int): nat
    requires year >= 1
    decreases year
  {
    if year == 1 then 0 else DaysBeforeYear(year - 1) + DaysInYear(year - 1)
  }

  /** The closed form `DateTime` computes: 365 days a year plus one per leap year before `year`. */
  function DaysBeforeYearFormula(year: int): int
    requires year >= 1
  {
    var y := year - 1;
    365 * y + y / 4 - y / 100 + y / 400
  }

  predicate ValidDate(d: Date) {
    d.year >= 1 && 1 <= d.month <= 12 && 1 <= d.day <= DaysInMonth(d.year, d.month)
  }

  /** The day number of a date: days since 0001-01-01. */
  function DayNumber(d: Date): nat
    requires ValidDate(d)
  {
    DaysBeforeYear(d.year) + DaysBeforeMonth(d.year, d.month) + d.day - 1
  }

  /**
   * `DateTime.DayOfWeek` of a day: 0 is Sunday, 1 Monday, ..., 6 Saturday.
   * Day 0, 0001-01-01, was a Monday.
   */
  function DayOfWeek(dayNumber: nat): (r: nat)
    ensures r < 7
    ensures dayNumber == 0 ==> r == 1
  {
    (dayNumber + 1) % 7
  }

  /** Each day is the weekday after the one before it, and the weekdays repeat every seven days. */
  lemma DayOfWeekStep(n: nat)
    ensures DayOfWeek(n + 1) == (DayOfWeek(n) + 1) % 7
    ensures DayOfWeek(n + 7) == DayOfWeek(n)
  {
  }

  /**
   * The count agrees with the calendar: 2000-01-01 was a Saturday,
   * 2026-10-11 a Sunday and 2026-10-14 a Wednesday.
   */
  lemma DayOfWeekAnchors()
    ensures DayOfWeek(DayNumber(Date(2000, 1, 1))) == 6
    ensures DayOfWeek(DayNumber(Date(2026, 10, 11))) == 0
    ensures DayOfWeek(DayNumber(Date(2026, 10, 14))) == 3
  {
    DaysBeforeYearClosedForm(2000);
    DaysBeforeYearClosedForm(2026);
    assert DaysBeforeYear(2000) == 730119;
    assert DaysBeforeYear(2026) == 739616;
  }

  lemma DivStep4(a: nat)
    ensures (a + 1) / 4 == a / 4 + (if (a + 1) % 4 == 0 then 1 else 0)
  {
  }

  lemma DivStep100(a: nat)
    ensures (a + 1) / 100 == a / 100 + (if (a + 1) % 100 == 0 then 1 else 0)
  {
  }

  lemma DivStep400(a: nat)
    ensures (a + 1) / 400 == a / 400 + (if (a + 1) % 400 == 0 then 1 else 0)
  {
  }

  /** A multiple of 400 is a multiple of 100. */
  lemma QuadricentennialIsCentennial(year: int)
    requires year % 400 == 0
    ensures year % 100 == 0
  {
    var q := year / 400;
    assert year == 100 * (4 * q);
  }

  /** A multiple of 100 is a multiple of 4. */
  lemma CentennialIsQuadrennial(year: int)
    requires year % 100 == 0
    ensures year % 4 == 0
  {
    var q := year / 100;
    assert year == 4 * (25 * q);
  }

  /** The closed form grows by the length of each year. */
  lemma FormulaStep(year: int)
    requires year >= 1
    ensures DaysBeforeYearFormula(year + 1) == DaysBeforeYearFormula(year) + DaysInYear(year)
  {
    var y := year - 1;
    DivStep4(y);
    DivStep100(y);
    DivStep400(y);
    if year % 400 == 0 {
      QuadricentennialIsCentennial(year);
    }
    if year % 100 == 0 {
      CentennialIsQuadrennial(year);
    }
    var a := if year % 4 == 0 then 1 else 0;
    var b := if year % 100 == 0 then 1 else 0;
    var c := if year % 400 == 0 then 1 else 0;
    assert DaysBeforeYearFormula(year + 1) - DaysBeforeYearFormula(year) == 365 + a - b + c;
  }

  /** Counting the years one by one gives the closed form. */
  lemma {:induction false} DaysBeforeYearClosedForm(year: int)
    requires year >= 1
    ensures DaysBeforeYear(year) == DaysBeforeYearFormula(year)
    decreases year
  {
    if year > 1 {
      DaysBeforeYearClosedForm(year - 1);
      FormulaStep(year - 1);
    }
  }

  /** Going from one New Year's Day to the next takes the length of the year. */
  lemma YearStep(year: int)
    requires year >= 1
    ensures DaysBeforeYear(year + 1) == DaysBeforeYear(year) + DaysInYear(year)
  {
  }

  /** New Year's Days come in order, at least 365 days apart. */
  lemma {:induction false} YearStartsInOrder(a: int, b: int)
    requires 1 <= a <= b
    ensures DaysBeforeYear(a) + 365 * (b - a) <= DaysBeforeYear(b)
    decreases b - a
  {
    if a < b {
      YearStartsInOrder(a, b - 1);
      YearStep(b - 1);
    }
  }

  /** The year whose days include day number `n`, searching upward from `year`. */
  function YearFrom(n: nat, year: int): (r: int)
    requires year >= 1 && DaysBeforeYear(year) <= n
    ensures r >= year && DaysBeforeYear(r) <= n < DaysBeforeYear(r + 1)
    decreases n - DaysBeforeYear(year)
  {
    YearStep(year);
    if n < DaysBeforeYear(year + 1) then year else YearFrom(n, year + 1)
  }

  /** The month of `year` whose days include day `r` of the year, searching upward from `month`. */
  function MonthFrom(year: int, r: int, month: int): (m: int)
    requires 1 <= month <= 12 && DaysBeforeMonth(year, month) <= r < DaysInYear(year)
    ensures month <= m <= 12 && DaysBeforeMonth(year, m) <= r < DaysBeforeMonth(year, m + 1)
    decreases 12 - month
  {
    if r < DaysBeforeMonth(year, month + 1) then month else MonthFrom(year, r, month + 1)
  }

  /** The date of day number `n` (`DateTime.Year`, `.Month`, `.Day`). */
  function DateOf(n: nat): (d: Date)
    ensures ValidDate(d) && DayNumber(d) == n
  {
    var year := YearFrom(n, 1);
    YearStep(year);
    DateInYear(year, n - DaysBeforeYear(year))
  }

  /** The date of day `r` (counted from 0) of `year`. */
  function DateInYear(year: int, r: int): (d: Date)
    requires year >= 1 && 0 <= r < DaysInYear(year)
    ensures ValidDate(d) && d.year == year
    ensures DaysBeforeMonth(year, d.month) + d.day - 1 == r
  {
    var month := MonthFrom(year, r, 1);
    Date(year, month, r - DaysBeforeMonth(year, month) + 1)
  }

  /** Only one year contains a given day number. */
  lemma YearUnique(n: nat, a: int, b: int)
    requires a >= 1 && DaysBeforeYear(a) <= n < DaysBeforeYear(a + 1)
    requires b >= 1 && DaysBeforeYear(b) <= n < DaysBeforeYear(b + 1)
    ensures a == b
  {
    if a < b {
      YearStartsInOrder(a + 1, b);
    } else if b < a {
      YearStartsInOrder(b + 1, a);
    }
  }

  /** Months start in order within a year. */
  lemma MonthStartsInOrder(year: int, a: int, b: int)
    requires 1 <= a < b <= 13
    ensures DaysBeforeMonth(year, a + 1) <= DaysBeforeMonth(year, b)
  {
  }

  /** The day number of a valid date falls within its year. */
  lemma DayNumberInYear(d: Date)
    requires ValidDate(d)
    ensures DaysBeforeYear(d.year) <= DayNumber(d) < DaysBeforeYear(d.year + 1)
    ensures DayNumber(d) - DaysBeforeYear(d.year) == DaysBeforeMonth(d.year, d.month) + d.day - 1
  {
    if d.month < 12 {
      MonthStartsInOrder(d.year, d.month, 13);
    }
    YearStep(d.year);
  }

  /** The month search finds the month of a valid date. */
  lemma MonthOfDay(d: Date)
    requires ValidDate(d)
    ensures MonthFrom(d.year, DaysBeforeMonth(d.year, d.month) + d.day - 1, 1) == d.month
  {
    if d.month < 12 {
      MonthStartsInOrder(d.year, d.month, 13);
    }
    var r := DaysBeforeMonth(d.year, d.month) + d.day - 1;
    var month := MonthFrom(d.year, r, 1);
    if month < d.month {
      MonthStartsInOrder(d.year, month, d.month);
    } else if d.month < month {
      MonthStartsInOrder(d.year, d.month, month);
    }
  }

  /** A valid date is the date of its own day of the year. */
  lemma DateInYearOf(d: Date)
    requires ValidDate(d)
    requires DaysBeforeMonth(d.year, d.month) + d.day - 1 < DaysInYear(d.year)
    ensures DateInYear(d.year, DaysBeforeMonth(d.year, d.month) + d.day - 1) == d
  {
    MonthOfDay(d);
  }

  /** A valid date is the date of its own day number. */
  lemma DateOfDayNumber(d: Date)
    requires ValidDate(d)
    ensures DateOf(DayNumber(d)) == d
  {
    var n := DayNumber(d);
    DayNumberInYear(d);
    DateOfInYear(n, d.year);
    YearStep(d.year);
    DateInYearOf(d);
  }

  /** The date of a day number is the date of its day within the year that holds it. */
  lemma DateOfInYear(n: nat, year: int)
    requires year >= 1 && DaysBeforeYear(year) <= n < DaysBeforeYear(year + 1)
    ensures DateOf(n) == DateInYear(year, n - DaysBeforeYear(year))
  {
    YearUnique(n, year, YearFrom(n, 1));
    YearStep(year);
  }

  /** The year search finds the year of a valid date. */
  lemma YearOfDayNumber(d: Date)
    requires ValidDate(d)
    ensures YearFrom(DayNumber(d), 1) == d.year
  {
    var n := DayNumber(d);
    DayNumberInYear(d);
    YearUnique(n, d.year, YearFrom(n, 1));
  }

  /** The first day of the month after `month`. */
  function NextMonthStart(year: int, month: int): (d: Date)
    requires year >= 1 && 1 <= month <= 12
    ensures ValidDate(d) && d.day == 1
    ensures DayNumber(d) == DayNumber(Date(year, month, 1)) + DaysInMonth(year, month)
  {
    YearStep(year);
    if month == 12 then Date(year + 1, 1, 1) else Date(year, month + 1, 1)
  }

  /** The first day of the month before `month` (`AddMonths(-1)` on a first of the month). */
  function PreviousMonthStart(year: int, month: int): (d: Date)
    requires year >= 1 && 1 <= month <= 12 && (year >= 2 || month > 1)
    ensures ValidDate(d) && d.day == 1 && d.year >= 1
    ensures NextMonthStart(d.year, d.month) == Date(year, month, 1)
  {
    if month == 1 then Date(year - 1, 12, 1) else Date(year, month - 1, 1)
  }
}
