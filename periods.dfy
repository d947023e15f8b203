/**
 * `GetSelectedTimeRange`: the named reporting periods as closed ranges of
 * instants, from the first second of the first day to the last second
 * (23:59:59) of the last day.
 */
module Periods {
  import opened Optional
  import opened Calendar

  /** A closed range of instants, as the record query's two inclusive bounds. */
  datatype Range = Range(start: Instant, end: Instant)

  /** The eight periods of the period selector. */
  datatype Period =
    | CurrentDay | PreviousDay | CurrentWeek | PreviousWeek
    | CurrentMonth | PreviousMonth | CurrentYear | PreviousYear

  /** The selector's caption for each period. */
  function Caption(p: Period): string {
    match p
    case CurrentDay => "今日"
    case PreviousDay => "昨日"
    case CurrentWeek => "本周"
    case PreviousWeek => "上周"
    case CurrentMonth => "本月"
    case PreviousMonth => "上月"
    case CurrentYear => "今年"
    case PreviousYear => "去年"
  }

  const Labels: seq<string> := ["今日", "昨日", "本周", "上周", "本月", "上月", "今年", "去年"]

  /** The period a caption names, and `None` for any other text. */
  function PeriodNamed(text: string): (p: Option<Period>)
    ensures p.Some? <==> text in Labels
    ensures p.Some? ==> Caption(p.value) == text
  {
    match text
    case "今日" => Some(CurrentDay)
    case "昨日" => Some(PreviousDay)
    case "本周" => Some(CurrentWeek)
    case "上周" => Some(PreviousWeek)
    case "本月" => Some(CurrentMonth)
    case "上月" => Some(PreviousMonth)
    case "今年" => Some(CurrentYear)
    case "去年" => Some(PreviousYear)
    case _ => None
  }

  /** Every caption names its own period. */
  lemma CaptionsNamePeriods(p: Period)
    ensures PeriodNamed(Caption(p)) == Some(p)
    ensures Caption(p) in Labels
  {
    assert Labels[PeriodIndex(p)] == Caption(p);
  }

  /** The position of a period's caption in the selector. */
  function PeriodIndex(p: Period): (i: nat)
    ensures i < |Labels| && Labels[i] == Caption(p)
  {
    match p
    case CurrentDay => 0
    case PreviousDay => 1
    case CurrentWeek => 2
    case PreviousWeek => 3
    case CurrentMonth => 4
    case PreviousMonth => 5
    case CurrentYear => 6
    case PreviousYear => 7
  }

  /** `GetSelectedTimeRange`'s `switch`: an unknown caption falls to the `default` branch, which is today. */
  function SelectedPeriod(text: string): Period {
    PeriodNamed(text).GetOr(CurrentDay)
  }

  function StartOfDay(day: nat): Instant {
    day * SecondsPerDay
  }

  /** `day.AddDays(1).AddSeconds(-1)`: the last second of the day. */
  function EndOfDay(day: nat): Instant {
    (day + 1) * SecondsPerDay - 1
  }

  /** From the start of day `first` to the end of day `last`. */
  function Days(first: nat, last: nat): Range {
    Range(StartOfDay(first), EndOfDay(last))
  }

  /** `now.Date`, as a day number. */
  function Today(now: Instant): nat {
    now / SecondsPerDay
  }

  /** The first day of the month that contains day `day`. */
  function MonthStart(day: nat): nat {
    var d := DateOf(day);
    DayNumber(Date(d.year, d.month, 1))
  }

  /** The week start as written: `now.Date.AddDays(-(int)now.DayOfWeek + 1)`. */
  function WeekStartAsWritten(today: nat): int {
    today - DayOfWeek(today) + 1
  }

  /** The Monday on or before `today`: back 6 days on a Sunday, `DayOfWeek - 1` otherwise. */
  function WeekStart(today: nat): (monday: nat)
    ensures monday <= today < monday + 7
    ensures DayOfWeek(monday) == 1
  {
    var back := (DayOfWeek(today) + 6) % 7;
    var week := today / 7;
    assert today == 7 * week + back;
    MondaysAreWeekStarts(week);
    today - back
  }

  /** Day 0 was a Monday, so every seventh day after it is one. */
  lemma {:induction false} MondaysAreWeekStarts(week: nat)
    ensures DayOfWeek(7 * week) == 1
  {
    if week > 0 {
      MondaysAreWeekStarts(week - 1);
      DayOfWeekStep(7 * (week - 1));
    }
  }

  /** The range of each period, the week counted from `monday`. */
  function RangeFrom(p: Period, now: Instant, monday: int): (r: Range)
    requires now >= 365 * SecondsPerDay
    requires monday >= 7
  {
    var today := Today(now);
    match p
    case CurrentDay => Days(today, today)
    case PreviousDay => Days(today - 1, today - 1)
    case CurrentWeek => Range(StartOfDay(monday), EndOfDay(today))
    case PreviousWeek => Days(monday - 7, monday - 1)
    case CurrentMonth => Range(StartOfDay(MonthStart(today)), EndOfDay(today))
    case PreviousMonth => LastMonthRange(today)
    case CurrentYear => Range(StartOfDay(YearStart(today)), EndOfDay(today))
    case PreviousYear => LastYearRange(today)
  }

  /** January 1 of the year of day `day`. */
  function YearStart(day: nat): nat {
    DayNumber(Date(YearOfDay(day), 1, 1))
  }

  /** 上月: from the first of the previous month to the day before this month's first. */
  function LastMonthRange(today: nat): Range
    requires today >= 365
  {
    var previous := PreviousMonthStart(YearOfDay(today), DateOf(today).month);
    PreviousMonthBefore(today);
    Days(DayNumber(previous), MonthStart(today) - 1)
  }

  /** 去年: January 1 to December 31 of the previous year. */
  function LastYearRange(today: nat): Range
    requires today >= 365
  {
    YearRange(YearOfDay(today) - 1)
  }

  /** January 1 to December 31 of `year`. */
  function YearRange(year: int): Range
    requires year >= 1
  {
    Days(DayNumber(Date(year, 1, 1)), DayNumber(Date(year, 12, 31)))
  }

  /** The year of day `day`, which is at least 2 once a whole year has passed. */
  function YearOfDay(day: nat): (year: int)
    ensures year == DateOf(day).year && year >= 1
    ensures day >= 365 ==> year >= 2
  {
    var d := DateOf(day);
    DayNumberInYear(d);
    YearStep(1);
    d.year
  }

  /** A period's range as written, with its week starting the day after a Sunday. */
  function PeriodRangeAsWritten(p: Period, now: Instant): Range
    requires now >= 365 * SecondsPerDay
  {
    RangeFrom(p, now, WeekStartAsWritten(Today(now)))
  }

  /** A period's range, with the week starting on the Monday on or before today. */
  function PeriodRange(p: Period, now: Instant): Range
    requires now >= 365 * SecondsPerDay
  {
    RangeFrom(p, now, WeekStart(Today(now)))
  }

  /** `GetSelectedTimeRange` as written. */
  function SelectedTimeRangeAsWritten(text: string, now: Instant): Range
    requires now >= 365 * SecondsPerDay
  {
    PeriodRangeAsWritten(SelectedPeriod(text), now)
  }

  /** `GetSelectedTimeRange`, with the corrected week. */
  function SelectedTimeRange(text: string, now: Instant): Range
    requires now >= 365 * SecondsPerDay
  {
    PeriodRange(SelectedPeriod(text), now)
  }

  /** The first of a month is on or before every day of that month. */
  lemma MonthStartBefore(day: nat)
    ensures MonthStart(day) <= day
    ensures DateOf(MonthStart(day)) == Date(DateOf(day).year, DateOf(day).month, 1)
  {
    var d := DateOf(day);
    DateOfDayNumber(Date(d.year, d.month, 1));
  }

  /** January 1 of its year is on or before every day of that year. */
  lemma YearStartBefore(day: nat)
    ensures YearStart(day) <= day
  {
    var d := DateOf(day);
    DayNumberInYear(d);
  }

  lemma DayOfStart(day: nat)
    ensures StartOfDay(day) / SecondsPerDay == day
    ensures EndOfDay(day) / SecondsPerDay == day
  {
  }

  /** The first and the last second of a date's day both fall on that date. */
  lemma SecondsOfDate(d: Date)
    requires ValidDate(d)
    ensures DateOf(StartOfDay(DayNumber(d)) / SecondsPerDay) == d
    ensures DateOf(EndOfDay(DayNumber(d)) / SecondsPerDay) == d
  {
    DayOfStart(DayNumber(d));
    DateOfDayNumber(d);
  }

  lemma DaysAreWhole(first: nat, last: nat)
    requires first <= last
    ensures WholeDays(Days(first, last))
  {
  }

  /**
   * Corrected: with the week starting on Monday, every period runs from the
   * first second of a day to the last second of a day, and does not end before
   * it starts.
   */
  lemma PeriodsAreWholeDays(p: Period, now: Instant)
    requires now >= 365 * SecondsPerDay
    ensures WholeDays(PeriodRange(p, now))
  {
    var today := Today(now);
    match p
    case CurrentDay => DaysAreWhole(today, today);
    case PreviousDay => DaysAreWhole(today - 1, today - 1);
    case CurrentWeek => DaysAreWhole(WeekStart(today), today);
    case PreviousWeek => DaysAreWhole(WeekStart(today) - 7, WeekStart(today) - 1);
    case CurrentMonth => ThisMonthIsWholeDays(now);
    case PreviousMonth => LastMonthIsWholeDays(now);
    case CurrentYear => ThisYearIsWholeDays(now);
    case PreviousYear => LastYearIsWholeDays(now);
  }

  /**
   * As written, every period is whole days except 本周 on a Sunday, which
   * starts tomorrow and so ends before it starts.
   */
  lemma PeriodsAsWrittenAreWholeDays(p: Period, now: Instant)
    requires now >= 365 * SecondsPerDay
    ensures WholeDays(PeriodRangeAsWritten(p, now)) <==> !(p == CurrentWeek && DayOfWeek(Today(now)) == 0)
  {
    var today := Today(now);
    if DayOfWeek(today) != 0 {
      WeekAsWrittenOffSunday(p, now);
      PeriodsAreWholeDays(p, now);
    } else if p == CurrentWeek {
      SundayWeekAsWritten(now);
    } else if p == PreviousWeek {
      SundayWeekAsWritten(now);
      DaysAreWhole(today - 6, today);
    } else {
      assert PeriodRangeAsWritten(p, now) == PeriodRange(p, now);
      PeriodsAreWholeDays(p, now);
    }
  }

  lemma ThisMonthIsWholeDays(now: Instant)
    requires now >= 365 * SecondsPerDay
    ensures WholeDays(PeriodRange(CurrentMonth, now))
  {
    var today := Today(now);
    MonthStartBefore(today);
    DaysAreWhole(MonthStart(today), today);
  }

  lemma LastMonthIsWholeDays(now: Instant)
    requires now >= 365 * SecondsPerDay
    ensures WholeDays(PeriodRange(PreviousMonth, now))
  {
    LastMonthPeriod(now);
    LastMonthRangeIsWhole(Today(now));
  }

  lemma LastMonthPeriod(now: Instant)
    requires now >= 365 * SecondsPerDay
    ensures PeriodRange(PreviousMonth, now) == LastMonthRange(Today(now))
  {
  }

  lemma LastYearPeriod(now: Instant)
    requires now >= 365 * SecondsPerDay
    ensures PeriodRange(PreviousYear, now) == LastYearRange(Today(now))
  {
  }

  lemma LastMonthRangeIsWhole(today: nat)
    requires today >= 365
    ensures WholeDays(LastMonthRange(today))
  {
    var previous := PreviousMonthStart(YearOfDay(today), DateOf(today).month);
    var first, last := DayNumber(previous), MonthStart(today) - 1;
    PreviousMonthBefore(today);
    assert LastMonthRange(today) == Days(first, last);
    DaysAreWhole(first, last);
  }

  lemma ThisYearIsWholeDays(now: Instant)
    requires now >= 365 * SecondsPerDay
    ensures WholeDays(PeriodRange(CurrentYear, now))
  {
    var today := Today(now);
    YearStartBefore(today);
    DaysAreWhole(YearStart(today), today);
  }

  lemma LastYearIsWholeDays(now: Instant)
    requires now >= 365 * SecondsPerDay
    ensures WholeDays(PeriodRange(PreviousYear, now))
  {
    LastYearPeriod(now);
    LastYearRangeIsWhole(Today(now));
  }

  lemma LastYearRangeIsWhole(today: nat)
    requires today >= 365
    ensures WholeDays(LastYearRange(today))
  {
    YearRangeIsWhole(YearOfDay(today) - 1);
  }

  lemma YearRangeIsWhole(year: int)
    requires year >= 1
    ensures WholeDays(YearRange(year))
  {
    YearInOrder(year);
    DaysAreWhole(DayNumber(Date(year, 1, 1)), DayNumber(Date(year, 12, 31)));
  }

  predicate WholeDays(r: Range) {
    r.start % SecondsPerDay == 0 && (r.end + 1) % SecondsPerDay == 0 && r.start <= r.end
  }

  /** The previous month starts before the current one. */
  lemma PreviousMonthBefore(today: nat)
    requires today >= 365
    ensures var d := DateOf(today);
      DayNumber(PreviousMonthStart(YearOfDay(today), d.month)) < MonthStart(today)
  {
    var d := DateOf(today);
    var year := YearOfDay(today);
    var previous := PreviousMonthStart(year, d.month);
    var next := NextMonthStart(previous.year, previous.month);
    assert next == Date(year, d.month, 1);
    assert DaysInMonth(previous.year, previous.month) >= 28;
  }

  /** January 1 comes before December 31 of the same year. */
  lemma YearInOrder(year: int)
    requires year >= 1
    ensures DayNumber(Date(year, 1, 1)) <= DayNumber(Date(year, 12, 31))
  {
  }

  /** 今日, and any caption that is not one of the eight, is today from 00:00:00 to 23:59:59. */
  lemma TodayIsOneDay(text: string, now: Instant)
    requires now >= 365 * SecondsPerDay
    requires text == "今日" || text !in Labels
    ensures var r := SelectedTimeRange(text, now);
      r.start == StartOfDay(Today(now)) && r.end == r.start + SecondsPerDay - 1 && r.start <= now <= r.end
  {
    assert SelectedPeriod(text) == CurrentDay;
  }

  /** 昨日 is the whole day before today. */
  lemma YesterdayIsOneDay(now: Instant)
    requires now >= 365 * SecondsPerDay
    ensures var r := PeriodRange(PreviousDay, now);
      r.end + 1 == StartOfDay(Today(now)) && r.end == r.start + SecondsPerDay - 1
  {
  }

  /**
   * 本周 runs from the Monday on or before today to the end of today, and
   * 上周 is the seven days before that Monday.
   */
  lemma WeeksStartOnMonday(now: Instant)
    requires now >= 365 * SecondsPerDay
    ensures var week := PeriodRange(CurrentWeek, now);
      var monday := week.start / SecondsPerDay;
      DayOfWeek(monday) == 1 && week.start <= now <= week.end && week.end == EndOfDay(Today(now))
      && Today(now) - monday < 7
    ensures var week := PeriodRange(CurrentWeek, now);
      var last := PeriodRange(PreviousWeek, now);
      DayOfWeek(last.start / SecondsPerDay) == 1 && last.end + 1 == week.start
      && last.end + 1 - last.start == 7 * SecondsPerDay
  {
    var monday := WeekStart(Today(now));
    DayOfStart(monday);
    DayOfStart(monday - 7);
    assert DayOfWeek(monday - 7) == DayOfWeek(monday);
  }

  /** From Monday to Saturday the week as written is the week that starts on Monday. */
  lemma WeekAsWrittenOffSunday(p: Period, now: Instant)
    requires now >= 365 * SecondsPerDay
    requires DayOfWeek(Today(now)) != 0
    ensures PeriodRangeAsWritten(p, now) == PeriodRange(p, now)
  {
  }

  /**
   * On a Sunday the week as written starts tomorrow, after it ends, and the
   * "last week" as written is the current week, ending today.
   */
  lemma SundayWeekAsWritten(now: Instant)
    requires now >= 365 * SecondsPerDay
    requires DayOfWeek(Today(now)) == 0
    ensures var week := PeriodRangeAsWritten(CurrentWeek, now);
      week.start == StartOfDay(Today(now) + 1) && week.start > week.end
    ensures var last := PeriodRangeAsWritten(PreviousWeek, now);
      last == Days(Today(now) - 6, Today(now)) && last.start <= now <= last.end
  {
  }

  /** 本月 starts on the first of this month and runs to the end of today. */
  lemma ThisMonthStartsOnTheFirst(now: Instant)
    requires now >= 365 * SecondsPerDay
    ensures var d := DateOf(Today(now));
      var month := PeriodRange(CurrentMonth, now);
      DateOf(month.start / SecondsPerDay) == Date(d.year, d.month, 1) && month.end == EndOfDay(Today(now))
  {
    var today := Today(now);
    MonthStartBefore(today);
    DayOfStart(MonthStart(today));
  }

  /**
   * 上月 starts on the first of the previous month and ends at the end of the
   * day before this month's first, covering exactly the days of that month.
   */
  lemma LastMonthIsWhole(now: Instant)
    requires now >= 365 * SecondsPerDay
    ensures var d := DateOf(Today(now));
      var month := PeriodRange(CurrentMonth, now);
      var last := PeriodRange(PreviousMonth, now);
      var first := DateOf(last.start / SecondsPerDay);
      first.day == 1 && NextMonthStart(first.year, first.month) == Date(d.year, d.month, 1)
      && last.end + 1 == month.start
      && last.end + 1 - last.start == DaysInMonth(first.year, first.month) * SecondsPerDay
  {
    var today := Today(now);
    var d := DateOf(today);
    var previous := PreviousMonthStart(YearOfDay(today), d.month);
    LastMonthPeriod(now);
    assert LastMonthRange(today) == Days(DayNumber(previous), MonthStart(today) - 1);
    SecondsOfDate(previous);
  }

  /** 今年 starts on January 1 and runs to the end of today. */
  lemma ThisYearStartsOnJanuaryFirst(now: Instant)
    requires now >= 365 * SecondsPerDay
    ensures var d := DateOf(Today(now));
      var year := PeriodRange(CurrentYear, now);
      DateOf(year.start / SecondsPerDay) == Date(d.year, 1, 1) && year.end == EndOfDay(Today(now))
  {
    SecondsOfDate(Date(YearOfDay(Today(now)), 1, 1));
  }

  /** 去年 is January 1 to December 31 of last year. */
  lemma LastYearIsWhole(now: Instant)
    requires now >= 365 * SecondsPerDay
    ensures var d := DateOf(Today(now));
      var last := PeriodRange(PreviousYear, now);
      DateOf(last.start / SecondsPerDay) == Date(d.year - 1, 1, 1)
      && DateOf(last.end / SecondsPerDay) == Date(d.year - 1, 12, 31)
  {
    var year := YearOfDay(Today(now)) - 1;
    LastYearPeriod(now);
    assert LastYearRange(Today(now)) == YearRange(year);
    YearRangeDates(year);
  }

  /** A year's range starts on its January 1 and ends on its December 31. */
  lemma YearRangeDates(year: int)
    requires year >= 1
    ensures DateOf(YearRange(year).start / SecondsPerDay) == Date(year, 1, 1)
    ensures DateOf(YearRange(year).end / SecondsPerDay) == Date(year, 12, 31)
  {
    SecondsOfDate(Date(year, 1, 1));
    SecondsOfDate(Date(year, 12, 31));
  }
}
