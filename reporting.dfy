/**
 * The reporting arithmetic of the main window, in seconds: range totals, the
 * buckets of the total-duration chart, the live total-time figure, the
 * detail pane's task total, and the filters and orderings of the statistics
 * and completed-task grids.
 */
module Reporting {
  import opened Optional
  import opened Calendar
  import opened ClockFormat
  import opened Tasks
  import opened TimeRecords
  import opened TaskStats
  import opened Ordering
  import opened Sums
  import opened Ledger
  import opened Periods
  import opened LedgerLaws

  // ----- range totals -----

  /** `GetDurationInRange(start, end)`: `Duration ?? 0` over the records whose start lies in `[start, end]`. */
  function DurationInRange(records: seq<TimeRecord>, start: Instant, end: Instant): int {
    SumBy(Filter(records, RecordSelected(None, Some(start), Some(end))), DurationOf)
  }

  /** The records that start at or after `start` and strictly before `end`. */
  function StartsWithin(start: Instant, end: Instant): TimeRecord -> bool {
    (r: TimeRecord) => start <= r.startTime < end
  }

  /** `Duration ?? 0` over the records that start in the half-open span `[start, end)`. */
  function SpanTotal(records: seq<TimeRecord>, start: Instant, end: Instant): int {
    SumBy(Filter(records, StartsWithin(start, end)), DurationOf)
  }

  /** Start times are whole seconds, so `[start, end)` is the inclusive query up to `end - 1`. */
  lemma SpanIsInclusiveRange(records: seq<TimeRecord>, start: Instant, end: Instant)
    requires end >= 1
    ensures SpanTotal(records, start, end) == DurationInRange(records, start, end - 1)
  {
    FilterCongruent(records, StartsWithin(start, end), RecordSelected(None, Some(start), Some(end - 1)));
  }

  /** Adjacent half-open spans add up to the span they make together. */
  lemma SpanSplit(records: seq<TimeRecord>, a: Instant, b: Instant, c: Instant)
    requires a <= b <= c
    ensures SpanTotal(records, a, c) == SpanTotal(records, a, b) + SpanTotal(records, b, c)
  {
    SumByFilter(records, StartsWithin(a, c), DurationOf);
    SumByFilter(records, StartsWithin(a, b), DurationOf);
    SumByFilter(records, StartsWithin(b, c), DurationOf);
    SumBySplit(records, Masked(StartsWithin(a, b), DurationOf), Masked(StartsWithin(b, c), DurationOf),
      Masked(StartsWithin(a, c), DurationOf));
  }

  // ----- chart buckets -----

  /** A bucket of the total-duration chart: its axis caption and the instants `[start, end)` it spans. */
  datatype Bucket = Bucket(caption: string, start: Instant, end: Instant)

  /** A point of the chart: the bucket's caption and its total in seconds. */
  datatype ChartPoint = ChartPoint(caption: string, seconds: int)

  /** `$"{hour:00}:00"`. */
  function HourCaption(hour: nat): string {
    TwoDigits(hour) + ":00"
  }

  /** `ToString("MM/dd")`, under a culture whose date separator is `/`. */
  function DayCaption(day: nat): string {
    var d := DateOf(day);
    TwoDigits(d.month) + "/" + TwoDigits(d.day)
  }

  /** `ToString("MM月")`. */
  function MonthCaption(month: nat): string {
    TwoDigits(month) + "月"
  }

  /** The 24 hours of day `day`: `hourStart = start.Date.AddHours(hour)`, `hourEnd = hourStart.AddHours(1)`. */
  function HourBuckets(day: nat): seq<Bucket> {
    seq(24, h requires 0 <= h < 24 =>
      Bucket(HourCaption(h), StartOfDay(day) + h * SecondsPerHour, StartOfDay(day) + (h + 1) * SecondsPerHour))
  }

  /** `count` days from day `first`, each ending where the next day starts. */
  function DayBuckets(first: nat, count: nat): seq<Bucket> {
    seq(count, i requires 0 <= i < count => Bucket(DayCaption(first + i), StartOfDay(first + i), StartOfDay(first + i + 1)))
  }

  /** `monthStart = new DateTime(year, month, 1)`, `monthEnd = monthStart.AddMonths(1)`. */
  function MonthBucket(year: int, month: int): Bucket
    requires year >= 1 && 1 <= month <= 12
  {
    Bucket(MonthCaption(month), StartOfDay(DayNumber(Date(year, month, 1))), StartOfDay(DayNumber(NextMonthStart(year, month))))
  }

  /** The 12 months of `year`. */
  function MonthBuckets(year: int): seq<Bucket>
    requires year >= 1
  {
    seq(12, i requires 0 <= i < 12 => MonthBucket(year, i + 1))
  }

  /** The days of the month that contains day `day`, one bucket each. */
  function MonthDayBuckets(day: nat): seq<Bucket> {
    var date := DateOf(day);
    DayBuckets(DayNumber(Date(date.year, date.month, 1)), DaysInMonth(date.year, date.month))
  }

  /** The 12 months of the year that contains day `day`. */
  function YearMonthBuckets(day: nat): seq<Bucket> {
    MonthBuckets(YearOfDay(day))
  }

  /**
   * The buckets of `UpdateTotalDurationChart` for a period whose range starts
   * at `start`: hours for 今日, 7 days for the weeks, the days of the start's
   * month for the months, 12 months of the start's year for the years, and
   * none for 昨日, which its `switch` does not name.
   */
  function Buckets(p: Period, start: Instant): seq<Bucket> {
    var day := start / SecondsPerDay;
    match p
    case CurrentDay => HourBuckets(day)
    case PreviousDay => []
    case CurrentWeek => DayBuckets(day, 7)
    case PreviousWeek => DayBuckets(day, 7)
    case CurrentMonth => MonthDayBuckets(day)
    case PreviousMonth => MonthDayBuckets(day)
    case CurrentYear => YearMonthBuckets(day)
    case PreviousYear => YearMonthBuckets(day)
  }

  /** The buckets for a selector caption; a caption the selector does not offer charts nothing. */
  function SelectedBuckets(text: string, start: Instant): seq<Bucket> {
    match PeriodNamed(text)
    case None => []
    case Some(p) => Buckets(p, start)
  }

  /** The number of buckets per period. */
  function BucketCount(p: Period, start: Instant): nat {
    var date := DateOf(start / SecondsPerDay);
    match p
    case CurrentDay => 24
    case PreviousDay => 0
    case CurrentWeek => 7
    case PreviousWeek => 7
    case CurrentMonth => DaysInMonth(date.year, date.month)
    case PreviousMonth => DaysInMonth(date.year, date.month)
    case CurrentYear => 12
    case PreviousYear => 12
  }

  /** Each bucket is non-empty and ends where the next one starts. */
  ghost predicate Tiled(bs: seq<Bucket>) {
    (forall i :: 0 <= i < |bs| ==> bs[i].start < bs[i].end)
    && (forall i :: 0 <= i < |bs| - 1 ==> bs[i].end == bs[i + 1].start)
  }

  /** 24, 7, the month's days or 12 buckets that tile time from the first bucket's start on. */
  lemma BucketsTile(p: Period, start: Instant)
    ensures |Buckets(p, start)| == BucketCount(p, start)
    ensures Tiled(Buckets(p, start))
  {
    BucketsCount(p, start);
    BucketsAreTiled(p, start);
  }

  lemma BucketsCount(p: Period, start: Instant)
    ensures |Buckets(p, start)| == BucketCount(p, start)
  {
    var day := start / SecondsPerDay;
    match p
    case CurrentMonth => MonthDayBucketsTile(day);
    case PreviousMonth => MonthDayBucketsTile(day);
    case _ =>
  }

  lemma BucketsAreTiled(p: Period, start: Instant)
    ensures Tiled(Buckets(p, start))
  {
    var day := start / SecondsPerDay;
    match p
    case CurrentDay => HourBucketsTile(day);
    case PreviousDay =>
    case CurrentWeek => assert Buckets(p, start) == DayBuckets(day, 7); DayBucketsTile(day, 7);
    case PreviousWeek => assert Buckets(p, start) == DayBuckets(day, 7); DayBucketsTile(day, 7);
    case CurrentMonth => MonthBucketsAre(p, start); MonthDayBucketsTile(day);
    case PreviousMonth => MonthBucketsAre(p, start); MonthDayBucketsTile(day);
    case CurrentYear => YearBucketsAre(p, start); MonthBucketsTile(YearOfDay(day));
    case PreviousYear => YearBucketsAre(p, start); MonthBucketsTile(YearOfDay(day));
  }

  /** The buckets for any caption tile time. */
  lemma SelectedBucketsTile(text: string, start: Instant)
    ensures Tiled(SelectedBuckets(text, start))
  {
    match PeriodNamed(text)
    case None =>
    case Some(p) => BucketsTile(p, start);
  }

  lemma MonthDayBucketsTile(day: nat)
    ensures |MonthDayBuckets(day)| == DaysInMonth(DateOf(day).year, DateOf(day).month)
    ensures Tiled(MonthDayBuckets(day))
  {
    var date := DateOf(day);
    DayBucketsTile(DayNumber(Date(date.year, date.month, 1)), DaysInMonth(date.year, date.month));
  }

  lemma HourBucketsTile(day: nat)
    ensures Tiled(HourBuckets(day))
  {
  }

  lemma DayBucketsTile(first: nat, count: nat)
    ensures Tiled(DayBuckets(first, count))
  {
    var bs := DayBuckets(first, count);
    forall i | 0 <= i < count ensures bs[i].start < bs[i].end {
      NextDayStart(first + i);
    }
  }

  lemma NextDayStart(day: nat)
    ensures StartOfDay(day) < StartOfDay(day + 1)
  {
  }

  lemma MonthBucketsTile(year: int)
    requires year >= 1
    ensures Tiled(MonthBuckets(year))
  {
    var bs := MonthBuckets(year);
    forall i | 0 <= i < 12 ensures bs[i].start < bs[i].end && (i < 11 ==> bs[i].end == bs[i + 1].start) {
      MonthBucketFacts(year, i + 1);
    }
  }

  /** A month's bucket is non-empty, and ends where the next month's starts. */
  lemma MonthBucketFacts(year: int, month: int)
    requires year >= 1 && 1 <= month <= 12
    ensures MonthBucket(year, month).start < MonthBucket(year, month).end
    ensures month < 12 ==> MonthBucket(year, month).end == MonthBucket(year, month + 1).start
  {
    var next := NextMonthStart(year, month);
    assert DayNumber(next) == DayNumber(Date(year, month, 1)) + DaysInMonth(year, month);
    if month < 12 {
      assert next == Date(year, month + 1, 1);
    }
  }

  /** `UpdateTotalDurationChart` as written: each bucket queried with both ends included. */
  function ChartAsWritten(records: seq<TimeRecord>, bs: seq<Bucket>): (points: seq<ChartPoint>)
    ensures |points| == |bs|
  {
    seq(|bs|, i requires 0 <= i < |bs| => ChartPoint(bs[i].caption, DurationInRange(records, bs[i].start, bs[i].end)))
  }

  /** The chart with each bucket's end left out, so that every record falls in at most one bucket. */
  function Chart(records: seq<TimeRecord>, bs: seq<Bucket>): (points: seq<ChartPoint>)
    ensures |points| == |bs|
  {
    seq(|bs|, i requires 0 <= i < |bs| => ChartPoint(bs[i].caption, SpanTotal(records, bs[i].start, bs[i].end)))
  }

  function PointSeconds(p: ChartPoint): int {
    p.seconds
  }

  /** The chart's values add up to the total over the whole span its buckets tile. */
  lemma {:induction false} ChartAddsUp(records: seq<TimeRecord>, bs: seq<Bucket>)
    requires |bs| >= 1 && Tiled(bs)
    ensures bs[0].start < bs[|bs| - 1].end
    ensures SumBy(Chart(records, bs), PointSeconds) == SpanTotal(records, bs[0].start, bs[|bs| - 1].end)
    decreases |bs|
  {
    var n := |bs| - 1;
    var points := Chart(records, bs);
    assert points[..n] == Chart(records, bs[..n]);
    if n == 0 {
      assert points[..n] == [];
    } else {
      ChartAddsUp(records, bs[..n]);
      SpanSplit(records, bs[0].start, bs[n - 1].end, bs[n].end);
    }
  }

  /**
   * A record that starts exactly where a bucket ends is selected by that
   * bucket's inclusive query and by the next one's.
   */
  lemma BoundaryInBothBuckets(p: Period, start: Instant, i: nat, r: TimeRecord)
    requires i + 1 < |Buckets(p, start)|
    requires r.startTime == Buckets(p, start)[i].end
    ensures var bs := Buckets(p, start);
      RecordSelected(None, Some(bs[i].start), Some(bs[i].end))(r)
      && RecordSelected(None, Some(bs[i + 1].start), Some(bs[i + 1].end))(r)
      && !StartsWithin(bs[i].start, bs[i].end)(r) && StartsWithin(bs[i + 1].start, bs[i + 1].end)(r)
  {
    BucketsTile(p, start);
  }

  /** A closed ten-minute session starting at 01:00 of day `day`. */
  function BoundarySession(day: nat): TimeRecord {
    TimeRecord(1, 1, StartOfDay(day) + SecondsPerHour, Some(StartOfDay(day) + SecondsPerHour + 600), Some(600),
      None, StartOfDay(day), None)
  }

  /**
   * As written, the hourly chart of 今日 shows that session in both the 00:00
   * and the 01:00 bucket, 1200 seconds for the two hours together, though the
   * two hours hold 600 seconds of work.
   */
  lemma ChartAsWrittenCountsTwice(day: nat)
    ensures var records := [BoundarySession(day)];
      var bs := Buckets(CurrentDay, StartOfDay(day));
      var points := ChartAsWritten(records, bs);
      points[0].seconds == 600 && points[1].seconds == 600
      && DurationInRange(records, bs[0].start, bs[1].end) == 600
  {
    var r := BoundarySession(day);
    assert StartOfDay(day) / SecondsPerDay == day;
    var bs := Buckets(CurrentDay, StartOfDay(day));
    assert [r][..0] == [];
    assert SumBy([r], DurationOf) == 600;
    assert Filter([r], RecordSelected(None, Some(bs[0].start), Some(bs[0].end))) == [r];
    assert Filter([r], RecordSelected(None, Some(bs[1].start), Some(bs[1].end))) == [r];
    assert Filter([r], RecordSelected(None, Some(bs[0].start), Some(bs[1].end))) == [r];
    var points := ChartAsWritten([r], bs);
    assert points[0].seconds == DurationInRange([r], bs[0].start, bs[0].end);
    assert points[1].seconds == DurationInRange([r], bs[1].start, bs[1].end);
  }

  /** With each bucket's end left out, the same session is counted once, in the 01:00 bucket. */
  lemma ChartCountsOnce(day: nat)
    ensures var records := [BoundarySession(day)];
      var points := Chart(records, Buckets(CurrentDay, StartOfDay(day)));
      points[0].seconds == 0 && points[1].seconds == 600
  {
    var r := BoundarySession(day);
    assert StartOfDay(day) / SecondsPerDay == day;
    var bs := Buckets(CurrentDay, StartOfDay(day));
    assert [r][..0] == [];
    assert SumBy([r], DurationOf) == 600;
    assert Filter([r], StartsWithin(bs[0].start, bs[0].end)) == [];
    assert Filter([r], StartsWithin(bs[1].start, bs[1].end)) == [r];
    var points := Chart([r], bs);
    assert points[0].seconds == SpanTotal([r], bs[0].start, bs[0].end);
    assert points[1].seconds == SpanTotal([r], bs[1].start, bs[1].end);
  }

  /** The periods whose range ends where their last bucket ends: the others end today. */
  predicate ChartSpansPeriod(p: Period) {
    p.CurrentDay? || p.PreviousWeek? || p.PreviousMonth? || p.PreviousYear?
  }

  /** The buckets start with the range and end one second after it. */
  predicate Spans(bs: seq<Bucket>, range: Range) {
    |bs| >= 1 && bs[0].start == range.start && bs[|bs| - 1].end == range.end + 1
  }

  /**
   * For today, last week, last month and last year the corrected chart spans
   * exactly the corrected range, so its values add up to the range's total.
   */
  lemma ChartMatchesPeriod(records: seq<TimeRecord>, p: Period, now: Instant)
    requires now >= 365 * SecondsPerDay
    requires ChartSpansPeriod(p)
    ensures var range := PeriodRange(p, now);
      SumBy(Chart(records, Buckets(p, range.start)), PointSeconds)
        == DurationInRange(records, range.start, range.end)
  {
    var range := PeriodRange(p, now);
    BucketsTile(p, range.start);
    ChartEnds(p, now);
    ChartOverRange(records, Buckets(p, range.start), range.start, range.end);
  }

  /**
   * The corrected chart for a selector caption: empty for a caption the
   * selector does not offer, one point per bucket otherwise, adding up to the
   * corrected range's total for today, last week, last month and last year.
   */
  lemma SelectedChart(records: seq<TimeRecord>, text: string, now: Instant)
    requires now >= 365 * SecondsPerDay
    ensures var range := SelectedTimeRange(text, now);
      var chart := Chart(records, SelectedBuckets(text, range.start));
      (PeriodNamed(text).None? ==> chart == [])
      && (PeriodNamed(text).Some? ==> |chart| == BucketCount(PeriodNamed(text).value, range.start))
      && (PeriodNamed(text).Some? && ChartSpansPeriod(PeriodNamed(text).value) ==>
            SumBy(chart, PointSeconds) == DurationInRange(records, range.start, range.end))
  {
    var range := SelectedTimeRange(text, now);
    match PeriodNamed(text)
    case None =>
    case Some(p) =>
      assert range == PeriodRange(p, now);
      BucketsTile(p, range.start);
      if ChartSpansPeriod(p) {
        ChartMatchesPeriod(records, p, now);
      }
  }

  /** No record starts exactly where one of the buckets ends. */
  predicate NoStartOnBoundary(records: seq<TimeRecord>, bs: seq<Bucket>) {
    forall i, j :: 0 <= i < |records| && 0 <= j < |bs| ==> records[i].startTime != bs[j].end
  }

  /**
   * The inclusive queries chart what the half-open spans chart, bucket by
   * bucket, as long as no record starts on a bucket's end.
   */
  lemma ChartAsWrittenOffBoundaries(records: seq<TimeRecord>, bs: seq<Bucket>)
    requires NoStartOnBoundary(records, bs)
    ensures ChartAsWritten(records, bs) == Chart(records, bs)
  {
    forall j | 0 <= j < |bs|
      ensures DurationInRange(records, bs[j].start, bs[j].end) == SpanTotal(records, bs[j].start, bs[j].end)
    {
      SpanIsInclusiveRange(records, bs[j].start, bs[j].end + 1);
      FilterCongruent(records, StartsWithin(bs[j].start, bs[j].end + 1), StartsWithin(bs[j].start, bs[j].end));
    }
  }

  /**
   * The chart for a selector caption as written: the week as written, each
   * bucket queried with both ends included. Empty for a caption the selector
   * does not offer and one point per bucket otherwise; off Sundays, and with
   * no record starting on a bucket's end, it is the corrected chart, so for
   * today, last week, last month and last year it adds up to the range total.
   */
  lemma SelectedChartAsWritten(records: seq<TimeRecord>, text: string, now: Instant)
    requires now >= 365 * SecondsPerDay
    ensures var range := SelectedTimeRangeAsWritten(text, now);
      var bs := SelectedBuckets(text, range.start);
      var chart := ChartAsWritten(records, bs);
      (PeriodNamed(text).None? ==> chart == [])
      && (PeriodNamed(text).Some? ==> |chart| == BucketCount(PeriodNamed(text).value, range.start))
      && (DayOfWeek(Today(now)) != 0 && NoStartOnBoundary(records, bs) ==>
            range == SelectedTimeRange(text, now) && chart == Chart(records, bs))
      && (DayOfWeek(Today(now)) != 0 && NoStartOnBoundary(records, bs)
            && PeriodNamed(text).Some? && ChartSpansPeriod(PeriodNamed(text).value) ==>
            SumBy(chart, PointSeconds) == DurationInRange(records, range.start, range.end))
  {
    var range := SelectedTimeRangeAsWritten(text, now);
    var bs := SelectedBuckets(text, range.start);
    SelectedBucketsTile(text, range.start);
    match PeriodNamed(text)
    case None =>
    case Some(p) =>
      BucketsTile(p, range.start);
      if DayOfWeek(Today(now)) != 0 && NoStartOnBoundary(records, bs) {
        WeekAsWrittenOffSunday(p, now);
        ChartAsWrittenOffBoundaries(records, bs);
        SelectedChart(records, text, now);
      }
  }

  /**
   * On a Sunday the week chart as written plots the seven days from tomorrow
   * on: the coming week, none of whose records exist yet.
   */
  lemma SundayWeekChartsNextWeek(now: Instant)
    requires now >= 365 * SecondsPerDay
    requires DayOfWeek(Today(now)) == 0
    ensures var bs := Buckets(CurrentWeek, PeriodRangeAsWritten(CurrentWeek, now).start);
      |bs| == 7 && bs[0].start == StartOfDay(Today(now) + 1) && bs[6].end == StartOfDay(Today(now) + 8)
  {
    SundayWeekAsWritten(now);
    DayOfStart(Today(now) + 1);
  }

  /** A range that ends before it starts holds no record. */
  lemma EmptyRangeTotal(records: seq<TimeRecord>, start: Instant, end: Instant)
    requires end < start
    ensures DurationInRange(records, start, end) == 0
  {
    FilterNone(records, RecordSelected(None, Some(start), Some(end)));
  }

  /** Corrected: with half-open buckets, buckets that tile `[start, end]` chart exactly the inclusive range total. */
  lemma ChartOverRange(records: seq<TimeRecord>, bs: seq<Bucket>, start: Instant, end: Instant)
    requires Tiled(bs) && Spans(bs, Range(start, end))
    ensures SumBy(Chart(records, bs), PointSeconds) == DurationInRange(records, start, end)
  {
    ChartAddsUp(records, bs);
    SpanIsInclusiveRange(records, start, end + 1);
  }

  /** The chart of today, last week, last month or last year spans its range. */
  lemma ChartEnds(p: Period, now: Instant)
    requires now >= 365 * SecondsPerDay
    requires ChartSpansPeriod(p)
    ensures var range := PeriodRange(p, now);
      Spans(Buckets(p, range.start), range)
  {
    match p
    case CurrentDay => TodayChartEnds(now);
    case PreviousWeek => LastWeekChartEnds(now);
    case PreviousMonth => LastMonthChartEnds(now);
    case PreviousYear => LastYearChartEnds(now);
  }

  lemma TodayChartEnds(now: Instant)
    requires now >= 365 * SecondsPerDay
    ensures var range := PeriodRange(CurrentDay, now);
      Spans(Buckets(CurrentDay, range.start), range)
  {
    var today := Today(now);
    assert PeriodRange(CurrentDay, now) == Days(today, today);
    DayOfStart(today);
  }

  lemma LastWeekChartEnds(now: Instant)
    requires now >= 365 * SecondsPerDay
    ensures var range := PeriodRange(PreviousWeek, now);
      Spans(Buckets(PreviousWeek, range.start), range)
  {
    var monday := WeekStart(Today(now));
    assert PeriodRange(PreviousWeek, now) == Days(monday - 7, monday - 1);
    DayOfStart(monday - 7);
    DayBucketsEnds(monday - 7, 7);
  }

  lemma LastMonthChartEnds(now: Instant)
    requires now >= 365 * SecondsPerDay
    ensures var range := PeriodRange(PreviousMonth, now);
      Spans(Buckets(PreviousMonth, range.start), range)
  {
    var today := Today(now);
    var range := LastMonthRange(today);
    LastMonthPeriod(now);
    MonthBucketsAre(PreviousMonth, range.start);
    LastMonthSpans(today);
  }

  /** A month's buckets are the days of the month its range starts in. */
  lemma MonthBucketsAre(p: Period, start: Instant)
    requires p.CurrentMonth? || p.PreviousMonth?
    ensures Buckets(p, start) == MonthDayBuckets(start / SecondsPerDay)
  {
  }

  /** The days of last month's buckets span last month's range. */
  lemma LastMonthSpans(today: nat)
    requires today >= 365
    ensures var range := LastMonthRange(today);
      Spans(MonthDayBuckets(range.start / SecondsPerDay), range)
  {
    var d := DateOf(today);
    var range := LastMonthRange(today);
    var previous := PreviousMonthStart(YearOfDay(today), d.month);
    var first := DayNumber(previous);
    var count := DaysInMonth(previous.year, previous.month);
    PreviousMonthBefore(today);
    assert range == Days(first, MonthStart(today) - 1);
    assert DayNumber(NextMonthStart(previous.year, previous.month)) == MonthStart(today);
    DayOfStart(first);
    DateOfDayNumber(previous);
    assert Date(previous.year, previous.month, 1) == previous;
    assert MonthDayBuckets(first) == DayBuckets(first, count);
    DayBucketsEnds(first, count);
    assert first + count == MonthStart(today);
    assert range.end + 1 == StartOfDay(first + count);
  }

  lemma DayBucketsEnds(first: nat, count: nat)
    requires count >= 1
    ensures var bs := DayBuckets(first, count);
      |bs| == count && bs[0].start == StartOfDay(first) && bs[count - 1].end == StartOfDay(first + count)
  {
  }

  lemma LastYearChartEnds(now: Instant)
    requires now >= 365 * SecondsPerDay
    ensures var range := PeriodRange(PreviousYear, now);
      Spans(Buckets(PreviousYear, range.start), range)
  {
    var today := Today(now);
    var range := LastYearRange(today);
    LastYearPeriod(now);
    YearBucketsAre(PreviousYear, range.start);
    LastYearSpans(today);
  }

  /** A year's buckets are the months of the year its range starts in. */
  lemma YearBucketsAre(p: Period, start: Instant)
    requires p.CurrentYear? || p.PreviousYear?
    ensures Buckets(p, start) == YearMonthBuckets(start / SecondsPerDay)
  {
  }

  /** The twelve month buckets of last year span last year's range. */
  lemma LastYearSpans(today: nat)
    requires today >= 365
    ensures var range := LastYearRange(today);
      Spans(YearMonthBuckets(range.start / SecondsPerDay), range)
  {
    var year := YearOfDay(today) - 1;
    assert LastYearRange(today) == YearRange(year);
    YearSpans(year);
  }

  /** The twelve month buckets of a year span its range. */
  lemma YearSpans(year: int)
    requires year >= 1
    ensures var range := YearRange(year);
      Spans(YearMonthBuckets(range.start / SecondsPerDay), range)
  {
    var first := Date(year, 1, 1);
    var range := YearRange(year);
    DayOfStart(DayNumber(first));
    DateOfDayNumber(first);
    assert YearMonthBuckets(range.start / SecondsPerDay) == MonthBuckets(year);
    MonthBucketsEnds(year);
  }

  /** The months of a year run from its January 1 to the end of its December 31. */
  lemma MonthBucketsEnds(year: int)
    requires year >= 1
    ensures var bs := MonthBuckets(year);
      |bs| == 12 && bs[0].start == StartOfDay(DayNumber(Date(year, 1, 1)))
      && bs[11].end == EndOfDay(DayNumber(Date(year, 12, 31))) + 1
  {
    var december := DayNumber(Date(year, 12, 1));
    assert DayNumber(NextMonthStart(year, 12)) == december + 31;
    assert DayNumber(Date(year, 12, 31)) == december + 30;
  }

  // ----- the total-time figure -----

  /**
   * `UpdateTodayTotalTime`: the closed durations of the records started in the
   * range, plus the running timer's elapsed seconds whenever a timer is active,
   * wherever it started.
   */
  function WorkTimeTotal(records: seq<TimeRecord>, range: Range, active: Option<TimeRecord>, now: Instant): int {
    DurationInRange(records, range.start, range.end) + (if active.Some? then now - active.value.startTime else 0)
  }

  /** The figure's label: `总工作时间: hh:mm:ss`. */
  function WorkTimeText(total: int): string {
    "总工作时间: " + ClockText(Split(total))
  }

  /**
   * On a Sunday, with 本周 selected, the figure as written is the running
   * timer's elapsed time alone: the week as written starts tomorrow.
   */
  lemma SundayWorkTime(records: seq<TimeRecord>, text: string, active: Option<TimeRecord>, now: Instant)
    requires now >= 365 * SecondsPerDay
    requires DayOfWeek(Today(now)) == 0 && SelectedPeriod(text) == CurrentWeek
    ensures WorkTimeTotal(records, SelectedTimeRangeAsWritten(text, now), active, now)
      == if active.Some? then now - active.value.startTime else 0
  {
    SundayWeekAsWritten(now);
    var range := SelectedTimeRangeAsWritten(text, now);
    EmptyRangeTotal(records, range.start, range.end);
  }

  /** Off Sundays the figure as written is the figure over the corrected range. */
  lemma WorkTimeOffSunday(records: seq<TimeRecord>, text: string, active: Option<TimeRecord>, now: Instant)
    requires now >= 365 * SecondsPerDay
    requires DayOfWeek(Today(now)) != 0
    ensures WorkTimeTotal(records, SelectedTimeRangeAsWritten(text, now), active, now)
      == WorkTimeTotal(records, SelectedTimeRange(text, now), active, now)
  {
    WeekAsWrittenOffSunday(SelectedPeriod(text), now);
  }

  /** Closing record `k` now changes a range total by its new duration, if it started in the range. */
  lemma CloseInRange(records: seq<TimeRecord>, k: nat, range: Range, now: Instant)
    requires k < |records| && records[k].duration.None?
    ensures var closed := records[k := Close(records[k], now)];
      DurationInRange(closed, range.start, range.end) == DurationInRange(records, range.start, range.end)
        + (if range.start <= records[k].startTime <= range.end then now - records[k].startTime else 0)
  {
    var p := RecordSelected(None, Some(range.start), Some(range.end));
    var closed := records[k := Close(records[k], now)];
    SumByFilter(records, p, DurationOf);
    SumByFilter(closed, p, DurationOf);
    SumByUpdate(records, k, Close(records[k], now), Masked(p, DurationOf));
  }

  /**
   * While a timer runs, the total-time figure is the total that pausing it now
   * would store, when the timer started in the range; a timer started before
   * the range adds its whole elapsed time on top.
   */
  lemma LiveTotalIsPausedTotal(db: Tables, range: Range, now: Instant, k: nat)
    requires WellFormed(db) && AtMostOneOpen(db)
    requires k < |db.records| && IsOpen(db.records[k]) && HasTask(db, db.records[k].taskId)
    ensures var paused := Pause(db, k + 1, now).records;
      var live := WorkTimeTotal(db.records, range, ActiveTimerOf(db), now);
      var elapsed := now - db.records[k].startTime;
      live == DurationInRange(paused, range.start, range.end)
        + (if range.start <= db.records[k].startTime <= range.end then 0 else elapsed)
  {
    ActiveTimerIsTheOpenRecord(db, k);
    PauseEffect(db, k + 1, now);
    CloseInRange(db.records, k, range, now);
  }

  // ----- grids -----

  /** `LoadTimeRecords`: `Where(r => r.Duration.HasValue).Sum(r => r.Duration.Value)`. */
  function TaskTotal(records: seq<TimeRecord>): int {
    SumBy(Filter(records, IsClosed), DurationOf)
  }

  /** A record whose duration has been set. */
  predicate IsClosed(r: TimeRecord) {
    r.duration.Some?
  }

  /** The detail pane's label: `任务总耗时: hh:mm:ss`. */
  function TaskTotalText(total: int): string {
    "任务总耗时: " + ClockText(Split(total))
  }

  /** The total under a task's record list agrees with that task's row of the statistics grid. */
  lemma TaskTotalMatchesStatistics(db: Tables, t: Task, shown: seq<TimeRecord>)
    requires multiset(shown) == multiset(Filter(db.records, RecordSelected(Some(t.id), None, None)))
    ensures TaskTotal(shown) == StatisticsRow(db, t).totalDurationSeconds
  {
    var mine := RecordSelected(Some(t.id), None, None);
    var sessions := SessionsOf(t.id);
    calc {
      TaskTotal(shown);
      SumBy(Filter(shown, IsClosed), DurationOf);
      { SumByFilter(shown, IsClosed, DurationOf); }
      SumBy(shown, Masked(IsClosed, DurationOf));
      { SumByPermutation(shown, Filter(db.records, mine), Masked(IsClosed, DurationOf)); }
      SumBy(Filter(db.records, mine), Masked(IsClosed, DurationOf));
      { SumByFilter(db.records, mine, Masked(IsClosed, DurationOf)); }
      SumBy(db.records, Masked(mine, Masked(IsClosed, DurationOf)));
      { forall i | 0 <= i < |db.records|
          ensures Masked(mine, Masked(IsClosed, DurationOf))(db.records[i]) == Masked(sessions, DurationOf)(db.records[i])
        {
          var r := db.records[i];
          assert mine(r) && IsClosed(r) <==> sessions(r);
        }
        SumByCongruent(db.records, Masked(mine, Masked(IsClosed, DurationOf)), Masked(sessions, DurationOf)); }
      SumBy(db.records, Masked(sessions, DurationOf));
      { SumByFilter(db.records, sessions, DurationOf); }
      SumBy(Filter(db.records, sessions), DurationOf);
    }
  }

  function HasTime(s: TaskStatistics): bool {
    s.totalDurationSeconds > 0
  }

  /** `LoadTaskStatistics`: `Where(s => s.TotalDurationSeconds > 0).OrderByDescending(s => s.TotalDurationSeconds)`. */
  function StatisticsGrid(stats: seq<TaskStatistics>): seq<TaskStatistics> {
    SortDesc(Filter(stats, HasTime), TotalKey)
  }

  /**
   * The grid holds exactly the rows of tasks with tracked time, largest total
   * first; over an already ordered list it keeps the list's order.
   */
  lemma StatisticsGridContents(db: Tables, stats: seq<TaskStatistics>)
    requires multiset(stats) == multiset(StatisticsRows(db))
    ensures multiset(StatisticsGrid(stats)) == multiset(Filter(StatisticsRows(db), HasTime))
    ensures forall s :: s in StatisticsGrid(stats) <==> s in StatisticsRows(db) && s.totalDurationSeconds > 0
    ensures SortedDesc(StatisticsGrid(stats), TotalKey)
    ensures SortedDesc(stats, TotalKey) ==> StatisticsGrid(stats) == Filter(stats, HasTime)
  {
    FilterPermutation(stats, StatisticsRows(db), HasTime);
    SameElements(stats, StatisticsRows(db));
    if SortedDesc(stats, TotalKey) {
      FilterKeepsOrder(stats, HasTime, TotalKey);
      SortSorted(Filter(stats, HasTime), TotalKey);
    }
  }

  function IsCompletedRow(s: TaskStatistics): bool {
    s.taskStatus == Completed
  }

  /** `OrderByDescending(t => t.CompletedAt)`: a missing completion time sorts last. */
  function CompletedKey(s: TaskStatistics): int {
    match s.completedAt
    case Some(t) => t
    case None => -1
  }

  /** `LoadCompletedTasks`: `Where(t => t.TaskStatus == "completed").OrderByDescending(t => t.CompletedAt)`. */
  function CompletedView(stats: seq<TaskStatistics>): seq<TaskStatistics> {
    SortDesc(Filter(stats, IsCompletedRow), CompletedKey)
  }

  /**
   * The completed list holds exactly the completed tasks' rows, most recently
   * completed first, and as many rows as the "completed" count beside the
   * statistics grid.
   */
  lemma CompletedViewContents(db: Tables, stats: seq<TaskStatistics>)
    requires multiset(stats) == multiset(StatisticsRows(db))
    ensures forall s :: s in CompletedView(stats) <==> s in StatisticsRows(db) && s.taskStatus == Completed
    ensures SortedDesc(CompletedView(stats), CompletedKey)
    ensures |CompletedView(stats)| == |Filter(db.tasks, TaskSelected(Some("completed")))|
  {
    SameElements(stats, StatisticsRows(db));
    CompletedViewCount(db, stats);
  }

  lemma CompletedViewCount(db: Tables, stats: seq<TaskStatistics>)
    requires multiset(stats) == multiset(StatisticsRows(db))
    ensures |CompletedView(stats)| == |Filter(db.tasks, TaskSelected(Some("completed")))|
  {
    var rows := StatisticsRows(db);
    FilterPermutation(stats, rows, IsCompletedRow);
    CompletedCorrespond(db, |db.tasks|);
    assert rows[..|db.tasks|] == rows;
    assert db.tasks[..|db.tasks|] == db.tasks;
  }

  /** The first `n` statistics rows hold as many completed rows as the first `n` tasks hold completed tasks. */
  lemma CompletedCorrespond(db: Tables, n: nat)
    requires n <= |db.tasks|
    ensures |Filter(StatisticsRows(db)[..n], IsCompletedRow)| == |Filter(db.tasks[..n], TaskSelected(Some("completed")))|
  {
    var rows, selected := StatisticsRows(db), TaskSelected(Some("completed"));
    forall i | 0 <= i < |rows|
      ensures IsCompletedRow(rows[i]) == selected(db.tasks[i])
    {
      CompletedRowIffSelected(db, db.tasks[i]);
    }
    FilterCountsAgree(rows, db.tasks, IsCompletedRow, selected, n);
  }

  /** A task's statistics row is a completed row exactly when the completed filter lists the task. */
  lemma CompletedRowIffSelected(db: Tables, t: Task)
    ensures IsCompletedRow(StatisticsRow(db, t)) <==> TaskSelected(Some("completed"))(t)
  {
    StatusTextRoundTrip(t.status);
  }
}
