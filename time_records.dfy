/** The `time_records` table's row type and its display properties. */
module TimeRecords {
  import opened Optional
  import opened Calendar
  import opened ClockFormat
  import opened StampFormat

  /**
   * A row of `time_records`. An open record has no `endTime` and no
   * `duration`; `taskName` is filled only by the active-timer query.
   */
  datatype TimeRecord = TimeRecord(
    id: int,
    taskId: int,
    startTime: Instant,
    endTime: Option<Instant>,
    duration: Option<int>,
    notes: Option<string>,
    createdAt: Instant,
    taskName: Option<string>)

  /** A record whose timer has not been paused: `end_time IS NULL`. */
  predicate IsOpen(r: TimeRecord) {
    r.endTime.None?
  }

  /** `Duration ?? 0`: what a record adds to a total. */
  function DurationOf(r: TimeRecord): int {
    r.duration.GetOr(0)
  }

  const InProgressText := "进行中"
  const CalculatingText := "计算中"
  const ZeroClockText := "00:00:00"

  /** `EndTimeDisplay`: the end stamp, or "in progress" for an open record. */
  function EndTimeDisplay(endTime: Option<Instant>): (s: string)
    ensures s == InProgressText <==> endTime.None?
  {
    match endTime
    case Some(t) => assert IsDigit(MinuteText(t)[0]); MinuteText(t)
    case None => InProgressText
  }

  /** `DurationDisplay`: `hh:mm:ss` of the duration, or "calculating" while it has none. */
  function DurationDisplay(duration: Option<int>): (s: string)
    ensures s == CalculatingText <==> duration.None?
    ensures duration.Some? ==> ParseClock(s) == if duration.value >= 0 then Some(Split(duration.value)) else None
  {
    match duration
    case Some(d) =>
      var text := ClockText(Split(d));
      assert text[|TwoDigits(Split(d).hours)|] == ':';
      assert text != CalculatingText;
      ClockTextReadsBack(d);
      text
    case None => CalculatingText
  }

  /** `TotalDurationDisplay`: like `DurationDisplay`, but an open record shows zero. */
  function TotalDurationDisplay(duration: Option<int>): (s: string)
    ensures duration.Some? ==> s == DurationDisplay(duration)
    ensures duration.None? ==> s == DurationDisplay(Some(0))
  {
    match duration
    case Some(d) => ClockText(Split(d))
    case None =>
      ZeroClockTextIsZero();
      ZeroClockText
  }

  /** "00:00:00" is how zero seconds are written. */
  lemma ZeroClockTextIsZero()
    ensures ClockText(Split(0)) == ZeroClockText
  {
    assert Split(0) == Clock(0, 0, 0);
    assert DigitChar(0) == '0';
    assert Digits(0) == "0";
    assert Padded(0, 1) == "0";
    assert TwoDigits(0) == "00";
  }
}
