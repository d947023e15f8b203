/**
 * The timestamp rendering `ToString("yyyy-MM-dd HH:mm")` of the record and
 * statistics views, under a culture whose time separator is `:`.
 */
module StampFormat {
  import opened Optional
  import opened Calendar
  import opened ClockFormat

  /** What `yyyy-MM-dd HH:mm` shows: a date, an hour and a minute. */
  datatype Stamp = Stamp(date: Date, hour: int, minute: int)

  /** Reads `yyyy-MM-dd` back into a date. */
  function ParseDate(s: string): Option<Date> {
    match Fields3(s, '-')
    case None => None
    case Some((y, m, d)) =>
      match (ParseField(y), ParseField(m), ParseField(d))
      case (Some(year), Some(month), Some(day)) => Some(Date(year, month, day))
      case _ => None
  }

  /** Reads `HH:mm` back into its hour and minute. */
  function ParseTime(s: string): Option<(nat, nat)> {
    match Fields2(s, ':')
    case None => None
    case Some((h, m)) =>
      match (ParseField(h), ParseField(m))
      case (Some(hour), Some(minute)) => Some((hour, minute))
      case _ => None
  }

  /** Reads `yyyy-MM-dd HH:mm` back into its date, hour and minute. */
  function ParseStamp(s: string): Option<Stamp> {
    match Fields2(s, ' ')
    case None => None
    case Some((date, time)) =>
      var d, hm := ParseDate(date), ParseTime(time);
      if d.Some? && hm.Some? then Some(Stamp(d.value, hm.value.0, hm.value.1)) else None
  }

  /** `yyyy-MM-dd` of a date: it reads back as that date. */
  function DayText(year: nat, month: nat, day: nat): (s: string)
    ensures ParseDate(s) == Some(Date(year, month, day))
    ensures ' ' !in s
  {
    var y, m, d := Padded(year, 4), Padded(month, 2), Padded(day, 2);
    DigitsLack(y, '-');
    DigitsLack(m, '-');
    DigitsLack(y, ' ');
    DigitsLack(m, ' ');
    DigitsLack(d, ' ');
    Fields3Of(y, '-', m, d);
    ParsePadded(year, 4);
    ParsePadded(month, 2);
    ParsePadded(day, 2);
    assert y + "-" + m + "-" + d == y + ['-'] + m + ['-'] + d;
    y + "-" + m + "-" + d
  }

  /** `yyyy-MM-dd` of the day containing `t`: it reads back as that day's date. */
  function DateText(t: Instant): (s: string)
    ensures ParseDate(s) == Some(DateOf(t / SecondsPerDay))
    ensures ' ' !in s
  {
    var d := DateOf(t / SecondsPerDay);
    DayText(d.year, d.month, d.day)
  }

  /** `HH:mm`: it reads back as the hour and the minute. */
  function TimeText(hour: nat, minute: nat): (s: string)
    ensures ParseTime(s) == Some((hour, minute))
  {
    var h, m := Padded(hour, 2), Padded(minute, 2);
    DigitsLack(h, ':');
    Fields2Of(h, ':', m);
    ParsePadded(hour, 2);
    ParsePadded(minute, 2);
    assert h + ":" + m == h + [':'] + m;
    h + ":" + m
  }

  /**
   * `yyyy-MM-dd HH:mm` of `t`: it reads back as the date of `t`'s day, the
   * hour of the day and the minute of the hour.
   */
  function MinuteText(t: Instant): (s: string)
    ensures ParseStamp(s) == Some(Stamp(DateOf(t / SecondsPerDay),
      t % SecondsPerDay / SecondsPerHour, t % SecondsPerDay % SecondsPerHour / SecondsPerMinute))
  {
    var secondOfDay := t % SecondsPerDay;
    var date, time := DateText(t), TimeText(secondOfDay / SecondsPerHour, secondOfDay % SecondsPerHour / SecondsPerMinute);
    Fields2Of(date, ' ', time);
    assert date + " " + time == date + [' '] + time;
    date + " " + time
  }

  /** Two instants show the same date exactly when they fall on the same day. */
  lemma DateTextSameDay(t1: Instant, t2: Instant)
    ensures DateText(t1) == DateText(t2) <==> t1 / SecondsPerDay == t2 / SecondsPerDay
  {
    if DateText(t1) == DateText(t2) {
      assert DateOf(t1 / SecondsPerDay) == DateOf(t2 / SecondsPerDay);
    }
  }

  /** Two instants show the same `yyyy-MM-dd HH:mm` exactly when they fall in the same minute. */
  lemma MinuteTextSameMinute(t1: Instant, t2: Instant)
    ensures MinuteText(t1) == MinuteText(t2) <==> t1 / SecondsPerMinute == t2 / SecondsPerMinute
  {
    MinuteFields(t1);
    MinuteFields(t2);
    if MinuteText(t1) == MinuteText(t2) {
      assert DateOf(t1 / SecondsPerDay) == DateOf(t2 / SecondsPerDay);
    }
  }

  /** The day, hour and minute of `t` are the parts of its minute count, and add up to it. */
  lemma MinuteFields(t: nat)
    ensures t / SecondsPerMinute == t / SecondsPerDay * 1440
      + t % SecondsPerDay / SecondsPerHour * 60 + t % SecondsPerDay % SecondsPerHour / SecondsPerMinute
    ensures t % SecondsPerDay / SecondsPerHour < 24 && t % SecondsPerDay % SecondsPerHour / SecondsPerMinute < 60
    ensures t / SecondsPerDay == t / SecondsPerMinute / 1440
    ensures t % SecondsPerDay / SecondsPerHour == t / SecondsPerMinute % 1440 / 60
    ensures t % SecondsPerDay % SecondsPerHour / SecondsPerMinute == t / SecondsPerMinute % 60
  {
    var q, r := t / 60, t % 60;
    var day, w := q / 1440, q % 1440;
    var hour, minute := w / 60, w % 60;
    assert q == 1440 * day + 60 * hour + minute;
    assert t == 86400 * day + (3600 * hour + 60 * minute + r);
    assert t / 86400 == day;
    assert t % 86400 == 3600 * hour + 60 * minute + r;
    assert t % 86400 / 3600 == hour;
    assert t % 86400 % 3600 == 60 * minute + r;
    assert t % 86400 % 3600 / 60 == minute;
  }
}
