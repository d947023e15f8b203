/** The per-task summary row that the statistics grid shows. */
module TaskStats {
  import opened Optional
  import opened Calendar
  import opened ClockFormat
  import opened Tasks

  /**
   * A row of the statistics query: `taskLifetimeSeconds` is never filled by
   * the ledger, so its display is empty there.
   */
  datatype TaskStatistics = TaskStatistics(
    taskId: int,
    taskName: string,
    taskStatus: Status,
    createdAt: Instant,
    completedAt: Option<Instant>,
    sessionCount: nat,
    totalDurationSeconds: int,
    taskLifetimeSeconds: Option<int>)

  /** `StatusDisplayName` of a statistics row. */
  function StatisticsStatusName(row: TaskStatistics): string {
    StatusDisplayName(StatusText(row.taskStatus))
  }

  /** `TotalDurationDisplay`: `hh:mm:ss` of the total, read back exactly when it is non-negative. */
  function TotalDurationDisplay(total: int): (s: string)
    ensures ParseClock(s) == if total >= 0 then Some(Split(total)) else None
  {
    ClockTextReadsBack(total);
    ClockText(Split(total))
  }

  /**
   * The whole days and the remaining whole hours of a lifetime, with C#'s
   * truncating operators: `L / 86400` and `(L % 86400) / 3600`.
   */
  function LifetimeParts(lifetime: int): (r: (int, int))
    ensures lifetime >= 0 ==> r.0 >= 0 && 0 <= r.1 <= 23
    ensures lifetime >= 0 ==>
      r.0 * SecondsPerDay + r.1 * SecondsPerHour <= lifetime < r.0 * SecondsPerDay + (r.1 + 1) * SecondsPerHour
  {
    (Quot(lifetime, 86400), Quot(Rem(lifetime, 86400), 3600))
  }

  /** Reads "`d`天`h`小时" with unsigned numbers back into its days and hours. */
  function ParseLifetime(s: string): Option<(int, int)> {
    match Fields2(s, '天')
    case None => None
    case Some((days, rest)) =>
      match Fields2(rest, '小')
      case None => None
      case Some((hours, unit)) =>
        match (ParseField(days), ParseField(hours))
        case (Some(d), Some(h)) => if unit == "时" then Some((d, h)) else None
        case _ => None
  }

  /** "`d`天`h`小时": it reads back as the two numbers, unless one is negative and shown with its minus sign. */
  function LifetimeText(days: int, hours: int): (s: string)
    ensures s != ""
    ensures ParseLifetime(s) == if days >= 0 && hours >= 0 then Some((days, hours)) else None
  {
    var d, h := Decimal(days), Decimal(hours);
    DecimalLacks(days, '天');
    DecimalLacks(hours, '小');
    assert h + "小时" == h + ['小'] + "时";
    Fields2Of(d, '天', h + "小时");
    Fields2Of(h, '小', "时");
    DecimalField(days);
    DecimalField(hours);
    assert d + "天" + h + "小时" == d + ['天'] + (h + "小时");
    d + "天" + h + "小时"
  }

  /**
   * `TaskLifetimeDisplay`: "`d`天`h`小时", or empty without a lifetime. The
   * text reads back as the lifetime's days and hours, unless one of them is
   * negative.
   */
  function TaskLifetimeDisplay(lifetime: Option<int>): (s: string)
    ensures s == "" <==> lifetime.None?
    ensures lifetime.Some? ==>
      var parts := LifetimeParts(lifetime.value);
      ParseLifetime(s) == if parts.0 >= 0 && parts.1 >= 0 then Some(parts) else None
  {
    match lifetime
    case Some(l) =>
      var (days, hours) := LifetimeParts(l);
      LifetimeText(days, hours)
    case None => ""
  }

  /** Two lifetimes show the same text exactly when they have the same number of whole hours. */
  lemma LifetimeDisplaySameHour(l1: nat, l2: nat)
    ensures TaskLifetimeDisplay(Some(l1)) == TaskLifetimeDisplay(Some(l2)) <==> l1 / 3600 == l2 / 3600
  {
    DayAndHour(l1);
    DayAndHour(l2);
    var q1, q2 := l1 / 3600, l2 / 3600;
    assert q1 == 24 * (q1 / 24) + q1 % 24;
    assert q2 == 24 * (q2 / 24) + q2 % 24;
    if TaskLifetimeDisplay(Some(l1)) == TaskLifetimeDisplay(Some(l2)) {
      assert LifetimeParts(l1) == LifetimeParts(l2);
    }
  }

  /** Truncation: lifetimes in the same hour of the same day are shown alike. */
  lemma LifetimeDropsMinutes(l: nat, extra: nat)
    requires l % SecondsPerHour + extra < SecondsPerHour
    ensures TaskLifetimeDisplay(Some(l + extra)) == TaskLifetimeDisplay(Some(l))
  {
    SameHour(l, extra);
    DayAndHour(l);
    DayAndHour(l + extra);
  }

  lemma SameHour(l: nat, extra: nat)
    requires l % 3600 + extra < 3600
    ensures (l + extra) / 3600 == l / 3600
  {
    var q := l / 3600;
    assert l + extra == q * 3600 + (l % 3600 + extra);
  }

  /** The day and hour-of-day of `l` depend only on its hour count. */
  lemma DayAndHour(l: nat)
    ensures l / 86400 == (l / 3600) / 24
    ensures (l % 86400) / 3600 == (l / 3600) % 24
  {
    var q, r := l / 3600, l % 3600;
    var a, b := q / 24, q % 24;
    assert l == 86400 * a + (3600 * b + r);
    assert l / 86400 == a;
    assert l % 86400 == 3600 * b + r;
  }
}
