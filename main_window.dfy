/**
 * `MainWindow`: the selected task, the cached active timer and whether the
 * elapsed-time display runs, over one `DatabaseManager`; the button handlers
 * that drive the ledger, and the queries behind the reports. Dialog answers
 * and the clock are parameters.
 */
module Controller {
  import opened Optional
  import opened Calendar
  import opened Tasks
  import opened TimeRecords
  import opened TaskStats
  import opened Ordering
  import opened Sums
  import opened Ledger
  import opened LedgerLaws
  import opened Periods
  import opened Reporting
  import opened Handlers
  import opened Database

  /** `FirstOrDefault(t => t.TaskId == id)`. */
  function FirstWithId(ts: seq<Task>, id: int): (r: Option<Task>)
    ensures r.Some? ==> r.value in ts && r.value.id == id
    ensures r.None? ==> forall t :: t in ts ==> t.id != id
  {
    if ts == [] then None
    else if ts[0].id == id then Some(ts[0])
    else
      assert forall t :: t in ts ==> t == ts[0] || t in ts[1..];
      FirstWithId(ts[1..], id)
  }

  /** `UpdateTaskDetails`' effect on the elapsed-time display for a selected task. */
  function DisplayRuns(t: Task, active: Option<TimeRecord>, running: bool): bool {
    if t.status == Completed || t.status == Deleted then running
    else t.status == InProgress && active.Some? && active.value.taskId == t.id
  }

  class MainWindow {
    const db: DatabaseManager
    var selected: Option<Task>
    var activeTimer: Option<TimeRecord>
    var timerRunning: bool

    /**
     * The ledger's invariants hold, the cached timer is the ledger's active
     * timer, the selected task exists, and the display runs only while a
     * timer is active.
     */
    ghost predicate Valid()
      reads this, db
    {
      db.Valid() && Synced(db.State(), activeTimer) && Selectable(db.State(), selected)
      && (timerRunning ==> activeTimer.Some?)
    }

    /**
     * The window over an opened ledger, after `CheckActiveTimer`: the active
     * timer is read, its task selected if the task list shows it, and the
     * display started.
     */
    constructor (database: DatabaseManager)
      requires database.Valid() && RefsResolve(database.State())
      ensures Valid() && db == database
      ensures activeTimer == ActiveTimerOf(db.State()) && timerRunning == activeTimer.Some?
      ensures activeTimer.None? ==> selected.None?
      ensures activeTimer.Some? ==>
        HasTask(db.State(), activeTimer.value.taskId)
        && var owner := db.tasks[activeTimer.value.taskId - 1];
        selected == if owner.status == Deleted then None else Some(owner)
    {
      var active := database.GetActiveTimer();
      ghost var ledger := database.State();
      var shownTask: Option<Task> := None;
      var running := false;
      if active.Some? {
        ActiveIsOpenRecord(database.State());
        var id := active.value.taskId;
        var shown := database.GetTasks(None);
        shownTask := FirstWithId(shown, id);
        ListedTaskOfId(ledger, shown, id);
        running := true;
      }
      assert Synced(ledger, active) && Selectable(ledger, shownTask);
      db := database;
      selected := shownTask;
      activeTimer := active;
      timerRunning := running;
      assert database.State() == ledger;
    }

    /** `TasksDataGrid_SelectionChanged`: selects a listed task and updates the display's running state. */
    method SelectTask(t: Task)
      requires Valid() && t in db.tasks
      modifies this
      ensures Valid()
      ensures selected == Some(t) && activeTimer == old(activeTimer)
      ensures timerRunning == DisplayRuns(t, activeTimer, old(timerRunning))
    {
      var j :| 0 <= j < |db.tasks| && db.tasks[j] == t;
      selected := Some(t);
      if t.status != Completed && t.status != Deleted {
        timerRunning := t.status == InProgress && activeTimer.Some? && activeTimer.value.taskId == t.id;
      }
    }

    /**
     * `TimerButton_Click`: the toggle's ledger sequence; afterwards the cached
     * timer is the ledger's and the display runs exactly when a timer was
     * started.
     */
    method TimerButtonClick(confirmSwitch: bool, now: Instant)
      requires Valid()
      modifies this, db
      ensures Valid()
      ensures db.State() == Toggle(old(db.State()), old(selected), old(activeTimer), confirmSwitch, now)
      ensures selected == old(selected)
      ensures timerRunning == if old(selected).None? then old(timerRunning)
        else if OwnTimer(old(selected), old(activeTimer)) then false
        else if old(activeTimer).None? || confirmSwitch then true
        else old(timerRunning)
    {
      ToggleKeeps(db.State(), selected, confirmSwitch, now);
      if selected.None? {
        return;
      }
      var id := selected.value.id;
      if activeTimer.Some? {
        if activeTimer.value.taskId == id {
          PauseCachedTimer(now);
        } else if confirmSwitch {
          PauseActive(db.State(), now);
          db.PauseTimer(activeTimer.value.id, now);
          StartSelectedTimer(id, now);
        }
      } else {
        StartSelectedTimer(id, now);
      }
    }

    /** `PauseTimer(_activeTimer.RecordId)`, then `_activeTimer = null` and `StopTimerUpdate`. */
    method PauseCachedTimer(now: Instant)
      requires Valid() && activeTimer.Some?
      modifies this, db
      ensures Valid()
      ensures db.State() == Pause(old(db.State()), old(activeTimer).value.id, now)
      ensures selected == old(selected) && activeTimer.None? && !timerRunning
    {
      PauseActive(db.State(), now);
      db.PauseTimer(activeTimer.value.id, now);
      activeTimer := None;
      timerRunning := false;
    }

    /** `StartTimer(_selectedTask.TaskId)`, then `_activeTimer = GetActiveTimer()` and `StartTimerUpdate`. */
    method StartSelectedTimer(id: int, now: Instant)
      requires db.Valid() && RefsResolve(db.State()) && HasTask(db.State(), id) && Selectable(db.State(), selected)
      modifies this, db
      ensures Valid()
      ensures db.State() == Start(old(db.State()), id, now)
      ensures selected == old(selected) && activeTimer == ActiveTimerOf(db.State()) && timerRunning
    {
      StartSynced(db.State(), id, now);
      var recordId := db.StartTimer(id, now);
      activeTimer := db.GetActiveTimer();
      timerRunning := true;
    }

    /**
     * `CompleteTaskButton_Click`: the completion's ledger sequence; the
     * selection shows the task completed, and the own timer, if it ran, is
     * gone from the window.
     */
    method CompleteTaskButtonClick(confirm: bool, now: Instant)
      requires Valid()
      modifies this, db
      ensures Valid()
      ensures db.State() == Complete(old(db.State()), old(selected), old(activeTimer), confirm, now)
      ensures old(selected).None? || old(selected).value.status == Completed || !confirm ==>
        selected == old(selected) && activeTimer == old(activeTimer) && timerRunning == old(timerRunning)
      ensures old(selected).Some? && old(selected).value.status != Completed && confirm ==>
        selected == Some(old(selected).value.(status := Completed))
        && activeTimer == (if OwnTimer(old(selected), old(activeTimer)) then None else old(activeTimer))
        && timerRunning == (old(timerRunning) && !OwnTimer(old(selected), old(activeTimer)))
    {
      if selected.None? || selected.value.status == Completed || !confirm {
        return;
      }
      var t := selected.value;
      MarkSelectedCompleted(now);
      selected := Some(t.(status := Completed));
    }

    /** Pauses the selected task's own timer, then `UpdateTaskStatus(_selectedTask.TaskId, "completed")`. */
    method MarkSelectedCompleted(now: Instant)
      requires Valid() && selected.Some?
      modifies this, db
      ensures Valid() && selected == old(selected)
      ensures db.State() == UpdateStatus(PauseOwn(old(db.State()), selected, old(activeTimer), now), selected.value.id, Completed, now)
      ensures activeTimer == if OwnTimer(selected, old(activeTimer)) then None else old(activeTimer)
      ensures timerRunning == (old(timerRunning) && !OwnTimer(selected, old(activeTimer)))
      ensures HasTask(db.State(), selected.value.id)
    {
      FinishEffect(db.State(), selected, Completed, now);
      PauseOwnTimer(now);
      db.UpdateTaskStatus(selected.value.id, Completed, now);
    }

    /**
     * The first step of completing or deleting: the selected task's own timer,
     * if it runs, is paused and dropped from the window.
     */
    method PauseOwnTimer(now: Instant)
      requires Valid() && selected.Some?
      modifies this, db
      ensures db.Valid() && selected == old(selected)
      ensures db.State() == PauseOwn(old(db.State()), selected, old(activeTimer), now)
      ensures activeTimer == if OwnTimer(selected, old(activeTimer)) then None else old(activeTimer)
      ensures timerRunning == (old(timerRunning) && !OwnTimer(selected, old(activeTimer)))
    {
      if activeTimer.Some? && activeTimer.value.taskId == selected.value.id {
        PauseActive(db.State(), now);
        db.PauseTimer(activeTimer.value.id, now);
        activeTimer := None;
        timerRunning := false;
      }
    }

    /**
     * `DeleteTaskButton_Click`: the deletion's ledger sequence, then nothing
     * is selected.
     */
    method DeleteTaskButtonClick(confirm: bool, now: Instant)
      requires Valid()
      modifies this, db
      ensures Valid()
      ensures db.State() == Delete(old(db.State()), old(selected), old(activeTimer), confirm, now)
      ensures old(selected).None? || !confirm ==>
        selected == old(selected) && activeTimer == old(activeTimer) && timerRunning == old(timerRunning)
      ensures old(selected).Some? && confirm ==>
        selected.None?
        && activeTimer == (if OwnTimer(old(selected), old(activeTimer)) then None else old(activeTimer))
        && timerRunning == (old(timerRunning) && !OwnTimer(old(selected), old(activeTimer)))
    {
      if selected.None? || !confirm {
        return;
      }
      ghost var before := db.State();
      ghost var paused := PauseOwn(before, selected, activeTimer, now);
      ghost var after := UpdateStatus(paused, selected.value.id, Deleted, now);
      assert after == Delete(before, selected, activeTimer, confirm, now);
      FinishEffect(before, selected, Deleted, now);
      var t := selected.value;
      PauseOwnTimer(now);
      assert db.State() == paused;
      db.DeleteTask(t.id, now);
      selected := None;
      assert db.State() == after;
      assert Synced(after, activeTimer);
    }

    /** `OnClosed`: pauses a running timer if the user confirms; the window's fields are left as they are. */
    method OnClosed(confirm: bool, now: Instant)
      requires Valid()
      modifies db
      ensures db.Valid() && RefsResolve(db.State())
      ensures db.State() == Closing(old(db.State()), activeTimer, confirm, now)
    {
      ClosingEffect(db.State(), confirm, now);
      if activeTimer.Some? && confirm {
        ActiveIsOpenRecord(db.State());
        db.PauseTimer(activeTimer.value.id, now);
      }
    }

    // ----- report queries -----

    /** `GetDurationInRange`: the range total; a failing query gives 0. */
    method GetDurationInRange(start: Instant, end: Instant, fails: bool) returns (total: int)
      ensures fails ==> total == 0
      ensures !fails ==> total == DurationInRange(db.records, start, end)
    {
      if fails {
        return 0;
      }
      var rs := db.GetTimeRecords(None, Some(start), Some(end));
      total := SumBy(rs, DurationOf);
      SumByPermutation(rs, Filter(db.records, RecordSelected(None, Some(start), Some(end))), DurationOf);
    }

    /**
     * `UpdateTodayTotalTime`: the closed durations in the selected range as
     * written plus the running timer's elapsed seconds, and the label showing
     * them. Off Sundays that is the total over the corrected range; on a
     * Sunday under 本周 the range as written is empty and only the running
     * timer counts.
     */
    method UpdateTodayTotalTime(period: string, now: Instant) returns (total: int, text: string)
      requires now >= 365 * SecondsPerDay
      ensures total == WorkTimeTotal(db.records, SelectedTimeRangeAsWritten(period, now), activeTimer, now)
      ensures DayOfWeek(Today(now)) != 0 ==>
        total == WorkTimeTotal(db.records, SelectedTimeRange(period, now), activeTimer, now)
      ensures DayOfWeek(Today(now)) == 0 && SelectedPeriod(period) == CurrentWeek ==>
        total == if activeTimer.Some? then now - activeTimer.value.startTime else 0
      ensures text == WorkTimeText(total)
    {
      var range := SelectedTimeRangeAsWritten(period, now);
      var rs := db.GetTimeRecords(None, Some(range.start), Some(range.end));
      total := TaskTotal(rs);
      ClosedSumIsSum(rs);
      SumByPermutation(rs, Filter(db.records, RecordSelected(None, Some(range.start), Some(range.end))), DurationOf);
      if activeTimer.Some? {
        total := total + (now - activeTimer.value.startTime);
      }
      text := WorkTimeText(total);
      if DayOfWeek(Today(now)) != 0 {
        WorkTimeOffSunday(db.records, period, activeTimer, now);
      } else if SelectedPeriod(period) == CurrentWeek {
        SundayWorkTime(db.records, period, activeTimer, now);
      }
    }

    /**
     * `LoadTimeRecords`: the task's records, latest first, and the label with
     * their total, which agrees with the task's statistics row.
     */
    method LoadTimeRecords(taskId: int) returns (shown: seq<TimeRecord>, text: string)
      requires Valid()
      ensures multiset(shown) == multiset(Filter(db.records, RecordSelected(Some(taskId), None, None)))
      ensures forall r :: r in shown <==> r in db.records && r.taskId == taskId
      ensures SortedDesc(shown, StartKey)
      ensures text == TaskTotalText(TaskTotal(shown))
      ensures HasTask(db.State(), taskId) ==>
        TaskTotal(shown) == StatisticsRow(db.State(), db.tasks[taskId - 1]).totalDurationSeconds
    {
      shown := db.GetTimeRecords(Some(taskId), None, None);
      text := TaskTotalText(TaskTotal(shown));
      if HasTask(db.State(), taskId) {
        assert db.tasks[taskId - 1].id == taskId;
        TaskTotalMatchesStatistics(db.State(), db.tasks[taskId - 1], shown);
      }
    }

    /**
     * `LoadTaskStatistics`: the rows with tracked time, largest total first,
     * and the counts of listed and of completed tasks.
     */
    method LoadTaskStatistics(fails: bool) returns (grid: seq<TaskStatistics>, taskCount: nat, completedCount: nat)
      ensures fails ==> grid == []
      ensures !fails ==> multiset(grid) == multiset(Filter(StatisticsRows(db.State()), HasTime))
      ensures forall s :: s in grid <==> !fails && s in StatisticsRows(db.State()) && s.totalDurationSeconds > 0
      ensures SortedDesc(grid, TotalKey)
      ensures taskCount == |Filter(db.tasks, TaskSelected(None))|
      ensures completedCount == |Filter(db.tasks, TaskSelected(Some("completed")))|
      ensures completedCount <= taskCount
    {
      var stats := db.GetTaskStatistics(fails);
      grid := StatisticsGrid(stats);
      if !fails {
        StatisticsGridContents(db.State(), stats);
      }
      var listed := db.GetTasks(None);
      var completed := db.GetTasks(Some("completed"));
      SameElements(listed, Filter(db.tasks, TaskSelected(None)));
      SameElements(completed, Filter(db.tasks, TaskSelected(Some("completed"))));
      taskCount := |listed|;
      completedCount := |completed|;
      CompletedWithinListed(db.State());
    }

    /** `LoadCompletedTasks`: the completed tasks' rows, most recently completed first. */
    method LoadCompletedTasks(fails: bool) returns (view: seq<TaskStatistics>)
      ensures forall s :: s in view <==> !fails && s in StatisticsRows(db.State()) && s.taskStatus == Completed
      ensures SortedDesc(view, CompletedKey)
      ensures !fails ==> |view| == |Filter(db.tasks, TaskSelected(Some("completed")))|
    {
      var stats := db.GetTaskStatistics(fails);
      view := CompletedView(stats);
      if !fails {
        CompletedViewContents(db.State(), stats);
      }
    }

    /**
     * `UpdateTotalDurationChart`: one point per bucket of the selected period,
     * counted from the start of the range as written, each bucket queried with
     * both ends included. Off Sundays, and with no record starting on a
     * bucket's end, it is the corrected chart and adds up to the period's
     * total wherever the buckets span exactly the period.
     */
    method TotalDurationChart(period: string, now: Instant) returns (chart: seq<ChartPoint>)
      requires now >= 365 * SecondsPerDay
      ensures chart == ChartAsWritten(db.records, SelectedBuckets(period, SelectedTimeRangeAsWritten(period, now).start))
      ensures PeriodNamed(period).None? ==> chart == []
      ensures PeriodNamed(period).Some? ==>
        |chart| == BucketCount(PeriodNamed(period).value, SelectedTimeRangeAsWritten(period, now).start)
      ensures var range := SelectedTimeRange(period, now);
        var buckets := SelectedBuckets(period, range.start);
        DayOfWeek(Today(now)) != 0 && NoStartOnBoundary(db.records, buckets) ==>
          chart == Chart(db.records, buckets)
          && (PeriodNamed(period).Some? && ChartSpansPeriod(PeriodNamed(period).value) ==>
                SumBy(chart, PointSeconds) == DurationInRange(db.records, range.start, range.end))
    {
      var range := SelectedTimeRangeAsWritten(period, now);
      var buckets := SelectedBuckets(period, range.start);
      chart := ChartBuckets(buckets);
      SelectedChartAsWritten(db.records, period, now);
      if DayOfWeek(Today(now)) != 0 {
        WeekAsWrittenOffSunday(SelectedPeriod(period), now);
      }
    }

    /** The loop of `UpdateTotalDurationChart`: one inclusive range query per bucket. */
    method ChartBuckets(buckets: seq<Bucket>) returns (chart: seq<ChartPoint>)
      ensures chart == ChartAsWritten(db.records, buckets)
    {
      chart := [];
      for i := 0 to |buckets|
        invariant chart == ChartAsWritten(db.records, buckets[..i])
      {
        var b := buckets[i];
        var seconds := GetDurationInRange(b.start, b.end, false);
        assert buckets[..i + 1][..i] == buckets[..i];
        chart := chart + [ChartPoint(b.caption, seconds)];
      }
      assert buckets[..|buckets|] == buckets;
    }
  }

  /**
   * Ids are unique, so the first listed task with the id of an existing task
   * is that task, when the list shows it.
   */
  lemma ListedTaskOfId(db: Tables, shown: seq<Task>, id: int)
    requires WellFormed(db) && HasTask(db, id)
    requires forall t :: t in shown <==> t in db.tasks && TaskSelected(None)(t)
    ensures FirstWithId(shown, id) == if db.tasks[id - 1].status == Deleted then None else Some(db.tasks[id - 1])
  {
    var owner := db.tasks[id - 1];
    var r := FirstWithId(shown, id);
    if r.Some? {
      var j :| 0 <= j < |db.tasks| && db.tasks[j] == r.value;
    } else {
      assert owner.id == id;
    }
  }

  /** Summing the durations that have a value is summing `Duration ?? 0` over everything. */
  lemma ClosedSumIsSum(rs: seq<TimeRecord>)
    ensures TaskTotal(rs) == SumBy(rs, DurationOf)
  {
    SumByFilter(rs, IsClosed, DurationOf);
    SumByCongruent(rs, Masked(IsClosed, DurationOf), DurationOf);
  }
}
