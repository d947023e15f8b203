# WorkTime ledger, timer and reports in Dafny

WorkTime is a desktop time tracker. The user keeps a list of tasks. The user can start a timer on a task, pause it, and mark a task completed or deleted. The application reports the time worked per period, per task and per chart bucket.

This project models the part of WorkTime that decides what gets stored and what gets reported:

- **The ledger.** `DatabaseManager` holds a `tasks` table and a `time_records` table. The model holds them as two sequences in a class, `Database.DatabaseManager`. Each method is proved to reach the state that a function of module `Ledger` gives for the old state. Module `LedgerLaws` then proves what those functions guarantee:
  - the row-by-row effect of each operation;
  - "at most one record is open at a time";
  - "a task is in progress exactly when it owns an open record";
  - "every record's task exists".
- **The main window's controller.** `Controller.MainWindow` holds the selected task, the cached active timer and whether the elapsed-time display runs. It has the button handlers (start/pause, complete, delete, closing the window, selecting a task) and the queries behind the reports. Each handler's ledger sequence is a function in `Handlers`, proved to keep the window's view in step with the ledger.
- **Reporting arithmetic.** `Periods` models the named periods of the period selector as ranges of instants, over a proleptic Gregorian calendar (`Calendar`). `Reporting` models:
  - the chart buckets;
  - range totals;
  - the live total-time figure;
  - the per-task total;
  - the filters and orderings of the statistics and completed-task grids.
- **Duration and time displays.** `ClockFormat` renders `hh:mm:ss` with C#'s truncating `/` and `%`, and `ParseClock` reads it back. `StampFormat` renders `yyyy-MM-dd` and `yyyy-MM-dd HH:mm`, and `ParseDate` and `ParseStamp` read them back. `TimeRecords`, `TaskStats` and `Tasks` build their display properties on these; `ParseLifetime` reads back the lifetime text.

Time is a whole number of seconds since 0001-01-01 00:00:00, which is .NET's `DateTime` epoch. That day was a Monday. The clock (`DateTime.Now`) is the parameter `now`. The answer to each confirmation dialog is a `bool` parameter.

Two places where the code does something other than what it evidently intends are listed under "## Findings". In both, the model states the behaviour as written and proves it shows the defect, and it states a corrected definition with the intended property. The window's methods compute the program as written. Their contracts say when that agrees with the corrected definition (off Sundays, and when no record starts on a chart bucket's end), and what it gives otherwise.

## Model

| member | source | states |
|---|---|---|
| Calendar.DaysInMonth | MainWindow.xaml.cs:629 | `DateTime.DaysInMonth`: between 28 and 31 days. It is 29 exactly for February of a leap year, 28 exactly for February otherwise, and 30 exactly for April, June, September and November |
| Calendar.DayOfWeek | MainWindow.xaml.cs:386 | `DayOfWeek` is in 0..6 with Sunday 0, and day 0 (0001-01-01) is a Monday |
| Calendar.DayOfWeekStep | MainWindow.xaml.cs:386 | each day is the weekday after the day before it, and weekdays repeat every seven days |
| Calendar.DayOfWeekAnchors | MainWindow.xaml.cs:386 | the count agrees with the calendar: 2000-01-01 is a Saturday, 2026-10-11 a Sunday, 2026-10-14 a Wednesday |
| Calendar.DaysBeforeYearClosedForm | MainWindow.xaml.cs:393 | adding up year lengths one by one gives the closed form of 365 days a year plus the leap days before the year |
| Calendar.DateOf | MainWindow.xaml.cs:393 | `Year`, `Month`, `Day` of a day number: a valid date whose day number is that number |
| Calendar.DateOfDayNumber | MainWindow.xaml.cs:393 | a valid date is the date of its own day number, so dates and day numbers correspond one to one |
| Calendar.NextMonthStart | MainWindow.xaml.cs:644 | `monthStart.AddMonths(1)`: a valid first of a month, exactly `DaysInMonth` days after the given month's first |
| Calendar.PreviousMonthStart | MainWindow.xaml.cs:396 | `AddMonths(-1)` on a first of the month: a valid first of a month whose next month is the given one |
| ClockFormat.Quot | Models/TimeRecord.cs:25 | C#'s integer `/`: the quotient takes the sign of the dividend |
| ClockFormat.Rem | Models/TimeRecord.cs:26-27 | C#'s integer `%`: `Quot(a, b) * b + r == a`, with `r` in `[0, b)` for `a >= 0` and in `(-b, 0]` for `a <= 0` |
| ClockFormat.Split | Models/TimeRecord.cs:25-27 | `d / 3600`, `(d % 3600) / 60` and `d % 60` add back up to `d`. Minutes and seconds are in `[0, 59]` for `d >= 0` and in `[-59, 0]` for `d <= 0` |
| ClockFormat.SplitUnique | Models/TimeRecord.cs:25-27 | for `d >= 0`, the split is the only choice of hours, minutes and seconds in range that adds up to `d` |
| ClockFormat.Digits | Models/TimeRecord.cs:28 | the decimal digits of a number: non-empty, digits only |
| ClockFormat.Padded | Models/TimeRecord.cs:28 | zero-padding gives at least `width` characters, all digits |
| ClockFormat.ParsePadded | Models/TimeRecord.cs:28 | zero-padding does not change the value the digits denote |
| ClockFormat.TwoDigitsWidth | Models/TimeRecord.cs:28 | a field shows at least two digits and, below 100, exactly two, so hours may take more |
| ClockFormat.TwoDigitsField | Models/TimeRecord.cs:28 | `{n:00}` reads back as `n` for `n >= 0`; a negative field shows its minus sign and does not read as a number |
| ClockFormat.DecimalField | Models/TaskStatistics.cs:50 | `{n}` reads back as `n` for `n >= 0`; a negative number shows its minus sign and does not read as a number |
| ClockFormat.Fields2 | Models/TimeRecord.cs:16 | splitting at the first separator gives a first field without it, and the two fields put back together give the text |
| ClockFormat.ClockTextReadsBack | Models/TimeRecord.cs:25-28 | for `d >= 0`, `hh:mm:ss` reads back as the split of `d`. For `d < 0` some field shows a minus sign (-5 seconds is `00:00:-05`), and the text does not read as a clock |
| ClockFormat.ClockTextInjective | Models/TimeRecord.cs:28 | two non-negative durations with the same display are equal |
| Tasks.StatusOfText | Models/DatabaseManager.cs:208 | reading `task_status`: a status whose stored text is the given text, or none when no status is stored as that text |
| Tasks.StatusTextRoundTrip | Models/DatabaseManager.cs:208 | reading a status back gives the status that was written |
| Tasks.StatusDisplayName | Models/TaskStatistics.cs:16-29 | the four stored statuses get one of the four labels, each different from the stored text. Any other text is shown as it is |
| Tasks.DisplayNamesDistinct | Models/TaskStatistics.cs:20-27 | distinct statuses get distinct labels |
| StampFormat.DayText | Models/TaskStatistics.cs:56 | `yyyy-MM-dd` of a date reads back as that date, and holds no space |
| StampFormat.DateText | Models/TaskStatistics.cs:56 | `CreatedAt.ToString("yyyy-MM-dd")` reads back as the date of the day that holds the instant |
| StampFormat.DateTextSameDay | Models/TaskStatistics.cs:56 | two instants show the same date exactly when they fall on the same day |
| StampFormat.TimeText | Models/TimeRecord.cs:16 | `HH:mm` reads back as the hour and the minute |
| StampFormat.MinuteText | Models/TimeRecord.cs:16 | `yyyy-MM-dd HH:mm` reads back as the date of the instant's day, the hour of the day and the minute of the hour |
| StampFormat.MinuteTextSameMinute | Models/TimeRecord.cs:16 | two instants show the same `yyyy-MM-dd HH:mm` exactly when they fall in the same minute |
| StampFormat.MinuteFields | Models/TimeRecord.cs:16 | the day, hour and minute shown are the parts of the instant's minute count, in range, and add back up to it |
| TimeRecords.EndTimeDisplay | Models/TimeRecord.cs:17 | "进行中" exactly when `EndTime` is null |
| TimeRecords.DurationDisplay | Models/TimeRecord.cs:19-32 | "计算中" exactly when `Duration` is null. Otherwise the text reads back to the duration's hours, minutes and seconds when it is non-negative, and does not read as a clock when it is negative |
| TimeRecords.TotalDurationDisplay | Models/TimeRecord.cs:34-48 | equal to `DurationDisplay` when `Duration` has a value. When it is null, it is the display of zero seconds |
| TimeRecords.ZeroClockTextIsZero | Models/TimeRecord.cs:46 | "00:00:00" is how zero seconds are displayed |
| TaskStats.TotalDurationDisplay | Models/TaskStatistics.cs:31-40 | the text reads back to the total's hours, minutes and seconds when the total is non-negative, and does not read as a clock otherwise |
| TaskStats.LifetimeParts | Models/TaskStatistics.cs:48-49 | for `L >= 0`: days `>= 0` and hours in `[0, 23]`, with `L` between `days*86400 + hours*3600` and one hour more |
| TaskStats.LifetimeText | Models/TaskStatistics.cs:50 | "`d`天`h`小时" reads back as `d` and `h` when both are non-negative, and not at all otherwise |
| TaskStats.TaskLifetimeDisplay | Models/TaskStatistics.cs:42-54 | empty exactly when there is no lifetime. Otherwise the text reads back as the lifetime's `LifetimeParts` days and hours, unless one of them is negative |
| TaskStats.LifetimeDisplaySameHour | Models/TaskStatistics.cs:48-50 | two non-negative lifetimes show the same text exactly when they hold the same number of whole hours |
| TaskStats.LifetimeDropsMinutes | Models/TaskStatistics.cs:48-50 | lifetimes within the same hour are displayed alike, so minutes and seconds are dropped |
| Ledger.UpdateStatus | Models/DatabaseManager.cs:273-294 | a status update keeps the number of tasks and every record |
| Ledger.AddTask | Models/DatabaseManager.cs:162-175 | the `INSERT`: one more task, pending, named as given, stamped now, with the next id. `LedgerLaws.AddTaskKeeps` proves the id fresh, the records untouched and the invariants kept |
| Ledger.Close | Models/DatabaseManager.cs:364-375 | the record's `UPDATE`: end now and duration `now - start_time`, whether or not the record was open. `LedgerLaws.PauseEffect` and `LedgerLaws.RepauseResetsTask` state its effect |
| Ledger.SetNotes | Models/DatabaseManager.cs:501-514 | the notes `UPDATE` on a known record; an unknown id changes nothing. `LedgerLaws.SetNotesKeeps` states that only that record's notes change |
| Ledger.OpenCount | Models/DatabaseManager.cs:378-382 | the count of the task's open records is zero exactly when the task has no open record |
| Ledger.Pause | Models/DatabaseManager.cs:335-390 | a pause keeps the number of tasks and of records |
| Ledger.OpenIds | Models/DatabaseManager.cs:397 | exactly the ids of the records whose `end_time` is null |
| Ledger.PauseEach | Models/DatabaseManager.cs:402-405 | pausing a list of ids keeps the number of tasks and of records |
| Ledger.Start | Models/DatabaseManager.cs:302-333 | one more record. The last record is open, belongs to the task, starts now, and its id comes after every earlier one |
| Ledger.ActiveTimerFrom | Models/DatabaseManager.cs:470-498 | none exactly when no record from that position on is open with an existing task. Otherwise it is such a record, with no end or duration and with its task's name |
| Ledger.ActiveTimerSkips | Models/DatabaseManager.cs:473-474 | the join and the `end_time IS NULL` filter pass over a closed record or one whose task is missing |
| Ledger.ActiveTimerOf | Models/DatabaseManager.cs:470-498 | the active-timer query over the whole table. `LedgerLaws.ActiveTimerNoneIff` gives none exactly when no record is open, and `LedgerLaws.ActiveTimerIsTheOpenRecord` gives the one open record joined with its task |
| Ledger.StatisticsRow | Models/DatabaseManager.cs:228-240 | one task's row of the left join: the count and the sum of its records with a duration. `LedgerLaws.StatisticsOfIdleTask` and `Reporting.TaskTotalMatchesStatistics` state its meaning |
| Ledger.StatisticsRows | Models/DatabaseManager.cs:228-240 | one row per task, deleted tasks included, before the ordering. `Database.DatabaseManager.GetTaskStatistics` orders them by total |
| LedgerLaws.UpdateStatusEffect | Models/DatabaseManager.cs:278-290 | restamps exactly the task with that id: status, `updated_at`, and `completed_at` only for "completed". Other tasks and all records stay. An unknown id changes nothing |
| LedgerLaws.OwnsCount | Models/DatabaseManager.cs:378-384 | the `COUNT(*)` is positive exactly when the task owns an open record |
| LedgerLaws.PauseEffect | Models/DatabaseManager.cs:342-388 | a known record gets end now and duration now minus start, and nothing else changes on it. Its task is set to pending exactly when none of its records stays open; other tasks stay. An unknown id changes nothing |
| LedgerLaws.PauseOpensNothing | Models/DatabaseManager.cs:368-375 | a record open after a pause was open before, and is not the paused one |
| LedgerLaws.PauseKeepsAtMostOne | Models/DatabaseManager.cs:335-390 | pausing keeps "at most one open record" |
| LedgerLaws.PauseKeepsCoupled | Models/DatabaseManager.cs:377-387 | pausing keeps "a task is in progress exactly when it owns an open record" |
| LedgerLaws.OwnsElsewhere | Models/DatabaseManager.cs:368-375 | closing one record changes no other task's ownership of open records |
| LedgerLaws.RepauseResetsTask | Models/DatabaseManager.cs:368-387 | with no `end_time IS NULL` guard, a closed record is stamped again and its task, even a completed one, goes back to pending. Its `completed_at` stays |
| LedgerLaws.OpenIdsOfOnly | Models/DatabaseManager.cs:397-405 | with at most one open record, the open ids are that record's id or nothing |
| LedgerLaws.CloseAllWellFormed | Models/DatabaseManager.cs:392-409 | closing every open record and releasing their tasks keeps ids and stored records well formed |
| LedgerLaws.PauseAllClosedForm | Models/DatabaseManager.cs:392-409 | under the invariants, pausing the open ids one by one equals closing every open record at once and setting each task that owned one to pending |
| LedgerLaws.PauseOnlyOpen | Models/DatabaseManager.cs:404 | pausing the one open record is closing everything at once |
| LedgerLaws.NothingOpenToClose | Models/DatabaseManager.cs:397-405 | with no open record, pausing all changes nothing |
| LedgerLaws.StartEffect | Models/DatabaseManager.cs:302-325 | every record open before is closed at `now`, and every task that owned one is pending. Then the task is in progress. The only open record is the new one, which is the task's and starts now |
| LedgerLaws.StartKeepsCoupled | Models/DatabaseManager.cs:302-325 | starting keeps "a task is in progress exactly when it owns an open record" and "at most one open record" |
| LedgerLaws.StartKeepsRefs | Models/DatabaseManager.cs:317-322 | starting an existing task keeps every record's task existing |
| LedgerLaws.StartKeepsCoupledAtMostOne | Models/DatabaseManager.cs:302-325 | after starting, at most one record is open |
| LedgerLaws.ActiveTimerNoneIff | Models/DatabaseManager.cs:470-498 | when every record's task exists, there is no active timer exactly when no record has a null `end_time` |
| LedgerLaws.ActiveTimerIsTheOpenRecord | Models/DatabaseManager.cs:470-493 | under the invariants, the active timer is the one open record, joined with its task |
| LedgerLaws.ActiveTimerAfterStart | Models/DatabaseManager.cs:302-325 | after starting a task, the active timer is the new record: the task's, started now, carrying the task's name |
| LedgerLaws.ActiveTimerAfterPause | Models/DatabaseManager.cs:335-390 | pausing the one open record leaves no open record and no active timer |
| LedgerLaws.ActiveTimerAfterUpdate | Models/DatabaseManager.cs:273-294 | a status change leaves the active timer as it was |
| LedgerLaws.ActiveFromSameNames | Models/DatabaseManager.cs:470-475 | the active-timer query reads only the records and the task names |
| LedgerLaws.AddTaskKeeps | Models/DatabaseManager.cs:162-175 | the new task's id is fresh and the records stay. The tables stay well formed and the invariants stay; the new task owns nothing |
| LedgerLaws.UpdateStatusKeeps | Models/DatabaseManager.cs:273-294 | a status update keeps "at most one open record" and "every record's task exists". It keeps the coupling whenever the new status agrees with the task's open records |
| LedgerLaws.SetNotesKeeps | Models/DatabaseManager.cs:501-514 | only the notes of that one record change, and every invariant stays |
| LedgerLaws.CompletedWithinListed | Models/DatabaseManager.cs:184-190 | the completed tasks never outnumber the tasks the unfiltered list shows |
| LedgerLaws.RecordsUnfiltered | Models/DatabaseManager.cs:418 | without filters, the record query keeps every record |
| LedgerLaws.StatisticsOfIdleTask | Models/DatabaseManager.cs:235-238 | a task with no finished session has zero sessions and a zero total |
| Database.DatabaseManager.constructor | Models/DatabaseManager.cs:16-21 | a new database: both tables empty, the invariants hold |
| Database.DatabaseManager.AddTask | Models/DatabaseManager.cs:162-175 | appends a pending task with the next id, the given name and both stamps now. Returns that id |
| Database.DatabaseManager.GetTasks | Models/DatabaseManager.cs:177-218 | without a filter, exactly the tasks not deleted; with one, exactly the tasks stored with that status. Each as often as stored, most recently updated first |
| Database.DatabaseManager.GetTaskStatistics | Models/DatabaseManager.cs:220-271 | one row per task, deleted ones included, largest total first. The count and the total are over the task's records with a duration. A failing query gives no rows |
| Database.DatabaseManager.UpdateTaskStatus | Models/DatabaseManager.cs:273-294 | the new tables are `UpdateStatus` of the old, and the invariants stay |
| Database.DatabaseManager.DeleteTask | Models/DatabaseManager.cs:296-299 | exactly `UpdateTaskStatus(id, deleted)`: no row removed, records untouched |
| Database.DatabaseManager.StartTimer | Models/DatabaseManager.cs:302-333 | the new tables are `Start` of the old. Returns the new record's id: the new last record, open, the task's, started now |
| Database.DatabaseManager.PauseTimer | Models/DatabaseManager.cs:335-390 | the new tables are `Pause` of the old, and the invariants stay |
| Database.DatabaseManager.PauseAllActiveTimers | Models/DatabaseManager.cs:392-409 | pauses, one by one, the records that were open on entry |
| Database.DatabaseManager.GetTimeRecords | Models/DatabaseManager.cs:411-463 | exactly the records that pass every given filter, both bounds inclusive, each as often as stored, latest start first |
| Database.DatabaseManager.GetActiveTimer | Models/DatabaseManager.cs:465-499 | the first open record whose task exists, joined with that task; none when there is no such record |
| Database.DatabaseManager.UpdateRecordNotes | Models/DatabaseManager.cs:501-514 | the new tables are `SetNotes` of the old, and the invariants stay |
| Handlers.ActiveIsOpenRecord | Models/DatabaseManager.cs:470-493 | the active timer is the stored open record with its id, carrying that record's task and start |
| Handlers.Toggle | MainWindow.xaml.cs:843-880 | the start/pause button's ledger sequence. `ToggleOwnPauses`, `ToggleStarts`, `ToggleDeclined` and `ToggleKeeps` state each branch |
| Handlers.PauseOwn | MainWindow.xaml.cs:781-787 | the selected task's own timer is paused and any other task's is left. `FinishEffect` states the result |
| Handlers.Complete | MainWindow.xaml.cs:901-924 | the complete button's ledger sequence. `CompleteEffect` states its cases |
| Handlers.Delete | MainWindow.xaml.cs:773-789 | the delete button's ledger sequence. `DeleteEffect` states its cases |
| Handlers.Closing | MainWindow.xaml.cs:1052-1063 | the closing window's ledger sequence. `ClosingEffect` states its cases |
| Handlers.OnlyActiveOwns | Models/DatabaseManager.cs:470-475 | a task other than the active timer's owns no open record |
| Handlers.PauseKeepsRefs | Models/DatabaseManager.cs:368-387 | pausing keeps every record's task existing |
| Handlers.PauseActive | MainWindow.xaml.cs:845-855 | pausing the active timer closes its record now and leaves nothing open and no active timer. It keeps every invariant |
| Handlers.StartSynced | MainWindow.xaml.cs:872-880 | after starting an existing task, the new record is the only open one and the active timer, and the task is in progress. Every invariant holds |
| Handlers.ToggleOwnPauses | MainWindow.xaml.cs:845-855 | clicking on the selected task's own running timer pauses it: nothing stays open and no timer is active |
| Handlers.ToggleStarts | MainWindow.xaml.cs:856-880 | with no timer, or another task's and consent to switch: the previous timer's record is closed now. The only open record is a new one of the selected task started now, and that task is in progress |
| Handlers.ToggleDeclined | MainWindow.xaml.cs:859-861 | declining the switch, or clicking with nothing selected, leaves the ledger unchanged |
| Handlers.ToggleKeeps | MainWindow.xaml.cs:843-880 | every click keeps the window's view current, and keeps tasks coupled to their open records |
| Handlers.FinishEffect | MainWindow.xaml.cs:915-924 | once the own timer is paused and the status set, the task has that status, is stamped now and owns no open record. Another task's timer stays active |
| Handlers.CompleteEffect | MainWindow.xaml.cs:901-924 | completing a task shown as completed, or declining, changes nothing. Otherwise the task is completed, stamped now and owns no open record, and another task's timer keeps running |
| Handlers.DeleteEffect | MainWindow.xaml.cs:773-789 | declining changes nothing. Confirming deletes the task and keeps every row; the task owns no open record, and another task's timer keeps running |
| Handlers.ClosingEffect | MainWindow.xaml.cs:1052-1063 | declining with a timer running changes nothing. Confirming leaves no record open |
| Controller.FirstWithId | MainWindow.xaml.cs:208 | `FirstOrDefault`: a listed task with that id, or none when no listed task has it |
| Controller.DisplayRuns | MainWindow.xaml.cs:270-293 | the button rule of `UpdateTaskDetails`: a completed or deleted task keeps the display as it was, any other task runs it exactly when it is in progress and owns the cached timer. `Controller.MainWindow.SelectTask` ensures it |
| Controller.ListedTaskOfId | MainWindow.xaml.cs:205-208 | the listed task with an existing task's id is that task, unless the task is deleted |
| Controller.ClosedSumIsSum | MainWindow.xaml.cs:172 | summing the durations that have a value is summing `Duration ?? 0` over all records |
| Controller.MainWindow.constructor | MainWindow.xaml.cs:191-226 | caches the ledger's active timer and runs the display exactly when there is one. It selects that timer's task when the task list shows it |
| Controller.MainWindow.SelectTask | MainWindow.xaml.cs:262-322 | selects the task and keeps the cached timer. The display runs for an in-progress task whose timer is active, stops for other open tasks, and is left alone for completed or deleted ones |
| Controller.MainWindow.TimerButtonClick | MainWindow.xaml.cs:827-891 | the ledger becomes `Toggle` of the old state. The cached timer stays the ledger's. The display runs exactly when a timer was started |
| Controller.MainWindow.PauseCachedTimer | MainWindow.xaml.cs:845-855 | pauses the cached timer's record; afterwards there is no cached timer and the display is stopped |
| Controller.MainWindow.StartSelectedTimer | MainWindow.xaml.cs:872-880 | starts the task, caches the ledger's new active timer and runs the display |
| Controller.MainWindow.CompleteTaskButtonClick | MainWindow.xaml.cs:893-949 | the ledger becomes `Complete` of the old state. When it acts, the selection shows the task completed, and the own timer, if it ran, is dropped and its display stopped |
| Controller.MainWindow.MarkSelectedCompleted | MainWindow.xaml.cs:915-924 | pauses the task's own timer, then marks the task completed |
| Controller.MainWindow.PauseOwnTimer | MainWindow.xaml.cs:781-787 | pauses and drops the selected task's own timer; another task's timer is kept |
| Controller.MainWindow.DeleteTaskButtonClick | MainWindow.xaml.cs:765-807 | the ledger becomes `Delete` of the old state. When it acts, nothing stays selected, and the own timer, if it ran, is dropped |
| Controller.MainWindow.OnClosed | MainWindow.xaml.cs:1049-1069 | the ledger becomes `Closing` of the old state, and the invariants stay |
| Controller.MainWindow.GetDurationInRange | MainWindow.xaml.cs:707-720 | `Duration ?? 0` over the records started in `[start, end]`; 0 when the query fails |
| Controller.MainWindow.UpdateTodayTotalTime | MainWindow.xaml.cs:336-367 | the closed durations in the selected range as written, plus the running timer's elapsed seconds, and the label `总工作时间: hh:mm:ss` of that total. Off Sundays this is the total over the corrected range. On a Sunday under 本周 it is the running timer's elapsed time alone |
| Controller.MainWindow.LoadTimeRecords | MainWindow.xaml.cs:152-189 | the task's records, latest first, and the label of their total, which equals the total of the task's statistics row |
| Controller.MainWindow.LoadTaskStatistics | MainWindow.xaml.cs:411-478 | the rows with tracked time, largest first, or none on failure. Also the counts of listed and of completed tasks, the second never above the first |
| Controller.MainWindow.LoadCompletedTasks | MainWindow.xaml.cs:119-150 | exactly the completed tasks' rows, latest completion first, as many as the completed count |
| Controller.MainWindow.TotalDurationChart | MainWindow.xaml.cs:590-649 | the chart as written: buckets counted from the start of the range as written, each queried with both ends included. One point per bucket of the selected period, none for an unknown caption. Off Sundays, and with no record starting on a bucket's end, it is the corrected chart; for 今日, 上周, 上月 and 去年 its points then add up to the range total |
| Controller.MainWindow.ChartBuckets | MainWindow.xaml.cs:607-648 | one inclusive range query per bucket, from its start to its end, as `ChartAsWritten` |
| Periods.PeriodNamed | MainWindow.xaml.cs:378-405 | a period exactly for the eight captions of the selector, and that period's caption is the text |
| Periods.CaptionsNamePeriods | MainWindow.xaml.cs:378-405 | every caption names its own period |
| Periods.PeriodIndex | MainWindow.xaml.cs:378-405 | every period's caption is in the selector |
| Periods.SelectedPeriod | MainWindow.xaml.cs:378-407 | the `switch` on the caption: the period the caption names, and today for any other caption. `PeriodNamed` and `TodayIsOneDay` state it |
| Periods.WeekStartAsWritten | MainWindow.xaml.cs:386 | as written, `today - DayOfWeek + 1`. `SundayWeekAsWritten` shows it is tomorrow on a Sunday; `WeekAsWrittenOffSunday` shows it is `WeekStart` otherwise |
| Periods.RangeFrom | MainWindow.xaml.cs:378-407 | every case's start and end, with the week counted from a given Monday. `PeriodsAreWholeDays` and `PeriodsAsWrittenAreWholeDays` state when that is whole days |
| Periods.PeriodRangeAsWritten | MainWindow.xaml.cs:378-407 | the periods as written. `PeriodsAsWrittenAreWholeDays` states they are whole days except 本周 on a Sunday |
| Periods.SelectedTimeRangeAsWritten | MainWindow.xaml.cs:369-409 | `GetSelectedTimeRange` as written: the caption's period, today by default. `TodayIsOneDay`, `SundayWeekAsWritten` and `WeekAsWrittenOffSunday` state its ranges |
| Periods.WeekStart | MainWindow.xaml.cs:386 | the corrected week start: a Monday, on or before today and less than seven days back |
| Periods.YearOfDay | MainWindow.xaml.cs:399-403 | the year of a day, which is at least 2 once a whole year has passed, so "last year" exists |
| Periods.MonthStartBefore | MainWindow.xaml.cs:393 | the first of the month is on or before today and is day 1 of today's month |
| Periods.YearStartBefore | MainWindow.xaml.cs:400 | January 1 is on or before today |
| Periods.DayOfStart | MainWindow.xaml.cs:381 | a day's first and last seconds both fall on that day |
| Periods.SecondsOfDate | MainWindow.xaml.cs:381 | a date's first and last seconds fall on that date |
| Periods.PeriodsAreWholeDays | MainWindow.xaml.cs:378-408 | corrected: with the week starting on Monday, every period runs from a day's first second to a day's last second (23:59:59), and does not end before it starts |
| Periods.PeriodsAsWrittenAreWholeDays | MainWindow.xaml.cs:378-407 | as written, a period is whole days, from 00:00:00 to 23:59:59 and not ending before it starts, exactly when it is not 本周 on a Sunday |
| Periods.ThisMonthIsWholeDays | MainWindow.xaml.cs:392-394 | 本月 is whole days |
| Periods.LastMonthIsWholeDays | MainWindow.xaml.cs:395-398 | 上月 is whole days |
| Periods.LastMonthRangeIsWhole | MainWindow.xaml.cs:395-398 | the range of the previous month is whole days |
| Periods.ThisYearIsWholeDays | MainWindow.xaml.cs:399-401 | 今年 is whole days |
| Periods.LastYearIsWholeDays | MainWindow.xaml.cs:402-405 | 去年 is whole days |
| Periods.LastYearRangeIsWhole | MainWindow.xaml.cs:402-405 | the range of the previous year is whole days |
| Periods.YearRangeIsWhole | MainWindow.xaml.cs:403-405 | January 1 to December 31 of a year is whole days |
| Periods.LastMonthPeriod | MainWindow.xaml.cs:395-398 | 上月 is the range from the previous month's first to the day before this month's first |
| Periods.LastYearPeriod | MainWindow.xaml.cs:402-405 | 去年 is January 1 to December 31 of last year |
| Periods.PreviousMonthBefore | MainWindow.xaml.cs:396-397 | the previous month's first comes before this month's first |
| Periods.YearInOrder | MainWindow.xaml.cs:403-404 | January 1 comes before December 31 |
| Periods.TodayIsOneDay | MainWindow.xaml.cs:380-381 | 今日, and any other text that is not one of the eight captions (406-407), is exactly today from 00:00:00 to 23:59:59, which contains `now` |
| Periods.YesterdayIsOneDay | MainWindow.xaml.cs:382-384 | 昨日 is exactly one day, ending where today starts |
| Periods.WeeksStartOnMonday | MainWindow.xaml.cs:385-391 | corrected: 本周 starts on the Monday on or before today, less than seven days back, and ends at the end of today. 上周 is the seven days before that Monday, starting on a Monday |
| Periods.WeekAsWrittenOffSunday | MainWindow.xaml.cs:385-391 | from Monday to Saturday, the week as written is the corrected week |
| Periods.SundayWeekAsWritten | MainWindow.xaml.cs:386-391 | as written, on a Sunday 本周 starts tomorrow, after it ends, and 上周 is the current Monday-to-Sunday week, ending today |
| Periods.ThisMonthStartsOnTheFirst | MainWindow.xaml.cs:392-394 | 本月 starts on the first of this month and ends at the end of today |
| Periods.LastMonthIsWhole | MainWindow.xaml.cs:395-398 | 上月 starts on the first of the previous month and ends where this month starts, covering exactly that month's days |
| Periods.ThisYearStartsOnJanuaryFirst | MainWindow.xaml.cs:399-401 | 今年 starts on January 1 and ends at the end of today |
| Periods.LastYearIsWhole | MainWindow.xaml.cs:402-405 | 去年 starts on January 1 and ends on December 31 of last year |
| Periods.YearRangeDates | MainWindow.xaml.cs:403-405 | a year's range starts on its January 1 and ends on its December 31 |
| Reporting.SpanIsInclusiveRange | Models/DatabaseManager.cs:429-435 | start times are whole seconds, so the half-open `[start, end)` total is the inclusive query up to `end - 1` |
| Reporting.SpanSplit | MainWindow.xaml.cs:609-611 | adjacent half-open spans add up to the span they form |
| Reporting.DurationInRange | MainWindow.xaml.cs:707-720 | `Duration ?? 0` over the records started in `[start, end]`. `SpanIsInclusiveRange`, `CloseInRange` and `EmptyRangeTotal` state its meaning |
| Reporting.HourCaption | MainWindow.xaml.cs:612 | `{hour:00}:00`; the hour reads back by `ClockFormat.TwoDigitsField` |
| Reporting.DayCaption | MainWindow.xaml.cs:623 | `MM/dd` of the bucket's day; each field reads back by `ClockFormat.TwoDigitsField` |
| Reporting.MonthCaption | MainWindow.xaml.cs:646 | `MM月`; the month reads back by `ClockFormat.TwoDigitsField` |
| Reporting.HourBuckets | MainWindow.xaml.cs:607-613 | the 24 hours of the day. `HourBucketsTile` states that they tile it |
| Reporting.DayBuckets | MainWindow.xaml.cs:618-624 | consecutive days from a first day. `DayBucketsTile` and `DayBucketsEnds` state their span |
| Reporting.MonthDayBuckets | MainWindow.xaml.cs:628-636 | the days of the start's month. `MonthDayBucketsTile` states there are `DaysInMonth` of them, tiled |
| Reporting.MonthBucket | MainWindow.xaml.cs:641-647 | one month, from its first to the next month's first. `MonthBucketFacts` states it |
| Reporting.MonthBuckets | MainWindow.xaml.cs:641-647 | the 12 months of a year. `MonthBucketsTile` and `MonthBucketsEnds` state their span |
| Reporting.YearMonthBuckets | MainWindow.xaml.cs:638-648 | the 12 months of the start's year. `YearBucketsAre` and `YearSpans` state their span |
| Reporting.Buckets | MainWindow.xaml.cs:603-648 | the chart `switch` per period, and nothing for 昨日. `BucketsTile` states the count and the tiling |
| Reporting.SelectedBuckets | MainWindow.xaml.cs:603-648 | the chart `switch` on the caption, with no default case. `SelectedBucketsTile` states the tiling |
| Reporting.BucketsTile | MainWindow.xaml.cs:603-649 | 24 hours for 今日, 7 days for the weeks, the start month's days for the months, 12 months for the years, none for 昨日. Each bucket is non-empty and ends where the next starts |
| Reporting.BucketsCount | MainWindow.xaml.cs:603-649 | the number of buckets for each period |
| Reporting.BucketsAreTiled | MainWindow.xaml.cs:603-649 | for every period, each bucket is non-empty and ends where the next starts |
| Reporting.SelectedBucketsTile | MainWindow.xaml.cs:603-649 | the buckets for any caption tile time |
| Reporting.MonthDayBucketsTile | MainWindow.xaml.cs:629-636 | `DaysInMonth` buckets, tiled |
| Reporting.HourBucketsTile | MainWindow.xaml.cs:607-613 | hour buckets, tiled |
| Reporting.DayBucketsTile | MainWindow.xaml.cs:618-624 | day buckets, tiled |
| Reporting.MonthBucketsTile | MainWindow.xaml.cs:641-647 | month buckets, tiled |
| Reporting.MonthBucketFacts | MainWindow.xaml.cs:643-644 | a month bucket is non-empty and ends where the next month's starts |
| Reporting.ChartAsWritten | MainWindow.xaml.cs:607-648 | as written: one point per bucket, each bucket's query with both ends included |
| Reporting.Chart | MainWindow.xaml.cs:607-648 | corrected: one point per bucket, each bucket's end left out |
| Reporting.ChartAddsUp | MainWindow.xaml.cs:603-649 | corrected: the points add up to the total over the whole span the buckets tile |
| Reporting.BoundaryInBothBuckets | MainWindow.xaml.cs:609-611 | as written, a record starting where a bucket ends is selected by that bucket's query and by the next one's. The corrected query selects it only in the next |
| Reporting.ChartAsWrittenCountsTwice | MainWindow.xaml.cs:607-613 | as written, a 600-second session starting at 01:00 shows in both the 00:00 and the 01:00 bucket, 1200 seconds for two hours that hold 600 |
| Reporting.ChartCountsOnce | MainWindow.xaml.cs:607-613 | corrected, the same session is counted once, in the 01:00 bucket |
| Reporting.ChartMatchesPeriod | MainWindow.xaml.cs:594-649 | corrected: for 今日, 上周, 上月 and 去年, the corrected chart's points add up to the corrected range's total |
| Reporting.SelectedChart | MainWindow.xaml.cs:594-649 | corrected: an unknown caption charts nothing. Otherwise there is one point per bucket, adding up to the corrected range's total for the periods that end with their last bucket |
| Reporting.ChartAsWrittenOffBoundaries | MainWindow.xaml.cs:609-645 | when no record starts on a bucket's end, the inclusive queries as written chart the same points as the corrected half-open spans |
| Reporting.SelectedChartAsWritten | MainWindow.xaml.cs:594-649 | as written: an unknown caption charts nothing, otherwise one point per bucket. Off Sundays, with no record starting on a bucket's end, the range is the corrected one, the chart is the corrected chart, and for 今日, 上周, 上月 and 去年 it adds up to the range total |
| Reporting.SundayWeekChartsNextWeek | MainWindow.xaml.cs:386-387 | as written, on a Sunday the 本周 chart plots the seven days from tomorrow on |
| Reporting.EmptyRangeTotal | Models/DatabaseManager.cs:429-435 | a range that ends before it starts holds no record, so its total is 0 |
| Reporting.ChartOverRange | MainWindow.xaml.cs:707-720 | corrected: with half-open buckets, buckets that tile `[start, end]` chart exactly the inclusive range total |
| Reporting.ChartEnds | MainWindow.xaml.cs:594-649 | for 今日, 上周, 上月 and 去年, the buckets start with the range and end one second after it |
| Reporting.TodayChartEnds | MainWindow.xaml.cs:607-613 | the hours of today span today's range |
| Reporting.LastWeekChartEnds | MainWindow.xaml.cs:618-624 | the days of last week span its range |
| Reporting.LastMonthChartEnds | MainWindow.xaml.cs:629-636 | the days of last month span its range |
| Reporting.MonthBucketsAre | MainWindow.xaml.cs:626-636 | a month period's buckets are the days of the month its range starts in |
| Reporting.LastMonthSpans | MainWindow.xaml.cs:629-636 | last month's day buckets span last month's range |
| Reporting.DayBucketsEnds | MainWindow.xaml.cs:620-621 | consecutive days run from the first day's start to the start of the day after the last |
| Reporting.LastYearChartEnds | MainWindow.xaml.cs:641-647 | the months of last year span its range |
| Reporting.YearBucketsAre | MainWindow.xaml.cs:638-647 | a year period's buckets are the months of the year its range starts in |
| Reporting.LastYearSpans | MainWindow.xaml.cs:641-647 | last year's month buckets span its range |
| Reporting.YearSpans | MainWindow.xaml.cs:641-647 | a year's month buckets span its range |
| Reporting.MonthBucketsEnds | MainWindow.xaml.cs:643-644 | a year's months run from the start of January 1 to the end of December 31 |
| Reporting.SundayWorkTime | MainWindow.xaml.cs:347-355 | as written, on a Sunday under 本周 the total-time figure is the running timer's elapsed time alone, or 0 |
| Reporting.WorkTimeTotal | MainWindow.xaml.cs:347-355 | closed durations in the range plus the running timer's elapsed time. `LiveTotalIsPausedTotal`, `SundayWorkTime` and `WorkTimeOffSunday` state its meaning |
| Reporting.WorkTimeText | MainWindow.xaml.cs:357-361 | `总工作时间: hh:mm:ss` of the total; the clock reads back by `ClockFormat.ClockTextReadsBack` |
| Reporting.WorkTimeOffSunday | MainWindow.xaml.cs:347-355 | from Monday to Saturday, the figure as written is the figure over the corrected range |
| Reporting.CloseInRange | MainWindow.xaml.cs:348-349 | pausing an open record changes a range total by its new duration when it started in the range, and not otherwise |
| Reporting.LiveTotalIsPausedTotal | MainWindow.xaml.cs:348-355 | while a timer runs, the figure is the total that pausing it now would store when the timer started in the range. A timer started before the range adds its whole elapsed time on top |
| Reporting.TaskTotalMatchesStatistics | MainWindow.xaml.cs:165-172 | the total under a task's records equals the total of that task's statistics row |
| Reporting.TaskTotal | MainWindow.xaml.cs:172 | the sum of the durations that have a value. `TaskTotalMatchesStatistics` and `Controller.ClosedSumIsSum` state its meaning |
| Reporting.TaskTotalText | MainWindow.xaml.cs:173-177 | `任务总耗时: hh:mm:ss` of the total; the clock reads back by `ClockFormat.ClockTextReadsBack` |
| Reporting.StatisticsGridContents | MainWindow.xaml.cs:432-435 | exactly the rows with a positive total, largest first. Over an ordered list the grid keeps the list's order |
| Reporting.StatisticsGrid | MainWindow.xaml.cs:432-435 | `Where(total > 0).OrderByDescending(total)`. `StatisticsGridContents` states its contents and order |
| Reporting.CompletedViewContents | MainWindow.xaml.cs:133-136 | exactly the completed tasks' rows, latest completion first, as many as the "completed" count |
| Reporting.CompletedView | MainWindow.xaml.cs:133-136 | `Where(completed).OrderByDescending(CompletedAt)`. `CompletedViewContents` states its contents, order and count |
| Reporting.CompletedViewCount | MainWindow.xaml.cs:133-136 | as many completed rows as completed tasks |
| Reporting.CompletedCorrespond | Models/DatabaseManager.cs:237-239 | the first `n` statistics rows hold as many completed rows as the first `n` tasks hold completed tasks |
| Reporting.CompletedRowIffSelected | MainWindow.xaml.cs:134 | a task's row is a completed row exactly when the "completed" filter lists the task |
| Ordering.Filter | MainWindow.xaml.cs:433 | `Where`: no longer than its input, and holds exactly the input's elements that pass |
| Ordering.InsertDesc | Models/DatabaseManager.cs:186 | adds exactly the one element |
| Ordering.InsertKeepsOrder | Models/DatabaseManager.cs:186 | inserting into a list ordered largest first keeps it ordered |
| Ordering.SortDesc | MainWindow.xaml.cs:434 | `OrderByDescending`: a permutation of its input, ordered largest first |
| Ordering.SortSorted | MainWindow.xaml.cs:434 | stability: an already ordered list is left as it is |
| Ordering.FilterPermutation | MainWindow.xaml.cs:433 | selecting from two arrangements of the same rows keeps the same rows |
| Ordering.FilterKeepsOrder | MainWindow.xaml.cs:133-135 | a selection from an ordered list is ordered |
| Sums.SumByPermutation | MainWindow.xaml.cs:172 | a sum does not depend on the order of its terms |
| Sums.SumByFilter | MainWindow.xaml.cs:349 | summing over a selection is summing the masked terms over everything |

## Left out

- The SQLite file, connections, SQL text and readers, table creation, `CheckDatabaseStructure`, `BackupDatabase` and `MigrateDatabase`. The tables are sequences in memory, and a new database starts empty.
- The `lock` in `StartTimer`. Each operation is one atomic step; nothing is concurrent.
- The foreign key of `time_records.task_id` is not enforced by SQLite. The model allows orphaned records too, and the window states "every record's task exists" as part of its own invariant.
- `DateTime.Now` and SQLite's `CURRENT_TIMESTAMP`. Both are the parameter `now`, in one local clock. The source stamps tasks in UTC and records in local time, and the model does not capture that difference.
- Sub-second time. Instants are whole seconds, so `(int)(endTime - startTime).TotalSeconds` is exact. The model does not capture the truncation of a fraction of a second.
- The 32-bit `int` of `duration`, and the 64-bit `long` of the totals. Integers are unbounded; no overflow is modelled.
- The calendar has no upper bound. `DateTime` itself ends in year 9999.
- Periods.RangeFrom, Periods.PeriodRange, Periods.PeriodRangeAsWritten, Periods.SelectedTimeRange, Periods.SelectedTimeRangeAsWritten, Periods.LastMonthRange, Periods.LastYearRange, Controller.MainWindow.UpdateTodayTotalTime and Controller.MainWindow.TotalDurationChart require `now` (or today's day number) to be at least one year after 0001-01-01. The source has no such precondition; the model needs it so that 去年 and 上月 name a valid date. The lemmas about them carry the same precondition: Periods.PeriodsAreWholeDays, PeriodsAsWrittenAreWholeDays, ThisMonthIsWholeDays, LastMonthIsWholeDays, LastMonthPeriod, LastYearPeriod, LastMonthRangeIsWhole, ThisYearIsWholeDays, LastYearIsWholeDays, LastYearRangeIsWhole, PreviousMonthBefore, TodayIsOneDay, YesterdayIsOneDay, WeeksStartOnMonday, WeekAsWrittenOffSunday, SundayWeekAsWritten, ThisMonthStartsOnTheFirst, LastMonthIsWhole, ThisYearStartsOnJanuaryFirst and LastYearIsWhole, and Reporting.ChartMatchesPeriod, SelectedChart, SelectedChartAsWritten, SundayWeekChartsNextWeek, ChartEnds, TodayChartEnds, LastWeekChartEnds, LastMonthChartEnds, LastMonthSpans, LastYearChartEnds, LastYearSpans, SundayWorkTime and WorkTimeOffSunday.
- `ORDER BY ... DESC` does not fix the order of rows with equal keys. The model returns one stable order. It proves that order is sorted and is a permutation of the selected rows.
- `LIMIT 1` in `GetActiveTimer` returns whichever row SQLite reads first. The model takes the first open record in id order. Under "at most one open record" there is only one candidate.
- Exceptions, other than the failures modelled with a `fails` parameter (`GetTaskStatistics`, `GetDurationInRange`, `LoadTaskStatistics`, `LoadCompletedTasks`). The null-manager branches (`_databaseManager == null`) are not modelled: the window always has a manager.
- The UI: `MessageBox`, `DispatcherTimer` ticks, button labels, enabled states and visibility, `UpdateActiveTaskStatus` and `UpdateCurrentTime`. Dialog answers are `bool` parameters. The buttons the UI disables, such as the timer button for a completed task, are not guarded in the model.
- `LoadTasks` and the refresh calls after each button. They only show what `GetTasks` and the other queries return, which are modelled.
- The `AddTaskButton_Click` flow through `TaskInputDialog`. `DatabaseManager.AddTask` is modelled and accepts any name.
- Controller.MainWindow.OnClosed: when the user declines, the source returns before stopping the timers and calling the base class. The window closes either way, and the model does not capture that. It states only the ledger effect.
- LiveCharts series, the hours values `duration / 3600.0`, `YFormatter` and `UpdateTaskComparisonChart`. This is floating point and presentation; chart totals are whole seconds.
- The captions that `ToString` renders under the user's culture. The date and time formats are modelled for a culture whose separators are `-`, `/` and `:`.
- The statistics query's range, computed but unused in `LoadTaskStatistics` (MainWindow.xaml.cs:427). It has no effect and is not modelled.
- CSV export (MainWindow.xaml.cs:974-1013). It is file I/O.
- `SaveNotesButton_Click`. Only `DatabaseManager.UpdateRecordNotes` is modelled.
- `App.xaml.cs`. It makes a DPI call into the operating system.

## Findings

| source | as written | input that shows it | evidently intended | confidence | as-written member | corrected member |
|---|---|---|---|---|---|---|
| MainWindow.xaml.cs:386-391 | the week starts at `today - DayOfWeek + 1`, with Sunday as day 0 | any Sunday: 本周 starts on Monday, tomorrow, after its own end; 上周 is the week that ends today | the Monday on or before today, six days back on a Sunday | high (not executed) | Periods.SundayWeekAsWritten | Periods.WeeksStartOnMonday |
| MainWindow.xaml.cs:609-611 | each chart bucket is queried from its start to the next bucket's start, both inclusive (Models/DatabaseManager.cs:429-435) | a 600-second session starting at 01:00: the 今日 chart shows 600 seconds at 00:00 and 600 at 01:00 | each record in exactly one bucket, so the points add up to the period total | high (not executed) | Reporting.ChartAsWrittenCountsTwice | Reporting.ChartAddsUp |
