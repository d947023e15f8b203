/**
 * `DatabaseManager`: the two tables held as sequences that the methods update
 * in place, each method proved to reach the state its `Ledger` function gives.
 */
module Database {
  import opened Optional
  import opened Calendar
  import opened Tasks
  import opened TimeRecords
  import opened TaskStats
  import opened Ordering
  import opened Ledger
  import opened LedgerLaws

  class DatabaseManager {
    var tasks: seq<Task>
    var records: seq<TimeRecord>

    function State(): Tables
      reads this
    {
      Tables(tasks, records)
    }

    /** Ids follow the rows, and never more than one timer runs. */
    ghost predicate Valid()
      reads this
    {
      WellFormed(State()) && AtMostOneOpen(State())
    }

    /** A fresh database file: both tables empty. */
    constructor ()
      ensures Valid() && tasks == [] && records == []
    {
      tasks := [];
      records := [];
    }

    /** `AddTask`: inserts a pending task and returns its new id. */
    method AddTask(name: string, now: Instant) returns (id: int)
      requires Valid()
      modifies this
      ensures Valid()
      ensures State() == Ledger.AddTask(old(State()), name, now)
      ensures id == |old(tasks)| + 1 && HasTask(State(), id) && tasks[id - 1].name == name
    {
      AddTaskKeeps(State(), name, now);
      id := |tasks| + 1;
      tasks := tasks + [Task(id, name, Pending, now, now, None)];
    }

    /**
     * `GetTasks`: without a filter every task not deleted, with one exactly
     * the tasks whose stored status is that text; most recently updated first.
     */
    method GetTasks(status: Option<string>) returns (r: seq<Task>)
      ensures forall t :: t in r <==> t in tasks && TaskSelected(status)(t)
      ensures multiset(r) == multiset(Filter(tasks, TaskSelected(status)))
      ensures SortedDesc(r, UpdatedKey)
    {
      var selected := TaskSelected(status);
      r := [];
      var i := 0;
      while i < |tasks|
        invariant 0 <= i <= |tasks|
        invariant multiset(r) == multiset(Filter(tasks[..i], selected))
        invariant SortedDesc(r, UpdatedKey)
      {
        FilterStep(tasks, i, selected);
        if selected(tasks[i]) {
          InsertKeepsOrder(r, tasks[i], UpdatedKey);
          r := InsertDesc(r, tasks[i], UpdatedKey);
        }
        i := i + 1;
      }
      assert tasks[..i] == tasks;
      SameElements(r, Filter(tasks, selected));
    }

    /**
     * `GetTaskStatistics`: one row per task, largest total first; a failing
     * query gives no rows.
     */
    method GetTaskStatistics(fails: bool) returns (r: seq<TaskStatistics>)
      ensures fails ==> r == []
      ensures !fails ==> multiset(r) == multiset(StatisticsRows(State())) && SortedDesc(r, TotalKey)
      ensures !fails ==> |r| == |tasks|
    {
      r := [];
      if fails {
        return;
      }
      var rows := StatisticsRows(State());
      var i := 0;
      while i < |tasks|
        invariant 0 <= i <= |tasks|
        invariant multiset(r) == multiset(rows[..i])
        invariant SortedDesc(r, TotalKey)
      {
        var row := StatisticsRow(State(), tasks[i]);
        assert rows[..i + 1] == rows[..i] + [row];
        InsertKeepsOrder(r, row, TotalKey);
        r := InsertDesc(r, row, TotalKey);
        i := i + 1;
      }
      assert rows[..i] == rows;
      SameElements(r, rows);
    }

    /**
     * `UpdateTaskStatus`: sets the status and `updated_at` of the task with
     * that id (and `completed_at` for "completed"); an unknown id changes nothing.
     */
    method UpdateTaskStatus(taskId: int, status: Status, now: Instant)
      requires Valid()
      modifies this
      ensures Valid()
      ensures State() == UpdateStatus(old(State()), taskId, status, now)
    {
      UpdateStatusEffect(State(), taskId, status, now);
      UpdateStatusKeeps(State(), taskId, status, now);
      if 1 <= taskId <= |tasks| {
        tasks := tasks[taskId - 1 := Restamp(tasks[taskId - 1], status, now)];
      }
    }

    /** `DeleteTask`: a soft delete that keeps every row. */
    method DeleteTask(taskId: int, now: Instant)
      requires Valid()
      modifies this
      ensures Valid()
      ensures State() == UpdateStatus(old(State()), taskId, Deleted, now)
      ensures |tasks| == |old(tasks)| && records == old(records)
    {
      UpdateTaskStatus(taskId, Deleted, now);
    }

    /**
     * `StartTimer`: pauses every open record, sets the task in progress and
     * inserts an open record for it, returning that record's id.
     */
    method StartTimer(taskId: int, now: Instant) returns (id: int)
      requires Valid()
      modifies this
      ensures Valid()
      ensures State() == Start(old(State()), taskId, now)
      ensures id == |old(records)| + 1 && |records| == id && records[id - 1] == NewRecord(id, taskId, now)
    {
      StartEffect(State(), taskId, now);
      PauseAllActiveTimers(now);
      UpdateTaskStatus(taskId, InProgress, now);
      id := |records| + 1;
      records := records + [NewRecord(id, taskId, now)];
    }

    /**
     * `PauseTimer`: stamps the record's end and duration and, when its task
     * has no open record left, sets that task to pending. An unknown id
     * changes nothing.
     */
    method PauseTimer(recordId: int, now: Instant)
      requires Valid()
      modifies this
      ensures Valid()
      ensures State() == Pause(old(State()), recordId, now)
    {
      if !(1 <= recordId <= |records|) {
        return;
      }
      PauseKeepsAtMostOne(State(), recordId, now);
      var r := records[recordId - 1];
      records := records[recordId - 1 := Close(r, now)];
      assert AtMostOneOpen(State()) by {
        assert forall i :: 0 <= i < |records| && IsOpen(records[i]) ==> IsOpen(old(records)[i]);
      }
      var activeCount := OpenCount(records, r.taskId);
      if activeCount == 0 {
        UpdateTaskStatus(r.taskId, Pending, now);
      }
    }

    /** `PauseAllActiveTimers`: pauses, one by one, the records that were open when it began. */
    method PauseAllActiveTimers(now: Instant)
      requires Valid()
      modifies this
      ensures Valid()
      ensures State() == PauseEach(old(State()), OpenIds(old(records)), now)
    {
      var ids := OpenIds(records);
      var i := 0;
      while i < |ids|
        invariant 0 <= i <= |ids|
        invariant Valid()
        invariant State() == PauseEach(old(State()), ids[..i], now)
      {
        assert ids[..i + 1][..i] == ids[..i];
        PauseTimer(ids[i], now);
        i := i + 1;
      }
      assert ids[..i] == ids;
    }

    /**
     * `GetTimeRecords`: exactly the records that pass every given filter,
     * both bounds inclusive, latest start first.
     */
    method GetTimeRecords(taskId: Option<int>, from: Option<Instant>, to: Option<Instant>) returns (r: seq<TimeRecord>)
      ensures forall x :: x in r <==> x in records && RecordSelected(taskId, from, to)(x)
      ensures multiset(r) == multiset(Filter(records, RecordSelected(taskId, from, to)))
      ensures SortedDesc(r, StartKey)
    {
      var selected := RecordSelected(taskId, from, to);
      r := [];
      var i := 0;
      while i < |records|
        invariant 0 <= i <= |records|
        invariant multiset(r) == multiset(Filter(records[..i], selected))
        invariant SortedDesc(r, StartKey)
      {
        FilterStep(records, i, selected);
        if selected(records[i]) {
          InsertKeepsOrder(r, records[i], StartKey);
          r := InsertDesc(r, records[i], StartKey);
        }
        i := i + 1;
      }
      assert records[..i] == records;
      SameElements(r, Filter(records, selected));
    }

    /**
     * `GetActiveTimer`: an open record whose task exists, returned with no end,
     * no duration and its task's name; none when there is no such record.
     */
    method GetActiveTimer() returns (r: Option<TimeRecord>)
      ensures r == ActiveTimerOf(State())
    {
      var db := State();
      var i := 0;
      while i < |db.records|
        invariant 0 <= i <= |db.records|
        invariant ActiveTimerFrom(db, i) == ActiveTimerOf(db)
      {
        var rec := db.records[i];
        if IsOpen(rec) && 1 <= rec.taskId <= |db.tasks| {
          return Some(Joined(rec, db.tasks[rec.taskId - 1]));
        }
        ActiveTimerSkips(db, i);
        i := i + 1;
      }
      return None;
    }

    /** `UpdateRecordNotes`: replaces the notes of one record. */
    method UpdateRecordNotes(recordId: int, notes: string)
      requires Valid()
      modifies this
      ensures Valid()
      ensures State() == SetNotes(old(State()), recordId, notes)
    {
      SetNotesKeeps(State(), recordId, notes);
      if 1 <= recordId <= |records| {
        records := records[recordId - 1 := records[recordId - 1].(notes := Some(notes))];
      }
    }
  }
}
