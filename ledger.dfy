/**
 * The two tables of the ledger as values, and the effect of each ledger
 * operation on them as a function of the old tables: the specification the
 * `DatabaseManager` methods are proved against.
 */
module Ledger {
  import opened Optional
  import opened Calendar
  import opened Tasks
  import opened TimeRecords
  import opened TaskStats
  import opened Ordering
  import opened Sums

  datatype Tables = Tables(tasks: seq<Task>, records: seq<TimeRecord>)

  /**
   * Both tables number their rows with AUTOINCREMENT from 1 and never remove
   * a row, so a row's id is its position plus one. A stored record has an end
   * exactly when it has a duration, and no task name (that is joined in by
   * the active-timer query only).
   */
  predicate WellFormed(db: Tables) {
    (forall i :: 0 <= i < |db.tasks| ==> db.tasks[i].id == i + 1)
    && (forall i :: 0 <= i < |db.records| ==> StoredRecord(db.records[i], i + 1))
  }

  predicate StoredRecord(r: TimeRecord, id: int) {
    r.id == id && (r.endTime.None? <==> r.duration.None?) && r.taskName.None?
  }

  predicate HasTask(db: Tables, id: int) {
    1 <= id <= |db.tasks|
  }

  predicate HasRecord(db: Tables, id: int) {
    1 <= id <= |db.records|
  }

  /** Task `taskId` owns an open record. */
  predicate Owns(db: Tables, taskId: int) {
    exists i :: 0 <= i < |db.records| && db.records[i].taskId == taskId && IsOpen(db.records[i])
  }

  /** No two records are open at once. */
  predicate AtMostOneOpen(db: Tables) {
    forall i, j ::
      0 <= i < |db.records| && 0 <= j < |db.records| && IsOpen(db.records[i]) && IsOpen(db.records[j]) ==> i == j
  }

  /** A task is in progress exactly when it owns an open record. */
  predicate Coupled(db: Tables) {
    forall i :: 0 <= i < |db.tasks| ==> (db.tasks[i].status == InProgress <==> Owns(db, db.tasks[i].id))
  }

  /** Every record's `task_id` names an existing task. */
  predicate RefsResolve(db: Tables) {
    forall i :: 0 <= i < |db.records| ==> HasTask(db, db.records[i].taskId)
  }

  // ----- tasks -----

  /** `AddTask`: a pending task with the next id, created and updated now. */
  function AddTask(db: Tables, name: string, now: Instant): Tables {
    db.(tasks := db.tasks + [Task(|db.tasks| + 1, name, Pending, now, now, None)])
  }

  /** The row update of `UpdateTaskStatus`: `completed_at` is stamped only for "completed". */
  function Restamp(t: Task, status: Status, now: Instant): Task {
    t.(status := status, updatedAt := now, completedAt := if status == Completed then Some(now) else t.completedAt)
  }

  /** `UpdateTaskStatus`: restamps the row `WHERE task_id = @taskId`, if there is one. */
  function UpdateStatus(db: Tables, taskId: int, status: Status, now: Instant): (r: Tables)
    ensures |r.tasks| == |db.tasks| && r.records == db.records
  {
    if HasTask(db, taskId) then
      db.(tasks := db.tasks[taskId - 1 := Restamp(db.tasks[taskId - 1], status, now)])
    else db
  }

  // ----- timers -----

  /** The update of `PauseTimer`: end now, duration the whole seconds since the start. */
  function Close(r: TimeRecord, now: Instant): TimeRecord {
    r.(endTime := Some(now), duration := Some(now - r.startTime))
  }

  /** `SELECT COUNT(*) ... WHERE task_id = @taskId AND end_time IS NULL`. */
  function OpenCount(rs: seq<TimeRecord>, taskId: int): (n: nat)
    ensures n == 0 <==> forall i :: 0 <= i < |rs| ==> !(rs[i].taskId == taskId && IsOpen(rs[i]))
    decreases |rs|
  {
    if rs == [] then 0
    else
      var last := rs[|rs| - 1];
      OpenCount(rs[..|rs| - 1], taskId) + (if last.taskId == taskId && IsOpen(last) then 1 else 0)
  }

  /**
   * `PauseTimer`: an unknown record changes nothing; otherwise the record is
   * closed (whether or not it was open) and its task is set back to pending
   * when none of its records is open any more.
   */
  function Pause(db: Tables, recordId: int, now: Instant): (r: Tables)
    ensures |r.tasks| == |db.tasks| && |r.records| == |db.records|
  {
    if !HasRecord(db, recordId) then db
    else
      var r := db.records[recordId - 1];
      var closed := db.(records := db.records[recordId - 1 := Close(r, now)]);
      if OpenCount(closed.records, r.taskId) == 0 then UpdateStatus(closed, r.taskId, Pending, now) else closed
  }

  /** `SELECT record_id FROM time_records WHERE end_time IS NULL`, in id order. */
  function OpenIds(rs: seq<TimeRecord>): (ids: seq<int>)
    ensures forall id :: id in ids <==> exists i :: 0 <= i < |rs| && IsOpen(rs[i]) && rs[i].id == id
    decreases |rs|
  {
    if rs == [] then []
    else
      var last := rs[|rs| - 1];
      var front := OpenIds(rs[..|rs| - 1]);
      assert forall i :: 0 <= i < |rs| - 1 ==> rs[..|rs| - 1][i] == rs[i];
      front + (if IsOpen(last) then [last.id] else [])
  }

  /** `PauseTimer` applied to each id in turn. */
  function PauseEach(db: Tables, ids: seq<int>, now: Instant): (r: Tables)
    ensures |r.tasks| == |db.tasks| && |r.records| == |db.records|
    decreases |ids|
  {
    if ids == [] then db else Pause(PauseEach(db, ids[..|ids| - 1], now), ids[|ids| - 1], now)
  }

  /** The row `StartTimer` inserts: started now, open. */
  function NewRecord(id: int, taskId: int, now: Instant): TimeRecord {
    TimeRecord(id, taskId, now, None, None, None, now, None)
  }

  /**
   * `StartTimer`: pauses every open record, sets the task in progress, then
   * inserts an open record for it.
   */
  function Start(db: Tables, taskId: int, now: Instant): (r: Tables)
    ensures |r.tasks| == |db.tasks| && |r.records| == |db.records| + 1
    ensures r.records[|db.records|] == NewRecord(|db.records| + 1, taskId, now)
  {
    var paused := UpdateStatus(PauseEach(db, OpenIds(db.records), now), taskId, InProgress, now);
    paused.(records := paused.records + [NewRecord(|paused.records| + 1, taskId, now)])
  }

  /**
   * Closes every open record at once and sets each task that owned one back to pending:
   * the state that pausing all open records reaches.
   */
  function CloseAll(db: Tables, now: Instant): Tables {
    Tables(
      seq(|db.tasks|, i requires 0 <= i < |db.tasks| =>
        if Owns(db, db.tasks[i].id) then Restamp(db.tasks[i], Pending, now) else db.tasks[i]),
      seq(|db.records|, i requires 0 <= i < |db.records| =>
        if IsOpen(db.records[i]) then Close(db.records[i], now) else db.records[i]))
  }

  /** `UpdateRecordNotes`. */
  function SetNotes(db: Tables, recordId: int, notes: string): Tables {
    if HasRecord(db, recordId) then
      db.(records := db.records[recordId - 1 := db.records[recordId - 1].(notes := Some(notes))])
    else db
  }

  // ----- queries -----

  /** A record as the active-timer query returns it: open, with its task's name. */
  function Joined(r: TimeRecord, t: Task): TimeRecord {
    r.(endTime := None, duration := None, taskName := Some(t.name))
  }

  /** The first open record from position `i` on whose task exists, joined with that task. */
  function ActiveTimerFrom(db: Tables, i: nat): (r: Option<TimeRecord>)
    requires i <= |db.records|
    ensures r.None? <==>
      forall k :: i <= k < |db.records| ==> !(IsOpen(db.records[k]) && HasTask(db, db.records[k].taskId))
    ensures r.Some? ==>
      exists k :: i <= k < |db.records| && IsOpen(db.records[k]) && HasTask(db, db.records[k].taskId)
        && r.value == Joined(db.records[k], db.tasks[db.records[k].taskId - 1])
    decreases |db.records| - i
  {
    if i == |db.records| then None
    else
      var rec := db.records[i];
      if IsOpen(rec) && HasTask(db, rec.taskId) then Some(Joined(rec, db.tasks[rec.taskId - 1]))
      else ActiveTimerFrom(db, i + 1)
  }

  /** A record that is closed, or whose task is gone, is passed over. */
  lemma ActiveTimerSkips(db: Tables, i: nat)
    requires i < |db.records| && !(IsOpen(db.records[i]) && HasTask(db, db.records[i].taskId))
    ensures ActiveTimerFrom(db, i) == ActiveTimerFrom(db, i + 1)
  {
  }

  /** `GetActiveTimer`: `... JOIN tasks ... WHERE end_time IS NULL LIMIT 1`. */
  function ActiveTimerOf(db: Tables): Option<TimeRecord> {
    ActiveTimerFrom(db, 0)
  }

  /** The `WHERE` clause of `GetTasks`: no filter hides deleted tasks, a filter matches the stored text. */
  function TaskSelected(filter: Option<string>): Task -> bool {
    (t: Task) => if filter.None? || filter.value == "" then t.status != Deleted else StatusText(t.status) == filter.value
  }

  function UpdatedKey(t: Task): int {
    t.updatedAt
  }

  /** The `WHERE` clause of `GetTimeRecords`: each given filter must hold, both bounds inclusive. */
  function RecordSelected(taskId: Option<int>, from: Option<Instant>, to: Option<Instant>): TimeRecord -> bool {
    (r: TimeRecord) => (taskId.None? || r.taskId == taskId.value)
      && (from.None? || from.value <= r.startTime)
      && (to.None? || r.startTime <= to.value)
  }

  function StartKey(r: TimeRecord): int {
    r.startTime
  }

  /** The records the statistics join keeps for a task: `ON t.task_id = tr.task_id AND tr.duration IS NOT NULL`. */
  function SessionsOf(taskId: int): TimeRecord -> bool {
    (r: TimeRecord) => r.taskId == taskId && r.duration.Some?
  }

  /** A task's statistics row: `COUNT(tr.record_id)` and `COALESCE(SUM(tr.duration), 0)`. */
  function StatisticsRow(db: Tables, t: Task): TaskStatistics {
    var sessions := Filter(db.records, SessionsOf(t.id));
    TaskStatistics(t.id, t.name, t.status, t.createdAt, t.completedAt, |sessions|, SumBy(sessions, DurationOf), None)
  }

  /** One row per task, deleted ones included: the `GROUP BY` of the left join. */
  function StatisticsRows(db: Tables): seq<TaskStatistics> {
    seq(|db.tasks|, i requires 0 <= i < |db.tasks| => StatisticsRow(db, db.tasks[i]))
  }

  function TotalKey(s: TaskStatistics): int {
    s.totalDurationSeconds
  }
}
