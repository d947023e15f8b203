/**
 * The ledger sequences the main window's buttons run, as functions of the
 * tables, the selected task and the window's cached active timer, and what
 * each sequence guarantees.
 */
module Handlers {
  import opened Optional
  import opened Calendar
  import opened Tasks
  import opened TimeRecords
  import opened Ledger
  import opened LedgerLaws

  /**
   * The window's view of the ledger is current: the tables keep their own
   * invariants, every record's task exists, and the cached timer is the one
   * the active-timer query returns.
   */
  predicate Synced(db: Tables, active: Option<TimeRecord>) {
    WellFormed(db) && AtMostOneOpen(db) && RefsResolve(db) && active == ActiveTimerOf(db)
  }

  /** The selected task, if any, exists. */
  predicate Selectable(db: Tables, selected: Option<Task>) {
    selected.Some? ==> HasTask(db, selected.value.id)
  }

  /** `_activeTimer != null && _activeTimer.TaskId == _selectedTask.TaskId`. */
  predicate OwnTimer(selected: Option<Task>, active: Option<TimeRecord>) {
    selected.Some? && active.Some? && active.value.taskId == selected.value.id
  }

  /**
   * `TimerButton_Click`: no selection does nothing; with no timer the selected
   * task starts; its own timer is paused; another task's timer is paused and
   * the selected task started if the user agrees to switch, and left alone if not.
   */
  function Toggle(db: Tables, selected: Option<Task>, active: Option<TimeRecord>, confirmSwitch: bool, now: Instant): Tables {
    if selected.None? then db
    else if active.None? then Start(db, selected.value.id, now)
    else if active.value.taskId == selected.value.id then Pause(db, active.value.id, now)
    else if confirmSwitch then Start(Pause(db, active.value.id, now), selected.value.id, now)
    else db
  }

  /** The pause that completing or deleting runs first: only the selected task's own timer. */
  function PauseOwn(db: Tables, selected: Option<Task>, active: Option<TimeRecord>, now: Instant): Tables {
    if OwnTimer(selected, active) then Pause(db, active.value.id, now) else db
  }

  /**
   * `CompleteTaskButton_Click`: nothing for no selection, for a task the window
   * already shows as completed, or when the user declines; otherwise the
   * task's own timer is paused and the task marked completed.
   */
  function Complete(db: Tables, selected: Option<Task>, active: Option<TimeRecord>, confirm: bool, now: Instant): Tables {
    if selected.None? || selected.value.status == Completed || !confirm then db
    else UpdateStatus(PauseOwn(db, selected, active, now), selected.value.id, Completed, now)
  }

  /** `DeleteTaskButton_Click`: as completing, with status deleted and no check of the current status. */
  function Delete(db: Tables, selected: Option<Task>, active: Option<TimeRecord>, confirm: bool, now: Instant): Tables {
    if selected.None? || !confirm then db
    else UpdateStatus(PauseOwn(db, selected, active, now), selected.value.id, Deleted, now)
  }

  /** `OnClosed`: a running timer is paused if the user confirms closing. */
  function Closing(db: Tables, active: Option<TimeRecord>, confirm: bool, now: Instant): Tables {
    if active.Some? && confirm then Pause(db, active.value.id, now) else db
  }

  // ----- facts about the cached timer -----

  /** The active timer is the open record with its id, carrying that record's task and start. */
  lemma ActiveIsOpenRecord(db: Tables)
    requires WellFormed(db) && ActiveTimerOf(db).Some?
    ensures var a := ActiveTimerOf(db).value;
      HasRecord(db, a.id) && IsOpen(db.records[a.id - 1]) && HasTask(db, a.taskId)
      && db.records[a.id - 1].taskId == a.taskId && db.records[a.id - 1].startTime == a.startTime
  {
    var a := ActiveTimerOf(db).value;
    var k :| 0 <= k < |db.records| && IsOpen(db.records[k]) && HasTask(db, db.records[k].taskId)
      && a == Joined(db.records[k], db.tasks[db.records[k].taskId - 1]);
    assert db.records[k].id == k + 1;
  }

  /** A task other than the active timer's owns no open record. */
  lemma OnlyActiveOwns(db: Tables, id: int)
    requires WellFormed(db) && AtMostOneOpen(db) && RefsResolve(db)
    requires ActiveTimerOf(db).None? || ActiveTimerOf(db).value.taskId != id
    ensures !Owns(db, id)
  {
    if ActiveTimerOf(db).None? {
      forall i | 0 <= i < |db.records| ensures !IsOpen(db.records[i]) {
        assert HasTask(db, db.records[i].taskId);
      }
    } else {
      forall i | 0 <= i < |db.records| && IsOpen(db.records[i]) ensures db.records[i].taskId != id {
        ActiveTimerIsTheOpenRecord(db, i);
      }
    }
  }

  /** Pausing changes no record's task and no task count. */
  lemma PauseKeepsRefs(db: Tables, recordId: int, now: Instant)
    requires WellFormed(db) && RefsResolve(db)
    ensures RefsResolve(Pause(db, recordId, now))
  {
    var after := Pause(db, recordId, now);
    PauseEffect(db, recordId, now);
    forall i | 0 <= i < |after.records| ensures HasTask(after, after.records[i].taskId) {
      assert after.records[i].taskId == db.records[i].taskId;
    }
  }

  /**
   * Pausing the active timer closes its record at `now`, leaves no record
   * open and no active timer, and keeps every invariant.
   */
  lemma PauseActive(db: Tables, now: Instant)
    requires Synced(db, ActiveTimerOf(db)) && ActiveTimerOf(db).Some?
    ensures var a := ActiveTimerOf(db).value;
      var after := Pause(db, a.id, now);
      Synced(after, None)
      && (forall i :: 0 <= i < |after.records| ==> !IsOpen(after.records[i]))
      && after.records[a.id - 1] == Close(db.records[a.id - 1], now)
      && (Coupled(db) ==> Coupled(after))
  {
    var a := ActiveTimerOf(db).value;
    ActiveIsOpenRecord(db);
    PauseEffect(db, a.id, now);
    PauseKeepsAtMostOne(db, a.id, now);
    PauseKeepsRefs(db, a.id, now);
    ActiveTimerAfterPause(db, a.id, now);
    if Coupled(db) {
      PauseKeepsCoupled(db, a.id, now);
    }
  }

  /**
   * Starting an existing task with no open record elsewhere keeps every
   * invariant; afterwards the new record is the only open one and the
   * active timer, and the task is in progress.
   */
  lemma StartSynced(db: Tables, taskId: int, now: Instant)
    requires WellFormed(db) && AtMostOneOpen(db) && RefsResolve(db) && HasTask(db, taskId)
    ensures var after := Start(db, taskId, now);
      var active := ActiveTimerOf(after);
      Synced(after, active)
      && active.Some? && active.value.id == |db.records| + 1 && active.value.taskId == taskId
      && active.value.startTime == now
      && (forall i :: 0 <= i < |after.records| ==> (IsOpen(after.records[i]) <==> i == |db.records|))
      && after.tasks[taskId - 1].status == InProgress
      && (Coupled(db) ==> Coupled(after))
  {
    StartEffect(db, taskId, now);
    StartKeepsCoupledAtMostOne(db, taskId, now);
    StartKeepsRefs(db, taskId, now);
    ActiveTimerAfterStart(db, taskId, now);
    assert db.tasks[taskId - 1].id == taskId;
    if Coupled(db) {
      StartKeepsCoupled(db, taskId, now);
    }
  }

  // ----- the toggle button -----

  /** Toggling the selected task's own timer pauses it: afterwards no record is open and no timer active. */
  lemma ToggleOwnPauses(db: Tables, selected: Option<Task>, confirmSwitch: bool, now: Instant)
    requires Synced(db, ActiveTimerOf(db)) && OwnTimer(selected, ActiveTimerOf(db))
    ensures var after := Toggle(db, selected, ActiveTimerOf(db), confirmSwitch, now);
      var a := ActiveTimerOf(db).value;
      Synced(after, None)
      && (forall i :: 0 <= i < |after.records| ==> !IsOpen(after.records[i]))
      && after.records[a.id - 1] == Close(db.records[a.id - 1], now)
      && (Coupled(db) ==> Coupled(after))
  {
    PauseActive(db, now);
  }

  /**
   * With no timer, or with another task's timer and the user's consent to
   * switch, toggling starts the selected task: the previous timer's record is
   * closed at `now`, and the only open record, the active timer, is a new
   * record of the selected task started now.
   */
  lemma ToggleStarts(db: Tables, selected: Option<Task>, confirmSwitch: bool, now: Instant)
    requires Synced(db, ActiveTimerOf(db)) && Selectable(db, selected) && selected.Some?
    requires ActiveTimerOf(db).None? || (ActiveTimerOf(db).value.taskId != selected.value.id && confirmSwitch)
    ensures var after := Toggle(db, selected, ActiveTimerOf(db), confirmSwitch, now);
      var active := ActiveTimerOf(after);
      Synced(after, active)
      && active.Some? && active.value.taskId == selected.value.id && active.value.startTime == now
      && active.value.id == |db.records| + 1
      && (forall i :: 0 <= i < |after.records| ==> (IsOpen(after.records[i]) <==> i == |db.records|))
      && after.tasks[selected.value.id - 1].status == InProgress
      && (ActiveTimerOf(db).Some? ==>
            var a := ActiveTimerOf(db).value;
            HasRecord(db, a.id) && after.records[a.id - 1] == Close(db.records[a.id - 1], now))
      && (Coupled(db) ==> Coupled(after))
  {
    var id := selected.value.id;
    if ActiveTimerOf(db).None? {
      StartSynced(db, id, now);
    } else {
      var a := ActiveTimerOf(db).value;
      var paused := Pause(db, a.id, now);
      PauseActive(db, now);
      StartSynced(paused, id, now);
      StartEffect(paused, id, now);
      ActiveIsOpenRecord(db);
      assert !IsOpen(paused.records[a.id - 1]);
    }
  }

  /** Declining the switch, or clicking with nothing selected, leaves the ledger as it was. */
  lemma ToggleDeclined(db: Tables, selected: Option<Task>, now: Instant)
    requires selected.None? || (ActiveTimerOf(db).Some? && ActiveTimerOf(db).value.taskId != selected.value.id)
    ensures Toggle(db, selected, ActiveTimerOf(db), false, now) == db
  {
  }

  /** Every toggle keeps the window's view current and keeps tasks coupled to their open records. */
  lemma ToggleKeeps(db: Tables, selected: Option<Task>, confirmSwitch: bool, now: Instant)
    requires Synced(db, ActiveTimerOf(db)) && Selectable(db, selected)
    ensures var after := Toggle(db, selected, ActiveTimerOf(db), confirmSwitch, now);
      Synced(after, ActiveTimerOf(after)) && |after.tasks| == |db.tasks|
      && (Coupled(db) ==> Coupled(after))
  {
    var active := ActiveTimerOf(db);
    if selected.None? {
    } else if OwnTimer(selected, active) {
      ToggleOwnPauses(db, selected, confirmSwitch, now);
    } else if active.None? || confirmSwitch {
      ToggleStarts(db, selected, confirmSwitch, now);
    }
  }

  // ----- complete, delete, close -----

  /**
   * Marking the selected task `status` after pausing its own timer: the task
   * has that status, owns no open record, and another task's timer is still
   * the active one.
   */
  lemma FinishEffect(db: Tables, selected: Option<Task>, status: Status, now: Instant)
    requires Synced(db, ActiveTimerOf(db)) && Selectable(db, selected) && selected.Some?
    requires status != InProgress
    ensures var id := selected.value.id;
      var after := UpdateStatus(PauseOwn(db, selected, ActiveTimerOf(db), now), id, status, now);
      var active := ActiveTimerOf(db);
      Synced(after, if OwnTimer(selected, active) then None else active)
      && |after.tasks| == |db.tasks|
      && after.tasks[id - 1].status == status && after.tasks[id - 1].updatedAt == now
      && (status == Completed ==> after.tasks[id - 1].completedAt == Some(now))
      && !Owns(after, id)
      && (Coupled(db) ==> Coupled(after))
  {
    var id := selected.value.id;
    var active := ActiveTimerOf(db);
    var paused := PauseOwn(db, selected, active, now);
    if OwnTimer(selected, active) {
      PauseActive(db, now);
      PauseEffect(db, active.value.id, now);
    }
    assert Synced(paused, if OwnTimer(selected, active) then None else active);
    OnlyActiveOwns(paused, id);
    var after := UpdateStatus(paused, id, status, now);
    UpdateStatusEffect(paused, id, status, now);
    UpdateStatusKeeps(paused, id, status, now);
    ActiveTimerAfterUpdate(paused, id, status, now);
    assert paused.tasks[id - 1].id == id;
    assert after.records == paused.records;
  }

  /**
   * Completing: a task the window shows as completed, or a declined
   * confirmation, changes nothing; otherwise the task is completed, stamped
   * now, owns no open record, and another task's timer keeps running.
   */
  lemma CompleteEffect(db: Tables, selected: Option<Task>, confirm: bool, now: Instant)
    requires Synced(db, ActiveTimerOf(db)) && Selectable(db, selected) && selected.Some?
    ensures var after := Complete(db, selected, ActiveTimerOf(db), confirm, now);
      var id := selected.value.id;
      var active := ActiveTimerOf(db);
      ((selected.value.status == Completed || !confirm) ==> after == db)
      && (selected.value.status != Completed && confirm ==>
            Synced(after, if OwnTimer(selected, active) then None else active)
            && after.tasks[id - 1].status == Completed && after.tasks[id - 1].completedAt == Some(now)
            && !Owns(after, id)
            && (Coupled(db) ==> Coupled(after)))
  {
    if selected.value.status != Completed && confirm {
      FinishEffect(db, selected, Completed, now);
    }
  }

  /**
   * Deleting, once confirmed: the task is deleted, owns no open record, its
   * rows stay, and another task's timer keeps running.
   */
  lemma DeleteEffect(db: Tables, selected: Option<Task>, confirm: bool, now: Instant)
    requires Synced(db, ActiveTimerOf(db)) && Selectable(db, selected) && selected.Some?
    ensures var after := Delete(db, selected, ActiveTimerOf(db), confirm, now);
      var id := selected.value.id;
      var active := ActiveTimerOf(db);
      (!confirm ==> after == db)
      && (confirm ==>
            Synced(after, if OwnTimer(selected, active) then None else active)
            && |after.tasks| == |db.tasks| && |after.records| == |db.records|
            && after.tasks[id - 1].status == Deleted
            && !Owns(after, id)
            && (Coupled(db) ==> Coupled(after)))
  {
    if confirm {
      FinishEffect(db, selected, Deleted, now);
      var active := ActiveTimerOf(db);
      if OwnTimer(selected, active) {
        PauseEffect(db, active.value.id, now);
      }
      UpdateStatusEffect(PauseOwn(db, selected, active, now), selected.value.id, Deleted, now);
    }
  }

  /** Closing the window with a running timer and the user's consent leaves no record open. */
  lemma ClosingEffect(db: Tables, confirm: bool, now: Instant)
    requires Synced(db, ActiveTimerOf(db))
    ensures var after := Closing(db, ActiveTimerOf(db), confirm, now);
      WellFormed(after) && AtMostOneOpen(after) && RefsResolve(after)
      && (ActiveTimerOf(db).Some? && !confirm ==> after == db)
      && (confirm ==> forall i :: 0 <= i < |after.records| ==> !IsOpen(after.records[i]))
      && (Coupled(db) ==> Coupled(after))
  {
    if ActiveTimerOf(db).Some? && confirm {
      PauseActive(db, now);
    } else if confirm {
      ActiveTimerNoneIff(db);
    }
  }
}
