/**
 * What the ledger operations guarantee: their effect row by row, and the
 * invariants of the timer state machine they keep.
 */
module LedgerLaws {
  import opened Optional
  import opened Calendar
  import opened Tasks
  import opened TimeRecords
  import opened Ordering
  import opened Ledger

  /** `UpdateTaskStatus` restamps exactly the row with the given id and touches no record. */
  lemma UpdateStatusEffect(db: Tables, taskId: int, status: Status, now: Instant)
    requires WellFormed(db)
    ensures var after := UpdateStatus(db, taskId, status, now);
      WellFormed(after) && after.records == db.records && |after.tasks| == |db.tasks|
      && (forall j :: 0 <= j < |db.tasks| ==>
            after.tasks[j] == if db.tasks[j].id == taskId then Restamp(db.tasks[j], status, now) else db.tasks[j])
      && (!HasTask(db, taskId) ==> after == db)
  {
  }

  /** Whether a task owns an open record reads `OpenCount`. */
  lemma OwnsCount(db: Tables, taskId: int)
    ensures Owns(db, taskId) <==> OpenCount(db.records, taskId) > 0
  {
    if OpenCount(db.records, taskId) > 0 {
      var i :| 0 <= i < |db.records| && db.records[i].taskId == taskId && IsOpen(db.records[i]);
    }
  }

  /**
   * `PauseTimer` on a known record closes it at `now` and sets its task to
   * pending exactly when none of that task's records is open any more; an
   * unknown record id changes nothing.
   */
  lemma PauseEffect(db: Tables, recordId: int, now: Instant)
    requires WellFormed(db)
    ensures var after := Pause(db, recordId, now);
      WellFormed(after) && |after.tasks| == |db.tasks|
      && (!HasRecord(db, recordId) ==> after == db)
      && (HasRecord(db, recordId) ==>
            var owner := db.records[recordId - 1].taskId;
            after.records == db.records[recordId - 1 := Close(db.records[recordId - 1], now)]
            && (forall j :: 0 <= j < |db.tasks| ==>
                  after.tasks[j] ==
                    if db.tasks[j].id == owner && !Owns(after, owner) then Restamp(db.tasks[j], Pending, now)
                    else db.tasks[j]))
  {
    if HasRecord(db, recordId) {
      var r := db.records[recordId - 1];
      var closed := db.(records := db.records[recordId - 1 := Close(r, now)]);
      OwnsCount(closed, r.taskId);
      UpdateStatusEffect(closed, r.taskId, Pending, now);
    }
  }

  /** Pausing opens nothing: a record open afterwards was open before, and is not the paused one. */
  lemma PauseOpensNothing(db: Tables, recordId: int, now: Instant)
    requires WellFormed(db)
    ensures var after := Pause(db, recordId, now);
      |after.records| == |db.records|
      && forall i :: 0 <= i < |after.records| && IsOpen(after.records[i]) ==> IsOpen(db.records[i]) && i != recordId - 1
  {
    PauseEffect(db, recordId, now);
  }

  /** `PauseTimer` keeps "at most one open record". */
  lemma PauseKeepsAtMostOne(db: Tables, recordId: int, now: Instant)
    requires WellFormed(db) && AtMostOneOpen(db)
    ensures AtMostOneOpen(Pause(db, recordId, now))
  {
    PauseOpensNothing(db, recordId, now);
  }

  /** `PauseTimer` keeps "a task is in progress exactly when it owns an open record". */
  lemma PauseKeepsCoupled(db: Tables, recordId: int, now: Instant)
    requires WellFormed(db) && Coupled(db)
    ensures Coupled(Pause(db, recordId, now))
  {
    var after := Pause(db, recordId, now);
    PauseEffect(db, recordId, now);
    if HasRecord(db, recordId) {
      var owner := db.records[recordId - 1].taskId;
      forall j | 0 <= j < |after.tasks|
        ensures after.tasks[j].status == InProgress <==> Owns(after, after.tasks[j].id)
      {
        var id := db.tasks[j].id;
        assert after.tasks[j].id == id;
        if id != owner {
          OwnsElsewhere(db, after, recordId, now, id);
        } else if Owns(after, owner) {
          var i :| 0 <= i < |after.records| && after.records[i].taskId == owner && IsOpen(after.records[i]);
          assert after.records[i] == db.records[i];
        }
      }
    }
  }

  /** Closing one record changes no other task's ownership. */
  lemma OwnsElsewhere(db: Tables, after: Tables, recordId: int, now: Instant, id: int)
    requires HasRecord(db, recordId)
    requires after.records == db.records[recordId - 1 := Close(db.records[recordId - 1], now)]
    requires id != db.records[recordId - 1].taskId
    ensures Owns(after, id) <==> Owns(db, id)
  {
    if Owns(db, id) {
      var i :| 0 <= i < |db.records| && db.records[i].taskId == id && IsOpen(db.records[i]);
      assert after.records[i] == db.records[i];
    }
    if Owns(after, id) {
      var i :| 0 <= i < |after.records| && after.records[i].taskId == id && IsOpen(after.records[i]);
      assert after.records[i] == db.records[i];
    }
  }

  /**
   * With no `end_time IS NULL` guard, pausing a record that is already closed
   * stamps it again and sends its task, even a completed one, back to pending
   * when the task has no open record.
   */
  lemma RepauseResetsTask(db: Tables, recordId: int, now: Instant)
    requires WellFormed(db) && HasRecord(db, recordId)
    requires !IsOpen(db.records[recordId - 1])
    requires HasTask(db, db.records[recordId - 1].taskId)
    requires !Owns(db, db.records[recordId - 1].taskId)
    ensures var r := db.records[recordId - 1];
      var after := Pause(db, recordId, now);
      after.records[recordId - 1].endTime == Some(now)
      && after.records[recordId - 1].duration == Some(now - r.startTime)
      && after.tasks[r.taskId - 1].status == Pending
      && after.tasks[r.taskId - 1].completedAt == db.tasks[r.taskId - 1].completedAt
  {
    var owner := db.records[recordId - 1].taskId;
    var after := Pause(db, recordId, now);
    PauseEffect(db, recordId, now);
    forall i | 0 <= i < |after.records| ensures !(after.records[i].taskId == owner && IsOpen(after.records[i])) {
      if i != recordId - 1 {
        assert after.records[i] == db.records[i];
      }
    }
  }

  /** With at most one open record, the open ids are that record's id or nothing. */
  lemma {:induction false} OpenIdsOfOnly(rs: seq<TimeRecord>, k: int)
    requires forall i :: 0 <= i < |rs| && IsOpen(rs[i]) ==> i == k
    requires 0 <= k < |rs| ==> IsOpen(rs[k])
    ensures OpenIds(rs) == if 0 <= k < |rs| then [rs[k].id] else []
    decreases |rs|
  {
    if rs != [] {
      var n := |rs| - 1;
      assert forall i :: 0 <= i < n ==> rs[..n][i] == rs[i];
      OpenIdsOfOnly(rs[..n], k);
    }
  }

  /** Closing every record and releasing every task keeps the tables well formed. */
  lemma CloseAllWellFormed(db: Tables, now: Instant)
    requires WellFormed(db)
    ensures WellFormed(CloseAll(db, now))
  {
  }

  /** Under the invariants, pausing the open ids one by one is closing everything at once. */
  lemma PauseAllClosedForm(db: Tables, now: Instant)
    requires WellFormed(db) && AtMostOneOpen(db)
    ensures PauseEach(db, OpenIds(db.records), now) == CloseAll(db, now)
  {
    if k :| 0 <= k < |db.records| && IsOpen(db.records[k]) {
      OpenIdsOfOnly(db.records, k);
      var ids := OpenIds(db.records);
      assert ids[..0] == [];
      assert PauseEach(db, ids, now) == Pause(db, k + 1, now);
      PauseOnlyOpen(db, k, now);
    } else {
      OpenIdsOfOnly(db.records, -1);
      NothingOpenToClose(db, now);
    }
  }

  /** Pausing the one open record closes everything at once. */
  lemma PauseOnlyOpen(db: Tables, k: nat, now: Instant)
    requires WellFormed(db) && AtMostOneOpen(db)
    requires k < |db.records| && IsOpen(db.records[k])
    ensures Pause(db, k + 1, now) == CloseAll(db, now)
  {
    var closedAll := CloseAll(db, now);
    var after := Pause(db, k + 1, now);
    PauseEffect(db, k + 1, now);
    forall i | 0 <= i < |after.records| ensures !IsOpen(after.records[i]) {
      if i != k {
        assert after.records[i] == db.records[i];
      }
    }
    assert after.records == closedAll.records;
    forall j | 0 <= j < |db.tasks| ensures after.tasks[j] == closedAll.tasks[j] {
      var id := db.tasks[j].id;
      if Owns(db, id) {
        var i :| 0 <= i < |db.records| && db.records[i].taskId == id && IsOpen(db.records[i]);
        assert i == k;
      }
    }
  }

  /** With nothing open, closing everything changes nothing. */
  lemma NothingOpenToClose(db: Tables, now: Instant)
    requires forall i :: 0 <= i < |db.records| ==> !IsOpen(db.records[i])
    ensures CloseAll(db, now) == db
  {
    var closedAll := CloseAll(db, now);
    assert closedAll.records == db.records;
    forall j | 0 <= j < |db.tasks| ensures closedAll.tasks[j] == db.tasks[j] {
      assert !Owns(db, db.tasks[j].id);
    }
  }

  /**
   * `StartTimer(taskId)`: every record that was open is closed at `now` and
   * every task that owned one is pending; then the task is in progress and the
   * one record open is the new one, which belongs to the task.
   */
  lemma StartEffect(db: Tables, taskId: int, now: Instant)
    requires WellFormed(db) && AtMostOneOpen(db)
    ensures var after := Start(db, taskId, now);
      WellFormed(after)
      && |after.tasks| == |db.tasks| && |after.records| == |db.records| + 1
      && after.records[|db.records|] == NewRecord(|db.records| + 1, taskId, now)
      && (forall i :: 0 <= i < |after.records| ==> (IsOpen(after.records[i]) <==> i == |db.records|))
      && (forall i :: 0 <= i < |db.records| ==>
            after.records[i] == if IsOpen(db.records[i]) then Close(db.records[i], now) else db.records[i])
      && (forall j :: 0 <= j < |db.tasks| ==>
            var paused := if Owns(db, db.tasks[j].id) then Restamp(db.tasks[j], Pending, now) else db.tasks[j];
            after.tasks[j] == if db.tasks[j].id == taskId then Restamp(paused, InProgress, now) else paused)
  {
    PauseAllClosedForm(db, now);
    CloseAllWellFormed(db, now);
    UpdateStatusEffect(CloseAll(db, now), taskId, InProgress, now);
  }

  /** `StartTimer` keeps "a task is in progress exactly when it owns an open record". */
  lemma StartKeepsCoupled(db: Tables, taskId: int, now: Instant)
    requires WellFormed(db) && AtMostOneOpen(db) && Coupled(db)
    ensures Coupled(Start(db, taskId, now)) && AtMostOneOpen(Start(db, taskId, now))
  {
    var after := Start(db, taskId, now);
    StartEffect(db, taskId, now);
    var n := |db.records|;
    forall j | 0 <= j < |after.tasks|
      ensures after.tasks[j].status == InProgress <==> Owns(after, after.tasks[j].id)
    {
      var id := db.tasks[j].id;
      assert after.tasks[j].id == id;
      if id == taskId {
        assert after.records[n].taskId == id && IsOpen(after.records[n]);
      } else {
        assert !Owns(after, id);
      }
    }
  }

  /** `StartTimer` on an existing task keeps every record's task resolvable. */
  lemma StartKeepsRefs(db: Tables, taskId: int, now: Instant)
    requires WellFormed(db) && AtMostOneOpen(db) && RefsResolve(db) && HasTask(db, taskId)
    ensures RefsResolve(Start(db, taskId, now))
  {
    StartEffect(db, taskId, now);
  }

  /** When every record's task exists, there is no active timer exactly when no record is open. */
  lemma ActiveTimerNoneIff(db: Tables)
    requires RefsResolve(db)
    ensures ActiveTimerOf(db).None? <==> forall i :: 0 <= i < |db.records| ==> !IsOpen(db.records[i])
  {
  }

  /** Under the invariants, the active timer is the one open record, joined with its task. */
  lemma ActiveTimerIsTheOpenRecord(db: Tables, k: nat)
    requires WellFormed(db) && AtMostOneOpen(db)
    requires k < |db.records| && IsOpen(db.records[k]) && HasTask(db, db.records[k].taskId)
    ensures ActiveTimerOf(db) == Some(Joined(db.records[k], db.tasks[db.records[k].taskId - 1]))
  {
  }

  /** After `StartTimer` on an existing task, the active timer is the new record, named after that task. */
  lemma ActiveTimerAfterStart(db: Tables, taskId: int, now: Instant)
    requires WellFormed(db) && AtMostOneOpen(db) && HasTask(db, taskId)
    ensures var after := Start(db, taskId, now);
      var active := ActiveTimerOf(after);
      active.Some? && active.value.id == |db.records| + 1 && active.value.taskId == taskId
      && active.value.startTime == now && active.value.taskName == Some(db.tasks[taskId - 1].name)
  {
    var after := Start(db, taskId, now);
    StartEffect(db, taskId, now);
    StartKeepsCoupledAtMostOne(db, taskId, now);
    ActiveTimerIsTheOpenRecord(after, |db.records|);
  }

  /** Starting keeps "at most one open record": the new record is the only open one. */
  lemma StartKeepsCoupledAtMostOne(db: Tables, taskId: int, now: Instant)
    requires WellFormed(db) && AtMostOneOpen(db)
    ensures AtMostOneOpen(Start(db, taskId, now))
  {
    StartEffect(db, taskId, now);
  }

  /** Pausing the one open record leaves no active timer and no open record. */
  lemma ActiveTimerAfterPause(db: Tables, recordId: int, now: Instant)
    requires WellFormed(db) && AtMostOneOpen(db)
    requires HasRecord(db, recordId) && IsOpen(db.records[recordId - 1])
    ensures var after := Pause(db, recordId, now);
      ActiveTimerOf(after).None? && forall i :: 0 <= i < |after.records| ==> !IsOpen(after.records[i])
  {
    PauseOpensNothing(db, recordId, now);
  }

  /** A status change touches no record and no task name, so the active timer stays the same. */
  lemma ActiveTimerAfterUpdate(db: Tables, taskId: int, status: Status, now: Instant)
    requires WellFormed(db)
    ensures ActiveTimerOf(UpdateStatus(db, taskId, status, now)) == ActiveTimerOf(db)
  {
    UpdateStatusEffect(db, taskId, status, now);
    ActiveFromSameNames(UpdateStatus(db, taskId, status, now), db, 0);
  }

  /** The active-timer scan reads only the records and the task names. */
  lemma {:induction false} ActiveFromSameNames(a: Tables, b: Tables, i: nat)
    requires a.records == b.records && |a.tasks| == |b.tasks| && i <= |a.records|
    requires forall j :: 0 <= j < |a.tasks| ==> a.tasks[j].name == b.tasks[j].name
    ensures ActiveTimerFrom(a, i) == ActiveTimerFrom(b, i)
    decreases |a.records| - i
  {
    if i < |a.records| {
      var r := a.records[i];
      if IsOpen(r) && HasTask(a, r.taskId) {
        assert a.tasks[r.taskId - 1].name == b.tasks[r.taskId - 1].name;
        assert Joined(r, a.tasks[r.taskId - 1]) == Joined(r, b.tasks[r.taskId - 1]);
      } else {
        ActiveFromSameNames(a, b, i + 1);
      }
    }
  }

  // ----- the other operations keep the invariants -----

  /** `AddTask` gives a fresh id and keeps the invariants; a new task owns nothing while every record's task exists. */
  lemma AddTaskKeeps(db: Tables, name: string, now: Instant)
    requires WellFormed(db)
    ensures var after := AddTask(db, name, now);
      WellFormed(after) && after.records == db.records
      && (forall j :: 0 <= j < |db.tasks| ==> db.tasks[j].id != |db.tasks| + 1)
      && (AtMostOneOpen(db) ==> AtMostOneOpen(after))
      && (RefsResolve(db) ==> RefsResolve(after))
      && (RefsResolve(db) && Coupled(db) ==> Coupled(after))
  {
    var after := AddTask(db, name, now);
    if RefsResolve(db) && Coupled(db) {
      var n := |db.tasks|;
      forall i | 0 <= i < |after.records| ensures after.records[i].taskId != n + 1 {
        assert HasTask(db, db.records[i].taskId);
      }
      assert !Owns(after, n + 1);
      forall j | 0 <= j < n ensures Owns(after, after.tasks[j].id) <==> Owns(db, db.tasks[j].id) {
        assert after.tasks[j] == db.tasks[j];
      }
    }
  }

  /**
   * `UpdateTaskStatus` keeps the table invariants, and keeps tasks coupled to
   * their open records when the new status agrees with the task's records.
   */
  lemma UpdateStatusKeeps(db: Tables, taskId: int, status: Status, now: Instant)
    requires WellFormed(db)
    ensures var after := UpdateStatus(db, taskId, status, now);
      (AtMostOneOpen(db) ==> AtMostOneOpen(after))
      && (RefsResolve(db) ==> RefsResolve(after))
      && (Coupled(db) && (HasTask(db, taskId) ==> (status == InProgress <==> Owns(db, taskId))) ==> Coupled(after))
  {
    var after := UpdateStatus(db, taskId, status, now);
    UpdateStatusEffect(db, taskId, status, now);
    forall j | 0 <= j < |db.tasks| ensures Owns(after, after.tasks[j].id) <==> Owns(db, db.tasks[j].id) {
      assert after.tasks[j].id == db.tasks[j].id;
    }
  }

  /** `UpdateRecordNotes` changes only the notes of one record and so keeps every invariant. */
  lemma SetNotesKeeps(db: Tables, recordId: int, notes: string)
    requires WellFormed(db)
    ensures var after := SetNotes(db, recordId, notes);
      WellFormed(after) && after.tasks == db.tasks && |after.records| == |db.records|
      && (HasRecord(db, recordId) ==> after.records[recordId - 1] == db.records[recordId - 1].(notes := Some(notes)))
      && (forall i :: 0 <= i < |db.records| && i != recordId - 1 ==> after.records[i] == db.records[i])
      && (AtMostOneOpen(db) ==> AtMostOneOpen(after))
      && (RefsResolve(db) ==> RefsResolve(after))
      && (Coupled(db) ==> Coupled(after))
  {
    var after := SetNotes(db, recordId, notes);
    forall id ensures Owns(after, id) <==> Owns(db, id) {
      if Owns(db, id) {
        var i :| 0 <= i < |db.records| && db.records[i].taskId == id && IsOpen(db.records[i]);
        assert after.records[i].taskId == id && IsOpen(after.records[i]);
      }
      if Owns(after, id) {
        var i :| 0 <= i < |after.records| && after.records[i].taskId == id && IsOpen(after.records[i]);
        assert db.records[i].taskId == id && IsOpen(db.records[i]);
      }
    }
  }

  // ----- queries -----

  /** Completed tasks are among the tasks the unfiltered list shows, so they never outnumber them. */
  lemma CompletedWithinListed(db: Tables)
    ensures |Filter(db.tasks, TaskSelected(Some("completed")))| <= |Filter(db.tasks, TaskSelected(None))|
  {
    FilterWeaker(db.tasks, TaskSelected(None), TaskSelected(Some("completed")));
  }

  /** Without filters the record query keeps every record. */
  lemma RecordsUnfiltered(db: Tables)
    ensures Filter(db.records, RecordSelected(None, None, None)) == db.records
  {
    FilterAll(db.records, RecordSelected(None, None, None));
  }

  /** A task without a finished session has a statistics row of zero sessions and zero seconds. */
  lemma StatisticsOfIdleTask(db: Tables, t: Task)
    requires forall i :: 0 <= i < |db.records| ==> !(db.records[i].taskId == t.id && db.records[i].duration.Some?)
    ensures StatisticsRow(db, t).sessionCount == 0 && StatisticsRow(db, t).totalDurationSeconds == 0
  {
    FilterNone(db.records, SessionsOf(t.id));
  }
}
