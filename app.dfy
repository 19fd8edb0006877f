/**
 * `PomodoroApp` without its widgets: the task list, the countdown and the day's
 * counters, updated in place by the handlers the buttons and timers call. The clock
 * (`time.time()`), today's date and `datetime.now()` are parameters; dialog answers and
 * entry texts are string parameters; the task view's selection is an optional id.
 */
module Pomodoro {
  import opened Wrappers
  import opened PyText
  import opened TaskList
  import opened Stats
  import opened Timer

  /** What one `run_timer` call shows. */
  datatype Tick =
    | NotRunning
      // `if not self.timer_running: return`
    | Ticked(remaining: real, clock: string, alarm: Option<int>)
      // the `MM:SS` label the tick writes; on completion, the break length the alarm
      // dialog announces. A completing tick's reset then replaces that label with
      // `ResetLabel(work_time)`, which `TimerComplete` returns.

  /** What `toggle_timer` does. */
  datatype Toggle =
    | NoActiveTask
      // the "Selecione uma tarefa primeiro!" warning
    | Paused
    | Started(tick: Tick)
      // starting runs one tick at once

  class PomodoroApp {
    var workTime: int
    var breakTime: int
    var timerRunning: bool
    var startTime: Option<real>
    var elapsedTime: real
    var currentTaskId: Option<int>
    var tasks: seq<Task>
    var taskCounter: int
    var today: int
    var sessionTime: int
    /** Every id `add_task` has handed out, removed tasks' ids included. */
    ghost var issued: set<int>

    /**
     * The invariant the handlers keep: ids come from the counter and increase along the
     * list, descriptions are non-empty, a task is completed exactly when it has a
     * completion time, the active id names a task still open in the list, and a running
     * timer has a start time.
     */
    ghost predicate Valid()
      reads this
    {
      && 0 <= taskCounter
      && (forall id :: id in issued <==> 1 <= id <= taskCounter)
      && TasksOk(tasks, issued)
      && (currentTaskId.Some? ==> HasOpenTask(tasks, currentTaskId.value))
      && (timerRunning ==> startTime.Some?)
    }

    /**
     * What a tick that computed `elapsed` leaves behind, from the task list and session
     * total it started with: a snapshot on every tenth second, and on reaching zero the
     * completion (final snapshot, `work_time` added to the session total, reset).
     */
    ghost predicate TickedFrom(elapsed: real, before: seq<Task>, sessionBefore: int, tick: Tick)
      reads this
    {
      var remaining := Remaining(workTime, elapsed);
      var snapped := if SnapshotDue(elapsed) then ActiveSnapshot(before, currentTaskId, Trunc(elapsed)) else before;
      && tick == Ticked(remaining, ClockLabel(remaining), if remaining == 0.0 then Some(breakTime) else None)
      && (remaining > 0.0 ==>
            timerRunning && elapsedTime == elapsed && tasks == snapped && sessionTime == sessionBefore)
      && (remaining == 0.0 ==>
            && !timerRunning && elapsedTime == 0.0
            && tasks == ActiveSnapshot(before, currentTaskId, Trunc(elapsed))
            && sessionTime == sessionBefore + workTime)
    }

    /** `__init__`: 25/5 minutes, idle, no tasks, the counter at 0, the given day. */
    constructor (today: int)
      ensures Valid()
      ensures workTime == 25 && breakTime == 5
      ensures !timerRunning && startTime == None && elapsedTime == 0.0 && currentTaskId == None
      ensures tasks == [] && taskCounter == 0 && issued == {}
      ensures this.today == today && sessionTime == 0
    {
      workTime := 25;
      breakTime := 5;
      timerRunning := false;
      startTime := None;
      elapsedTime := 0.0;
      currentTaskId := None;
      tasks := [];
      taskCounter := 0;
      this.today := today;
      sessionTime := 0;
      issued := {};
    }

    /**
     * `add_task`: rejects a description that is empty once stripped; otherwise appends a
     * fresh task under the next counter value, an id never handed out before.
     */
    method AddTask(taskEntry: string, tagEntry: string, now: DateTime) returns (added: Option<int>)
      requires Valid()
      modifies this`tasks, this`taskCounter, this`issued
      ensures Valid()
      ensures Strip(taskEntry) == [] ==>
        added == None && tasks == old(tasks) && taskCounter == old(taskCounter) && issued == old(issued)
      ensures Strip(taskEntry) != [] ==>
        && added == Some(taskCounter)
        && taskCounter == old(taskCounter) + 1
        && taskCounter !in old(issued)
        && issued == old(issued) + {taskCounter}
        && (forall t :: t in old(tasks) ==> t.id < taskCounter)
        && tasks == old(tasks) + [Task(taskCounter, Strip(taskEntry), Strip(tagEntry), false, 0, now, None)]
    {
      var taskText := Strip(taskEntry);
      if taskText == [] {
        return None;
      }
      var tags := Strip(tagEntry);
      taskCounter := taskCounter + 1;
      var task := Task(taskCounter, taskText, tags, false, 0, now, None);
      StripIdempotent(tagEntry);
      StripIdempotent(taskEntry);
      AppendKeepsTasksOk(tasks, issued, task, issued + {taskCounter});
      if currentTaskId.Some? {
        AppendKeepsOpen(tasks, task, currentTaskId.value);
      }
      tasks := tasks + [task];
      issued := issued + {taskCounter};
      added := Some(taskCounter);
    }

    /**
     * `remove_task`: drops the selected id from the list, keeping the others in order,
     * and clears the active id exactly when it was the removed one.
     */
    method RemoveTask(selection: Option<int>)
      requires Valid()
      modifies this`tasks, this`currentTaskId
      ensures Valid()
      ensures selection.None? ==> tasks == old(tasks) && currentTaskId == old(currentTaskId)
      ensures selection.Some? ==>
        && tasks == WithoutId(old(tasks), selection.value)
        && currentTaskId == (if old(currentTaskId) == selection then None else old(currentTaskId))
    {
      if selection.None? {
        return;
      }
      var taskId := selection.value;
      RemovalKeepsTasksOk(tasks, issued, taskId);
      tasks := WithoutId(tasks, taskId);
      if currentTaskId == Some(taskId) {
        currentTaskId := None;
      }
      if currentTaskId.Some? {
        OpenTaskSurvivesRemoval(old(tasks), currentTaskId.value, taskId);
      }
    }

    /**
     * `edit_task`: when the dialog answer is non-empty after stripping, it becomes the
     * selected task's description; nothing else in the list changes.
     */
    method EditTask(selection: Option<int>, newText: Option<string>)
      requires Valid()
      requires selection.Some? ==> HasOpenTask(tasks, selection.value)
      modifies this`tasks
      ensures Valid()
      ensures selection.None? || newText.None? || Strip(newText.value) == [] ==> tasks == old(tasks)
      ensures selection.Some? && newText.Some? && Strip(newText.value) != [] ==>
        && |tasks| == |old(tasks)|
        && forall k :: 0 <= k < |tasks| ==>
             tasks[k] == if old(tasks)[k].id == selection.value
                         then old(tasks)[k].(text := Strip(newText.value))
                         else old(tasks)[k]
    {
      if selection.None? {
        return;
      }
      OpenTaskIsUnique(tasks, selection.value);
      var i := IndexOf(tasks, selection.value);
      OnlyPositionWithId(tasks, i);
      if newText.Some? && newText.value != [] && Strip(newText.value) != [] {
        var edited := tasks[i].(text := Strip(newText.value));
        StripIdempotent(newText.value);
        assert Storable(tasks[i]);
        ReplaceKeepsTasksOk(tasks, issued, i, edited);
        if currentTaskId.Some? {
          ReplaceKeepsOpen(tasks, i, edited, currentTaskId.value);
        }
        tasks := tasks[i := edited];
      } else if newText.Some? && newText.value == [] {
        StripEmptyIffAllSpace(newText.value);
      }
    }

    /**
     * `complete_task`: marks the selected task completed at `now`, clears the active id
     * exactly when it was that task, and leaves the timer alone.
     */
    method CompleteTask(selection: Option<int>, now: DateTime)
      requires Valid()
      requires selection.Some? ==> HasOpenTask(tasks, selection.value)
      modifies this`tasks, this`currentTaskId
      ensures Valid()
      ensures selection.None? ==> tasks == old(tasks) && currentTaskId == old(currentTaskId)
      ensures selection.Some? ==>
        && |tasks| == |old(tasks)|
        && (forall k :: 0 <= k < |tasks| ==>
              tasks[k] == if old(tasks)[k].id == selection.value
                          then old(tasks)[k].(completed := true, completedAt := Some(now))
                          else old(tasks)[k])
        && currentTaskId == (if old(currentTaskId) == selection then None else old(currentTaskId))
    {
      if selection.None? {
        return;
      }
      var taskId := selection.value;
      OpenTaskIsUnique(tasks, taskId);
      var i := IndexOf(tasks, taskId);
      OnlyPositionWithId(tasks, i);
      var done := tasks[i].(completed := true, completedAt := Some(now));
      assert Storable(tasks[i]);
      ReplaceKeepsTasksOk(tasks, issued, i, done);
      if currentTaskId.Some? && currentTaskId.value != taskId {
        ReplaceKeepsOpen(tasks, i, done, currentTaskId.value);
      }
      tasks := tasks[i := done];
      if currentTaskId == Some(taskId) {
        currentTaskId := None;
      }
    }

    /** `set_active_task`: the selected task becomes the one the timer credits. */
    method SetActiveTask(selection: Option<int>)
      requires Valid()
      requires selection.Some? ==> HasOpenTask(tasks, selection.value)
      modifies this`currentTaskId
      ensures Valid()
      ensures currentTaskId == if selection.Some? then selection else old(currentTaskId)
    {
      if selection.None? {
        return;
      }
      currentTaskId := selection;
    }

    /**
     * `apply_times`: parses both entries with `int()`, with no range check. The work
     * length is stored before the break entry is parsed, so a bad break entry leaves the
     * new work length in place; only when both parse is the timer reset, which shows
     * `ResetLabel(work_time)` (the label `ResetTimer` returns).
     */
    method ApplyTimes(workEntry: string, breakEntry: string) returns (applied: bool)
      requires Valid()
      modifies this`workTime, this`breakTime, this`timerRunning, this`elapsedTime
      ensures Valid()
      ensures applied <==> ParseInt(workEntry).Some? && ParseInt(breakEntry).Some?
      ensures workTime == if ParseInt(workEntry).Some? then ParseInt(workEntry).value else old(workTime)
      ensures breakTime == if applied then ParseInt(breakEntry).value else old(breakTime)
      ensures applied ==> !timerRunning && elapsedTime == 0.0
      ensures !applied ==> timerRunning == old(timerRunning) && elapsedTime == old(elapsedTime)
    {
      var work := ParseInt(workEntry);
      if work.None? {
        return false;
      }
      workTime := work.value;
      var brk := ParseInt(breakEntry);
      if brk.None? {
        return false;
      }
      breakTime := brk.value;
      var _ := ResetTimer();
      applied := true;
    }

    /** `reset_timer`: idle with nothing elapsed; the active task and lengths stay. */
    method ResetTimer() returns (clock: string)
      requires Valid()
      modifies this`timerRunning, this`elapsedTime
      ensures Valid()
      ensures !timerRunning && elapsedTime == 0.0
      ensures clock == ResetLabel(workTime)
    {
      timerRunning := false;
      elapsedTime := 0.0;
      clock := ResetLabel(workTime);
    }

    /**
     * `update_task_time`: writes `int(elapsed_time)` into the active task's time spent
     * and touches no other task; nothing happens without an active task.
     */
    method UpdateTaskTime()
      requires Valid()
      modifies this`tasks
      ensures Valid()
      ensures tasks == ActiveSnapshot(old(tasks), currentTaskId, Trunc(elapsedTime))
    {
      if currentTaskId.None? || currentTaskId.value == 0 {
        return;
      }
      var taskId := currentTaskId.value;
      OpenTaskIsUnique(tasks, taskId);
      var i := IndexOf(tasks, taskId);
      SnapshotKeepsTasks(tasks, issued, i, Trunc(elapsedTime), taskId);
      tasks := tasks[i := tasks[i].(timeSpent := Trunc(elapsedTime))];
    }

    /**
     * `timer_complete`: a final snapshot, `work_time` minutes added to the day's session
     * total (so the minutes shown grow by exactly that much), then a reset. Returns the
     * break length the alarm dialog announces and the label the reset leaves on show.
     */
    method TimerComplete() returns (alarm: int, clock: string)
      requires Valid()
      modifies this`timerRunning, this`tasks, this`sessionTime, this`elapsedTime
      ensures Valid()
      ensures !timerRunning && elapsedTime == 0.0
      ensures tasks == ActiveSnapshot(old(tasks), currentTaskId, Trunc(old(elapsedTime)))
      ensures sessionTime == old(sessionTime) + workTime
      ensures SessionMinutes(sessionTime, tasks, today) == SessionMinutes(old(sessionTime), old(tasks), today) + workTime
      ensures alarm == breakTime && clock == ResetLabel(workTime)
    {
      timerRunning := false;
      UpdateTaskTime();
      sessionTime := sessionTime + workTime;
      alarm := breakTime;
      clock := ResetTimer();
      CompletionAddsWorkMinutes(old(tasks), currentTaskId, Trunc(old(elapsedTime)), old(sessionTime), workTime, today);
    }

    /**
     * The end of a completing tick: `timer_complete` snapshots the same second the tick
     * may already have written, so the list ends as one snapshot of the list before it.
     */
    method FinishSession(ghost before: seq<Task>, ghost secs: int) returns (alarm: int)
      requires Valid() && secs == Trunc(elapsedTime)
      requires tasks == before || tasks == ActiveSnapshot(before, currentTaskId, secs)
      modifies this`timerRunning, this`tasks, this`sessionTime, this`elapsedTime
      ensures Valid() && !timerRunning && elapsedTime == 0.0
      ensures tasks == ActiveSnapshot(before, currentTaskId, secs)
      ensures sessionTime == old(sessionTime) + workTime && alarm == breakTime
    {
      ActiveSnapshotIdempotent(before, currentTaskId, secs);
      var a, _ := TimerComplete();
      alarm := a;
    }

    /**
     * `run_timer`: one tick at wall-clock time `now`. Elapsed time is recomputed from the
     * start time, the remaining time is never negative, and reaching zero completes the
     * session.
     */
    method RunTimer(now: real) returns (tick: Tick)
      requires Valid()
      modifies this`elapsedTime, this`tasks, this`timerRunning, this`sessionTime
      ensures Valid()
      ensures !old(timerRunning) ==>
        && tick == NotRunning && !timerRunning && elapsedTime == old(elapsedTime)
        && tasks == old(tasks) && sessionTime == old(sessionTime)
      ensures old(timerRunning) ==> TickedFrom(now - old(startTime).value, old(tasks), old(sessionTime), tick)
    {
      if !timerRunning {
        return NotRunning;
      }
      ghost var secs := Trunc(now - startTime.value);
      elapsedTime := now - startTime.value;
      var remaining := Remaining(workTime, elapsedTime);
      var clock := ClockLabel(remaining);
      if SnapshotDue(elapsedTime) {
        UpdateTaskTime();
      }
      if remaining <= 0.0 {
        var alarm := FinishSession(old(tasks), secs);
        return Ticked(remaining, clock, Some(alarm));
      }
      return Ticked(remaining, clock, None);
    }

    /**
     * `toggle_timer`: pausing only stops the timer; starting needs an active task and
     * rebases the start time to `now - elapsed_time`. The tick it runs at once reads the
     * clock again, at `tickNow`, and so finds the paused elapsed time plus the time
     * between the two readings.
     */
    method ToggleTimer(now: real, tickNow: real) returns (result: Toggle)
      requires Valid()
      modifies this`timerRunning, this`startTime, this`elapsedTime, this`tasks, this`sessionTime
      ensures Valid()
      ensures old(timerRunning) ==>
        && result == Paused && !timerRunning && startTime == old(startTime)
        && elapsedTime == old(elapsedTime) && tasks == old(tasks) && sessionTime == old(sessionTime)
      ensures !old(timerRunning) && currentTaskId.None? ==>
        && result == NoActiveTask && !timerRunning && startTime == old(startTime)
        && elapsedTime == old(elapsedTime) && tasks == old(tasks) && sessionTime == old(sessionTime)
      ensures !old(timerRunning) && currentTaskId.Some? ==>
        && startTime == Some(now - old(elapsedTime))
        && result.Started?
        && TickedFrom(old(elapsedTime) + (tickNow - now), old(tasks), old(sessionTime), result.tick)
    {
      if !timerRunning {
        if currentTaskId.None? {
          return NoActiveTask;
        }
        timerRunning := true;
        startTime := Some(now - elapsedTime);
        ghost var resumedAt := old(elapsedTime) + (tickNow - now);
        assert tickNow - startTime.value == resumedAt;
        var tick := RunTimer(tickNow);
        return Started(tick);
      } else {
        timerRunning := false;
        return Paused;
      }
    }

    /**
     * `update_clock`: when the date has changed, tracks the new day and restarts the
     * session total; tasks completed on the previous day no longer count toward today.
     */
    method UpdateClock(nowDay: int) returns (rolledOver: bool)
      requires Valid()
      modifies this`today, this`sessionTime
      ensures Valid()
      ensures rolledOver == (nowDay != old(today))
      ensures today == nowDay
      ensures sessionTime == if rolledOver then 0 else old(sessionTime)
      ensures rolledOver ==> forall t :: t in CompletedToday(tasks, old(today)) ==> t !in CompletedToday(tasks, today)
    {
      rolledOver := nowDay != today;
      if rolledOver {
        today := nowDay;
        sessionTime := 0;
      }
    }
  }

  /** A task still open under another id is kept by the removal comprehension. */
  lemma OpenTaskSurvivesRemoval(ts: seq<Task>, id: int, removed: int)
    requires HasOpenTask(ts, id) && id != removed
    ensures HasOpenTask(WithoutId(ts, removed), id)
  {
    var i :| 0 <= i < |ts| && ts[i].id == id && !ts[i].completed;
    var r := WithoutId(ts, removed);
    assert ts[i] in r;
    var j :| 0 <= j < |r| && r[j] == ts[i];
  }

  /** A task the list can hold: a non-empty description and a consistent completion state. */
  ghost predicate Storable(t: Task) {
    WellFormed(t) && t.text != []
  }

  /** The list's part of the invariant: increasing issued ids, every task storable. */
  ghost predicate TasksOk(ts: seq<Task>, issued: set<int>) {
    && IdsIncreasing(ts)
    && (forall k :: 0 <= k < |ts| ==> ts[k].id in issued && Storable(ts[k]))
  }

  /** Replacing one task by a storable one with the same id keeps the list's invariant. */
  lemma ReplaceKeepsTasksOk(ts: seq<Task>, issued: set<int>, i: nat, u: Task)
    requires TasksOk(ts, issued) && i < |ts| && u.id == ts[i].id && Storable(u)
    ensures TasksOk(ts[i := u], issued)
  {
    var r := ts[i := u];
    IncreasingPairs(ts);
    forall a, b | 0 <= a < b < |r|
      ensures r[a].id < r[b].id
    {
      assert r[a].id == ts[a].id && r[b].id == ts[b].id;
    }
    PairsIncreasing(r);
  }

  /** An open task stays open when one entry is replaced, unless that entry is closed. */
  lemma ReplaceKeepsOpen(ts: seq<Task>, i: nat, u: Task, id: int)
    requires HasOpenTask(ts, id) && i < |ts| && u.id == ts[i].id
    requires ts[i].id == id ==> !u.completed
    ensures HasOpenTask(ts[i := u], id)
  {
    var j :| 0 <= j < |ts| && ts[j].id == id && !ts[j].completed;
    var r := ts[i := u];
    if j == i {
      assert r[i].id == id && !r[i].completed;
    } else {
      assert r[j] == ts[j];
    }
  }

  /** Writing the time of the active task at its position keeps the invariant and is the snapshot. */
  lemma SnapshotKeepsTasks(ts: seq<Task>, issued: set<int>, i: nat, secs: int, id: int)
    requires TasksOk(ts, issued) && HasOpenTask(ts, id) && i < |ts| && ts[i].id == id && id != 0
    ensures TasksOk(ts[i := ts[i].(timeSpent := secs)], issued)
    ensures HasOpenTask(ts[i := ts[i].(timeSpent := secs)], id)
    ensures ts[i := ts[i].(timeSpent := secs)] == ActiveSnapshot(ts, Some(id), secs)
  {
    var snapped := ts[i].(timeSpent := secs);
    SnapshotAtIndex(ts, i, secs);
    assert Storable(ts[i]);
    ReplaceKeepsTasksOk(ts, issued, i, snapped);
    OpenTaskIsUnique(ts, id);
    ReplaceKeepsOpen(ts, i, snapped, id);
  }

  /** Appending a storable task with an issued id above every present one keeps the invariant. */
  lemma AppendKeepsTasksOk(ts: seq<Task>, issued: set<int>, t: Task, issued2: set<int>)
    requires TasksOk(ts, issued) && Storable(t) && t.id in issued2 && issued <= issued2
    requires forall k :: 0 <= k < |ts| ==> ts[k].id < t.id
    ensures TasksOk(ts + [t], issued2)
  {
    var r := ts + [t];
    IncreasingPairs(ts);
    forall a, b | 0 <= a < b < |r|
      ensures r[a].id < r[b].id
    {
      if b < |ts| {
        assert r[a] == ts[a] && r[b] == ts[b];
      } else {
        assert r[a] == ts[a];
      }
    }
    PairsIncreasing(r);
    forall k | 0 <= k < |r|
      ensures r[k].id in issued2 && Storable(r[k])
    {
      if k < |ts| {
        assert r[k] == ts[k];
      }
    }
  }

  /** An open task stays open when another task is appended. */
  lemma AppendKeepsOpen(ts: seq<Task>, t: Task, id: int)
    requires HasOpenTask(ts, id)
    ensures HasOpenTask(ts + [t], id)
  {
    var j :| 0 <= j < |ts| && ts[j].id == id && !ts[j].completed;
    assert (ts + [t])[j] == ts[j];
  }

  /** Removal keeps the list's invariant. */
  lemma RemovalKeepsTasksOk(ts: seq<Task>, issued: set<int>, removed: int)
    requires TasksOk(ts, issued)
    ensures TasksOk(WithoutId(ts, removed), issued)
  {
    var r := WithoutId(ts, removed);
    forall k | 0 <= k < |r|
      ensures r[k].id in issued && Storable(r[k])
    {
      assert r[k] in r;
      var j :| 0 <= j < |ts| && ts[j] == r[k];
    }
  }
}
