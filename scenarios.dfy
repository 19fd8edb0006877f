/**
 * Whole sessions driven through `PomodoroApp` the way the buttons and timers drive it,
 * with the outcome each one must have.
 */
module Scenarios {
  import opened Wrappers
  import opened PyText
  import opened TaskList
  import opened Stats
  import opened Timer
  import opened Pomodoro

  /**
   * One-minute session on a task: configured to 1/5 minutes, started at t=1000 s, the
   * tick at t=1060 s completes it, credits 60 s to the task and one minute to the day,
   * and announces the five-minute break; completing the task then counts it among the
   * day's tasks, its minute on top of the session's.
   */
  method OneMinuteSession(text: string, tags: string, workEntry: string, breakEntry: string)
    returns (started: Toggle, last: Tick, spent: int, stats: DayStats)
    requires text != [] && IsStripped(text) && IsStripped(tags)
    requires ParseInt(workEntry) == Some(1) && ParseInt(breakEntry) == Some(5)
    ensures started == Started(Ticked(60.0, "01:00", None))
    ensures last == Ticked(0.0, "00:00", Some(5))
    ensures spent == 60
    ensures stats.completedCount == 1 && stats.sessionMinutes == 2
  {
    var app := Configured(text, tags, workEntry, breakEntry);
    var task := app.tasks[0];
    started, last := RunOneMinute(app, task);
    spent := app.tasks[0].timeSpent;
    app.CompleteTask(Some(1), DateTime(7, 36100.0));
    var done := task.(timeSpent := 60, completed := true, completedAt := Some(DateTime(7, 36100.0)));
    assert app.tasks == [done] && app.sessionTime == 1 && app.today == 7;
    assert CompletedToday([done], 7) == [done];
    assert SumMinutes([done]) == 1 by {
      assert [done][1..] == [];
    }
    stats := DayStatsOf(app.tasks, app.today, app.sessionTime);
  }

  /** A fresh app on day 7, set to 1/5 minutes, with one new task made active. */
  method Configured(text: string, tags: string, workEntry: string, breakEntry: string) returns (app: PomodoroApp)
    requires text != [] && IsStripped(text) && IsStripped(tags)
    requires ParseInt(workEntry) == Some(1) && ParseInt(breakEntry) == Some(5)
    ensures fresh(app) && app.Valid()
    ensures app.tasks == [Task(1, text, tags, false, 0, DateTime(7, 36000.0), None)]
    ensures app.currentTaskId == Some(1) && !app.timerRunning && app.elapsedTime == 0.0
    ensures app.workTime == 1 && app.breakTime == 5 && app.sessionTime == 0 && app.today == 7
  {
    app := new PomodoroApp(7);
    var applied := app.ApplyTimes(workEntry, breakEntry);
    AddActive(app, text, tags);
  }

  /** On an app with no tasks yet, adds one and makes it the active task. */
  method AddActive(app: PomodoroApp, text: string, tags: string)
    requires app.Valid() && app.tasks == [] && app.taskCounter == 0
    requires text != [] && IsStripped(text) && IsStripped(tags)
    modifies app
    ensures app.Valid()
    ensures app.tasks == [Task(1, text, tags, false, 0, DateTime(7, 36000.0), None)]
    ensures app.currentTaskId == Some(1)
    ensures app.workTime == old(app.workTime) && app.breakTime == old(app.breakTime)
    ensures app.timerRunning == old(app.timerRunning) && app.elapsedTime == old(app.elapsedTime)
    ensures app.sessionTime == old(app.sessionTime) && app.today == old(app.today)
  {
    var task := Task(1, text, tags, false, 0, DateTime(7, 36000.0), None);
    assert Strip(text) == text && Strip(tags) == tags by {
      StrippedIsFixpoint(text);
      StrippedIsFixpoint(tags);
    }
    var added := app.AddTask(text, tags, DateTime(7, 36000.0));
    assert added == Some(1) && app.tasks == [task];
    assert HasOpenTask(app.tasks, 1) by {
      assert app.tasks[0].id == 1 && !app.tasks[0].completed;
    }
    app.SetActiveTask(added);
  }

  /** Start at t=1000 s and tick at t=1060 s: a one-minute session runs to completion. */
  method RunOneMinute(app: PomodoroApp, task: Task) returns (started: Toggle, last: Tick)
    requires app.Valid() && app.tasks == [task] && task.id == 1 && task.timeSpent == 0
    requires app.currentTaskId == Some(1) && !app.timerRunning && app.elapsedTime == 0.0
    requires app.workTime == 1 && app.breakTime == 5 && app.sessionTime == 0
    modifies app
    ensures app.Valid() && app.today == old(app.today)
    ensures started == Started(Ticked(60.0, "01:00", None))
    ensures last == Ticked(0.0, "00:00", Some(5))
    ensures app.tasks == [task.(timeSpent := 60)] && app.sessionTime == 1 && app.currentTaskId == Some(1)
  {
    FirstTickOfOneMinute();
    SnapshotOfOnlyTask(task, 0);
    started := app.ToggleTimer(1000.0, 1000.0);
    assert app.tasks == [task] && app.timerRunning && app.startTime == Some(1000.0);
    LastTickOfOneMinute();
    SnapshotOfOnlyTask(task, 60);
    last := app.RunTimer(1060.0);
  }

  /** Starting with no active task is refused and leaves the timer idle. */
  method StartWithoutTask(text: string) returns (result: Toggle, running: bool)
    requires text != [] && IsStripped(text)
    ensures result == NoActiveTask && !running
  {
    var app := new PomodoroApp(7);
    StrippedIsFixpoint(text);
    var _ := app.AddTask(text, "", DateTime(7, 0.0));
    result := app.ToggleTimer(1000.0, 1000.0);
    running := app.timerRunning;
  }

  /** Removing the active task clears it, so the timer then refuses to start. */
  method RemoveActiveThenStart(text: string) returns (result: Toggle)
    requires text != [] && IsStripped(text)
    ensures result == NoActiveTask
  {
    var app := new PomodoroApp(7);
    AddActive(app, text, "");
    app.RemoveTask(Some(1));
    result := app.ToggleTimer(1000.0, 1000.0);
  }

  /**
   * Pause and resume with the default 25 minutes: 3 s run before the pause. Resuming much
   * later picks up at 3 s elapsed; its tick reads the clock half a second after the start
   * time was rebased, so it finds 3.5 s elapsed and shows 24:56.
   */
  method PauseAndResume(text: string) returns (paused: Toggle, elapsed: real, resumed: Toggle)
    requires text != [] && IsStripped(text)
    ensures paused == Paused && elapsed == 3.0
    ensures resumed == Started(Ticked(1496.5, "24:56", None))
  {
    var app := new PomodoroApp(7);
    AddActive(app, text, "");
    paused := RunThreeSecondsAndPause(app);
    elapsed := app.elapsedTime;
    ResumedHalfSecondLater();
    resumed := app.ToggleTimer(2000.0, 2000.5);
  }

  /** Start at t=1000 s, tick at t=1003 s, pause at t=1003.5 s. */
  method RunThreeSecondsAndPause(app: PomodoroApp) returns (paused: Toggle)
    requires app.Valid() && app.currentTaskId.Some? && !app.timerRunning
    requires app.workTime == 25 && app.elapsedTime == 0.0
    modifies app
    ensures app.Valid() && paused == Paused && !app.timerRunning && app.elapsedTime == 3.0
    ensures app.workTime == 25 && app.currentTaskId.Some?
  {
    FirstTickOfDefault();
    var _ := app.ToggleTimer(1000.0, 1000.0);
    assert app.timerRunning && app.startTime == Some(1000.0);
    ThreeSecondsIn();
    var _ := app.RunTimer(1003.0);
    paused := app.ToggleTimer(1003.5, 1003.5);
  }

  /**
   * `apply_times` takes a zero work length (the entry is not range-checked), and a
   * session of zero minutes then completes on the tick that starts it.
   */
  method ZeroLengthSession(text: string, workEntry: string, breakEntry: string)
    returns (applied: bool, started: Toggle, session: int)
    requires text != [] && IsStripped(text)
    requires ParseInt(workEntry) == Some(0) && ParseInt(breakEntry) == Some(5)
    ensures applied && started == Started(Ticked(0.0, "00:00", Some(5))) && session == 0
  {
    var app := new PomodoroApp(7);
    applied := app.ApplyTimes(workEntry, breakEntry);
    AddActive(app, text, "");
    ZeroLengthTick();
    started := app.ToggleTimer(1000.0, 1000.0);
    session := app.sessionTime;
  }

  /** A bad break entry is rejected, but the work entry before it has already been stored. */
  method BadBreakEntry(workEntry: string, breakEntry: string) returns (applied: bool, work: int, brk: int)
    requires ParseInt(workEntry) == Some(10) && ParseInt(breakEntry) == None
    ensures !applied && work == 10 && brk == 5
  {
    var app := new PomodoroApp(7);
    applied := app.ApplyTimes(workEntry, breakEntry);
    work := app.workTime;
    brk := app.breakTime;
  }

  /**
   * The scenarios with the entries as typed: `1` and `5` for a one-minute session, `0`
   * and `5` for a zero-length one, `10` and `five` for a rejected break length.
   */
  method TypedEntries() returns (spent: int, minutes: int, zeroApplied: bool, badApplied: bool, work: int)
    ensures spent == 60 && minutes == 2
    ensures zeroApplied
    ensures !badApplied && work == 10
  {
    EntryOne();
    EntryFive();
    var _, _, s, stats := OneMinuteSession("Write report", "work", "1", "5");
    spent, minutes := s, stats.sessionMinutes;
    EntryZero();
    var z, _, _ := ZeroLengthSession("Write report", "0", "5");
    zeroApplied := z;
    EntryTen();
    WordEntryRejected();
    var b, w, _ := BadBreakEntry("10", "five");
    badApplied, work := b, w;
  }

  /** The entry `1` reads as 1. */
  lemma EntryOne()
    ensures ParseInt("1") == Some(1)
  {
    ParseNatString("1");
  }

  /** The entry `5` reads as 5. */
  lemma EntryFive()
    ensures ParseInt("5") == Some(5)
  {
    ParseNatString("5");
  }

  /** The entry `0` reads as 0. */
  lemma EntryZero()
    ensures ParseInt("0") == Some(0)
  {
    ParseNatString("0");
  }

  /** The entry `10` reads as 10. */
  lemma EntryTen()
    ensures ParseInt("10") == Some(10)
  {
    ParseNatString("10");
  }

  /** A word typed as a break length does not read as a number. */
  lemma WordEntryRejected()
    ensures ParseInt("five") == None
  {
    TrimmedIsFixpoint("five", IntBlanks);
  }

  /** The first tick of a one-minute session: a full minute left, shown as 01:00, at a snapshot second. */
  lemma FirstTickOfOneMinute()
    ensures Remaining(1, 0.0) == 60.0 && ClockLabel(60.0) == "01:00"
    ensures SnapshotDue(0.0) && Trunc(0.0) == 0
  {
  }

  /** The tick one minute in: nothing left, shown as 00:00, 60 whole seconds. */
  lemma LastTickOfOneMinute()
    ensures Remaining(1, 60.0) == 0.0 && ClockLabel(0.0) == "00:00"
    ensures SnapshotDue(60.0) && Trunc(60.0) == 60
  {
  }

  /** A snapshot of a one-task list rewrites that task's time. */
  lemma SnapshotOfOnlyTask(t: Task, secs: int)
    ensures SetTimeSpent([t], t.id, secs) == [t.(timeSpent := secs)]
  {
  }

  /** The first tick of a default session: 25 minutes left, shown as 25:00. */
  lemma FirstTickOfDefault()
    ensures Remaining(25, 0.0) == 1500.0 && ClockLabel(1500.0) == "25:00"
    ensures SnapshotDue(0.0) && Trunc(0.0) == 0
  {
  }

  /** Three seconds into a default session: 24:57 left, not a snapshot second. */
  lemma ThreeSecondsIn()
    ensures Remaining(25, 3.0) == 1497.0 && ClockLabel(1497.0) == "24:57"
    ensures !SnapshotDue(3.0)
  {
  }

  /** Three and a half seconds into a default session: 24:56 left, not a snapshot second. */
  lemma ResumedHalfSecondLater()
    ensures Remaining(25, 3.0 + (2000.5 - 2000.0)) == 1496.5 && ClockLabel(1496.5) == "24:56"
    ensures !SnapshotDue(3.0 + (2000.5 - 2000.0))
  {
  }

  /** A zero-minute session has nothing left on its first tick. */
  lemma ZeroLengthTick()
    ensures Remaining(0, 0.0) == 0.0 && ClockLabel(0.0) == "00:00"
    ensures SnapshotDue(0.0) && Trunc(0.0) == 0
  {
  }
}
