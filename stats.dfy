/**
 * The derivation in `update_stats`: the tasks completed today, in list order, and the
 * minutes worked today, `session_time + sum(t["time_spent"] // 60 ...)`.
 */
module Stats {
  import opened Wrappers
  import opened TaskList

  /** The filter of `update_stats`: completed, with a completion time on the given day. */
  predicate CompletedOn(t: Task, day: int) {
    t.completed && t.completedAt.Some? && t.completedAt.value.day == day
  }

  /** `[t for t in tasks if t["completed"] and t["completed_at"].date() == today]`. */
  function CompletedToday(ts: seq<Task>, day: int): (r: seq<Task>)
    ensures forall t :: t in r <==> t in ts && CompletedOn(t, day)
    ensures |r| <= |ts|
    ensures IdsIncreasing(ts) ==> IdsIncreasing(r)
  {
    if ts == [] then []
    else if CompletedOn(ts[0], day) then
      var rest := CompletedToday(ts[1..], day);
      assert IdsIncreasing(ts) ==> forall j :: 0 <= j < |rest| ==> ts[0].id < rest[j].id by {
        if IdsIncreasing(ts) {
          forall j | 0 <= j < |rest| ensures ts[0].id < rest[j].id {
            LaterElement(ts, rest[j]);
          }
        }
      }
      assert ([ts[0]] + rest)[1..] == rest;
      [ts[0]] + rest
    else CompletedToday(ts[1..], day)
  }

  /** `sum(t["time_spent"] // 60 for t in ts)`; Python's `//` by 60 is Dafny's `/` by 60. */
  function SumMinutes(ts: seq<Task>): int {
    if ts == [] then 0 else ts[0].timeSpent / 60 + SumMinutes(ts[1..])
  }

  /** The "Tempo Total Trabalhado" figure: finished sessions plus completed tasks' minutes. */
  function SessionMinutes(sessionTime: int, ts: seq<Task>, day: int): int {
    sessionTime + SumMinutes(CompletedToday(ts, day))
  }

  /** One row of the completed-tasks view (the `HH:MM` rendering is left to the view). */
  datatype StatsRow = StatsRow(text: string, tags: string, minutes: int, completedAt: Option<DateTime>)

  /** What `update_stats` shows: the count, the minutes and the rows. */
  datatype DayStats = DayStats(completedCount: nat, sessionMinutes: int, rows: seq<StatsRow>)

  /** The completed view's rows: each task's text, tags, whole minutes and completion time. */
  function Rows(ts: seq<Task>): (rows: seq<StatsRow>)
    ensures |rows| == |ts|
    ensures forall i :: 0 <= i < |ts| ==>
      rows[i] == StatsRow(ts[i].text, ts[i].tags, ts[i].timeSpent / 60, ts[i].completedAt)
  {
    if ts == [] then []
    else [StatsRow(ts[0].text, ts[0].tags, ts[0].timeSpent / 60, ts[0].completedAt)] + Rows(ts[1..])
  }

  function RowMinutes(rows: seq<StatsRow>): int {
    if rows == [] then 0 else rows[0].minutes + RowMinutes(rows[1..])
  }

  lemma {:induction false} RowMinutesMatchTasks(ts: seq<Task>)
    ensures RowMinutes(Rows(ts)) == SumMinutes(ts)
  {
    if ts != [] {
      RowMinutesMatchTasks(ts[1..]);
    }
  }

  /**
   * `update_stats`: the count label is the number of rows shown, and the minutes label is
   * the finished sessions plus the minutes column of those rows.
   */
  function DayStatsOf(ts: seq<Task>, day: int, sessionTime: int): (s: DayStats)
    ensures s.rows == Rows(CompletedToday(ts, day))
    ensures s.completedCount == |s.rows| == |CompletedToday(ts, day)|
    ensures s.sessionMinutes == SessionMinutes(sessionTime, ts, day) == sessionTime + RowMinutes(s.rows)
    ensures forall i :: 0 <= i < |s.rows| ==> s.rows[i].completedAt.Some? && s.rows[i].completedAt.value.day == day
  {
    var done := CompletedToday(ts, day);
    RowMinutesMatchTasks(done);
    RowsAreOfTheDay(done, day);
    DayStats(|done|, SessionMinutes(sessionTime, ts, day), Rows(done))
  }

  lemma {:induction false} RowsAreOfTheDay(ts: seq<Task>, day: int)
    requires forall t :: t in ts ==> CompletedOn(t, day)
    ensures forall i :: 0 <= i < |ts| ==> Rows(ts)[i].completedAt.Some? && Rows(ts)[i].completedAt.value.day == day
  {
    if ts != [] {
      RowsAreOfTheDay(ts[1..], day);
      assert ts[0] in ts;
      forall i | 0 < i < |ts| ensures Rows(ts)[i] == Rows(ts[1..])[i - 1] {}
    }
  }

  lemma {:induction false} SumMinutesAppend(a: seq<Task>, b: seq<Task>)
    ensures SumMinutes(a + b) == SumMinutes(a) + SumMinutes(b)
  {
    if a != [] {
      assert (a + b)[0] == a[0] && (a + b)[1..] == a[1..] + b;
      SumMinutesAppend(a[1..], b);
    } else {
      assert a + b == b;
    }
  }

  /** With no negative time spent, the minutes of completed tasks are never negative. */
  lemma {:induction false} SumMinutesNonNegative(ts: seq<Task>)
    requires forall t :: t in ts ==> t.timeSpent >= 0
    ensures SumMinutes(ts) >= 0
  {
    if ts != [] {
      assert ts[0] in ts;
      SumMinutesNonNegative(ts[1..]);
    }
  }

  lemma {:induction false} CompletedTodayAppend(a: seq<Task>, b: seq<Task>, day: int)
    ensures CompletedToday(a + b, day) == CompletedToday(a, day) + CompletedToday(b, day)
  {
    if a != [] {
      assert (a + b)[0] == a[0] && (a + b)[1..] == a[1..] + b;
      CompletedTodayAppend(a[1..], b, day);
    } else {
      assert a + b == b;
    }
  }

  /** Appending a task that is not completed (what `add_task` does) leaves the day's figures alone. */
  lemma AddingOpenTaskKeepsStats(ts: seq<Task>, t: Task, day: int, sessionTime: int)
    requires !t.completed
    ensures CompletedToday(ts + [t], day) == CompletedToday(ts, day)
    ensures SessionMinutes(sessionTime, ts + [t], day) == SessionMinutes(sessionTime, ts, day)
  {
    CompletedTodayAppend(ts, [t], day);
  }

  /** A time snapshot of a task that is not completed leaves the completed-today list alone. */
  lemma {:induction false} SnapshotKeepsStats(ts: seq<Task>, id: int, secs: int, day: int)
    requires forall k :: 0 <= k < |ts| && ts[k].id == id ==> !ts[k].completed
    ensures CompletedToday(SetTimeSpent(ts, id, secs), day) == CompletedToday(ts, day)
  {
    if ts != [] {
      var r := SetTimeSpent(ts, id, secs);
      assert r[1..] == SetTimeSpent(ts[1..], id, secs);
      SnapshotKeepsStats(ts[1..], id, secs, day);
    }
  }

  /** Removing a task and then filtering is filtering and then removing it. */
  lemma {:induction false} RemovalCommutesWithStats(ts: seq<Task>, id: int, day: int)
    ensures CompletedToday(WithoutId(ts, id), day) == WithoutId(CompletedToday(ts, day), id)
  {
    if ts != [] {
      RemovalCommutesWithStats(ts[1..], id, day);
    }
  }

  /**
   * `timer_complete` in figures: the active task's snapshot moves no task in or out of the
   * day's completed list, so the minutes shown grow by exactly the session length added.
   */
  lemma CompletionAddsWorkMinutes(ts: seq<Task>, active: Option<int>, secs: int, sessionTime: int, workTime: int, day: int)
    requires IdsIncreasing(ts)
    requires active.Some? && active.value != 0 ==> HasOpenTask(ts, active.value)
    ensures SessionMinutes(sessionTime + workTime, ActiveSnapshot(ts, active, secs), day)
         == SessionMinutes(sessionTime, ts, day) + workTime
  {
    if active.Some? && active.value != 0 {
      OpenTaskIsUnique(ts, active.value);
      SnapshotKeepsStats(ts, active.value, secs, day);
    }
  }
}
