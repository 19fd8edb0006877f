# Pomodoro timer core in Dafny

A model of the state behind `PomodoroApp` (a Tkinter Pomodoro timer with a task list and
daily statistics), without its widgets. The application object holds three things, and the
model keeps them in one class, `Pomodoro.PomodoroApp`, whose methods update its fields in
place as the Python handlers do:

- **the task list**: `tasks`, `task_counter` and `current_task_id`. Tasks are added,
  removed, edited, completed and made active.
- **the countdown**: `work_time`, `break_time`, `timer_running`, `start_time` and
  `elapsed_time`.
  - `toggle_timer` starts and pauses it.
  - `run_timer` is one tick, with a snapshot of the active task's time every tenth second.
  - `timer_complete` and `reset_timer` end a session.
  - `apply_times` reads new lengths from two text entries.
- **the day's figures**: `today` and `session_time`. `update_stats` derives the tasks
  completed today and the minutes worked. `update_clock` restarts the session total when
  the date changes.

The pure parts are functions with lemmas about them:

- the completed-today filter and minute sum;
- the labels `MM:SS`, `M:SS` and `WW:00`;
- the pieces of Python they rely on (`str.strip()`, `int(str)`, `str(int)`, `{:02d}` and
  `int(float)`).

Each label has a partner parser, `Timer.ParseMinSec`, and lemmas show that every label
reads back as the number it shows.

Files:

- `wrappers.dfy`: `Option`.
- `pytext.dfy`: Python's text and number handling.
- `tasks.dfy`: task records, the removal comprehension, the `next(...)` lookup and the
  time snapshot.
- `stats.dfy`: the `update_stats` derivation.
- `timer.dfy`: remaining time and labels.
- `app.dfy`: the class and its invariant.
- `scenarios.dfy`: whole sessions driven through the class.

How the inputs are modelled:

- Wall-clock time (`time.time()`) is a `real` parameter `now`. Starting the timer reads the
  clock twice, once to rebase the start time and once in the tick it runs; the second
  reading is `tickNow`.
- `datetime.now()` is a `DateTime` of an abstract day number and the seconds into that day.
- Today's date is that day number.
- Entry texts and dialog answers are string parameters.
- The task view's selection is an `Option<int>` id.

The class invariant `Valid()` states:

- task ids come from the counter and strictly increase along the list, so they are never
  reused;
- every description is non-empty;
- a task is completed exactly when it has a completion time;
- the active id names a task still open in the list;
- a running timer has a start time.

Every method keeps it.

Where the code does less than a reader might expect, the model follows the code:

- **`apply_times` (main.py:308-314)** only applies `int()`. It has no range check, so
  zero or negative lengths are accepted (`Scenarios.ZeroLengthSession`). It is not atomic
  either: `work_time` is assigned before the break entry is parsed, so a bad break entry
  leaves the new work length in place (`Scenarios.BadBreakEntry`).
- **`edit_task`, `complete_task` and `set_active_task` (main.py:259, 284, 305)** look the
  task up with `next(...)`, which raises rather than doing nothing when the id is absent.
  The id always comes from the task view, which lists exactly the open tasks, so the model
  requires the selected id to be an open task.
- **Starting the timer (main.py:318)** checks `current_task_id is None`, while
  `update_task_time` (main.py:352) checks `not current_task_id`, which is also true for id
  0. Both checks are modelled as written. Ids start at 1, so the difference cannot show.

## Model

| member | source | states |
|---|---|---|
| PyText.IsSpace | main.py:204 | the characters for which `str.isspace()` holds; `StripIsTrimmedSlice` shows `strip()` drops only these characters, the Maximal lemmas that it stops at the first other one, and `StripEmptyIffAllSpace` that a text of only these strips to empty |
| PyText.LeadingSpaceIsMaximal | main.py:204 | the characters a trim drops at the front are blanks of its set, and the next one is not |
| PyText.TrailingSpaceIsMaximal | main.py:204 | the characters a trim drops at the back are blanks of its set, and the one before them is not |
| PyText.Trim | main.py:310-311 | a trim leaves no outer blank of its set and never lengthens the text |
| PyText.TrimmedIsFixpoint | main.py:310-311 | text without outer blanks is its own trim |
| PyText.TrimIsSlice | main.py:310-311 | a trim, for either blank set, is the text minus a blank prefix and a blank suffix of that set, and nothing else |
| PyText.Strip | main.py:204 | `strip()` leaves no outer whitespace and never lengthens the text |
| PyText.StripIsTrimmedSlice | main.py:204 | `strip()` is the text minus a whitespace prefix and a whitespace suffix, and nothing else |
| PyText.StripEmptyIffAllSpace | main.py:204-205 | a description is rejected exactly when it is all whitespace (both directions) |
| PyText.StrippedIsFixpoint | main.py:204 | text without outer whitespace is its own `strip()` |
| PyText.StripIdempotent | main.py:265-266 | stripping a stored (already stripped) description again changes nothing |
| PyText.NatToString | main.py:230 | `str(n)` for `n >= 0` is a non-empty string of digits with no leading zero; one digit exactly below 10 |
| PyText.IntToString | main.py:230 | `str(n)` is never empty; `IntToStringRoundTrip` shows `int()` reads it back as `n`, and `NoColonInIntToString` that it holds no `:` |
| PyText.Format02 | main.py:339 | `{:02d}` is at least two characters wide, and exactly two for 0 to 99 |
| PyText.Trunc | main.py:338 | `int(x)` on a float truncates toward zero: the whole part of `x`, rounded toward zero |
| PyText.ParseInt | main.py:310-311 | `int()` trims `int()`-whitespace (a slice, by `TrimIsSlice`), then reads an optional sign and a `_`-separated digit group; it reads back every `str(n)` (`IntToStringRoundTrip`) and `{:02d}` rendering (`Format02RoundTrip`), reads plain digit strings as their value (`ParseNatString`), and rejects a leading U+001C that `strip()` would drop (`IntRejectsSeparatorBlank`) |
| PyText.NatToStringValue | main.py:230 | the digits `str(n)` prints denote `n` |
| PyText.ParseNatString | main.py:310-311 | `int()` of a string of ASCII digits is the decimal value of those digits |
| PyText.ParseNegative | main.py:310-311 | `int()` of `-` followed by digits is minus their value |
| PyText.IntToStringRoundTrip | main.py:230 | `int(str(n)) == n` for every integer, negative ones included |
| PyText.IntRejectsSeparatorBlank | main.py:310-311 | `strip()` removes a leading U+001C from a number, but `int()` rejects the same text |
| PyText.NegativeRoundTrip | main.py:230 | `int("-" + str(-n)) == n` for negative `n` |
| PyText.Format02RoundTrip | main.py:339 | `int(f"{n:02d}") == n` for every integer |
| PyText.NoColonInFormat02 | main.py:339 | no `{:02d}` rendering contains the `:` separating minutes from seconds |
| PyText.NoColonInIntToString | main.py:230 | no `str(n)` contains a `:` |
| TaskList.IncreasingPairs | main.py:210-222 | in a list built by `add_task`, every earlier id is below every later one |
| TaskList.PairsIncreasing | main.py:210-222 | pairwise increasing ids are the list-order property the invariant keeps |
| TaskList.WithoutId | main.py:245 | the removal comprehension keeps exactly the tasks with another id, in order, and keeps ids increasing |
| TaskList.WithoutAbsentId | main.py:245 | removing an id no task carries leaves the list as it is |
| TaskList.SetTimeSpent | main.py:355-356 | the snapshot changes only `time_spent`, only on the task with that id, and sets it to the given seconds |
| TaskList.SetTimeSpentIdempotent | main.py:342-343 | a second snapshot of the same second changes nothing |
| TaskList.ActiveSnapshot | main.py:352-356 | no active id (or id 0) leaves the list as it is; otherwise it is `SetTimeSpent` on the active id, which changes only that task's time; `SnapshotAtIndex` ties it to the in-place write and `ActiveSnapshotIdempotent` shows a repeat at the same second changes nothing |
| TaskList.IndexOf | main.py:259 | `next(...)` finds the first task with the id, which exists |
| TaskList.ActiveSnapshotIdempotent | main.py:343 | the completion snapshot at main.py:375 after the tick's own snapshot at main.py:343, at the same second, is that one snapshot |
| TaskList.OpenTaskIsUnique | main.py:355 | the active id is carried by exactly one task, and it is open |
| TaskList.OnlyPositionWithId | main.py:259 | the task `next(...)` finds is the only one with its id |
| TaskList.SnapshotAtIndex | main.py:355-356 | writing the found task's time is the snapshot of its id |
| Stats.CompletedOn | main.py:405 | a task counts for the day when it is completed and its completion time falls on that day; `CompletedToday` keeps exactly those tasks |
| Stats.CompletedToday | main.py:402-406 | the completed-today list holds exactly the completed tasks finished on the day, in list order, with ids still increasing |
| Stats.RowMinutesMatchTasks | main.py:409-410 | the minutes column of the completed view sums to the minutes in the session figure |
| Stats.SumMinutes | main.py:409-411 | the whole minutes (`time_spent // 60`) of a list summed; `SumMinutesAppend` and `SumMinutesNonNegative` state how it adds up, and `RowMinutesMatchTasks` that the rows show the same total |
| Stats.SessionMinutes | main.py:409-411 | `session_time` plus the minutes of the tasks completed on the day; `DayStatsOf` shows it as the figure, and `CompletionAddsWorkMinutes` shows a completion raises it by `work_time` |
| Stats.Rows | main.py:421-427 | each row holds its task's text, tags, whole minutes (`time_spent // 60`) and completion time, in task order |
| Stats.DayStatsOf | main.py:400-428 | the rows are those of the completed-today tasks; the count is their number; the minutes are `session_time` plus their whole minutes, which is also the rows' minute total; every row was completed on the day |
| Stats.RowsAreOfTheDay | main.py:421-427 | every row of the completed view carries a completion time on the current day |
| Stats.SumMinutesAppend | main.py:409-411 | the minute sum over two lists is the sum of their minute sums |
| Stats.SumMinutesNonNegative | main.py:409-411 | with no negative times, the minutes added to `session_time` are not negative |
| Stats.CompletedTodayAppend | main.py:402-406 | filtering a concatenation is concatenating the filtered parts |
| Stats.AddingOpenTaskKeepsStats | main.py:212-222 | appending a new task leaves the completed-today list and the minutes shown unchanged |
| Stats.SnapshotKeepsStats | main.py:356 | a time snapshot of an open task leaves the completed-today list unchanged |
| Stats.RemovalCommutesWithStats | main.py:245 | removing a task and then filtering is the same as filtering and then removing it |
| Stats.CompletionAddsWorkMinutes | main.py:375-378 | a session's completion raises the minutes shown by exactly `work_time` |
| Timer.Remaining | main.py:336 | the remaining time is never negative; it is zero exactly when `elapsed >= work*60`, otherwise `elapsed + remaining == work*60` |
| Timer.SnapshotDue | main.py:342 | a tick snapshots exactly when the whole elapsed seconds are a multiple of ten; the tick lemmas `FirstTickOfOneMinute`, `ThreeSecondsIn` and `ResumedHalfSecondLater` pin it at 0, 3 and 3.5 s |
| Timer.ClockLabel | main.py:338-339 | the `MM:SS` label has at least five characters, with `:` third from the end |
| Timer.TaskTimeLabel | main.py:230 | the `M:SS` label has at least four characters, with `:` third from the end |
| Timer.ResetLabel | main.py:398 | `{work_time:02d}:00`; `ResetLabelRoundTrip` shows it reads back as a full session of `work_time` minutes |
| Timer.MinSecRoundTrip | main.py:339 | a colon-free minutes part, `:` and a seconds part in 0..59 read back as `minutes*60 + seconds` |
| Timer.ClockLabelRoundTrip | main.py:338-339 | the `MM:SS` label reads back as the whole seconds remaining |
| Timer.TaskTimeLabelRoundTrip | main.py:230 | the task-time label reads back as the task's seconds, negative ones included |
| Timer.ResetLabelRoundTrip | main.py:398 | the reset label reads back as a full session of `work_time` minutes |
| Pomodoro.PomodoroApp.constructor | main.py:14-23 | 25/5 minutes, idle, nothing elapsed, no active task, no tasks, counter at 0, session at 0, the given day |
| Pomodoro.PomodoroApp.AddTask | main.py:203-222 | text that strips to empty changes nothing; otherwise the counter goes up by one, to an id never issued before, above every id in the list, and the stripped task is appended open with no time spent |
| Pomodoro.PomodoroApp.RemoveTask | main.py:237-249 | the list loses exactly the tasks with the selected id, the rest kept in order; the active id is cleared exactly when it was the removed one |
| Pomodoro.PomodoroApp.EditTask | main.py:252-266 | when the answer strips to non-empty, the selected task's text becomes the stripped answer and nothing else changes; otherwise nothing changes |
| Pomodoro.PomodoroApp.CompleteTask | main.py:277-294 | the selected task alone becomes completed at `now`; the active id is cleared exactly when it was that task; the timer fields are untouched |
| Pomodoro.PomodoroApp.SetActiveTask | main.py:296-306 | the selected id becomes the active id; nothing else changes |
| Pomodoro.PomodoroApp.ApplyTimes | main.py:308-314 | accepted exactly when both entries parse; the work length is stored whenever the work entry parses; the break length and the reset only when both parse |
| Pomodoro.PomodoroApp.ResetTimer | main.py:394-398 | the timer is idle with nothing elapsed and shows the reset label; the active task and lengths stay |
| Pomodoro.PomodoroApp.UpdateTaskTime | main.py:351-356 | the active task's time becomes `int(elapsed_time)` and no other task changes; nothing happens without an active task |
| Pomodoro.PomodoroApp.TimerComplete | main.py:373-398 | a final snapshot, `session_time` raised by exactly `work_time` (and so the minutes shown), the timer idle with nothing elapsed, the break length announced, and the reset label `{work_time:02d}:00` left on show |
| Pomodoro.PomodoroApp.FinishSession | main.py:343-346 | a completing tick leaves the list as one snapshot of the list it started with, though it may snapshot twice |
| Pomodoro.PomodoroApp.RunTimer | main.py:330-349 | a stopped timer changes nothing; otherwise elapsed time is recomputed from the start time, the tick snapshots on every tenth second, and a tick that reaches zero completes the session |
| Pomodoro.PomodoroApp.ToggleTimer | main.py:316-335 | pausing only stops the timer; starting without an active task changes nothing; starting rebases the start time to `now - elapsed_time`, so the tick run at once, reading the clock again at `tickNow`, finds the paused elapsed time plus `tickNow - now` |
| Pomodoro.PomodoroApp.UpdateClock | main.py:430-435 | a new date is tracked and the session total restarts, and tasks completed on the previous day drop out of today's list; the same date changes nothing |
| Pomodoro.OpenTaskSurvivesRemoval | main.py:245-249 | removing another task keeps the active task in the list and open |
| Pomodoro.ReplaceKeepsTasksOk | main.py:266 | rewriting one task in place without changing its id keeps ids increasing and tasks storable |
| Pomodoro.ReplaceKeepsOpen | main.py:286-287 | an open task stays open when a different task is rewritten |
| Pomodoro.SnapshotKeepsTasks | main.py:355-356 | the snapshot written in place keeps the list invariant, keeps the active task open, and is the snapshot of the active id |
| Pomodoro.AppendKeepsTasksOk | main.py:210-222 | appending a task with a fresh id above all present ids keeps the list invariant |
| Pomodoro.AppendKeepsOpen | main.py:222 | appending a task keeps the active task open |
| Pomodoro.RemovalKeepsTasksOk | main.py:245 | the removal comprehension keeps the list invariant |
| Scenarios.OneMinuteSession | main.py:316-392 | a one-minute session started at 1000 s shows 01:00; the tick at 1060 s shows 00:00, credits 60 s to the task and announces the 5-minute break; completing the task then shows one task and two minutes |
| Scenarios.Configured | main.py:203-222 | entries reading 1 and 5 followed by one added task give a configured app with that task active |
| Scenarios.AddActive | main.py:203-222 | adding a stripped description to an empty app, then selecting it, gives a one-task list with task 1 active |
| Scenarios.RunOneMinute | main.py:316-349 | start at 1000 s and tick at 1060 s: the session completes, 60 s are credited, `session_time` becomes 1 |
| Scenarios.StartWithoutTask | main.py:316-320 | starting with tasks but none selected is refused, and the timer stays idle |
| Scenarios.RemoveActiveThenStart | main.py:248-249 | after the active task is removed the timer refuses to start |
| Scenarios.PauseAndResume | main.py:316-339 | paused after 3.5 s with 3 s recorded; a resume much later whose tick reads the clock half a second after the rebase shows 24:56 |
| Scenarios.RunThreeSecondsAndPause | main.py:316-343 | start at 1000 s, tick at 1003 s, pause at 1003.5 s: 3 s elapsed, idle |
| Scenarios.ZeroLengthSession | main.py:308-347 | a work entry reading 0 is accepted, and the first tick completes a zero-minute session |
| Scenarios.BadBreakEntry | main.py:308-314 | a work entry reading 10 with a bad break entry is rejected, but the work length is already 10 |
| Scenarios.TypedEntries | main.py:308-314 | with the entries typed as `1`/`5`, `0`/`5` and `10`/`five`, the one-minute session credits 60 s and shows two minutes, the zero-length entries are accepted, and the bad break entry is rejected with the work length already 10 |
| Scenarios.EntryOne | main.py:310 | the entry `1` reads as 1 |
| Scenarios.EntryFive | main.py:311 | the entry `5` reads as 5 |
| Scenarios.EntryZero | main.py:310 | the entry `0` reads as 0 |
| Scenarios.EntryTen | main.py:310 | the entry `10` reads as 10 |
| Scenarios.WordEntryRejected | main.py:311 | the entry `five` does not read as a number |
| Scenarios.FirstTickOfOneMinute | main.py:336-342 | with a one-minute session and nothing elapsed, 60 s remain, shown as 01:00, and a snapshot is due |
| Scenarios.LastTickOfOneMinute | main.py:336-345 | one minute in, nothing remains, shown as 00:00, and a snapshot is due |
| Scenarios.SnapshotOfOnlyTask | main.py:355-356 | a snapshot of a one-task list rewrites that task's time |
| Scenarios.FirstTickOfDefault | main.py:336-342 | a default session with nothing elapsed shows 25:00 |
| Scenarios.ThreeSecondsIn | main.py:336-342 | three seconds into a default session it shows 24:57, and no snapshot is due |
| Scenarios.ResumedHalfSecondLater | main.py:334-342 | 3.5 s into a default session, 1496.5 s remain, shown as 24:56, and no snapshot is due |
| Scenarios.ZeroLengthTick | main.py:336-345 | a zero-minute session has nothing left on its first tick |

## Left out

- Widgets and rendering: building the three tabs, the task and completed views, the
  labels, and the rows rewritten after edits and snapshots (main.py:44-199, 223-235, 267-275,
  289, 358-371, 413-428). `Stats.DayStatsOf` gives the figures and rows the view shows.
- Dialogs and sound (`messagebox`, `simpledialog`, `root.bell()`). The edit dialog's
  answer is an `Option<string>` parameter, and the alarm's break length is returned.
- `root.after` rescheduling and `mainloop` (main.py:349, 438-444). One tick is one call
  of `RunTimer(now)`, and `ToggleTimer` runs the first tick of a start itself.
- Two tick chains after a pause and a quick resume. The earlier chain's pending tick is
  not modelled.
- `time.time()` and `datetime.now()`. Both are parameters, and times are `real` rather
  than IEEE doubles, so no rounding error is modelled.
- `strftime("%H:%M")` for completion times (main.py:423) and the date label
  (main.py:158): the rows carry the completion time itself.
- Rebuilding the stats tab after a date change (main.py:436).
- `int()` on non-ASCII digits (Python accepts, say, Arabic-Indic digits). `PyText.ParseInt`
  accepts ASCII digits only, with surrounding `int()` whitespace (`str.isspace()` minus
  U+001C to U+001F), an optional sign and `_` separators.
- PyText.ParseInt: does not model CPython's limit on the length of integer strings (by
  default, more than 4300 digits raise `ValueError`). The model reads digit strings of any
  length, and `str()` of any integer.
- Pomodoro.PomodoroApp.EditTask: requires the selected id to be an open task. The code
  only needs it to be present, but the task view lists only open tasks.
- Pomodoro.PomodoroApp.CompleteTask: requires the selected id to be an open task.
  Completing a completed task again would overwrite its completion time, but the task view
  never offers one.
- Pomodoro.PomodoroApp.SetActiveTask: requires the selected id to be an open task, for
  the same reason.
- Pomodoro.PomodoroApp.Valid: descriptions being free of outer whitespace is not part of
  the invariant, to keep the proofs small. `AddTask` and `EditTask` still state that what
  they store is the stripped text.
