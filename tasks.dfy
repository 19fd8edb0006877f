/**
 * The task records of `PomodoroApp` and the list operations its methods perform on
 * `self.tasks`: the comprehension that removes a task, the `next(...)` lookup, and the
 * time-spent snapshot written by the timer.
 */
module TaskList {
  import opened Wrappers

  /** A `datetime.now()` reading: an abstract day number and the seconds into that day. */
  datatype DateTime = DateTime(day: int, secondOfDay: real)

  /** One task dictionary of `self.tasks`. */
  datatype Task = Task(
    id: int,
    text: string,
    tags: string,
    completed: bool,
    timeSpent: int,
    created: DateTime,
    completedAt: Option<DateTime>)

  /**
   * Ids strictly increase in list order (so they are also unique): the first id is below
   * every later one, and so on down the list. `IncreasingPairs` states it pairwise.
   */
  predicate IdsIncreasing(ts: seq<Task>) {
    ts == [] || ((forall k :: 1 <= k < |ts| ==> ts[0].id < ts[k].id) && IdsIncreasing(ts[1..]))
  }

  /** An increasing list has every earlier id below every later one. */
  lemma {:induction false} IncreasingPairs(ts: seq<Task>)
    requires IdsIncreasing(ts)
    ensures forall i, j :: 0 <= i < j < |ts| ==> ts[i].id < ts[j].id
  {
    if ts != [] {
      IncreasingPairs(ts[1..]);
      forall i, j | 0 <= i < j < |ts| ensures ts[i].id < ts[j].id {
        if i > 0 {
          assert ts[i] == ts[1..][i - 1] && ts[j] == ts[1..][j - 1];
        }
      }
    }
  }

  /** Conversely, pairwise increasing ids make an increasing list. */
  lemma {:induction false} PairsIncreasing(ts: seq<Task>)
    requires forall i, j :: 0 <= i < j < |ts| ==> ts[i].id < ts[j].id
    ensures IdsIncreasing(ts)
  {
    if ts != [] {
      var rest := ts[1..];
      forall i, j | 0 <= i < j < |rest| ensures rest[i].id < rest[j].id {
        assert rest[i] == ts[i + 1] && rest[j] == ts[j + 1];
      }
      PairsIncreasing(rest);
    }
  }

  predicate HasId(ts: seq<Task>, id: int) {
    exists i :: 0 <= i < |ts| && ts[i].id == id
  }

  /** The ids that can be selected in the task view: those of tasks not yet completed. */
  predicate HasOpenTask(ts: seq<Task>, id: int) {
    exists i :: 0 <= i < |ts| && ts[i].id == id && !ts[i].completed
  }

  /** A task is completed exactly when it carries a completion time. */
  predicate WellFormed(t: Task) {
    t.completed <==> t.completedAt.Some?
  }

  /** `[t for t in tasks if t["id"] != task_id]`. */
  function WithoutId(ts: seq<Task>, id: int): (r: seq<Task>)
    ensures forall t :: t in r <==> t in ts && t.id != id
    ensures |r| <= |ts|
    ensures IdsIncreasing(ts) ==> IdsIncreasing(r)
  {
    if ts == [] then []
    else if ts[0].id != id then
      var rest := WithoutId(ts[1..], id);
      assert IdsIncreasing(ts) ==> forall j :: 0 <= j < |rest| ==> ts[0].id < rest[j].id by {
        if IdsIncreasing(ts) {
          forall j | 0 <= j < |rest| ensures ts[0].id < rest[j].id {
            LaterElement(ts, rest[j]);
          }
        }
      }
      assert ([ts[0]] + rest)[1..] == rest;
      [ts[0]] + rest
    else WithoutId(ts[1..], id)
  }

  /** Every task after the head of an increasing list has a larger id than the head. */
  lemma LaterElement(ts: seq<Task>, t: Task)
    requires |ts| > 0 && IdsIncreasing(ts) && t in ts[1..]
    ensures ts[0].id < t.id
  {
    var k :| 0 <= k < |ts[1..]| && ts[1..][k] == t;
    assert ts[k + 1] == t;
  }

  /** Removing an id that no task carries leaves the list as it is. */
  lemma {:induction false} WithoutAbsentId(ts: seq<Task>, id: int)
    requires !HasId(ts, id)
    ensures WithoutId(ts, id) == ts
  {
    if ts != [] {
      WithoutAbsentId(ts[1..], id);
    }
  }

  /**
   * The snapshot `task["time_spent"] = secs` on the task with the given id; with unique
   * ids this is the task `next(...)` finds.
   */
  function SetTimeSpent(ts: seq<Task>, id: int, secs: int): (r: seq<Task>)
    ensures |r| == |ts|
    ensures forall k :: 0 <= k < |ts| ==> r[k] == ts[k].(timeSpent := r[k].timeSpent)
    ensures forall k :: 0 <= k < |ts| && ts[k].id == id ==> r[k].timeSpent == secs
    ensures forall k :: 0 <= k < |ts| && ts[k].id != id ==> r[k] == ts[k]
  {
    if ts == [] then []
    else [if ts[0].id == id then ts[0].(timeSpent := secs) else ts[0]] + SetTimeSpent(ts[1..], id, secs)
  }

  /** Taking the same snapshot twice is taking it once. */
  lemma SetTimeSpentIdempotent(ts: seq<Task>, id: int, secs: int)
    ensures SetTimeSpent(SetTimeSpent(ts, id, secs), id, secs) == SetTimeSpent(ts, id, secs)
  {
    var once := SetTimeSpent(ts, id, secs);
    var twice := SetTimeSpent(once, id, secs);
    assert forall k :: 0 <= k < |ts| ==> twice[k] == once[k];
  }

  /**
   * `next(t for t in tasks if t["id"] == task_id)`: the index of the first task with
   * the id. The caller guarantees such a task exists (the id comes from the task view).
   */
  method IndexOf(ts: seq<Task>, id: int) returns (i: nat)
    requires HasId(ts, id)
    ensures i < |ts| && ts[i].id == id
    ensures forall k :: 0 <= k < i ==> ts[k].id != id
  {
    i := 0;
    ghost var j :| 0 <= j < |ts| && ts[j].id == id;
    while ts[i].id != id
      invariant i <= j
      invariant forall k :: 0 <= k < i ==> ts[k].id != id
      decreases j - i
    {
      i := i + 1;
    }
  }

  /**
   * `update_task_time`: nothing when there is no active task (`not self.current_task_id`
   * also holds for id 0), otherwise the snapshot of that task's time.
   */
  function ActiveSnapshot(ts: seq<Task>, active: Option<int>, secs: int): seq<Task> {
    if active.None? || active.value == 0 then ts else SetTimeSpent(ts, active.value, secs)
  }

  lemma ActiveSnapshotIdempotent(ts: seq<Task>, active: Option<int>, secs: int)
    ensures ActiveSnapshot(ActiveSnapshot(ts, active, secs), active, secs) == ActiveSnapshot(ts, active, secs)
  {
    if active.Some? && active.value != 0 {
      SetTimeSpentIdempotent(ts, active.value, secs);
    }
  }

  /** In a list with increasing ids, the open task with a given id is the only task with it. */
  lemma OpenTaskIsUnique(ts: seq<Task>, id: int)
    requires IdsIncreasing(ts) && HasOpenTask(ts, id)
    ensures HasId(ts, id)
    ensures forall k, l :: 0 <= k < |ts| && 0 <= l < |ts| && ts[k].id == id && ts[l].id == id ==> k == l
    ensures forall k :: 0 <= k < |ts| && ts[k].id == id ==> !ts[k].completed
  {
    var i :| 0 <= i < |ts| && ts[i].id == id && !ts[i].completed;
    IncreasingPairs(ts);
    forall k | 0 <= k < |ts| && ts[k].id == id ensures !ts[k].completed {
      assert k == i;
    }
  }

  /** In an increasing list no other position carries the id found at position `i`. */
  lemma OnlyPositionWithId(ts: seq<Task>, i: nat)
    requires IdsIncreasing(ts) && i < |ts|
    ensures forall k :: 0 <= k < |ts| && k != i ==> ts[k].id != ts[i].id
  {
    IncreasingPairs(ts);
  }

  /** Writing the task found by `IndexOf` is the snapshot of that id. */
  lemma SnapshotAtIndex(ts: seq<Task>, i: nat, secs: int)
    requires IdsIncreasing(ts) && i < |ts|
    ensures ts[i := ts[i].(timeSpent := secs)] == SetTimeSpent(ts, ts[i].id, secs)
  {
    var r := SetTimeSpent(ts, ts[i].id, secs);
    OnlyPositionWithId(ts, i);
  }
}
