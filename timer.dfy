/**
 * The arithmetic of `run_timer` and the labels the timer shows: the remaining time,
 * the ten-second snapshot condition, `MM:SS`, the task-time `M:SS` and the reset label.
 */
module Timer {
  import opened Wrappers
  import opened PyText

  /** `max(work_time * 60 - elapsed, 0)`: seconds left of a `workMinutes` session. */
  function Remaining(workMinutes: int, elapsed: real): (r: real)
    ensures r >= 0.0
    ensures r == 0.0 <==> elapsed >= (workMinutes * 60) as real
    ensures r > 0.0 ==> elapsed + r == (workMinutes * 60) as real
  {
    var left := (workMinutes * 60) as real - elapsed;
    if left > 0.0 then left else 0.0
  }

  /** `int(self.elapsed_time) % 10 == 0`: the tick takes a snapshot of the active task's time. */
  predicate SnapshotDue(elapsed: real) {
    Trunc(elapsed) % 10 == 0
  }

  /** `mins, secs = divmod(int(remaining), 60)` rendered as `f"{mins:02d}:{secs:02d}"`. */
  function ClockLabel(remaining: real): (shown: string)
    ensures |shown| >= 5 && shown[|shown| - 3] == ':'
  {
    var whole := Trunc(remaining);
    Format02(whole / 60) + ":" + Format02(whole % 60)
  }

  /** `f"{task['time_spent']//60}:{task['time_spent']%60:02d}"`. */
  function TaskTimeLabel(secs: int): (shown: string)
    ensures |shown| >= 4 && shown[|shown| - 3] == ':'
  {
    IntToString(secs / 60) + ":" + Format02(secs % 60)
  }

  /** `f"{self.work_time:02d}:00"`. */
  function ResetLabel(workMinutes: int): string {
    Format02(workMinutes) + ":00"
  }

  /** Position of the first `:` in `s`, or `|s|` when there is none. */
  function ColonIndex(s: string): (k: nat)
    ensures k <= |s|
    ensures forall i :: 0 <= i < k ==> s[i] != ':'
    ensures k < |s| ==> s[k] == ':'
  {
    if s == [] || s[0] == ':' then 0 else 1 + ColonIndex(s[1..])
  }

  /**
   * Reads a `minutes:seconds` label back into a number of seconds; the inverse of the
   * three labels above.
   */
  function ParseMinSec(s: string): Option<int> {
    var k := ColonIndex(s);
    if k == |s| then None else ParseAroundColon(s, k)
  }

  /** Minutes before position `k`, seconds (0 to 59) after it. */
  function ParseAroundColon(s: string, k: nat): Option<int>
    requires k < |s|
  {
    var minutes := ParseInt(s[..k]);
    var seconds := ParseInt(s[k + 1..]);
    if minutes.Some? && seconds.Some? && 0 <= seconds.value < 60 then
      Some(minutes.value * 60 + seconds.value)
    else None
  }

  lemma ParseAroundColonOf(s: string, k: nat, a: string, b: string, m: int, sec: int, total: int)
    requires k < |s| && s[..k] == a && s[k + 1..] == b
    requires ParseInt(a) == Some(m) && ParseInt(b) == Some(sec) && 0 <= sec < 60
    requires total == m * 60 + sec
    ensures ParseAroundColon(s, k) == Some(total)
  {
  }

  lemma {:induction false} ColonAfterPrefix(a: string, b: string)
    requires ':' !in a
    ensures ColonIndex(a + ":" + b) == |a|
  {
    if a != [] {
      assert (a + ":" + b)[0] == a[0];
      assert (a + ":" + b)[1..] == a[1..] + ":" + b;
      ColonAfterPrefix(a[1..], b);
    } else {
      assert (a + ":" + b)[0] == ':';
    }
  }

  lemma MinSecRoundTrip(a: string, b: string, m: int, sec: int, total: int)
    requires ':' !in a && ParseInt(a) == Some(m) && ParseInt(b) == Some(sec) && 0 <= sec < 60
    requires total == m * 60 + sec
    ensures ParseMinSec(a + ":" + b) == Some(total)
  {
    var s := a + ":" + b;
    ColonAfterPrefix(a, b);
    assert s[..|a|] == a && s[|a| + 1..] == b;
    ParseAroundColonOf(s, |a|, a, b, m, sec, total);
  }

  /** The `MM:SS` label reads back as the whole seconds remaining. */
  lemma ClockLabelRoundTrip(remaining: real)
    ensures ParseMinSec(ClockLabel(remaining)) == Some(Trunc(remaining))
  {
    var whole := Trunc(remaining);
    var m, sec := whole / 60, whole % 60;
    var a, b := Format02(m), Format02(sec);
    assert ParseInt(a) == Some(m) by { Format02RoundTrip(m); }
    assert ParseInt(b) == Some(sec) by { Format02RoundTrip(sec); }
    assert ':' !in a by { NoColonInFormat02(m); }
    MinSecRoundTrip(a, b, m, sec, whole);
    assert ClockLabel(remaining) == a + ":" + b;
  }

  /** The task-time label reads back as the task's seconds, negative ones included. */
  lemma TaskTimeLabelRoundTrip(secs: int)
    ensures ParseMinSec(TaskTimeLabel(secs)) == Some(secs)
  {
    var m, sec := secs / 60, secs % 60;
    var a, b := IntToString(m), Format02(sec);
    IntToStringRoundTrip(m);
    Format02RoundTrip(sec);
    NoColonInIntToString(m);
    MinSecRoundTrip(a, b, m, sec, secs);
    assert TaskTimeLabel(secs) == a + ":" + b;
  }

  /** The reset label reads back as a full session of `workMinutes`. */
  lemma ResetLabelRoundTrip(workMinutes: int)
    ensures ParseMinSec(ResetLabel(workMinutes)) == Some(workMinutes * 60)
  {
    var a := Format02(workMinutes);
    assert ParseMinSec(a + ":" + "00") == Some(workMinutes * 60) by {
      Format02RoundTrip(workMinutes);
      NoColonInFormat02(workMinutes);
      ZeroSecondsParse();
      MinSecRoundTrip(a, "00", workMinutes, 0, workMinutes * 60);
    }
    assert ResetLabel(workMinutes) == a + ":" + "00";
  }

  /** `int("00") == 0`. */
  lemma ZeroSecondsParse()
    ensures ParseInt("00") == Some(0)
  {
    ParseNatString("00");
  }
}
