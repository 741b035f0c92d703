/** The fetch progress monitor: a text progress display for jgit operations that
    rewrites one line per task (`\r<task>: <progress>`), throttled for the first half
    second of a task, and only when the shown percentage changes. */
module Progress {
  import opened Wrappers
  import opened Text
  import opened JavaInt

  /** jgit's `ProgressMonitor.UNKNOWN`: a task whose total amount of work is not known. */
  const Unknown: Int32 := 0

  /** Milliseconds during which a fresh task shows nothing. */
  const Delay := 500

  /** Width the task title (with its `\r` and `": "`) is padded to. */
  const TitleWidth := 25

  /** The monitor's fields, plus every line it has printed so far. */
  datatype Monitor = Monitor(
    output: bool,          // something was shown for the current task
    taskBeganAt: int,      // clock reading, milliseconds
    msg: Option<string>,   // the current task's title; None when there is no task
    lastWorked: Int32,
    totalWork: Int32,
    lines: seq<string>)

  /** A title is shown only while it is the current task's. */
  predicate Valid(m: Monitor) {
    m.output ==> m.msg.Some?
  }

  /** The constructor, with the clock reading `now`. */
  function Init(now: int): (m: Monitor)
    ensures Valid(m) && m.lines == [] && m.msg.None?
  {
    Monitor(false, now, None, 0, 0, [])
  }

  /** `start`: only restarts the clock. */
  function Start(m: Monitor, now: int): (r: Monitor)
    requires Valid(m)
    ensures Valid(r) && r.taskBeganAt == now
    ensures r.(taskBeganAt := m.taskBeganAt) == m
  {
    m.(taskBeganAt := now)
  }

  /** `cmp * 100 / totalWork` in Java `int` arithmetic. */
  function Percent(cmp: Int32, total: Int32): Int32
    requires total != Unknown
  {
    Div(Mul(cmp, 100), total)
  }

  /** The percentage with one leading space below 100 and another below 10. */
  function PercentField(p: Int32): (r: string)
    ensures StartsWith(r, if p < 10 then "  " else if p < 100 then " " else "")
  {
    (if p < 100 then " " else "") + (if p < 10 then " " else "") + IntToString(p)
  }

  /** The line `display(cmp)` prints. */
  function Display(m: Monitor, cmp: Int32): (line: string)
    ensures StartsWith(line, "\r" + m.msg.GetOr("null") + ": ")
    ensures |line| > TitleWidth
  {
    var title := PadRight("\r" + m.msg.GetOr("null") + ": ", TitleWidth);
    var progress :=
      if m.totalWork == Unknown then IntToString(cmp)
      else
        var twstr := IntToString(m.totalWork);
        var cmpstr := PadLeft(IntToString(cmp), |twstr|);
        PercentField(Percent(cmp, m.totalWork)) + "% (" + cmpstr + "/" + twstr + ")";
    assert title[..|"\r" + m.msg.GetOr("null") + ": "|] == "\r" + m.msg.GetOr("null") + ": ";
    assert (title + progress)[..|title|] == title;
    title + progress
  }

  /** `update(completed)` at clock reading `now`. */
  function Update(m: Monitor, completed: Int32, now: int): (r: Monitor)
    requires Valid(m)
    ensures Valid(r)
    ensures m.msg.None? || (!m.output && now - m.taskBeganAt < Delay) ==> r == m
    ensures m.msg.Some? && (m.output || now - m.taskBeganAt >= Delay) ==>
              r.output && r.lastWorked == Add(m.lastWorked, completed)
              && r.msg == m.msg && r.totalWork == m.totalWork && r.taskBeganAt == m.taskBeganAt
    ensures r.lines == m.lines || r.lines == m.lines + [Display(m, Add(m.lastWorked, completed))]
  {
    if m.msg.None? then m
    else
      var cmp := Add(m.lastWorked, completed);
      if !m.output && now - m.taskBeganAt < Delay then m
      else
        var shown :=
          m.totalWork == Unknown || Percent(cmp, m.totalWork) != Percent(m.lastWorked, m.totalWork);
        var lines := if shown then m.lines + [Display(m, cmp)] else m.lines;
        m.(lastWorked := cmp, output := true, lines := lines)
  }

  /** `endTask`: a task that showed something gets its final line (at its total, when
      the total is known) and an empty line; then there is no current task. */
  function EndTask(m: Monitor): (r: Monitor)
    ensures Valid(r) && !r.output && r.msg.None?
    ensures !m.output ==> r.lines == m.lines
    ensures m.output && m.totalWork == Unknown ==> r.lines == m.lines + [""]
    ensures m.output && m.totalWork != Unknown ==> r.lines == m.lines + [Display(m, m.totalWork), ""]
    ensures r.lastWorked == m.lastWorked && r.totalWork == m.totalWork && r.taskBeganAt == m.taskBeganAt
  {
    var lines :=
      if !m.output then m.lines
      else if m.totalWork != Unknown then m.lines + [Display(m, m.totalWork), ""]
      else m.lines + [""];
    m.(output := false, msg := None, lines := lines)
  }

  /** `beginTask(title, total)`: ends the previous task, then starts counting from zero. */
  function BeginTask(m: Monitor, title: Option<string>, total: Int32): (r: Monitor)
    ensures Valid(r) && !r.output
    ensures r.msg == title && r.lastWorked == 0 && r.totalWork == total
    ensures r.lines == EndTask(m).lines
  {
    EndTask(m).(msg := title, lastWorked := 0, totalWork := total)
  }

  /** `isCancelled`: a fetch is never cancelled from here. */
  function IsCancelled(m: Monitor): (r: bool)
    ensures !r
  {
    false
  }

  /** For a task with a known total, an update prints a line exactly when it changes the
      shown percentage; with an unknown total every update past the delay prints one. */
  lemma UpdatePrintsWhenPercentChanges(m: Monitor, completed: Int32, now: int)
    requires Valid(m) && m.msg.Some? && (m.output || now - m.taskBeganAt >= Delay)
    ensures var r := Update(m, completed, now);
            var cmp := Add(m.lastWorked, completed);
            (r.lines == m.lines + [Display(m, cmp)])
            <==> (m.totalWork == Unknown || Percent(cmp, m.totalWork) != Percent(m.lastWorked, m.totalWork))
  {
    var r := Update(m, completed, now);
    var cmp := Add(m.lastWorked, completed);
    assert |m.lines + [Display(m, cmp)]| == |m.lines| + 1;
  }

  /** For a non-negative percentage the field is the number right-aligned in three columns. */
  lemma PercentFieldIsPadded(p: Int32)
    requires p >= 0
    ensures PercentField(p) == PadLeft(IntToString(p), 3)
  {
    var s := IntToString(p);
    if p < 10 {
      assert |s| == 1;
      assert PadLeft(s, 3) == "  " + s;
    } else if p < 100 {
      assert |s| == 2;
      assert PadLeft(s, 3) == " " + s;
    } else {
      assert |s| >= 3;
    }
  }

  /** The completed count is right-aligned to the width of the total, so while it does not
      exceed the total (both non-negative) it takes exactly that width. */
  lemma CompletedFieldWidth(cmp: Int32, total: Int32)
    requires 0 <= cmp <= total
    ensures |PadLeft(IntToString(cmp), |IntToString(total)|)| == |IntToString(total)|
  {
    NatToStringLengthMonotone(cmp, total);
  }

  /** The percentage of the total itself is 100 whenever `total * 100` fits in an `int`. */
  lemma TotalIsHundredPercent(total: Int32)
    requires 0 < total <= MaxInt / 100
    ensures Percent(total, total) == 100
  {
    var t: int := total;
    assert 0 < t * 100 <= MaxInt;
    assert Mul(total, 100) == t * 100;
    MulDivCancel(100, t);
    assert Quot(t * 100, t) == 100;
  }

  /** Ending a task that has shown progress with a known total that small prints its
      100% line (with the total as the completed count) and then an empty line. */
  lemma EndTaskShowsHundredPercent(m: Monitor)
    requires m.output && 0 < m.totalWork <= MaxInt / 100
    ensures var r := EndTask(m);
            var twstr := IntToString(m.totalWork);
            r.lines == m.lines + [PadRight("\r" + m.msg.GetOr("null") + ": ", TitleWidth)
                                  + ("100% (" + twstr + "/" + twstr + ")"), ""]
  {
    TotalIsHundredPercent(m.totalWork);
    var twstr := IntToString(m.totalWork);
    var title := PadRight("\r" + m.msg.GetOr("null") + ": ", TitleWidth);
    assert PadLeft(twstr, |twstr|) == twstr;
    assert PercentField(100) == "100";
    assert "100" + "% (" == "100% (";
    assert Display(m, m.totalWork) == title + ("100% (" + twstr + "/" + twstr + ")");
  }

  /** `start` does not disturb a task in progress: the throttle only looks at the clock. */
  lemma StartKeepsTask(m: Monitor, now: int)
    requires Valid(m)
    ensures var r := Start(m, now);
            r.msg == m.msg && r.output == m.output && r.lastWorked == m.lastWorked && r.lines == m.lines
  {
  }
}
