/**
 * The task ledger: the list stored under the key `tasks`, the add and
 * complete handlers, and the month-filtered completion statistics of the pie
 * chart, the motivational trigger and the monthly summary.
 */
module Tasks {
  import opened Wrappers
  import opened Text

  /** A task record. Timestamps are ISO strings; `dateCompleted` is `null` until completion. */
  datatype Task = Task(description: string, completed: bool, dateAdded: string, dateCompleted: Option<string>)

  /** A task records a completion time exactly when it is completed. */
  predicate WellFormed(t: Task) {
    t.completed <==> t.dateCompleted.Some?
  }

  predicate AllWellFormed(tasks: seq<Task>) {
    forall i :: 0 <= i < |tasks| ==> WellFormed(tasks[i])
  }

  // ---------------------------------------------------------------------
  // The add and complete handlers

  /**
   * The add-task handler on the list: text that trims to nothing leaves the
   * list alone; otherwise exactly one open task carrying the trimmed text is
   * appended after the untouched earlier tasks.
   */
  function AddTask(tasks: seq<Task>, text: string, stamp: string): (r: seq<Task>)
    ensures AllWhitespace(text) ==> r == tasks
    ensures !AllWhitespace(text) ==>
              && |r| == |tasks| + 1 && r[..|tasks|] == tasks
              && r[|tasks|].description == Trim(text) && r[|tasks|].description != []
              && r[|tasks|].dateAdded == stamp
              && !r[|tasks|].completed && r[|tasks|].dateCompleted == None
    ensures AllWellFormed(tasks) ==> AllWellFormed(r)
  {
    TrimEmptyIffWhitespace(text);
    var txt := Trim(text);
    if txt == [] then tasks
    else tasks + [Task(txt, false, stamp, None)]
  }

  /**
   * The complete button of task `i`: an open task becomes completed at
   * `stamp`; a completed task, or an index with no task (the app fails on
   * it before saving), leaves the list as it was. Nothing else changes.
   */
  function Complete(tasks: seq<Task>, i: int, stamp: string): (r: seq<Task>)
    ensures |r| == |tasks|
    ensures forall j :: 0 <= j < |tasks| && j != i ==> r[j] == tasks[j]
    ensures 0 <= i < |tasks| ==>
              && r[i].completed
              && r[i].description == tasks[i].description
              && r[i].dateAdded == tasks[i].dateAdded
              && r[i].dateCompleted == (if tasks[i].completed then tasks[i].dateCompleted else Some(stamp))
    ensures (i < 0 || i >= |tasks| || tasks[i].completed) ==> r == tasks
    ensures AllWellFormed(tasks) ==> AllWellFormed(r)
  {
    if 0 <= i < |tasks| && !tasks[i].completed then
      tasks[i := tasks[i].(completed := true, dateCompleted := Some(stamp))]
    else tasks
  }

  /** Completion is one-way and happens once: a second press changes nothing, whatever its time. */
  lemma CompleteOnce(tasks: seq<Task>, i: int, first: string, second: string)
    ensures Complete(Complete(tasks, i, first), i, second) == Complete(tasks, i, first)
  {
  }

  // ---------------------------------------------------------------------
  // Month-filtered statistics

  /**
   * How a timestamp is matched against a month: `slice(0,7) === ym` in
   * `updateChart`, `startsWith(m)` in the summary handler.
   */
  datatype MonthTest = SliceIs(ym: string) | StartsWithKey(m: string)

  predicate Matches(stamp: string, test: MonthTest) {
    match test
    case SliceIs(ym) => SlicePrefix(stamp, 7) == ym
    case StartsWithKey(m) => StartsWith(stamp, m)
  }

  /** The task was added in the month. */
  predicate AddedIn(t: Task, test: MonthTest) {
    Matches(t.dateAdded, test)
  }

  /** The task is completed, and its completion time falls in the month. */
  predicate DoneIn(t: Task, test: MonthTest) {
    t.completed && t.dateCompleted.Some? && Matches(t.dateCompleted.value, test)
  }

  /** The number of tasks added in the month (`arr.length`). */
  function CountAdded(tasks: seq<Task>, test: MonthTest): (n: nat)
    ensures n <= |tasks|
  {
    if tasks == [] then 0
    else CountAdded(tasks[..|tasks| - 1], test) + (if AddedIn(tasks[|tasks| - 1], test) then 1 else 0)
  }

  /** The number of tasks added in the month that were also completed in it (`done`). */
  function CountDone(tasks: seq<Task>, test: MonthTest): (n: nat)
    ensures n <= CountAdded(tasks, test)
  {
    if tasks == [] then 0
    else
      var t := tasks[|tasks| - 1];
      CountDone(tasks[..|tasks| - 1], test) + (if AddedIn(t, test) && DoneIn(t, test) then 1 else 0)
  }

  /** The pie chart's two slices. */
  datatype PieData = PieData(completed: nat, remaining: nat)

  /**
   * `[done, Math.max(0, arr.length - done)]`: the slices add up to the tasks
   * added in the month, so the clamp to zero never applies.
   */
  function PieSlices(tasks: seq<Task>, test: MonthTest): (r: PieData)
    ensures r.completed == CountDone(tasks, test)
    ensures r.completed + r.remaining == CountAdded(tasks, test)
  {
    var total := CountAdded(tasks, test);
    var done := CountDone(tasks, test);
    PieData(done, if total - done > 0 then total - done else 0)
  }

  /** The 80% goal: some task was added in the month and `done / total >= 0.8`, as `5 * done >= 4 * total`. */
  predicate GoalReached(tasks: seq<Task>, test: MonthTest) {
    var total := CountAdded(tasks, test);
    total > 0 && 5 * CountDone(tasks, test) >= 4 * total
  }

  /** For a positive total, the integer test `5 * done >= 4 * total` is the ratio test `done / total >= 0.8`. */
  lemma RatioTest(done: nat, total: nat)
    requires total > 0
    ensures 5 * done >= 4 * total <==> done as real / total as real >= 0.8
  {
    var d, t := done as real, total as real;
    var q := d / t;
    assert q * t == d;
    assert 5 * done >= 4 * total <==> 5.0 * d >= 4.0 * t;
    ScaleByPositive(q, t);
  }

  lemma ScaleByPositive(q: real, t: real)
    requires t > 0.0
    ensures q * t >= 0.8 * t <==> q >= 0.8
  {
    if q >= 0.8 {
      assert (q - 0.8) * t >= 0.0;
    } else {
      assert (0.8 - q) * t > 0.0;
    }
  }

  /** The goal of the 80% message is exactly the app's test on the month's counts. */
  lemma GoalIsEightyPercent(tasks: seq<Task>, test: MonthTest)
    ensures GoalReached(tasks, test)
            <==> CountAdded(tasks, test) > 0
                 && CountDone(tasks, test) as real / CountAdded(tasks, test) as real >= 0.8
  {
    if CountAdded(tasks, test) > 0 {
      RatioTest(CountDone(tasks, test), CountAdded(tasks, test));
    }
  }

  /** The summary's completion rate in percent; 0 when no task was added in the month. */
  function CompletionPercent(tasks: seq<Task>, test: MonthTest): (r: real)
    ensures 0.0 <= r <= 100.0
    ensures CountAdded(tasks, test) == 0 ==> r == 0.0
    ensures CountAdded(tasks, test) > 0 ==> r == Percent(CountDone(tasks, test), CountAdded(tasks, test))
  {
    var total := CountAdded(tasks, test);
    if total == 0 then 0.0 else Percent(CountDone(tasks, test), total)
  }

  /** `(a / b) * 100`, a share in percent. */
  function Percent(a: nat, b: nat): (r: real)
    requires 0 < b && a <= b
    ensures 0.0 <= r <= 100.0
    ensures r * b as real == 100.0 * a as real
  {
    var q := a as real / b as real;
    assert q * b as real == a as real;
    assert q <= 1.0;
    q * 100.0
  }

  /** For a seven-character month key the two filters select the same tasks. */
  lemma {:induction false} FiltersAgree(tasks: seq<Task>, m: string)
    requires |m| == 7
    ensures CountAdded(tasks, SliceIs(m)) == CountAdded(tasks, StartsWithKey(m))
    ensures CountDone(tasks, SliceIs(m)) == CountDone(tasks, StartsWithKey(m))
  {
    if tasks != [] {
      var t := tasks[|tasks| - 1];
      FiltersAgree(tasks[..|tasks| - 1], m);
      SliceEqualsIffStartsWith(t.dateAdded, m);
      if t.dateCompleted.Some? {
        SliceEqualsIffStartsWith(t.dateCompleted.value, m);
      }
    }
  }

  /** Adding a task stamped in the month counts one more task added and no more done. */
  lemma {:induction false} AddTaskStats(tasks: seq<Task>, text: string, stamp: string, test: MonthTest)
    requires !AllWhitespace(text)
    ensures CountAdded(AddTask(tasks, text, stamp), test)
            == CountAdded(tasks, test) + (if Matches(stamp, test) then 1 else 0)
    ensures CountDone(AddTask(tasks, text, stamp), test) == CountDone(tasks, test)
  {
    var r := AddTask(tasks, text, stamp);
    assert r[..|r| - 1] == tasks;
  }

  /** Replacing one task changes the month's counts by what the old and new task contribute. */
  lemma {:induction false} ReplaceCounts(tasks: seq<Task>, i: int, t: Task, test: MonthTest)
    requires 0 <= i < |tasks|
    ensures CountAdded(tasks[i := t], test) + (if AddedIn(tasks[i], test) then 1 else 0)
            == CountAdded(tasks, test) + (if AddedIn(t, test) then 1 else 0)
    ensures CountDone(tasks[i := t], test) + (if AddedIn(tasks[i], test) && DoneIn(tasks[i], test) then 1 else 0)
            == CountDone(tasks, test) + (if AddedIn(t, test) && DoneIn(t, test) then 1 else 0)
  {
    var r := tasks[i := t];
    var n := |tasks| - 1;
    if i == n {
      assert r[..n] == tasks[..n];
    } else {
      assert r[..n] == tasks[..n][i := t];
      assert r[n] == tasks[n];
      ReplaceCounts(tasks[..n], i, t, test);
    }
  }

  /**
   * Completing a task leaves the month's total alone and raises `done` by at
   * most one: by one exactly when an open task added in the month is
   * completed at a time in the month.
   */
  lemma CompleteStats(tasks: seq<Task>, i: int, stamp: string, test: MonthTest)
    ensures CountAdded(Complete(tasks, i, stamp), test) == CountAdded(tasks, test)
    ensures CountDone(Complete(tasks, i, stamp), test)
            == CountDone(tasks, test)
               + (if 0 <= i < |tasks| && !tasks[i].completed && AddedIn(tasks[i], test) && Matches(stamp, test)
                  then 1 else 0)
  {
    if 0 <= i < |tasks| && !tasks[i].completed {
      ReplaceCounts(tasks, i, tasks[i].(completed := true, dateCompleted := Some(stamp)), test);
    }
  }
}
