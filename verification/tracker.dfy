/**
 * The tracker's state and handlers. The localforage store is a `Store`
 * object with one field per kind of entry: the task list (key `tasks`, read
 * as `[]` when absent), the hours object (key `studyHours`, read as `{}` when
 * absent) and every other key, all of which hold strings (flags and daily
 * targets). The clock is passed in as an `Instant`.
 */
module Tracker {
  import opened Wrappers
  import opened Text
  import opened Calendar
  import opened Tasks
  import opened Hours
  import opened Flags

  /** `'tasksCleared-' + dateKey`: set once the list was cleared on that date. */
  function ClearedFlag(today: Date): string
    requires Valid(today) && FourDigitYear(today)
  {
    ClearedPrefix + DateKey(today)
  }

  /** `'motivated-' + ym`: set once the 80% message was shown in that month. */
  function MotivatedFlag(ym: string): string {
    MotivatedPrefix + ym
  }

  /** `'dailyTarget-' + targetDateKey()`. */
  function TargetKey(now: Instant): string
    requires ValidInstant(now)
  {
    TargetPrefix + TargetDateKey(now)
  }

  /** `clearTasksAtNoon` acts: it is noon or later and the list was not cleared today. */
  predicate NoonResetDue(texts: Texts, now: Instant)
    requires ValidInstant(now)
  {
    now.hour >= 12 && !HasFlag(texts, ClearedFlag(now.date))
  }

  /** Once the list was cleared on a date, no later poll that date clears it again. */
  lemma NoonResetOncePerDay(texts: Texts, now: Instant, later: Instant)
    requires ValidInstant(now) && ValidInstant(later) && later.date == now.date
    ensures !NoonResetDue(SetFlag(texts, ClearedFlag(now.date)), later)
  {
  }

  /** The current month's key, `toISOString().slice(0,7)`. */
  function CurrentMonth(now: Instant): string
    requires ValidInstant(now)
  {
    MonthKey(now.date)
  }

  /**
   * `updateChart` shows the 80% message: monthly statistics are active, the
   * goal is reached for the tasks added this month, and the month's flag is unset.
   */
  predicate MotivationDue(tasks: seq<Task>, texts: Texts, now: Instant)
    requires ValidInstant(now)
  {
    && OnOrAfter(now.date, MonthlyStatsStart)
    && GoalReached(tasks, SliceIs(CurrentMonth(now)))
    && !HasFlag(texts, MotivatedFlag(CurrentMonth(now)))
  }

  /**
   * Exactly once per month: after the message fired, no later evaluation in
   * the same calendar month fires it again, whatever the tasks are by then,
   * and the monthly pruning at start-up keeps it that way.
   */
  lemma MotivationOncePerMonth(texts: Texts, now: Instant, tasks: seq<Task>, later: Instant)
    requires ValidInstant(now) && ValidInstant(later)
    requires later.date.year == now.date.year && later.date.month == now.date.month
    ensures !MotivationDue(tasks, SetFlag(texts, MotivatedFlag(CurrentMonth(now))), later)
    ensures !MotivationDue(tasks, PruneMonthly(SetFlag(texts, MotivatedFlag(CurrentMonth(now))), CurrentMonth(later)), later)
  {
    MonthKeyInjective(now.date, later.date);
    var ym := CurrentMonth(now);
    PruneKeepsCurrentFlag(SetFlag(texts, MotivatedFlag(ym)), ym);
  }

  /**
   * The message can fire again in a later calendar month: the start-up
   * pruning drops the flag of the month it last fired in.
   */
  lemma NewMonthRearms(texts: Texts, before: Instant, now: Instant, tasks: seq<Task>)
    requires ValidInstant(before) && ValidInstant(now)
    requires before.date.year != now.date.year || before.date.month != now.date.month
    requires OnOrAfter(now.date, MonthlyStatsStart) && GoalReached(tasks, SliceIs(CurrentMonth(now)))
    requires !HasFlag(texts, MotivatedFlag(CurrentMonth(now)))
    ensures MotivationDue(tasks, PruneMonthly(SetFlag(texts, MotivatedFlag(CurrentMonth(before))), CurrentMonth(now)), now)
  {
    MonthKeyInjective(before.date, now.date);
    var ym := CurrentMonth(now);
    PruneKeepsCurrentFlag(SetFlag(texts, MotivatedFlag(CurrentMonth(before))), ym);
    PruneDropsOtherFlag(SetFlag(texts, MotivatedFlag(CurrentMonth(before))), ym, CurrentMonth(before));
  }

  /**
   * A daily target saved from 20:00 on is the one read back on the next
   * day until 20:00.
   */
  lemma TargetCarriesOver(now: Instant, later: Instant)
    requires ValidInstant(now) && ValidInstant(later)
    requires now.hour >= TargetCutoffHour && later.hour < TargetCutoffHour
    requires later.date == NextDay(now.date)
    ensures TargetKey(now) == TargetKey(later)
  {
    TargetDayBoundary(now);
    TargetDayBoundary(later);
  }

  // ---------------------------------------------------------------------
  // Calendar events

  /** A calendar event: a completed task on its completion date, or a day's hours. */
  datatype Event = TaskEvent(start: string, description: string) | HoursEvent(start: string, hours: real)

  function CountCompleted(tasks: seq<Task>): (n: nat)
    ensures n <= |tasks|
  {
    if tasks == [] then 0
    else CountCompleted(tasks[..|tasks| - 1]) + (if tasks[|tasks| - 1].completed then 1 else 0)
  }

  /** The task has a calendar event: it is completed and records when. */
  predicate OnCalendar(t: Task) {
    t.completed && t.dateCompleted.Some?
  }

  /** The event of a completed task: its description on `dateCompleted.slice(0,10)`. */
  function EventOf(t: Task): (e: Event)
    requires OnCalendar(t)
    ensures e.TaskEvent? && e.description == t.description
    ensures |e.start| == (if |t.dateCompleted.value| < 10 then |t.dateCompleted.value| else 10)
    ensures StartsWith(t.dateCompleted.value, e.start)
  {
    TaskEvent(SlicePrefix(t.dateCompleted.value, 10), t.description)
  }

  /**
   * The events of the completed tasks: every completed task has its event,
   * and every event is that of a completed task.
   */
  function TaskEvents(tasks: seq<Task>): (r: seq<Event>)
    ensures AllWellFormed(tasks) ==> |r| == CountCompleted(tasks)
    ensures forall t :: t in tasks && OnCalendar(t) ==> EventOf(t) in r
    ensures forall e :: e in r ==> exists t :: t in tasks && OnCalendar(t) && e == EventOf(t)
  {
    if tasks == [] then []
    else
      var t := tasks[|tasks| - 1];
      var init := tasks[..|tasks| - 1];
      assert AllWellFormed(tasks) ==> AllWellFormed(init);
      assert tasks == init + [t];
      TaskEvents(init) + (if OnCalendar(t) then [EventOf(t)] else [])
  }

  /** Events appear in list order: the events of a list's front come before those of its back. */
  lemma {:induction false} TaskEventsInOrder(front: seq<Task>, back: seq<Task>)
    ensures TaskEvents(front + back) == TaskEvents(front) + TaskEvents(back)
  {
    if back == [] {
      assert front + back == front;
    } else {
      var n := |back| - 1;
      assert (front + back)[..|front + back| - 1] == front + back[..n];
      TaskEventsInOrder(front, back[..n]);
    }
  }

  /** A task completed through the store appears on the calendar on the date it was completed. */
  lemma CompletedTaskOnCalendar(tasks: seq<Task>, i: int, now: Instant)
    requires ValidInstant(now) && 0 <= i < |tasks| && !tasks[i].completed
    ensures TaskEvent(DateKey(now.date), tasks[i].description) in TaskEvents(Complete(tasks, i, Timestamp(now)))
  {
    var r := Complete(tasks, i, Timestamp(now));
    assert r[i] in r;
    assert EventOf(r[i]) == TaskEvent(DateKey(now.date), tasks[i].description);
  }

  /** The events of the hours entries, one per entry, in entry order. */
  function HourEvents(log: HourLog): (r: seq<Event>)
    ensures |r| == |log|
    ensures forall i :: 0 <= i < |log| ==> r[i] == HoursEvent(log[i].key, log[i].hours)
  {
    seq(|log|, i requires 0 <= i < |log| => HoursEvent(log[i].key, log[i].hours))
  }

  /** `renderCalendar`'s event list: the completed tasks' events, then one per hours entry. */
  function CalendarEvents(tasks: seq<Task>, log: HourLog): (r: seq<Event>)
    ensures AllWellFormed(tasks) ==> |r| == CountCompleted(tasks) + |log|
    ensures |r| >= |log| && r[..|r| - |log|] == TaskEvents(tasks) && r[|r| - |log|..] == HourEvents(log)
  {
    TaskEvents(tasks) + HourEvents(log)
  }

  // ---------------------------------------------------------------------
  // Backups

  /** An imported backup: either field may be missing. */
  datatype Backup = Backup(tasks: Option<seq<Task>>, studyHours: Option<HourLog>)

  /** The two ledgers a backup carries. */
  datatype Ledgers = Ledgers(tasks: seq<Task>, hours: HourLog)

  /** The import rule: a present field replaces its ledger, an absent one leaves it untouched. */
  function ApplyBackup(current: Ledgers, b: Backup): (r: Ledgers)
    ensures r.tasks == if b.tasks.Some? then b.tasks.value else current.tasks
    ensures r.hours == if b.studyHours.Some? then b.studyHours.value else current.hours
  {
    Ledgers(
      if b.tasks.Some? then b.tasks.value else current.tasks,
      if b.studyHours.Some? then b.studyHours.value else current.hours)
  }

  /** The export: both ledgers. Importing it restores them, whatever the store held before. */
  function ExportBackup(l: Ledgers): (b: Backup)
    ensures forall current :: ApplyBackup(current, b) == l
  {
    Backup(Some(l.tasks), Some(l.hours))
  }

  /** The monthly summary: completion rate in percent and mean hours per recorded day. */
  datatype Summary = Summary(completionPercent: real, averageHours: real)

  // ---------------------------------------------------------------------
  // The store

  class Store {
    var tasks: seq<Task>
    var hours: HourLog
    var texts: Texts

    ghost predicate Valid()
      reads this
    {
      UniqueKeys(hours)
    }

    /** The two ledgers the backup file carries. */
    function Snapshot(): Ledgers
      reads this
    {
      Ledgers(tasks, hours)
    }

    constructor ()
      ensures Valid() && tasks == [] && hours == [] && texts == map[]
    {
      tasks, hours, texts := [], [], map[];
    }

    /** `resetMonthlyFlags`: walks the keys and removes every stale `motivated-` entry. */
    method ResetMonthlyFlags(now: Instant)
      requires Valid() && ValidInstant(now)
      modifies this
      ensures Valid()
      ensures texts == PruneMonthly(old(texts), CurrentMonth(now))
      ensures tasks == old(tasks) && hours == old(hours)
    {
      var ym := CurrentMonth(now);
      var pending := texts.Keys;
      while pending != {}
        invariant pending <= old(texts).Keys
        invariant texts == map k | k in old(texts) && (k in pending || !IsStale(k, ym)) :: old(texts)[k]
        invariant tasks == old(tasks) && hours == old(hours)
        decreases pending
      {
        var k :| k in pending;
        if IsStale(k, ym) {
          texts := texts - {k};
        }
        pending := pending - {k};
      }
    }

    /** `clearTasksAtNoon`: from noon, once per date, the list is emptied and the date's flag set. */
    method ClearTasksAtNoon(now: Instant)
      requires Valid() && ValidInstant(now)
      modifies this
      ensures Valid() && hours == old(hours)
      ensures NoonResetDue(old(texts), now) ==>
                tasks == [] && texts == SetFlag(old(texts), ClearedFlag(now.date))
      ensures !NoonResetDue(old(texts), now) ==> tasks == old(tasks) && texts == old(texts)
    {
      var flag := ClearedFlag(now.date);
      if now.hour >= 12 && !HasFlag(texts, flag) {
        tasks := [];
        texts := SetFlag(texts, flag);
      }
    }

    /** The add-task button. */
    method AddTask(text: string, now: Instant)
      requires Valid() && ValidInstant(now)
      modifies this
      ensures Valid() && hours == old(hours) && texts == old(texts)
      ensures tasks == Tasks.AddTask(old(tasks), text, Timestamp(now))
    {
      var txt := Trim(text);
      TrimEmptyIffWhitespace(text);
      if txt == [] {
        return;
      }
      tasks := tasks + [Task(txt, false, Timestamp(now), None)];
    }

    /** The complete button of task `i`. */
    method CompleteTask(i: int, now: Instant)
      requires Valid() && ValidInstant(now)
      modifies this
      ensures Valid() && hours == old(hours) && texts == old(texts)
      ensures tasks == Complete(old(tasks), i, Timestamp(now))
    {
      if 0 <= i < |tasks| && !tasks[i].completed {
        tasks := tasks[i := tasks[i].(completed := true, dateCompleted := Some(Timestamp(now)))];
      }
    }

    /** The save-hours button, with `input` the result of `parseFloat` (`None` for NaN). */
    method SaveHours(input: Option<real>, now: Instant)
      requires Valid() && ValidInstant(now)
      modifies this
      ensures Valid() && tasks == old(tasks) && texts == old(texts)
      ensures hours == Hours.SaveHours(old(hours), DateKey(now.date), input)
    {
      if Rejected(input) {
        return;
      }
      PutKeepsKeysUnique(hours, DateKey(now.date), input.value);
      hours := Put(hours, DateKey(now.date), input.value);
    }

    /** The save-target button: a non-blank target is filed under the effective day. */
    method SaveDailyTarget(text: string, now: Instant)
      requires Valid() && ValidInstant(now)
      modifies this
      ensures Valid() && tasks == old(tasks) && hours == old(hours)
      ensures AllWhitespace(text) ==> texts == old(texts)
      ensures !AllWhitespace(text) ==> texts == old(texts)[TargetKey(now) := Trim(text)]
      ensures !AllWhitespace(text) ==> DailyTarget(now) == Trim(text)
    {
      var txt := Trim(text);
      TrimEmptyIffWhitespace(text);
      if txt == [] {
        return;
      }
      texts := texts[TargetKey(now) := txt];
    }

    /** `loadDailyTarget`: the target of the effective day, or `''`. */
    function DailyTarget(now: Instant): (r: string)
      requires ValidInstant(now)
      reads this
      ensures TargetKey(now) in texts ==> r == texts[TargetKey(now)]
      ensures TargetKey(now) !in texts ==> r == ""
    {
      var key := TargetKey(now);
      if key in texts then texts[key] else ""
    }

    /**
     * `updateChart`: before the monthly statistics start nothing is shown;
     * otherwise the pie of this month's tasks, and the 80% message with its
     * flag when it is due.
     */
    method UpdateChart(now: Instant) returns (pie: Option<PieData>, celebrate: bool)
      requires Valid() && ValidInstant(now)
      modifies this
      ensures Valid() && tasks == old(tasks) && hours == old(hours)
      ensures pie == if OnOrAfter(now.date, MonthlyStatsStart)
                     then Some(PieSlices(tasks, SliceIs(CurrentMonth(now)))) else None
      ensures celebrate == MotivationDue(tasks, old(texts), now)
      ensures texts == if celebrate then SetFlag(old(texts), MotivatedFlag(CurrentMonth(now))) else old(texts)
    {
      if !OnOrAfter(now.date, MonthlyStatsStart) {
        return None, false;
      }
      var ym := CurrentMonth(now);
      pie := Some(PieSlices(tasks, SliceIs(ym)));
      var flag := MotivatedFlag(ym);
      var total := CountAdded(tasks, SliceIs(ym));
      var done := CountDone(tasks, SliceIs(ym));
      celebrate := total > 0 && 5 * done >= 4 * total && !HasFlag(texts, flag);
      if celebrate {
        texts := SetFlag(texts, flag);
      }
    }

    /**
     * `updateAverages`: the mean hours of this week's recorded days, and, once
     * monthly statistics are active, the mean of this month's entries.
     */
    method UpdateAverages(now: Instant) returns (weekly: real, monthly: Option<real>)
      requires Valid() && ValidInstant(now)
      ensures var week := WeekKeys(now.date);
              weekly == Mean(WindowSum(hours, week), WindowCount(hours, week))
      ensures monthly == if OnOrAfter(now.date, MonthlyStatsStart)
                         then Some(Mean(PrefixSum(hours, CurrentMonth(now)), PrefixCount(hours, CurrentMonth(now))))
                         else None
      ensures var week := WeekKeys(now.date);
              WindowCount(hours, week) == |set d | d in week && d in KeysOf(hours)| <= 7
      ensures PrefixCount(hours, CurrentMonth(now))
              == |set k | k in KeysOf(hours) && StartsWith(k, CurrentMonth(now))|
    {
      WindowCountIsPresentDays(hours, WeekKeys(now.date));
      PrefixCountIsKeyCount(hours, CurrentMonth(now));
      var count;
      weekly, count := WindowAverage(hours, WeekKeys(now.date));
      var avg := PrefixAverage(hours, CurrentMonth(now));
      monthly := if OnOrAfter(now.date, MonthlyStatsStart) then Some(avg) else None;
    }

    /** The summary button for month `m` (`''` when none is picked: nothing is shown). */
    method ShowSummary(m: string) returns (r: Option<Summary>)
      requires Valid()
      ensures m == "" ==> r == None
      ensures m != "" ==> r == Some(Summary(
                CompletionPercent(tasks, StartsWithKey(m)),
                Mean(PrefixSum(hours, m), PrefixCount(hours, m))))
      ensures PrefixCount(hours, m) == |set k | k in KeysOf(hours) && StartsWith(k, m)|
    {
      PrefixCountIsKeyCount(hours, m);
      if m == "" {
        return None;
      }
      var pct := CompletionPercent(tasks, StartsWithKey(m));
      var avg := PrefixAverage(hours, m);
      r := Some(Summary(pct, avg));
    }

    /** The import handler on a parsed backup (a JSON object's keys are distinct). */
    method Import(b: Backup)
      requires Valid()
      requires b.studyHours.Some? ==> UniqueKeys(b.studyHours.value)
      modifies this
      ensures Valid() && texts == old(texts)
      ensures Snapshot() == ApplyBackup(old(Snapshot()), b)
    {
      if b.tasks.Some? {
        tasks := b.tasks.value;
      }
      if b.studyHours.Some? {
        hours := b.studyHours.value;
      }
    }
  }
}
