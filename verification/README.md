# Study tracker: state and aggregation model

A model of the study tracker's browser front end, `app/js/app.js`. The app keeps
three kinds of data in one key-value store:

- a **task ledger** under the key `tasks`, a list of task records;
- an **hours ledger** under the key `studyHours`, an object from `YYYY-MM-DD` to
  hours studied;
- string entries under every other key: the once-only flags `tasksCleared-<date>`
  and `motivated-<YYYY-MM>`, and the daily targets `dailyTarget-<date>`.

The clock becomes an explicit `Instant` parameter (date, hour, minute, second,
millisecond).

The modules:

- `Text`: the ECMAScript `trim`, `startsWith` and `slice(0, n)` on strings.
- `Calendar`: Gregorian dates and day numbers, `YYYY-MM-DD` / `YYYY-MM` keys and
  their parser, the ISO timestamp, the Sunday-based week window, the effective
  day of the daily target (the next day from 20:00 on), the delay of the midnight
  reload, and the date from which monthly statistics are shown (2025-08-01).
- `Tasks`: task records, the add-task and complete handlers on the list, and the
  month-filtered counts behind the pie chart, the 80% trigger and the monthly
  summary.
- `Hours`: the hours object as an insertion-ordered association list (the order
  `Object.entries` yields), the save-hours guard, and the weekly and monthly
  averages, with the loops that compute them.
- `Flags`: the string entries, setting a flag, and the monthly pruning of
  `motivated-` keys.
- `Tracker`: the store as a class `Store` with one field per kind of entry, its
  handlers as methods, the calendar's event list, and the backup import and export
  rule.

## Model

| member | source | states |
|---|---|---|
| Text.Trim | app/js/app.js:232 | the trimmed text is the slice of the input that starts at its first non-whitespace character; it neither starts nor ends with whitespace, and everything after it is whitespace |
| Text.TrimEmptyIffWhitespace | app/js/app.js:232-233 | the add-task guard `!txt` holds exactly when the input is all whitespace |
| Text.SlicePrefix | app/js/app.js:170 | `slice(0, n)` has length `min(n, len)` and is a prefix of the string |
| Text.StartsWith | app/js/app.js:150 | `s.startsWith(p)`: `p` is no longer than `s` and equals the start of `s` of the same length (no contract of its own; see `Text.SliceEqualsIffStartsWith`) |
| Text.SliceEqualsIffStartsWith | app/js/app.js:170 | `s.slice(0, m.length) === m` holds exactly when `s.startsWith(m)` |
| Calendar.Weekday | app/js/app.js:134 | `getDay()` lies in 0..6, with 0 for Sunday (fixed by `Calendar.WeekdayAnchors`) |
| Calendar.WeekdayAnchors | app/js/app.js:134 | 2025-08-03 gets weekday 0 (a Sunday) and 2000-01-01 weekday 6 (a Saturday), as `getDay()` numbers them |
| Calendar.NextDay | app/js/app.js:49 | `new Date(y, m, d + 1)` is a valid date whose day number is one more, across month and year ends |
| Calendar.PrevDay | app/js/app.js:135 | stepping back one day yields a valid date whose day number is one less |
| Calendar.AddDays | app/js/app.js:138 | adding `n` days of 86 400 000 ms moves the day number by exactly `n` |
| Calendar.WeekStart | app/js/app.js:134-135 | `today - getDay() days` is a Sunday, at most six days before today |
| Calendar.WeekDates | app/js/app.js:137-139 | the window holds seven consecutive dates, starting on that Sunday |
| Calendar.WeekContainsDay | app/js/app.js:134-139 | today is in its own week window, at the position of its weekday, and the i-th date of the window has weekday i |
| Calendar.MonthKey | app/js/app.js:56 | `toISOString().slice(0,7)` is seven characters long; `Calendar.MonthKeyInjective` ties it to the calendar month |
| Calendar.MonthKeyReads | app/js/app.js:56 | the year and the month can be read back from the `YYYY-MM` key |
| Calendar.MonthKeyInjective | app/js/app.js:56 | two dates have the same month key exactly when they fall in the same year and month |
| Calendar.DateKey | app/js/app.js:50-52 | `toISOString().slice(0,10)` is ten characters long and extends the month key |
| Calendar.ParseDateKey | app/js/app.js:50-52 | a successfully parsed key names a valid four-digit-year date whose key is that same string |
| Calendar.ParseDateKeyInverts | app/js/app.js:50-52 | parsing a date's key gives back the date |
| Calendar.DateKeyInjective | app/js/app.js:253 | two dates share an hours key only when they are the same date |
| Calendar.Timestamp | app/js/app.js:113 | the ISO timestamp has 24 characters and begins with the date key, so also with the month key |
| Calendar.TargetDateKey | app/js/app.js:46-53 | the effective key parses as a date, and that date is today before 20:00 and tomorrow from 20:00 on |
| Calendar.TargetDayBoundary | app/js/app.js:48-52 | before 20:00 the key is today's; from 20:00 on it is the key of the next calendar date, with month and year rollover |
| Calendar.TargetAfterNineInTheEvening | app/js/app.js:46-53 | at 21:00 on 2025-08-05 the target belongs to 2025-08-06 |
| Calendar.WeekKeys | app/js/app.js:137-139 | the weekly loop visits seven distinct date keys, those of the Sunday-based week window |
| Calendar.MidnightDelay | app/js/app.js:80-83 | `tomorrow - now + 1000` ends exactly one second after the next midnight, and lies in (1000, 86 401 000] ms |
| Calendar.OnOrAfter | app/js/app.js:146 | `today >= new Date('2025-08-01')` as a comparison of dates field by field (no contract of its own; see the next row) |
| Calendar.OnOrAfterIsDayOrder | app/js/app.js:146 | the comparison `today >= new Date('2025-08-01')` is the day-number order of the dates |
| Tasks.AddTask | app/js/app.js:231-240 | whitespace-only text leaves the list unchanged; otherwise exactly one open task is appended after the unchanged earlier tasks, with the trimmed (non-empty) text as its description, the given `dateAdded` and `dateCompleted` null; well-formedness is kept |
| Tasks.Complete | app/js/app.js:109-114 | an open task i becomes completed at the given time; a completed task or a missing index leaves the list unchanged; the length and all other tasks are unchanged |
| Tasks.CompleteOnce | app/js/app.js:111-113 | a second press never changes a completed task or its completion time |
| Tasks.AddedIn | app/js/app.js:170 | the task's `dateAdded` lies in the month (no contract of its own; its counts are the next rows) |
| Tasks.DoneIn | app/js/app.js:171 | the task is completed and its `dateCompleted` lies in the month (no contract of its own) |
| Tasks.Matches | app/js/app.js:170-171 | a timestamp lies in the month: `slice(0,7) === ym` for the chart, `startsWith(m)` for the summary at lines 270-271 (no contract of its own; `Tasks.FiltersAgree` relates the two) |
| Tasks.CountAdded | app/js/app.js:169-170 | the number of tasks added in the month is at most the list length |
| Tasks.CountDone | app/js/app.js:171 | `done` is at most the number of tasks added in the month |
| Tasks.PieSlices | app/js/app.js:175 | the slices are `done` and the rest, and they add up to the month's total, so the clamp to zero never applies |
| Tasks.GoalReached | app/js/app.js:190 | the 80% test on the month's counts (no contract of its own; see `Tasks.GoalIsEightyPercent`) |
| Tasks.RatioTest | app/js/app.js:190 | for a positive total, `5 * done >= 4 * total` holds exactly when `done / total >= 0.8` |
| Tasks.ScaleByPositive | app/js/app.js:190 | multiplying by a positive total keeps the comparison with 0.8 |
| Tasks.GoalIsEightyPercent | app/js/app.js:190 | the goal is reached exactly when some task was added in the month and done / total is at least 0.8 |
| Tasks.CompletionPercent | app/js/app.js:272 | the rate lies in [0, 100], is 0 when no task was added in the month, and otherwise equals done / total × 100 |
| Tasks.Percent | app/js/app.js:272 | `(a / b) * 100` lies in [0, 100] and multiplied by `b` gives `100 a` |
| Tasks.FiltersAgree | app/js/app.js:170-171 | for a seven-character month, the `slice(0,7) ===` filter and the `startsWith` filter give equal totals and equal `done` counts |
| Tasks.AddTaskStats | app/js/app.js:235-240 | adding a task raises the month's total by one exactly when its timestamp is in the month, and leaves `done` unchanged |
| Tasks.ReplaceCounts | app/js/app.js:112-113 | updating one task in place changes the month's total and `done` only by what the old and the new task contribute |
| Tasks.CompleteStats | app/js/app.js:111-113 | completing a task leaves the month's total unchanged, and raises `done` by one exactly when an open task added in the month is completed during the month |
| Hours.KeysOf | app/js/app.js:149 | the key view of the ledger lists one key per entry, in entry order |
| Hours.Lookup | app/js/app.js:140 | `hrs[d] != null` holds exactly when `d` is a key, and the value found is that of an entry of the ledger |
| Hours.Put | app/js/app.js:253 | `hrs[day] = h` appends an entry at the end for a new key, and keeps the number of entries for an existing key (its place is kept by `Hours.PutKeepsPlace`) |
| Hours.LookupCons | app/js/app.js:140 | a lookup in a list reads its first entry when the key matches, and the rest of the list otherwise |
| Hours.KeysOfCons | app/js/app.js:149 | the keys of a list are its first entry's key followed by the keys of the rest |
| Hours.PutKeepsPlace | app/js/app.js:253 | overwriting an existing key keeps the sequence of keys, so the entry stays where it stands in `Object.entries` order |
| Hours.PutKeepsOthers | app/js/app.js:253 | every entry of another key stays at its position with its value |
| Hours.PutReads | app/js/app.js:253 | after `hrs[day] = h`, `day` reads `h` and every other key reads as before |
| Hours.PutKeySet | app/js/app.js:253 | the keys afterwards are the old keys and `day` |
| Hours.PutKeepsKeysUnique | app/js/app.js:253 | the ledger still holds at most one entry per date |
| Hours.PutEntries | app/js/app.js:253 | every entry afterwards is an old entry or the new one |
| Hours.Rejected | app/js/app.js:250 | `isNaN(h)` or `h < 0` (no contract of its own; `Hours.SaveHours` states its effect) |
| Hours.SaveHours | app/js/app.js:249-253 | NaN or a negative value leaves the ledger unchanged; otherwise today reads the value and every other date reads as before |
| Hours.SaveHoursKeepsNonNegative | app/js/app.js:250-253 | a ledger whose values are all non-negative keeps them all non-negative under any save, because the guard rejects NaN and negative input |
| Hours.SaveHoursKeepsBetween | app/js/app.js:250-253 | a ledger with every value in [0, hi] keeps that band under a save whose input, if any, is at most hi |
| Hours.Mean | app/js/app.js:143 | `c ? sum / c : 0` (no contract of its own; the averages and `Hours.MeanBetween` state what it gives) |
| Hours.PrefixSum | app/js/app.js:148-151 | `sumM`: the hours of the entries whose key starts with the prefix, added in entry order (no contract of its own; see `Hours.PrefixAverage` and `Hours.PrefixSumBetween`) |
| Hours.PrefixCount | app/js/app.js:148-151 | `cM`: the number of entries whose key starts with the prefix, at most the number of entries |
| Hours.WindowSum | app/js/app.js:136-141 | `sum7`: the hours recorded for the window's days, where a day without an entry adds nothing (no contract of its own; see `Hours.WindowAverage`) |
| Hours.WindowCount | app/js/app.js:136-141 | `c7`: the number of the window's days that have an entry, at most the number of days |
| Hours.PrefixAverage | app/js/app.js:148-151 | the monthly loop's result is the sum over entries whose key starts with the month, divided by their number, or 0 when there are none |
| Hours.WindowAverage | app/js/app.js:136-143 | the weekly loop's result is the sum over the window's days that have an entry, divided by their number (at most the window's length), or 0 when there are none |
| Hours.PrefixCountIsKeyCount | app/js/app.js:149-150 | the monthly count is the number of distinct dates with the month prefix |
| Hours.WindowCountIsPresentDays | app/js/app.js:137-141 | the weekly count is the number of window days that have an entry; missing days are skipped, not counted as zero |
| Hours.MeanBetween | app/js/app.js:143 | a mean of a count of values between `lo` and `hi` lies between `lo` and `hi` |
| Hours.PrefixSumBetween | app/js/app.js:149-151 | when every entry records between `lo` and `hi` hours, the monthly sum lies between `lo` and `hi` times the monthly count |
| Hours.WindowSumBetween | app/js/app.js:137-141 | the same bound for the weekly sum and count |
| Hours.PrefixMeanBetween | app/js/app.js:148-156 | the monthly average lies between the smallest and largest recorded hours |
| Hours.WindowMeanBetween | app/js/app.js:136-143 | the weekly average lies between the smallest and largest recorded hours |
| Flags.HasFlag | app/js/app.js:37-40 | `loadFlag` reads a flag as set when the key holds a non-empty string (no contract of its own) |
| Flags.SetFlag | app/js/app.js:41-43 | afterwards the flag is set, and the other keys keep their values |
| Flags.SetFlagIdempotent | app/js/app.js:41-43 | setting a flag twice is the same as setting it once |
| Flags.IsStale | app/js/app.js:59 | the key starts with `motivated-` and is not the current month's flag (no contract of its own; `Flags.PruneMonthly` states its use) |
| Flags.PruneMonthly | app/js/app.js:55-63 | no `motivated-` key of another month remains; every other key is kept with its value; no key is added |
| Flags.PruneMonthlyIdempotent | app/js/app.js:55-63 | pruning twice in a month is the same as pruning once |
| Flags.PruneKeepsCurrentFlag | app/js/app.js:59 | the current month's flag survives pruning, set or unset as it was |
| Flags.PruneDropsOtherFlag | app/js/app.js:59 | the flag of any other month is gone after pruning |
| Tracker.ClearedFlag | app/js/app.js:67-68 | `'tasksCleared-' + dateKey` (no contract of its own) |
| Tracker.MotivatedFlag | app/js/app.js:189 | `'motivated-' + ym` (no contract of its own) |
| Tracker.TargetKey | app/js/app.js:29-34 | `'dailyTarget-' + targetDateKey()` (no contract of its own; see `Tracker.TargetCarriesOver`) |
| Tracker.CurrentMonth | app/js/app.js:56 | `new Date().toISOString().slice(0,7)` (no contract of its own) |
| Tracker.NoonResetDue | app/js/app.js:69 | the hour is 12 or later and today's cleared flag is unset (no contract of its own; see `Tracker.Store.ClearTasksAtNoon`) |
| Tracker.NoonResetOncePerDay | app/js/app.js:65-74 | once the list was cleared on a date, no later poll on that date clears it again |
| Tracker.MotivationDue | app/js/app.js:190 | monthly statistics are active, the goal is reached for this month's tasks and the month's flag is unset (no contract of its own) |
| Tracker.MotivationOncePerMonth | app/js/app.js:189-193 | after the 80% message fired, no later evaluation in the same calendar year and month fires it again, whatever the tasks are, even after the start-up pruning |
| Tracker.NewMonthRearms | app/js/app.js:55-63 | at a date in a different calendar month, pruning drops the flag of the month the message last fired in, so it fires again once the goal is reached |
| Tracker.TargetCarriesOver | app/js/app.js:46-53 | a daily target saved from 20:00 on is filed under the same key that is read on the next day before 20:00 |
| Tracker.CountCompleted | app/js/app.js:201-202 | the number of completed tasks is at most the list length |
| Tracker.OnCalendar | app/js/app.js:202 | the task is completed and records when (no contract of its own) |
| Tracker.EventOf | app/js/app.js:202-205 | a completed task's event carries its description and starts on `dateCompleted.slice(0,10)`: the first ten characters of the stamp, or all of it when shorter |
| Tracker.TaskEvents | app/js/app.js:201-207 | every completed task has its event and every event is that of a completed task; for well-formed lists there is one event per completed task |
| Tracker.TaskEventsInOrder | app/js/app.js:201 | events follow list order: the events of a list's front come before those of its back |
| Tracker.CompletedTaskOnCalendar | app/js/app.js:111-113 | after an open task is completed at an instant, the calendar holds its description on that instant's date key |
| Tracker.HourEvents | app/js/app.js:209-211 | one event per hours entry, in entry order, carrying its date and hours |
| Tracker.CalendarEvents | app/js/app.js:198-211 | the event list is the completed tasks' events followed by one event per hours entry in entry order; for well-formed lists its length is their number plus the entries |
| Tracker.ApplyBackup | app/js/app.js:305-306 | a field present in the backup replaces its ledger; an absent field leaves it untouched |
| Tracker.ExportBackup | app/js/app.js:287 | importing an export restores both ledgers, whatever the store held before |
| Tracker.Store.constructor | app/js/app.js:14-24 | an empty store reads as no tasks, no hours and no flags |
| Tracker.Store.ResetMonthlyFlags | app/js/app.js:55-63 | the loop over the keys leaves exactly the pruned entries; the ledgers are unchanged |
| Tracker.Store.ClearTasksAtNoon | app/js/app.js:65-74 | from noon, when the date's flag is unset, the list is emptied and the flag set; otherwise nothing changes |
| Tracker.Store.AddTask | app/js/app.js:231-242 | the task list becomes the add-task result on the old list, stamped with the current time; the other fields are unchanged (the chart refresh that follows at line 244 is the separate step `Tracker.Store.UpdateChart`) |
| Tracker.Store.CompleteTask | app/js/app.js:108-114 | the task list becomes the completion of task i at the current time; the other fields are unchanged (the chart refresh that follows at line 116 is the separate step `Tracker.Store.UpdateChart`) |
| Tracker.Store.SaveHours | app/js/app.js:248-254 | the hours ledger becomes the guarded save under today's key; nothing else changes |
| Tracker.Store.SaveDailyTarget | app/js/app.js:260-263 | a non-blank target is stored trimmed under `dailyTarget-` plus the effective day; blank input changes nothing; afterwards the target read for that instant is the trimmed text |
| Tracker.Store.DailyTarget | app/js/app.js:28-35 | reads back the trimmed text the last non-blank save filed under the effective day (the round trip is in `Tracker.Store.SaveDailyTarget`), or `''` when none is stored |
| Tracker.Store.UpdateChart | app/js/app.js:162-193 | before 2025-08-01 nothing is shown; otherwise the pie holds this month's counts, and the message fires (and sets its flag) exactly when it is due |
| Tracker.Store.UpdateAverages | app/js/app.js:130-157 | the weekly value is the mean over the current week's recorded days; the monthly value, shown from 2025-08-01 on, is the mean over the month's entries; the weekly divisor is the number of the week's dates with an entry (at most 7) and the monthly one the number of distinct dates of the month |
| Tracker.Store.ShowSummary | app/js/app.js:267-278 | no month picked shows nothing; otherwise the month's completion rate and mean hours, divided by the number of distinct recorded dates with the month prefix |
| Tracker.Store.Import | app/js/app.js:302-306 | the ledgers become the import rule applied to the old ledgers; the flags and targets are unchanged |

## Left out

- DOM rendering, Chart.js and FullCalendar construction, `alert`, `confirm`, `location.reload`, the `setTimeout`/`setInterval` scheduling and the `Math.random` quote are browser side effects with no logic to state.
- The reset-all button (`localforage.clear`) is a store-wide wipe followed by a reload. It is not modelled.
- `app/service-worker.js` is not part of this model. It is cache I/O only.
- The store is asynchronous in the app. Here it is a synchronous object, and the handlers run one at a time.
- `JSON.parse`, `FileReader`, `Blob` and the export download are left out. Only the import and export rule on the parsed object is modelled, and imported values are taken to be well-typed, because the code validates nothing.
- Calendar.ValidInstant: time zones are not modelled. `toISOString` works in UTC while `getHours`, `getDay` and `new Date(y, m, d + 1)` use local time; the model takes them to agree, as on a UTC clock.
- Calendar.TargetDateKey: on a clock ahead of UTC the code files an evening target under today. At UTC+05:30 and 21:00 local, `new Date(y, m, d + 1)` is local midnight, which is 18:30 UTC of today, so `toISOString()` gives today's date (app/js/app.js:49-50). `Calendar.TargetDayBoundary` and `Tracker.TargetCarriesOver` hold only on a UTC clock.
- Calendar.ValidInstant: the clock is limited to the years 1 to 9998, so every derived date keeps a four-digit ISO year.
- `toFixed` formatting and IEEE floating point are not modelled. Hours are reals, and `parseFloat` becomes an `Option<real>`, with `None` for NaN.
- Hours.SaveHours: `parseFloat('Infinity')` passes the code's guard, and the model does not cover it. The code accepts it.
- Tasks.GoalReached: the ratio test `done / total >= 0.8` is written in integers as `5 * done >= 4 * total`.
- Tasks.Complete: the code throws a TypeError on an index with no task, before saving anything. The model leaves the list unchanged instead.
- Tasks.DoneIn: a completed task without `dateCompleted` can only come from an import, and the code throws on it. The model counts it as not done.
- Tracker.TaskEvents: such a task is likewise left off the calendar.
- Validation failures are not reported as errors: the handlers return silently, as the code does.
