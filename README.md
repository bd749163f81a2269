# Productivity Master: activity timer and daily summary, in Dafny

This project models the core of the single-file Streamlit app `app.py`. That core is the activity timer. It has four parts:

- the **activity catalog**, a dict from key to name, target duration and color;
- the **session tracker**, which holds at most one running activity (`current_activity`, `start_time`);
- the **append-only log**, which gets one record per finished session;
- the **daily summary**, which totals each activity's time for today.

Small pure helpers are modelled too: `format_duration`, the target conversion of the add-activity form, the calendar tab's month navigation, and its list of upcoming events.

Files:

- `durations.dfy`: module `Optional` (an `Option` type) and module `Durations`. The latter holds the hours/minutes/seconds split, the `"HHh MMm SSs"` rendering with a parser that inverts it, and the Hours/Minutes/None target conversion.
- `tracker.dfy`: module `ActivityTracker`.
  - The tracker state is a datatype `State`.
  - The handlers are pure transitions (`StopState`, `StartState`, `AddState`, `DeleteState`).
  - `Summary` is the specification of the day's summary.
  - Lemmas state the session and aggregation laws.
  - The class `Tracker` keeps the state in fields updated in place. Each of its methods is proved equal to the matching transition. `TodaySummary` keeps the source's nested loops and is proved equal to `Summary`.
  - A few client methods play the usage scenarios on the class.
- `calendar.dfy`: module `Calendar`. It has Gregorian dates, the previous/next month buttons (with the class `CalendarView` for `calendar_view`), and the upcoming-events strip.

Modelling choices:

- The wall clock is a parameter `now`: local time in whole seconds. A calendar day is `DayOf(now) = now / 86400`.
- Durations are whole seconds, not floats.
- `st.rerun()` is treated as a no-op, so every handler runs to its end as written. The "no silent overwrite" property holds under either reading.

On these points the model follows the code:

- A log record counts toward **every** catalog entry whose display name equals the record's `activity`. There is no `break`, so it is not skipped when several entries match.
- The duration is `now - start_time` with no clamping at zero.
- The add form needs both a name and an emoji.
- The summary is always for the current day.
- A stored target of 0 counts as "no target", because of Python truthiness.
- `stop_activity` leaves `start_time` as it was.

## Model

| member | source | states |
|---|---|---|
| `Durations.Split` | app.py:209-211 | the two floor divmods give h, m, s with h*3600 + m*60 + s equal to the input, 0 <= m < 60, 0 <= s < 60, and h >= 0 exactly when the input is >= 0 |
| `Durations.SplitUnique` | app.py:209-211 | any clock with minutes and seconds below 60 that adds up to the input is the split |
| `Durations.Pad2Parses` | app.py:212 | each `02d` field reads back as the number it shows, negative hours included |
| `Durations.FormatDuration` | app.py:209-212 | the text is the hours field followed by `h MMm SSs` with two-digit minutes and seconds; below 100 hours it is exactly 11 characters with two-digit hours; the three fields read back as `Split`'s hours, minutes (< 60) and seconds (< 60) |
| `Durations.FormatDurationRoundTrip` | app.py:209-212 | the text returned by `format_duration` parses back to exactly the input seconds |
| `Durations.FormatDurationInjective` | app.py:209-212 | two different durations never render to the same text |
| `Durations.TargetSeconds` | app.py:251-252 | the target is None iff the unit is "None" or the target is not above zero; otherwise it is positive: target*3600 for Hours, target*60 for Minutes |
| `Durations.HoursTargetDisplay` | app.py:251-252 | a target of N hours is listed as N h 00 m 00 s |
| `Durations.MinutesTargetDisplay` | app.py:251-252 | a target of N minutes is listed as N/60 hours and N%60 minutes |
| `ActivityTracker.DefaultState` | app.py:143-173 | the initial state is valid, idle, has an empty log and holds the five default keys |
| `ActivityTracker.Finalize` | app.py:371-381 | the record carries the display name, the day of `now`, the start time and `now - start_time`; for a positive target it is completed iff the duration reaches it; with a zero or missing target it is never completed |
| `ActivityTracker.StopState` | app.py:368-385 | after stop, nothing runs; catalog and start time are unchanged; when idle the state is unchanged; when a session runs, exactly its `Finalize` record is appended to the log |
| `ActivityTracker.StartState` | app.py:362-366 | after start, the key runs from `now`, the catalog is unchanged, the state stays valid, and the log is what stopping the previous session leaves (unchanged when idle) |
| `ActivityTracker.StartFinalizesPrevious` | app.py:362-365 | starting while a session runs appends exactly one record for the previous session before the new one begins |
| `ActivityTracker.StopIdempotent` | app.py:368-369 | a second stop does nothing, so two stops give one record |
| `ActivityTracker.AddState` | app.py:248-262 | with name or emoji empty the state is unchanged; otherwise the key maps to `"{emoji} {name}"` with the converted target and color, other entries are kept, and a new key is appended to the order |
| `ActivityTracker.RemoveKey` | app.py:281 | removing a key from the order keeps exactly the others, distinct, in their relative order |
| `ActivityTracker.DeleteState` | app.py:278-283 | delete first stops the session if it belongs to the key (one record), then removes the key from catalog and order; the start time is kept in both cases; another running session and the log are untouched |
| `ActivityTracker.DeleteRunning` | app.py:278-283 | deleting the running activity logs its session, leaves the tracker idle and drops its summary bucket |
| `ActivityTracker.Summary` | app.py:214-216 | the summary has one bucket per catalog key, and only those |
| `ActivityTracker.SummaryFromLogged` | app.py:226-229 | the summary is the log's buckets with the elapsed time added only to the running key's total, never to its completed flag |
| `ActivityTracker.LoggedSnoc` | app.py:218-224 | one more record adds its duration, and its completion, to the buckets whose name and day it matches, and changes nothing else |
| `ActivityTracker.LoggedTotalIsFilteredSum` | app.py:218-222 | the logged total is the sum of durations over the records filtered by day and display name |
| `ActivityTracker.AnyCompletedIff` | app.py:223-224 | the completed flag is set iff some record of that day with that display name is completed |
| `ActivityTracker.NoMatchesLogsNothing` | app.py:216-219 | with no record dated that day, the log contributes total 0 and not completed |
| `ActivityTracker.SummaryLaw` | app.py:214-231 | aggregation law: total = sum over today's records with the key's display name + (now - start_time if the key is running); completed iff one of those records is completed |
| `ActivityTracker.EmptyDaySummary` | app.py:214-231 | with no record today and nothing running, every bucket is total 0, not completed |
| `ActivityTracker.StopConservesTime` | app.py:368-385 | stopping loses no time: the running key's total is kept, keys sharing its display name gain the duration, others are unchanged; a flag becomes set only by a record that reached its target |
| `ActivityTracker.StopKeepsTotalsWhenNamesDistinct` | app.py:368-385 | with distinct display names, stopping leaves every total of the day unchanged |
| `ActivityTracker.CompletionPersists` | app.py:382 | since records are only appended, a day's completed flag never goes back to false |
| `ActivityTracker.SharedNameSharesHistory` | app.py:220-222 | two keys with the same display name, neither running, get the same bucket: history follows the name, not the key |
| `ActivityTracker.CreditMatching` | app.py:220-224 | the inner loop credits a record to every catalog key whose display name it carries and leaves the other buckets as they were |
| `ActivityTracker.Tracker.constructor` | app.py:143-173 | the tracker starts in the default state |
| `ActivityTracker.Tracker.Stop` | app.py:368-385 | the fields change exactly as `StopState` says, and validity is kept |
| `ActivityTracker.Tracker.Start` | app.py:362-366 | the fields change exactly as `StartState` says, and validity is kept |
| `ActivityTracker.Tracker.Toggle` | app.py:357-360 | the activity button stops the running key and starts any other key |
| `ActivityTracker.Tracker.AddActivity` | app.py:248-262 | reports acceptance iff name and emoji are non-empty; the fields change exactly as `AddState` says |
| `ActivityTracker.Tracker.DeleteActivity` | app.py:278-283 | the fields change exactly as `DeleteState` says, and validity is kept |
| `ActivityTracker.Tracker.TodaySummary` | app.py:214-231 | the nested loops compute exactly `Summary` of the current state |
| `ActivityTracker.CourseScenario` | app.py:362-385 | with a two-hour target, running `course` for 8000 s logs one completed record, and the day's bucket is 8000 s, completed |
| `ActivityTracker.AutoStopScenario` | app.py:362-366 | starting `course` while `gym` runs logs exactly one `gym` record; `course` runs; the catalog still has all five keys |
| `ActivityTracker.DoubleStopScenario` | app.py:368-385 | start, then stop twice, logs one record |
| `ActivityTracker.DeleteRunningScenario` | app.py:278-283 | deleting the running `gym` logs one record, and the summary has no `gym` bucket |
| `Calendar.DayStepsInverse` | app.py:479 | one day back and one day forward undo each other |
| `Calendar.NextMonth` | app.py:484-486 | "Next Month" lands on day 1 of the month after the viewed one |
| `Calendar.PrevMonthAsWritten` | app.py:478-480 | "Previous Month" as written lands on a valid day 1 |
| `Calendar.PrevMonthAsWrittenFromFirst` | app.py:478-480 | as written, it reaches the previous month only from day 1 |
| `Calendar.PrevMonthAsWrittenMidMonth` | app.py:478-480 | as written, from any later day it stays in the same month |
| `Calendar.PrevMonthAsWrittenCounterexample` | app.py:478-480 | as written, 2026-10-16 goes to 2026-10-01 |
| `Calendar.PrevMonth` | app.py:478-480 | corrected: lands on day 1 of the month before the viewed one |
| `Calendar.MonthNavigationRoundTrip` | app.py:478-486 | next then (corrected) previous, and previous then next, return to day 1 of the viewed month |
| `Calendar.CalendarView.constructor` | app.py:152 | the view starts at today's date |
| `Calendar.CalendarView.PreviousMonth` | app.py:478-480 | the view moves to the corrected previous month |
| `Calendar.CalendarView.FollowingMonth` | app.py:484-486 | the view moves to the next month |
| `Calendar.DueFrom` | app.py:443-445 | every event kept is stored and due today or later, and every such stored event is kept |
| `Calendar.DueFromCounts` | app.py:443-445 | the filter keeps every copy of an event due today or later and no copy of a past event |
| `Calendar.DueFromAppend` | app.py:443-445 | the filter keeps the stored order: filtering a concatenation concatenates the filtered parts |
| `Calendar.SortByDue` | app.py:443-446 | the result is ordered by due time and is a permutation of the input |
| `Calendar.Upcoming` | app.py:443-447 | the strip holds min(7, n) of the n events due today or later, in due order, each at most as often as it is due |
| `Calendar.UpcomingIsPrefix` | app.py:443-447 | the strip is the first min(7, n) of the n sorted events due today or later |
| `Calendar.UpcomingShowsDueEvents` | app.py:443-447 | every event shown is stored and not past, the strip is in due order, and it is a sub-multiset of the due events |
| `Calendar.UpcomingShowsEarliest` | app.py:443-447 | no due event left off the strip is due before an event shown |

## Findings

| source | as written | input that shows it | evidently intended | confidence | as-written member | corrected member |
|---|---|---|---|---|---|---|
| app.py:478-480 | "Previous Month" sets the view to (view - 1 day) with day 1. The view starts at today's date (app.py:152). | view 2026-10-16 goes to 2026-10-01, so the heading still reads October 2026 | day 1 of the previous month (2026-09-01) | high; not executed | `Calendar.PrevMonthAsWritten` (`Calendar.PrevMonthAsWrittenCounterexample`, `Calendar.PrevMonthAsWrittenMidMonth`) | `Calendar.PrevMonth` (used by `Calendar.CalendarView.PreviousMonth`) |

## Left out

- Rendering: all `st.*` calls, HTML/CSS strings, columns, forms, expanders, toasts and the corner timer display are UI without logic.
- Persistence: `load_data`, `save_data` and `reset_tab` do JSON file I/O. Only the default catalog is modelled, so the save/reload round trip is not.
- `st.rerun()` and `st_autorefresh`: they re-run the script and hold no business logic. The model reads rerun as a no-op.
- Key generation: the lower-cased name with spaces removed plus four characters of a random UUID is foreign randomness. The key is a parameter. Like the source, the model does not check for collisions: a colliding key replaces the entry.
- Wall clock: `datetime.now()` and `date.today()` are parameters. ISO and `strftime` strings are abstract day numbers and timestamps.
- Floating point: `total_seconds()` is modelled as whole seconds. The progress bar `min(total / duration, 1.0)` is not modelled.
- Python date range: `date` supports years 1 to 9999 only, and the source fails outside it. The model's years are unbounded.
- Upcoming-event details: the weekday label, `days_until` and text truncation are not modelled.
- Notes, reminders, calendar-event add/delete and the calendar grid are peripheral list CRUD and layout.
- `ActivityTracker.Tracker.Start`: it requires the key to be in the catalog. The source does not check, but its only caller offers catalog keys only.
- `ActivityTracker.Tracker.DeleteActivity`: it requires the key to be in the catalog. The source does not check, but its only caller offers catalog keys only.
- `ActivityTracker.Finalize`: the source stores `completed` as the value of a Python `and`, which can be None, 0 or a bool. The model stores its truth value.
- Activity keys: the source tests for a running session by truthiness, so an empty key would read as idle, while the model treats every `Some(key)` as running. Generated keys always end in four UUID characters and the default keys are non-empty, so the two agree on every key the program creates.
- `Calendar.SortByDue`: it keeps events with equal due times in their stored order, like Python's stable sort. No lemma states this stability.
