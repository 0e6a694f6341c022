# Activity store and timers of a daily time tracker, in Dafny

This project models the core of a React time-tracking application: the activity
store in `App.tsx` and the per-item timer and urgency arithmetic in
`components/ActivityItem.tsx`. It proves properties of that model.

The store is a sequence of activity records (`ActivityEntry`). Each record has a
stopwatch (`TimerState`), a status (Pending, Completed, Rescheduled), an optional
alarm minute and a move history. The model covers:

- **Timer reconciliation** (`Timers`). `handleUpdateTimer` writes the requested
  timer into its target. A start first stops every other running timer and folds
  its unfinished session into its total.
- **Store transitions** (`Transitions`, `Schedule`). These are the status change,
  the move to another date, and create or edit.
  - Create and edit are replicated over the weekdays or weekend days of the
    selected date's Monday-started week.
  - The date loop is a `method` proved against the function `SyncedDates`.
- **Alarm** (`Alarm`). One tick picks the first due record of the current minute
  and holds a copy of it until it is dismissed, started, or replaced by a later
  tick whose first due record has another id.
- **Item controls** (`ActivityItem`). These are the timer commands the toggle and
  complete buttons send, the elapsed time on display, `formatTime`, and the
  days-since-move / urgent / days-remaining fields.
- **Aggregates** (`Aggregates`):
  - the records of the selected day and the completion percentage;
  - the pending / backlog / moved lists and the minutes they need;
  - the per-category report over a window, as a `method` whose loop fills a map
    in place;
  - `formatMs`.
- **The stateful shell** (`App.Store`). It is a class holding `activities`,
  `activeAlarmTask` and `editingActivity`. Each event handler is a method that
  assigns the state its specification function computes and keeps the store
  invariant: distinct ids, at most one running timer, and `lastStartTime` set
  exactly while running.

Representation choices:

- Dates are day numbers counted from 1970-01-01 (`Calendar`). Comparing two
  zero-padded `YYYY-MM-DD` strings is the same as comparing their day numbers.
- The day of the week follows `Date.getDay()` numbering. Month and year come from
  the proleptic Gregorian calendar.
- Clock readings (`Date.now()`, today's date, the current hour and minute) are
  parameters.
- The ids the source draws from `Math.random` are a parameter. They are required
  to be distinct and not already in the store.
- An absent `timer` is read as the stopped zero timer, as every `?.` and `|| 0` in
  the source reads it.
- JavaScript truthiness of a possibly-null number is modelled, because the source
  tests `lastStartTime` and `movedAt` for truthiness: `0` is falsy.
- `%` on a possibly negative number is JavaScript's truncating remainder (`JsRem`).

Behaviour of the code that the model keeps, although one might expect otherwise:

- A start request whose id is in no record still stops every running timer and
  starts none (`Timers.StartUnknownIdStopsAll`).
- No store operation enforces "a Completed record is not running".
  - The item only offers its timer buttons while the record is not Completed.
  - `App.Store.ToggleTimer` and `App.Store.CompleteActivity` keep it.
  - Starting a held alarm after its record was completed breaks it
    (`Alarm.StaleAlarmRunsCompletedRecord`). The held alarm is a copy taken when it
    was raised, and that copy's elapsed time is written back.
- A move does not require the new date to differ from the old one. A record can
  be "moved" to its own date and become Rescheduled.
- The alarm takes the first due record in store order. The code does not require
  that only one record is due.
- Dismissing an alarm does not silence its minute. The next tick in the same
  minute raises it again (`Alarm.DismissedAlarmComesBack`).
- An edit replicates over the week of the selected date, not the week of the
  record being edited.
- The weekly report window has no bound on future dates: every record dated after
  the anchor is in it.
- The Quarterly and Half-Yearly reports are always empty.

## Model

| member | source | states |
|---|---|---|
| Calendar.StartOfWeek | App.tsx:129-132 | the week start computed from the day of the week is a Monday, on or before the date and less than seven days before it |
| Text.Pad2 | App.tsx:39 | `padStart(2, '0')` of a number below 100 is two digits that read back as that number |
| Text.JsRem | App.tsx:250 | the truncating `%`: equal to the mathematical remainder for non-negative operands, in (-b, 0] for negative ones, and always congruent to the operand modulo `b` |
| Text.NatToString | components/ActivityItem.tsx:36 | the decimal text of a natural number is all digits, one digit exactly below 10, and starts with `0` only for zero |
| Text.ParseNatToString | components/ActivityItem.tsx:36 | the decimal text of a natural number reads back as that number |
| Timers.UpdateTimer | App.tsx:189-206 | length, order and every non-timer field are kept; the target gets `{isActive, elapsed, now or null}`; on a start every other running record is stopped with `total + (now - (lastStartTime or 0))`; after a start only records with the target id run; a stop changes nothing but the target |
| Timers.StartUnknownIdStopsAll | App.tsx:191 | a start for an id in no record leaves no timer running |
| Timers.UpdateTimerKeepsInvariant | App.tsx:189-206 | every timer update keeps distinct ids, at most one running timer and `lastStartTime` set exactly while running |
| Timers.StartThenStop | App.tsx:189-206 | a start and a stop of the same record at the same instant leave it stopped with the given elapsed time and nothing running |
| Transitions.UpdateStatus | App.tsx:170-172 | records with the id take the new status and change in nothing else; other records are unchanged |
| Transitions.MoveToDate | App.tsx:174-187 | records with the id take the new date, status Rescheduled, their old date as `movedFromDate` and `now` as `movedAt`; other records are unchanged |
| Transitions.StatusKeepsInvariant | App.tsx:170-172 | a status change keeps the store invariant |
| Transitions.MoveKeepsInvariant | App.tsx:174-187 | a move keeps the store invariant |
| Transitions.UpdateStatusIdempotent | App.tsx:170-172 | setting the same status twice is setting it once |
| Transitions.NewEntries | App.tsx:158-164 | one record per synchronised date, in date order, each Pending with the zero stopped timer, no move history, the creation instant and the form's fields |
| Transitions.Create | App.tsx:158-165 | creation keeps the existing records untouched and appends exactly `NewEntries`, one Pending, stopped record per date in date order; with fresh distinct ids it keeps the store invariant |
| Transitions.Edit | App.tsx:143-155 | the edited record and, when replication is on, every record on a synchronised date with the edited record's old description and type, take the form's fields; id, date, status, timer and history of every record are kept; other records are unchanged |
| Transitions.EditWithoutRepeatTouchesOnlyTarget | App.tsx:145-153 | without replication only the edited record can change |
| Transitions.EditKeepsInvariant | App.tsx:143-155 | an edit keeps the store invariant |
| Schedule.DatesToSync | App.tsx:127-141 | the loop computes exactly `SyncedDates` of the selected date and mode |
| Schedule.WeekPicksInRange | App.tsx:133-140 | every date the loop pushes is in the week, is not the selected date and matches the mode |
| Schedule.WeekPicksIncreasing | App.tsx:133-140 | the pushed dates are in increasing order |
| Schedule.WeekPicksComplete | App.tsx:133-140 | every day of the week that matches the mode and is not the selected date is pushed |
| Schedule.SyncedDatesSpec | App.tsx:127-141 | the selected date comes first and is never repeated; the rest are the other days of its Monday week that the mode wants, in increasing order, all of them; mode none gives the selected date alone |
| Schedule.WednesdayWeekdays | App.tsx:127-141 | from a Wednesday with mode weekdays the dates are that Wednesday, then Monday, Tuesday, Thursday and Friday |
| ActivityItem.DisplayElapsed | components/ActivityItem.tsx:18-29 | the shown time is the total, plus `now - lastStartTime` exactly while the timer runs from a truthy start |
| ActivityItem.DisplayElapsedMonotone | components/ActivityItem.tsx:20-26 | the shown time never decreases as `now` advances |
| ActivityItem.ToggleTimer | components/ActivityItem.tsx:39-46 | the command names the record and flips its running state; a stopped record restarts from its total; a record running from a truthy start stops with the shown elapsed time |
| ActivityItem.StopTimer | components/ActivityItem.tsx:48-53 | the complete button's command stops the record with exactly the elapsed time on display |
| ActivityItem.ToggleRoundTrip | components/ActivityItem.tsx:39-46 | toggling a stopped record twice at one instant leaves it stopped with its total unchanged and nothing running |
| ActivityItem.ToggleKeepsShownElapsed | components/ActivityItem.tsx:39-46 | a toggle changes no record's shown elapsed time at that instant: sessions are folded, never lost or counted twice |
| ActivityItem.CompleteStopsAndCompletes | components/ActivityItem.tsx:48-55 | `Complete` (stop command, then status change) leaves the record Completed and stopped with the shown elapsed time as its total, every other record unchanged, and the store invariant kept |
| ActivityItem.ControlsKeepCompletedStopped | components/ActivityItem.tsx:126-146 | the two buttons, offered only on records that are not Completed, never leave a Completed record running |
| ActivityItem.FormatTime | components/ActivityItem.tsx:31-37 | for non-negative `ms` the text ends in two digits of minutes within the hour, a colon and two digits of seconds within the minute; from one full hour on, and only then, it starts with the decimal hour count, without a leading zero, and a colon |
| ActivityItem.FormatTimeRoundTrip | components/ActivityItem.tsx:31-37 | reading the clock text back gives `floor(ms / 1000)` seconds |
| ActivityItem.DaysSinceMoved | components/ActivityItem.tsx:57 | 0 for records never moved; otherwise the whole number of days since the move (floor) |
| ActivityItem.DaysRemaining | components/ActivityItem.tsx:59 | present exactly for moved records; never negative; at most 7 once the move is in the past; 0 exactly from seven full days after the move, otherwise `7 - d` while `d` full days have passed (`max(0, 7 - daysSinceMoved)`); urgent exactly when at most 2 are left |
| ActivityItem.UrgentFromFiveDays | components/ActivityItem.tsx:57-58 | `IsUrgent`: a moved record is urgent exactly when five full days have passed since the move |
| ActivityItem.MoveOpensFullWindow | components/ActivityItem.tsx:57-59 | right after a move the record is Rescheduled from its old date, has 7 days left and is not urgent |
| Alarm.FormatHM | App.tsx:39 | the current minute is five characters `HH:MM`, both fields all digits, reading back as the hour and the minute |
| Alarm.FormatHMInjective | App.tsx:39 | different minutes of the day give different texts |
| Alarm.FindDue | App.tsx:42-48 | none exactly when no record is due; otherwise the first due record in store order |
| Alarm.Tick | App.tsx:50-53 | the alarm is raised exactly when there is a first due record (`FindDue`) and no held alarm has its id; it then holds that record, otherwise keeps the held one |
| Alarm.Dismiss | App.tsx:91-94 | nothing is held afterwards |
| Alarm.StartFromAlarm | App.tsx:96-101 | with an alarm held, its record is started from the held copy's elapsed time and the alarm cleared; with none, nothing changes |
| Alarm.NineOClockScenario | App.tsx:37-54 | a 09:00 record is raised at 09:00 and kept without a new cue at 09:01 |
| Alarm.HeldAlarmIsNotRaisedAgain | App.tsx:50 | once raised, further ticks with the same record due raise nothing |
| Alarm.LaterDueRecordReplacesHeld | App.tsx:50-51 | a held alarm is replaced, and the cue raised again, by a tick whose first due record has another id, without a dismissal or a start |
| Alarm.DismissedAlarmComesBack | App.tsx:50-94 | after a dismissal, a tick with the record still due raises the same alarm again |
| Alarm.StartFreshAlarm | App.tsx:96-101 | starting a freshly raised alarm runs exactly the due record, from `now`, with its stored total |
| Alarm.StaleAlarmRunsCompletedRecord | App.tsx:96-99 | starting a held alarm whose record has since been completed runs that Completed record |
| Aggregates.DashboardActivities | App.tsx:208 | the records of the selected date, each as often as in the store, and no others |
| Aggregates.FilterConcat | App.tsx:208 | filtering keeps store order: the filter of a concatenation is the concatenation of the filters |
| Aggregates.FilterCount | App.tsx:208 | a filter keeps each matching record as often as in the input and drops every other one |
| Aggregates.DashboardOfAppend | App.tsx:208 | after records are appended, the dashboard is the old dashboard followed by the appended records of the selected date |
| Aggregates.RoundedPercent | App.tsx:212 | `round(100 * completed / total)` with halves rounded up: the bounds that define it, 0..100, 0 for none and 100 for all |
| Aggregates.CompletedOfDay | App.tsx:211 | when every record of the day is Completed all count as completed; when none is, none counts |
| Aggregates.CompletionRate | App.tsx:209-213 | 0..100; 0 on a day without records; otherwise the rounded share of Completed records; 100 when all are Completed; 0 when none is |
| Aggregates.BacklogStats | App.tsx:215-221 | pending holds the Pending records of today, backlog the earlier Pending ones, moved every Rescheduled one, each as often as in the store and no others; pending and backlog are disjoint and together hold every Pending record up to today; the minutes are those of those records |
| Aggregates.MinutesSplit | App.tsx:220 | adding the minutes of two disjoint filters is adding the minutes of their union filter |
| Aggregates.IntervalActivities | App.tsx:226-233 | the records in the window, each as often as in the store, and no others; Quarterly and Half-Yearly keep none; Weekly keeps every record dated on or after the anchor |
| Aggregates.FirstSeenSpec | App.tsx:234-238 | the report's categories are exactly those of the records in the window, each once |
| Aggregates.Summarize | App.tsx:234-237 | the accumulator maps exactly the categories seen, in first-seen order, each to its summed `estimatedDuration + overtime` |
| Aggregates.ReportData | App.tsx:224-238 | one entry per category of the window, in first-seen order, carrying its summed minutes |
| Aggregates.ReportEntries | App.tsx:234-238 | the entries of the folded object: one per category of the records, in first-seen order, each with its summed minutes |
| Aggregates.DailyReportScenario | App.tsx:228-235 | two Work records of 30 + 0 and 15 + 5 minutes on the day report Work: 50 |
| Aggregates.FormatMs | App.tsx:247-252 | for non-negative `ms` the text is the decimal whole minutes without a leading zero, a colon, and two digits of seconds within the minute |
| Aggregates.FormatMsRoundTrip | App.tsx:247-252 | reading the text back gives `floor(ms / 1000)` seconds |
| App.Store.constructor | App.tsx:11-20 | the store starts with no records, no alarm and nothing being edited, and satisfies the invariant |
| App.Store.HandleUpdateTimer | App.tsx:189-206 | the records become `UpdateTimer` of the old ones; the invariant is kept |
| App.Store.UpdateActivityStatus | App.tsx:170-172 | the records become `UpdateStatus` of the old ones; the invariant is kept |
| App.Store.HandleMoveToDate | App.tsx:174-187 | the records become `MoveToDate` of the old ones; the invariant is kept |
| App.Store.OpenEditor | App.tsx:346 | the editor holds the given record |
| App.Store.HandleAddOrEditActivity | App.tsx:118-168 | with a record in the editor the records become its edit over the synchronised dates and the editor closes; otherwise exactly `NewEntries` is appended after the untouched records; the invariant is kept |
| App.Store.AlarmTick | App.tsx:37-54 | the held alarm and the cue are those `Tick` computes at the padded current minute |
| App.Store.DismissAlarm | App.tsx:91-94 | nothing is held afterwards |
| App.Store.StartTaskFromAlarm | App.tsx:96-101 | records and alarm become those of `StartFromAlarm`; the invariant is kept |
| App.Store.ToggleTimer | components/ActivityItem.tsx:39-46 | the toggle command is handled by the store; the invariant is kept, and no Completed record is left running |
| App.Store.CompleteActivity | components/ActivityItem.tsx:48-55 | the stop command and then the status change are handled; the record ends Completed and stopped; the invariant is kept |

## Left out

- Rendering (the JSX of `App.tsx` and `components/ActivityItem.tsx`). `components/BlockCard.tsx` is not part of this model: it is presentation only.
- The audible alarm (App.tsx:56-89). It uses the Web Audio API and `setInterval`. `App.Store.AlarmTick` only returns whether the cue starts.
- The one-second ticks and their cleanup (App.tsx:28-29, components/ActivityItem.tsx:21-28). A tick is a call with an explicit `now`. The display value is computed at that instant, so the up-to-one-second lag of the on-screen counter is not modelled.
- Loading and saving in `localStorage` (App.tsx:25-34). This is I/O. The store starts empty, so a malformed saved state, which could break the invariant, is not modelled.
- `services/geminiService.ts` is not part of this model. It is a call to an external API.
- `components/ActivityModal.tsx` is not part of this model. It is form state only. The form's values arrive as a `Form`.
- `sw.js` is not part of this model. It is a service-worker cache.
- `stats` (App.tsx:103-114) and `activeTask` (App.tsx:116) are display values and are not modelled.
- `Math.random` ids (App.tsx:159). They are a parameter, and the create path requires them fresh and distinct. Collisions are not modelled.
- Time zones. `Date` parses `YYYY-MM-DD` as UTC but answers `getDay`, `getMonth` and `getFullYear` in local time, and today's date comes from a UTC instant while the alarm minute is local. Dates here are plain day numbers, and the current day, hour and minute are parameters that are consistent with each other.
- The optional fields `rescheduledTo` and `blockId` of `ActivityEntry` (types.ts:28, 31). No core operation reads or writes them.
- Aggregates.BacklogStats: keeps the minutes needed as an integer, not the hours rounded to one decimal with `toFixed(1)` (App.tsx:221), which is floating-point formatting.
- Aggregates.RoundedPercent, Aggregates.CompletionRate: round the exact fraction half up, while the source rounds the floating-point value `completed / total * 100`. The two can differ only where floating-point error crosses a half.
- ActivityItem.FormatTime: the contract describes the text only for non-negative `ms`. Negative elapsed times, which the store never produces from a clock that does not go back, are computed with the truncating remainder but not characterised.
- Aggregates.FormatMs: as for `FormatTime`, the text is characterised only for non-negative `ms`.
- Milliseconds, minutes and instants are unbounded integers. JavaScript numbers are doubles, which are exact for these magnitudes.
