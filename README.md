# Voice Reminder — a verified model of the application core

Voice Reminder is a single-page browser application. The user schedules
one-time reminders that are spoken aloud (text-to-speech) when they fall due. It
also keeps an activity log, a countdown timer, free-form notes and a light/dark
theme. All state lives in one shared state object, mirrored into the
browser's key-value storage.

This project models the core of `app.js`:

- **Reminder store** (`reminder_store.dfy`, `App.ReminderApp.AddReminder`,
  `DeleteReminder`): `addReminder` pushes a pending record and re-sorts the list
  by due time with a stable sort. `deleteReminder` filters by id, and the home
  view shows the active records. Proved: the sort is sorted, a permutation,
  stable, and the identity on a sorted list. Push-then-sort equals insertion
  after every record due no later. Deletion keeps order and sortedness.
- **Scheduler** (`scheduler.dfy`, `App.ReminderApp.CheckReminders`,
  `CheckEach`, `CheckReminder`, `TriggerAlarm`, `StopAlarm`, `SnoozeAlarm`): the
  once-a-second tick fires every active, not-yet-fired reminder whose time has
  come, in list order. Each firing:
  - flips the record's flags;
  - saves the state;
  - speaks the text (or shows the unsupported-speech alert);
  - points the alarm overlay at the record;
  - logs an `Alarm`/`Played` entry;
  - posts a system notification when permission was granted.

  `triggerAlarm` reads `Notification.permission` without checking that the
  page has the Notification API (`init` does check before asking for
  permission). Where the API is missing, that read throws right after the
  entry is logged. The exception ends the `forEach`, so a tick then fires only
  the first due reminder, and the next one fires a second later. The model
  follows the code: the state object knows whether the API exists, the firing
  methods report the exception, and the loop stops at it (`Examined`,
  `FiredByTick`, `FiredByTickIsFirstDue`).

  The loop is proved against a closed form (`TickedUpTo`, `DueList`,
  `AddLogs`, `AllAlarmEffects`, `LastFired`). A tick, whole or ended by the
  exception, keeps the list sorted and every fired record inactive. About the
  whole tick, the one that runs when the API exists, the model proves:
  - nothing fires twice;
  - nothing overdue is left behind;
  - a second tick at the same instant does nothing;
  - firing order is time order on a sorted list.
- **Dashboard** (`dashboard.dfy`): the next upcoming reminder is the earliest
  active one still ahead, ties going to list order. The countdown is the whole
  seconds left, split into hours, minutes and seconds.
- **Activity log** (`activity_log.dfy`, `App.ReminderApp.AddLog`): `addLog` puts
  the entry on top and drops the bottom one past fifty. Any run of additions
  leaves the fifty newest entries, newest first.
- **Countdown timer** (`App.ReminderApp.StartTimer`, `TimerTick`, `StopTimer`,
  `Clock.SplitSeconds`, `Scenarios.RunTimer`): a run started with `m` minutes
  fires exactly `60·m` times. Its last firing speaks and logs the message once.
  The display's h/m/s split is exact.
- **Notes, log clearing, theme, storage** (`App.ReminderApp.SaveNote`,
  `DeleteNote`, `ClearLogs`, `ToggleTheme`, `Load`, `Save`, `persistence.dfy`).

The state object is the class `App.ReminderApp`. Its methods update its fields
in place and call each other as the functions of `app.js` do: `addReminder`
calls `addLog` then `saveData`, and `triggerAlarm` calls `saveData`, `speak`
and `addLog`. The constructor establishes the invariant `Valid()`. Every
operation that changes a field it reads keeps it when started from a valid
state, except `Load`, which takes whatever the storage holds. The invariant says:
- the list is sorted;
- a fired record is inactive;
- the log holds at most fifty entries;
- a running timer has time left;
- the overlay refers to a fired alarm.

The clock is a parameter `now` in milliseconds. It stands for every `Date.now()`
and `new Date()`, so record ids and log timestamps are clock readings. The
speech, alert and notification services are a recorded sequence of requests
(`effects`). The storage is a record of four optional values, one per key.

JavaScript's `%` truncates toward zero, so it is written out as `Clock.JsRem`.
`Math.floor(a / b)` with `b > 0` is Dafny's `/`.

`stopAlarmUI` calls `speechSynthesis.cancel()` without checking for speech
support. Where speech synthesis is missing, that call throws. The model follows
the code: the stop button then records nothing, and snooze stops before it
re-adds the reminder.

## Model

| member | source | states |
|---|---|---|
| Records.SpeechEffects | app.js:269-283 | with speech synthesis, exactly one request, to speak the text; without it, exactly one request, the fixed unsupported-speech alert |
| Records.ToggledTheme | app.js:189-194 | the new theme is light or dark, and it is dark exactly when the old one was light |
| Records.ToggleTwiceRestores | app.js:189-194 | toggling a light or dark theme twice gives it back |
| Clock.JsRem | app.js:115-116 | the remainder has the dividend's sign: the Euclidean remainder for a non-negative dividend, a value in (-b, 0] for a negative one; in both cases the dividend minus the remainder is a multiple of b |
| Clock.SplitSeconds | app.js:440-444 | for a non-negative count, hours are non-negative, minutes and seconds lie in 0..59, and h·3600 + m·60 + s is the count |
| Clock.SplitMillis | app.js:113-118 | the hour part is negative exactly when the duration is; for a non-negative duration, minutes and seconds lie in 0..59 and the h/m/s shown is the duration rounded down to a whole second |
| Clock.FloorToMinute | app.js:263 | cutting the time string to the minute gives the unique minute boundary at or below the instant |
| Clock.SnoozeTimeAsWritten | app.js:261-263 | the target as the program computes it: moved forward by the UTC offset, it lies in the minute that ends five minutes from now |
| Clock.SnoozeTime | app.js:257-266 | the corrected snooze target lies in the minute that ends five minutes from now, in every time zone |
| Clock.SnoozeAsWrittenShiftedByOffset | app.js:261-263 | for a whole-minute UTC offset, the target as written is the corrected target moved back by the offset |
| Clock.SnoozeAsWrittenIsOverdueAheadOfUtc | app.js:257-266 | two hours ahead of UTC, the target as written is before the moment of snoozing, so the next tick fires it at once; the corrected target is after it |
| ActivityLog.Entry | app.js:460-466 | a log entry carries the given text, type and status; its id and its timestamp are both the clock reading |
| ActivityLog.Logged | app.js:459-470 | the log grows by one below fifty entries and keeps its length at fifty; the new entry is first and the rest is the old log cut to fit |
| ActivityLog.AddLogs | app.js:459-470 | repeated additions to a log within the cap stay within the cap |
| ActivityLog.LoggedKeepsCap | app.js:466-468 | below the cap the entry is prepended; at the cap the entry is prepended and the oldest entry dropped |
| ActivityLog.AddLogsKeepsNewest | app.js:459-470 | after any additions, the log is the fifty newest entries of all, newest first |
| ActivityLog.FiftyOneEntriesKeepFifty | app.js:466-468 | fifty-one additions to an empty log keep fifty entries, newest first; the first one added is evicted |
| ReminderStore.NewReminder | app.js:287-293 | a new record is active and has not fired |
| ReminderStore.InsertByTime | app.js:295-297 | insertion adds exactly the new record to the multiset of records |
| ReminderStore.SortByTime | app.js:297 | the sort keeps the length and is a permutation |
| ReminderStore.SortByTimeSorted | app.js:297 | the sort's result is ascending by due time |
| ReminderStore.SortByTimeStable | app.js:297 | records due at the same time keep their relative order |
| ReminderStore.SortByTimeOfSorted | app.js:297 | sorting an already sorted list changes nothing |
| ReminderStore.AddedReminder | app.js:295-297 | push-then-sort yields one more record and a permutation of the old ones plus the new one; it is sorted, with the new record last among those due at its time |
| ReminderStore.AddedKeepsFlags | app.js:286-297 | adding a pending record keeps every fired record inactive |
| ReminderStore.AddedToSorted | app.js:295-297 | on a sorted list, push-then-sort is an insertion after every record due no later |
| ReminderStore.DeleteById | app.js:307-312 | a record survives deletion exactly when its id differs; the list does not grow |
| ReminderStore.DeleteByIdConcat | app.js:308 | deletion keeps the relative order of what it keeps |
| ReminderStore.DeleteAbsentIsNoOp | app.js:308 | deleting an id no record carries changes nothing |
| ReminderStore.DeleteKeepsSorted | app.js:308 | deletion keeps the list sorted |
| ReminderStore.Active | app.js:317 | the home view holds exactly the active records, and is ascending by due time when the list is |
| ReminderStore.ActiveConcat | app.js:317 | the home view keeps the list order of the records it shows |
| ReminderStore.Upcoming | app.js:103-104 | the candidates are exactly the active records due strictly after now |
| ReminderStore.NextUpcoming | app.js:103-105 | there is no pick exactly when there are no candidates; a pick is an active record of the list due after now |
| ReminderStore.NextUpcomingIsEarliest | app.js:102-105 | there is no next reminder exactly when no active record is still ahead; otherwise it is one of them, due no later than any other, and the first in list order among those due at its time |
| Dashboard.DashboardView | app.js:98-131 | a countdown shows the next upcoming reminder's text, with a non-negative hour count and minutes and seconds in 0..59 |
| Dashboard.DashboardShowsNextUpcoming | app.js:98-131 | the panel shows a countdown exactly when there is a next upcoming reminder, so the negative-hour guard never hides it; it shows that reminder's text and the time left rounded down to a whole second |
| Persistence.Stored | app.js:146-151 | saving writes all four keys |
| Persistence.SaveLoadRoundTrip | app.js:134-151 | loading what was saved restores the saved state whenever the theme is non-empty |
| Persistence.LoadFromEmptyKeepsState | app.js:134-143 | with nothing stored, loading keeps the current state |
| Scheduler.Due | app.js:210-216 | a tick fires a record that is active, has not fired, and whose time has come |
| Scheduler.DueUntilFired | app.js:210-216 | once due, a record stays due at every later tick until it fires, so a late tick catches up; a fired record is never due again |
| Scheduler.Fired | app.js:223-224 | a fired record is marked fired and inactive; id, text and time are unchanged |
| Scheduler.TickReminders | app.js:206-220 | a tick keeps every record's id, text and time; it changes a record exactly when that record is due; a due record ends up fired and inactive |
| Scheduler.DueList | app.js:209-218 | the records a tick fires are exactly the due ones |
| Scheduler.AlarmEntries | app.js:242 | one log entry per fired reminder, in firing order: entry k is an `Alarm`/`Played` entry with the k-th fired reminder's text, stamped with the tick's time |
| Scheduler.AlarmEffects | app.js:228-247 | an alarm first asks to speak its text (or alert); a notification with the alarm's text follows exactly when it may notify, and nothing else is requested |
| Scheduler.AnyDueIsDueList | app.js:209-218 | the loop has fired something, and so saved the state, exactly when the fired list is non-empty |
| Scheduler.TickAfterReminders | app.js:209-218 | after the loop body has run on the first i records, those are ticked in place and the rest are untouched |
| Scheduler.TickAfterLogs | app.js:209-218 | after i records, the log holds one `Alarm`/`Played` entry per record fired among them, newest on top |
| Scheduler.TickAfterEffects | app.js:209-218 | after i records, one round of speech and notification requests has been made per record fired among them, in list order |
| Scheduler.TickAfterAlarm | app.js:209-218 | after i records, the overlay shows the last record fired among them, or what it showed before when none fired |
| Scheduler.TickAfterPrefix | app.js:206-220 | after any number of records, the loop has computed the tick's closed form on them |
| Scheduler.Examined | app.js:209-219 | with the Notification API the loop examines every record; without it, it stops just after the first due record, whose alarm throws |
| Scheduler.FiredByTickIsFirstDue | app.js:209-219 | with the Notification API a tick fires every due reminder; without it, only the first due one in list order, and the records after it are left as they were |
| Scheduler.ThrowingEndFires | app.js:209-219 | a loop that throws at its first firing fires exactly the first due record |
| Scheduler.NothingOverdueAfterTick | app.js:206-220 | after a tick at now, a record due at any later tick is due after now: nothing fires twice and nothing overdue is left |
| Scheduler.TickIdempotent | app.js:206-220 | a second tick at the same instant fires nothing and changes nothing |
| Scheduler.NothingDueFiresNothing | app.js:206-220 | when no record is due, a tick fires nothing and leaves the list alone |
| Scheduler.TickKeepsInvariants | app.js:206-220 | a tick, whole or ended by an exception, keeps the list sorted and every fired record inactive |
| Scheduler.FiredInPlaceKeepsInvariants | app.js:223-224 | firing one record in place keeps the list sorted and every fired record inactive |
| Scheduler.DueListSorted | app.js:206-220 | on a sorted list, reminders fire in ascending time order |
| Scheduler.DueListConcat | app.js:209-218 | firing order is list order |
| Scheduler.LastFiredHasFired | app.js:222-238 | the overlay only ever refers to a reminder that has fired |
| App.DeleteNoteById | app.js:524-529 | a note survives deletion exactly when its id differs; deleting an absent id changes nothing |
| App.ReminderApp.constructor | app.js:4-14 | the initial state is empty lists, light theme and an idle timer, and it is valid |
| App.ReminderApp.Load | app.js:134-143 | the persisted fields become `Persistence.Restore` of the old ones and the storage, the reference definition of `loadData`: every key present in storage replaces its field, except an empty theme; absent keys keep the defaults |
| App.ReminderApp.Save | app.js:146-151 | afterwards the storage holds exactly the current reminders, notes, log and theme |
| App.ReminderApp.Speak | app.js:269-283 | speaks the text, or raises the alert when speech synthesis is missing |
| App.ReminderApp.AddLog | app.js:459-470 | the log becomes the capped prepend of the entry, and the state is saved; the invariant is kept |
| App.ReminderApp.AddReminder | app.js:286-304 | the list becomes push-then-sort of a new pending record; one `Alarm`/`Scheduled` entry is logged; the state is saved; the invariant is kept |
| App.ReminderApp.SubmitReminder | app.js:547-555 | with text and a time, as `AddReminder`; otherwise nothing changes |
| App.ReminderApp.DeleteReminder | app.js:307-312 | the list loses exactly the records with that id; the state is saved; the invariant is kept |
| App.ReminderApp.TriggerAlarm | app.js:222-250 | the record is fired in place and the overlay points at it; one `Alarm`/`Played` entry is logged; its speech request is made, then a notification where the API exists and permission was granted; the state is saved; it throws exactly when the Notification API is missing; the invariant is kept |
| App.ReminderApp.CheckReminder | app.js:209-218 | one loop step: a due record is fired, logged, announced and shown and the state saved; any other record changes nothing; it throws exactly when a due record fires without the Notification API; the invariant is kept |
| App.ReminderApp.CheckEach | app.js:209-219 | the loop runs the step on every record, or up to the first firing that throws, and ends in the state the step function reaches there; the storage is saved exactly when something fired; the invariant is kept |
| App.ReminderApp.CheckReminders | app.js:206-220 | a tick fires the due reminders it reaches, in list order: all of them with the Notification API, the first one without it. Each gets one log entry, one round of requests and the overlay; the state is saved exactly when something fired; with the API the list becomes the full tick; the invariant is kept |
| App.ReminderApp.StopAlarm | app.js:252-255 | cancels speech, or records nothing where speech synthesis is missing |
| App.ReminderApp.SnoozeAlarm | app.js:257-266 | with speech and an alarm on the overlay, the alarm's text comes back as a new reminder at the target the program computes (`SnoozeTimeAsWritten`, off by the UTC offset); otherwise the list, the log and the storage are unchanged; the invariant is kept |
| App.ReminderApp.StartTimer | app.js:400-424 | a positive number of minutes starts a countdown of 60 seconds per minute, with the default message when none is given; otherwise nothing changes |
| App.ReminderApp.TimerTick | app.js:416-423 | one second less; the timer keeps running exactly while time is left; at zero it speaks and logs its message once |
| App.ReminderApp.StopTimer | app.js:426-438 | the timer stops; only a finished countdown speaks and logs its message; the invariant is kept |
| App.ReminderApp.TimerDisplay | app.js:440-447 | for a non-negative count, the display's hours are non-negative, minutes and seconds lie in 0..59, and they add up to the seconds left |
| App.ReminderApp.SaveNote | app.js:580-594 | a note with a title or a body goes on top and the state is saved; an empty one changes nothing |
| App.ReminderApp.DeleteNote | app.js:524-529 | the notes lose exactly the ones with that id; the state is saved |
| App.ReminderApp.ClearLogs | app.js:597-601 | the log is emptied and the state saved |
| App.ReminderApp.ToggleTheme | app.js:189-194 | the theme flips and the state is saved |
| Scenarios.RunTimer | app.js:400-438 | a countdown of m minutes runs for exactly 60·m ticks, then stops with nothing left and its original length 60·m; it speaks once and logs once, with the last tick's time; it changes only the timer, the requests, the log and the storage, so the reminders, notes, theme and overlay are untouched |

## Left out

- Rendering, navigation, toasts, the swipe gestures, the SVG progress ring and the empty-state panel are DOM-only and not modelled.
- Record ids are the clock reading at creation and may collide; deletion removes every record carrying the id, as the filter does. `ReminderStore.DeleteById` and `App.DeleteNoteById` are the same filter, written once per record type.
- JSON serialisation is assumed lossless: a stored value is the value itself.
- Date strings are not modelled. A reminder's `time` is the instant it denotes, in milliseconds. The form hands over the instant the user picked; snooze hands over the instant the program's string denotes once read back as local time (`SnoozeTimeAsWritten`).
- `parseInt` of the minutes field is an `Option<int>` (`None` for NaN).
- Whether the Notification API exists, and the permission, are constants fixed when the state object is built; the permission request itself is not modelled.
- App.ReminderApp.CheckReminders: an exception thrown by a firing ends the tick; that second's dashboard refresh and `renderLogs` call, which only redraw the page, are skipped with it and are not modelled.
- App.ReminderApp.Load: `loadData` does no error handling: `JSON.parse` of a corrupt stored value throws out of `loadData` and `init`. The model assumes every stored value is well-formed. Loading also does not re-establish `Valid()`: stored reminders out of time order stay out of order until the next `addReminder` sorts them.
- The interval timers are not modelled as concurrent events. The scheduler tick is `CheckReminders(now)`, one timer firing is `TimerTick(now)`, and `Scenarios.RunTimer` runs the firings in sequence.
- App.ReminderApp.StartTimer: requires that no countdown is running, because the start button is disabled while one runs; a second interval started alongside the first is not modelled.
- The alarm overlay element is assumed present, so `triggerAlarm` always sets the overlay's alarm.
- The dashboard's `h < 0` guard is modelled, and shown never to fire.
- `convertNoteToReminder` only pre-fills a form field and is not modelled.

## Findings

| source | as written | input that shows it | evidently intended | confidence | as-written member | corrected member |
|---|---|---|---|---|---|---|
| app.js:257-266 | `toISOString().slice(0, 16)` writes the snooze instant as a UTC wall-clock minute; `addReminder` stores that string and `new Date(...)` reads it back as local time | any snooze in a zone ahead of UTC, e.g. UTC+2: the new reminder is dated two hours before now and fires at the next tick | the reminder comes back about five minutes later | not executed | Clock.SnoozeAsWrittenIsOverdueAheadOfUtc | Clock.SnoozeTime |

`App.ReminderApp.SnoozeAlarm` models the button as written, with
`Clock.SnoozeTimeAsWritten`. `Clock.SnoozeTime` is the corrected target, proved
to land in the minute that ends five minutes from now in every time zone.
`Clock.SnoozeAsWrittenShiftedByOffset` proves the two differ by exactly the UTC
offset, so they agree in UTC.
