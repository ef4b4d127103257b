/** The application's single shared state object and the operations that
    update it in place: reminders, the scheduler tick and the alarm it raises,
    snooze, the activity log, the countdown timer, notes and the theme. Every
    operation that reads the clock takes the reading as `now` (milliseconds). */
module App {
  import opened Records
  import opened Clock
  import opened ReminderStore
  import opened Scheduler
  import opened ActivityLog
  import opened Persistence

  const DefaultTimerMessage := "Timer finished"
  const SecondsPerMinute := 60

  datatype StopReason = Finished | Manual

  /** `deleteNote`: every note carrying `id` is removed, the rest keep their order. */
  function DeleteNoteById(notes: seq<Note>, id: int): (res: seq<Note>)
    ensures forall n :: n in res <==> n in notes && n.id != id
    ensures (forall n :: n in notes ==> n.id != id) ==> res == notes
  {
    if notes == [] then []
    else if notes[0].id == id then DeleteNoteById(notes[1..], id)
    else [notes[0]] + DeleteNoteById(notes[1..], id)
  }

  class ReminderApp {
    var reminders: seq<Reminder>
    var notes: seq<Note>
    var logs: seq<LogEntry>
    var theme: string

    // The countdown timer; `timerRunning` stands for a live interval id.
    var timerRunning: bool
    var remainingSeconds: int
    var originalSeconds: int
    var timerMessage: string

    /** The reminder the alarm overlay was last opened for. */
    var activeAlarm: Option<Reminder>
    /** The browser's key-value storage. */
    var storage: Storage
    /** Requests made to the speech, alert and notification services, oldest first. */
    var effects: seq<Effect>
    const speechSupported: bool
    /** Whether the page has the Notification API at all. */
    const notificationsSupported: bool
    /** The notification permission, read only where the API exists. */
    const notificationsGranted: bool

    /** What every operation keeps once it holds: the list sorted by time, a
        fired reminder inactive, the log within its cap, a running timer with
        time left, and the overlay's alarm one that has fired. */
    ghost predicate Valid()
      reads this`reminders, this`logs, this`timerRunning, this`remainingSeconds, this`originalSeconds, this`activeAlarm
    {
      && Sorted(reminders)
      && FlagsConsistent(reminders)
      && |logs| <= MaxLogs
      && (timerRunning ==> 0 < remainingSeconds <= originalSeconds)
      && (activeAlarm.Some? ==> activeAlarm.value.triggered && !activeAlarm.value.active)
    }

    /** An alarm posts a system notification: the API exists and permission
        was granted. */
    predicate Notifies()
    {
      notificationsSupported && notificationsGranted
    }

    function Snap(): Snapshot
      reads this`reminders, this`notes, this`logs, this`theme
    {
      Snapshot(reminders, notes, logs, theme)
    }

    /** The storage holds exactly the current persisted state. */
    predicate Persisted()
      reads this`storage, this`reminders, this`notes, this`logs, this`theme
    {
      storage == Stored(Snap())
    }

    /** The initial state object, over whatever the storage holds. */
    constructor (stored: Storage, speechSupported: bool, notificationsSupported: bool, notificationsGranted: bool)
      ensures Valid()
      ensures reminders == [] && notes == [] && logs == [] && theme == Light
      ensures !timerRunning && remainingSeconds == 0 && originalSeconds == 0
      ensures activeAlarm == None && effects == [] && storage == stored
      ensures this.speechSupported == speechSupported
      ensures this.notificationsSupported == notificationsSupported
      ensures this.notificationsGranted == notificationsGranted
    {
      reminders, notes, logs, theme := [], [], [], Light;
      timerRunning, remainingSeconds, originalSeconds, timerMessage := false, 0, 0, "";
      activeAlarm := None;
      storage := stored;
      effects := [];
      this.speechSupported := speechSupported;
      this.notificationsSupported := notificationsSupported;
      this.notificationsGranted := notificationsGranted;
    }

    /** `loadData`: each field whose key is present is replaced by the stored value. */
    method Load()
      modifies this`reminders, this`notes, this`logs, this`theme
      ensures Snap() == Restore(old(Snap()), storage)
    {
      if storage.reminders.Some? { reminders := storage.reminders.value; }
      if storage.notes.Some? { notes := storage.notes.value; }
      if storage.logs.Some? { logs := storage.logs.value; }
      if storage.theme.Some? && storage.theme.value != "" { theme := storage.theme.value; }
    }

    /** `saveData`: all four keys are written. */
    method Save()
      modifies this`storage
      ensures Persisted()
    {
      storage := Stored(Snap());
    }

    /** `speak`. */
    method Speak(text: string)
      modifies this`effects
      ensures effects == old(effects) + SpeechEffects(text, speechSupported)
    {
      if !speechSupported {
        effects := effects + [Alerted(SpeechUnsupportedMessage)];
        return;
      }
      effects := effects + [Spoke(text)];
    }

    /** `addLog`: the entry goes on top, the bottom one drops past fifty. */
    method AddLog(text: string, kind: Kind, status: Status, now: int)
      modifies this`logs, this`storage
      ensures logs == Logged(old(logs), Entry(text, kind, status, now))
      ensures Persisted()
      ensures old(Valid()) ==> Valid()
    {
      logs := [Entry(text, kind, status, now)] + logs;
      if |logs| > MaxLogs {
        logs := logs[..|logs| - 1];
      }
      Save();
    }

    // -------------------------------------------------------------------------
    // Reminders

    /** `addReminder`: push a pending record, sort by time, log it as scheduled. */
    method AddReminder(text: string, time: int, now: int)
      modifies this`reminders, this`logs, this`storage
      ensures reminders == SortByTime(old(reminders) + [NewReminder(now, text, time)])
      ensures logs == Logged(old(logs), Entry(text, Alarm, Scheduled, now))
      ensures Persisted()
      ensures old(Valid()) ==> Valid()
    {
      var r := NewReminder(now, text, time);
      ghost var sorted := SortByTime(reminders + [r]);
      ghost var wasValid := Valid();
      assert wasValid ==> Sorted(sorted) && FlagsConsistent(sorted) by {
        SortByTimeSorted(reminders + [r]);
        if wasValid {
          AddedKeepsFlags(reminders, r);
        }
      }
      ghost var timer := (timerRunning, remainingSeconds, originalSeconds, activeAlarm);
      reminders := reminders + [r];
      reminders := SortByTime(reminders);
      AddLog(text, Alarm, Scheduled, now);
      Save();
      assert reminders == sorted;
      if wasValid {
        assert |logs| <= MaxLogs;
        assert (timerRunning, remainingSeconds, originalSeconds, activeAlarm) == timer;
        assert Valid();
      }
    }

    /** The add-reminder form: both fields must be filled in. */
    method SubmitReminder(text: string, time: Option<int>, now: int)
      modifies this`reminders, this`logs, this`storage
      ensures text != "" && time.Some? ==>
        && reminders == SortByTime(old(reminders) + [NewReminder(now, text, time.value)])
        && logs == Logged(old(logs), Entry(text, Alarm, Scheduled, now))
        && Persisted()
      ensures !(text != "" && time.Some?) ==> unchanged(this)
      ensures old(Valid()) ==> Valid()
    {
      if text != "" && time.Some? {
        AddReminder(text, time.value, now);
      }
    }

    /** `deleteReminder`. */
    method DeleteReminder(id: int)
      modifies this`reminders, this`storage
      ensures reminders == DeleteById(old(reminders), id)
      ensures Persisted()
      ensures old(Valid()) ==> Valid()
    {
      reminders := DeleteById(reminders, id);
      Save();
      if old(Valid()) {
        DeleteKeepsSorted(old(reminders), id);
      }
    }

    // -------------------------------------------------------------------------
    // Scheduler and alarm

    /** `triggerAlarm` on the record at `i`. Without the Notification API,
        reading the permission throws once the entry is logged: no
        notification is posted and `threw` reports the exception. */
    method TriggerAlarm(i: nat, now: int) returns (threw: bool)
      requires i < |reminders|
      modifies this`reminders, this`logs, this`storage, this`effects, this`activeAlarm
      ensures reminders == old(reminders)[i := Fired(old(reminders)[i])]
      ensures activeAlarm == Some(Fired(old(reminders)[i]))
      ensures logs == Logged(old(logs), Entry(old(reminders)[i].text, Alarm, Played, now))
      ensures effects == old(effects) + AlarmEffects(old(reminders)[i].text, speechSupported, Notifies())
      ensures Persisted()
      ensures threw <==> !notificationsSupported
      ensures old(Valid()) ==> Valid()
    {
      var r := Fired(reminders[i]);
      ghost var wasValid := Valid();
      reminders := reminders[i := r];
      Save();
      Speak(r.text);
      activeAlarm := Some(r);
      AddLog(r.text, Alarm, Played, now);
      if wasValid {
        assert Sorted(reminders) && FlagsConsistent(reminders) by {
          FiredInPlaceKeepsInvariants(old(reminders), i);
        }
      }
      if !notificationsSupported {
        return true;
      }
      if notificationsGranted {
        effects := effects + [Notified(NotificationTitle, r.text)];
      }
      return false;
    }
    /** The body of `checkReminders`' loop for the record at `i`: an active
        record that has not fired and whose time has come fires. */
    method CheckReminder(i: nat, now: int) returns (threw: bool)
      requires i < |reminders|
      modifies this`reminders, this`logs, this`storage, this`effects, this`activeAlarm
      ensures TickState(reminders, logs, effects, activeAlarm) == Step(
        TickState(old(reminders), old(logs), old(effects), old(activeAlarm)),
        i, old(reminders)[i], now, speechSupported, Notifies())
      ensures Due(old(reminders)[i], now) ==> Persisted()
      ensures !Due(old(reminders)[i], now) ==> storage == old(storage) && (old(Persisted()) ==> Persisted())
      ensures threw <==> !notificationsSupported && Due(old(reminders)[i], now)
      ensures old(Valid()) ==> Valid()
    {
      var r := reminders[i];
      if !r.active {
        return false;
      }
      threw := false;
      if now >= r.time && !r.triggered {
        threw := TriggerAlarm(i, now);
      }
    }

    /** `checkReminders` at `now`: every due reminder fires, in list order.
        Without the Notification API the first firing throws and ends the
        tick, so only the first due reminder fires; `threw` reports it. */
    method CheckReminders(now: int) returns (threw: bool)
      modifies this`reminders, this`logs, this`storage, this`effects, this`activeAlarm
      ensures var n := Examined(old(reminders), now, notificationsSupported);
        var fired := FiredByTick(old(reminders), now, notificationsSupported);
        && reminders == TickedUpTo(old(reminders), n, now)
        && logs == AddLogs(old(logs), AlarmEntries(fired, now))
        && effects == old(effects) + AllAlarmEffects(fired, speechSupported, Notifies())
        && activeAlarm == LastFired(fired, old(activeAlarm))
        && (if fired == [] then storage == old(storage) else Persisted())
        && (threw <==> !notificationsSupported && fired != [])
      ensures notificationsSupported ==> reminders == TickReminders(old(reminders), now)
      ensures old(Valid()) ==> Valid()
    {
      ghost var start := TickState(reminders, logs, effects, activeAlarm);
      ghost var s := start.reminders;
      ghost var n := Examined(s, now, notificationsSupported);
      ghost var fired := FiredByTick(s, now, notificationsSupported);
      threw := CheckEach(now);
      assert AnyDue(s, n, now) <==> fired != [] by {
        AnyDueIsDueList(s, n, now);
      }
      assert TickState(reminders, logs, effects, activeAlarm) == TickState(
        TickedUpTo(s, n, now),
        AddLogs(start.logs, AlarmEntries(fired, now)),
        start.effects + AllAlarmEffects(fired, speechSupported, Notifies()),
        LastFired(fired, start.alarm))
      by {
        TickAfterPrefix(start, n, now, speechSupported, Notifies());
      }
      if notificationsSupported {
        TickedUpToEnds(s, now);
      }
    }

    /** The `forEach` over the reminders, the loop body run on each in turn
        until one throws. */
    method CheckEach(now: int) returns (threw: bool)
      modifies this`reminders, this`logs, this`storage, this`effects, this`activeAlarm
      ensures var n := Examined(old(reminders), now, notificationsSupported);
        && TickState(reminders, logs, effects, activeAlarm) == TickAfter(
             TickState(old(reminders), old(logs), old(effects), old(activeAlarm)), n,
             now, speechSupported, Notifies())
        && (!AnyDue(old(reminders), n, now) ==> storage == old(storage))
        && (AnyDue(old(reminders), n, now) ==> Persisted())
        && (threw <==> !notificationsSupported && AnyDue(old(reminders), n, now))
      ensures old(Valid()) ==> Valid()
    {
      ghost var start := TickState(reminders, logs, effects, activeAlarm);
      ghost var s := start.reminders;
      var i := 0;
      threw := false;
      while i < |reminders| && !threw
        invariant 0 <= i <= |reminders| == |s|
        invariant TickState(reminders, logs, effects, activeAlarm)
          == TickAfter(start, i, now, speechSupported, Notifies())
        invariant !AnyDue(s, i, now) ==> storage == old(storage)
        invariant AnyDue(s, i, now) ==> Persisted()
        invariant threw <==> !notificationsSupported && AnyDue(s, i, now)
        invariant !notificationsSupported ==>
          ThrowingEnd(s, 0, now) == if threw then i else ThrowingEnd(s, i, now)
        invariant old(Valid()) ==> Valid()
      {
        assert reminders[i] == s[i] by {
          TickAfterUntouched(start, i, i, now, speechSupported, Notifies());
        }
        threw := CheckReminder(i, now);
        i := i + 1;
      }
    }

    /** The overlay's stop button: silence the speech. Without speech synthesis
        the cancel call throws and nothing happens. */
    method StopAlarm()
      modifies this`effects
      ensures effects == old(effects) + (if speechSupported then [SpeechCancelled] else [])
    {
      if !speechSupported {
        return;
      }
      effects := effects + [SpeechCancelled];
    }

    /** The overlay's snooze button: stop, then add the alarmed text again as a
        new reminder, due at the instant the program computes for "five
        minutes from now" (`SnoozeTimeAsWritten`, which is off by the UTC
        offset; `SnoozeTime` is the intended instant).
        Without speech synthesis the stop step throws and nothing is added. */
    method SnoozeAlarm(now: int, utcOffset: int)
      modifies this`effects, this`reminders, this`logs, this`storage
      ensures effects == old(effects) + (if speechSupported then [SpeechCancelled] else [])
      ensures speechSupported && activeAlarm.Some? ==>
        var text := activeAlarm.value.text;
        && reminders == SortByTime(old(reminders) + [NewReminder(now, text, SnoozeTimeAsWritten(now, utcOffset))])
        && logs == Logged(old(logs), Entry(text, Alarm, Scheduled, now))
        && Persisted()
      ensures !(speechSupported && activeAlarm.Some?) ==>
        reminders == old(reminders) && logs == old(logs) && storage == old(storage)
      ensures old(Valid()) ==> Valid()
    {
      StopAlarm();
      if !speechSupported {
        return;
      }
      if activeAlarm.Some? {
        AddReminder(activeAlarm.value.text, SnoozeTimeAsWritten(now, utcOffset), now);
      }
    }

    // -------------------------------------------------------------------------
    // Countdown timer

    /** `startTimer`: a missing or non-positive number of minutes does nothing;
        the start control is disabled while a countdown runs. */
    method StartTimer(minutes: Option<int>, message: string)
      requires !timerRunning
      modifies this`timerRunning, this`remainingSeconds, this`originalSeconds, this`timerMessage
      ensures minutes.Some? && minutes.value > 0 ==>
        && timerRunning
        && remainingSeconds == originalSeconds == minutes.value * SecondsPerMinute
        && timerMessage == (if message == "" then DefaultTimerMessage else message)
      ensures !(minutes.Some? && minutes.value > 0) ==> unchanged(this)
      ensures old(Valid()) ==> Valid()
    {
      if minutes.None? || minutes.value <= 0 {
        return;
      }
      var seconds := minutes.value * SecondsPerMinute;
      remainingSeconds := seconds;
      originalSeconds := seconds;
      timerMessage := if message == "" then DefaultTimerMessage else message;
      timerRunning := true;
    }

    /** One second of the countdown; at zero the timer stops as finished. */
    method TimerTick(now: int)
      requires timerRunning
      modifies this`remainingSeconds, this`timerRunning, this`effects, this`logs, this`storage
      ensures remainingSeconds == old(remainingSeconds) - 1
      ensures timerRunning <==> remainingSeconds > 0
      ensures remainingSeconds > 0 ==>
        effects == old(effects) && logs == old(logs) && storage == old(storage)
      ensures remainingSeconds <= 0 ==>
        && effects == old(effects) + SpeechEffects(timerMessage, speechSupported)
        && logs == Logged(old(logs), Entry(timerMessage, Timer, Played, now))
        && Persisted()
      ensures old(Valid()) ==> Valid()
    {
      remainingSeconds := remainingSeconds - 1;
      if remainingSeconds <= 0 {
        StopTimer(Finished, now);
      }
    }

    /** `stopTimer`: only a finished countdown speaks and logs its message. */
    method StopTimer(reason: StopReason, now: int)
      modifies this`timerRunning, this`effects, this`logs, this`storage
      ensures !timerRunning
      ensures reason == Manual ==>
        effects == old(effects) && logs == old(logs) && storage == old(storage)
      ensures reason == Finished ==>
        && effects == old(effects) + SpeechEffects(timerMessage, speechSupported)
        && logs == Logged(old(logs), Entry(timerMessage, Timer, Played, now))
        && Persisted()
      ensures old(Valid()) ==> Valid()
    {
      timerRunning := false;
      if reason == Finished {
        Speak(timerMessage);
        AddLog(timerMessage, Timer, Played, now);
      }
    }

    /** The timer display: the seconds left as hours, minutes and seconds. */
    function TimerDisplay(): (d: Hms)
      reads this`remainingSeconds
      ensures remainingSeconds >= 0 ==> d.h >= 0 && 0 <= d.m < 60 && 0 <= d.s < 60
      ensures remainingSeconds >= 0 ==> d.h * 3600 + d.m * 60 + d.s == remainingSeconds
    {
      SplitSeconds(remainingSeconds)
    }

    // -------------------------------------------------------------------------
    // Notes, log, theme

    /** The note editor's save: a note with a title or a body goes on top. */
    method SaveNote(title: string, body: string, now: int)
      modifies this`notes, this`storage
      ensures title != "" || body != "" ==>
        notes == [Note(now, title, body)] + old(notes) && Persisted()
      ensures title == "" && body == "" ==> unchanged(this)
    {
      if title != "" || body != "" {
        notes := [Note(now, title, body)] + notes;
        Save();
      }
    }

    /** `deleteNote`. */
    method DeleteNote(id: int)
      modifies this`notes, this`storage
      ensures notes == DeleteNoteById(old(notes), id)
      ensures Persisted()
    {
      notes := DeleteNoteById(notes, id);
      Save();
    }

    /** The clear-logs button. */
    method ClearLogs()
      modifies this`logs, this`storage
      ensures logs == []
      ensures Persisted()
      ensures old(Valid()) ==> Valid()
    {
      logs := [];
      Save();
    }

    /** `toggleTheme`. */
    method ToggleTheme()
      modifies this`theme, this`storage
      ensures theme == ToggledTheme(old(theme))
      ensures Persisted()
    {
      theme := ToggledTheme(theme);
      Save();
    }
  }
}
