/** Whole runs of the application's state object: the countdown timer left to
    its interval until it finishes. */
module Scenarios {
  import opened Records
  import opened Clock
  import opened ActivityLog
  import opened App

  /** `startTimer` with `minutes`, then the interval firing once a second,
      the first time one second after `start`, until the countdown stops
      itself. It fires exactly `minutes * 60` times; the last firing speaks
      the message once and logs it once, with the last firing's time. */
  method RunTimer(app: ReminderApp, minutes: int, message: string, start: int) returns (ticks: nat)
    requires !app.timerRunning && minutes > 0
    modifies app`timerRunning, app`remainingSeconds, app`originalSeconds, app`timerMessage
    modifies app`effects, app`logs, app`storage
    ensures ticks == minutes * SecondsPerMinute
    ensures !app.timerRunning && app.remainingSeconds == 0
    ensures app.originalSeconds == minutes * SecondsPerMinute
    ensures app.timerMessage == (if message == "" then DefaultTimerMessage else message)
    ensures app.effects == old(app.effects) + SpeechEffects(app.timerMessage, app.speechSupported)
    ensures app.logs == Logged(old(app.logs), Entry(app.timerMessage, Timer, Played, start + ticks * SecondMs))
    ensures app.Persisted()
    ensures old(app.Valid()) ==> app.Valid()
  {
    var total := minutes * SecondsPerMinute;
    app.StartTimer(Some(minutes), message);
    ticks := 0;
    while app.timerRunning
      invariant 0 <= ticks <= total
      invariant app.remainingSeconds == total - ticks
      invariant app.originalSeconds == total
      invariant app.timerRunning <==> ticks < total
      invariant app.timerMessage == (if message == "" then DefaultTimerMessage else message)
      invariant ticks < total ==> app.effects == old(app.effects) && app.logs == old(app.logs)
      invariant ticks == total ==>
        && app.effects == old(app.effects) + SpeechEffects(app.timerMessage, app.speechSupported)
        && app.logs == Logged(old(app.logs), Entry(app.timerMessage, Timer, Played, start + ticks * SecondMs))
        && app.Persisted()
      invariant old(app.Valid()) ==> app.Valid()
      decreases app.remainingSeconds
    {
      ticks := ticks + 1;
      app.TimerTick(start + ticks * SecondMs);
    }
  }
}
