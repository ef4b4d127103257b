/** The records the application keeps: reminders, log entries, notes, and the
    side effects (speech, alerts, notifications) it asks the browser for. */
module Records {

  datatype Option<+T> = None | Some(value: T)

  /** A scheduled one-time voice alert. `time` is the absolute instant the
      reminder is due, in milliseconds; `id` is the creation instant. */
  datatype Reminder = Reminder(id: int, text: string, time: int, active: bool, triggered: bool)

  /** The `type` field of a log entry. */
  datatype Kind = Alarm | Timer

  /** The `status` field of a log entry; `Missed` is named by the record's
      documentation but never produced. */
  datatype Status = Scheduled | Played | Missed

  datatype LogEntry = LogEntry(id: int, text: string, kind: Kind, status: Status, timestamp: int)

  datatype Note = Note(id: int, title: string, body: string)

  /** Requests made to the browser's speech, alert and notification services. */
  datatype Effect =
    | Spoke(text: string)            // speechSynthesis.cancel() then speak(text)
    | Alerted(message: string)       // window.alert
    | SpeechCancelled                // speechSynthesis.cancel()
    | Notified(title: string, body: string)

  const SpeechUnsupportedMessage := "Text-to-Speech not supported in this browser."

  /** `speak(text)`: with speech synthesis, the current utterance is cancelled
      and `text` spoken; without it, the user gets an alert instead. */
  function SpeechEffects(text: string, speechSupported: bool): (r: seq<Effect>)
    ensures |r| == 1
    ensures speechSupported ==> r[0] == Spoke(text)
    ensures !speechSupported ==> r[0] == Alerted(SpeechUnsupportedMessage)
  {
    if speechSupported then [Spoke(text)] else [Alerted(SpeechUnsupportedMessage)]
  }

  const Light := "light"
  const Dark := "dark"

  /** The theme toggle: light becomes dark, anything else becomes light. */
  function ToggledTheme(theme: string): (r: string)
    ensures r == Light || r == Dark
    ensures r == Dark <==> theme == Light
  {
    if theme == Light then Dark else Light
  }

  lemma ToggleTwiceRestores(theme: string)
    requires theme == Light || theme == Dark
    ensures ToggledTheme(ToggledTheme(theme)) == theme
  {
  }
}
