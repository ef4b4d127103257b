/** The four keys the application keeps in the browser's key-value storage,
    and how a snapshot of the state is written to and read back from them. */
module Persistence {
  import opened Records

  /** The persisted part of the state. */
  datatype Snapshot = Snapshot(reminders: seq<Reminder>, notes: seq<Note>, logs: seq<LogEntry>, theme: string)

  /** What the storage holds under each key; `None` when the key is absent.
      The serialised form is not modelled: a stored value is the value. */
  datatype Storage = Storage(
    reminders: Option<seq<Reminder>>,
    notes: Option<seq<Note>>,
    logs: Option<seq<LogEntry>>,
    theme: Option<string>)

  const EmptyStorage := Storage(None, None, None, None)

  /** `saveData`: every key is written. */
  function Stored(s: Snapshot): (st: Storage)
    ensures st.reminders.Some? && st.notes.Some? && st.logs.Some? && st.theme.Some?
  {
    Storage(Some(s.reminders), Some(s.notes), Some(s.logs), Some(s.theme))
  }

  /** `loadData`: a field is replaced only when its key is present; the theme
      also needs a non-empty value, since an empty string is falsy. */
  function Restore(current: Snapshot, st: Storage): Snapshot
  {
    Snapshot(
      if st.reminders.Some? then st.reminders.value else current.reminders,
      if st.notes.Some? then st.notes.value else current.notes,
      if st.logs.Some? then st.logs.value else current.logs,
      if st.theme.Some? && st.theme.value != "" then st.theme.value else current.theme)
  }

  /** Loading what was saved gives back the saved snapshot, whatever the state
      before loading, as long as the theme is not the empty string. */
  lemma SaveLoadRoundTrip(current: Snapshot, s: Snapshot)
    requires s.theme != ""
    ensures Restore(current, Stored(s)) == s
  {
  }

  /** With nothing stored, loading keeps the defaults. */
  lemma LoadFromEmptyKeepsState(current: Snapshot)
    ensures Restore(current, EmptyStorage) == current
  {
  }
}
