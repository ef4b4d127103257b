/** The once-a-second scheduler tick and what an alarm leaves behind: which
    reminders a tick fires, their new flags, their log entries and the
    speech and notification requests they make. */
module Scheduler {
  import opened Records
  import opened ReminderStore
  import opened ActivityLog

  const NotificationTitle := "Voice Reminder"

  /** A tick at `now` fires the reminder: it is active, has not fired yet, and
      its time has come (late ticks catch up). */
  predicate Due(r: Reminder, now: int)
  {
    r.active && !r.triggered && now >= r.time
  }

  /** `triggerAlarm`'s change to the record. */
  function Fired(r: Reminder): (f: Reminder)
    ensures f.triggered && !f.active
    ensures f.id == r.id && f.text == r.text && f.time == r.time
  {
    r.(triggered := true, active := false)
  }

  /** A due record stays due at every later tick until it fires, and once
      fired it is due at no tick. */
  lemma DueUntilFired(r: Reminder, now: int)
    ensures Due(r, now) ==> forall later :: later >= now ==> Due(r, later)
    ensures forall t :: !Due(Fired(r), t)
  {
  }

  /** A record after a tick at `now`. */
  function Ticked(r: Reminder, now: int): Reminder
  {
    if Due(r, now) then Fired(r) else r
  }

  /** The reminder list after a tick at `now`. */
  function TickReminders(s: seq<Reminder>, now: int): (res: seq<Reminder>)
    ensures |res| == |s|
    ensures forall i :: 0 <= i < |s| ==>
      res[i].id == s[i].id && res[i].text == s[i].text && res[i].time == s[i].time
    ensures forall i :: 0 <= i < |s| ==> (res[i] != s[i] <==> Due(s[i], now))
    ensures forall i :: 0 <= i < |s| && Due(s[i], now) ==> res[i].triggered && !res[i].active
  {
    seq(|s|, i requires 0 <= i < |s| => Ticked(s[i], now))
  }

  /** The reminders a tick at `now` fires, in the order it fires them. */
  function DueList(s: seq<Reminder>, now: int): (res: seq<Reminder>)
    ensures forall x :: x in res <==> x in s && Due(x, now)
    ensures |res| <= |s|
  {
    if s == [] then []
    else
      var init, last := s[..|s| - 1], s[|s| - 1];
      assert s == init + [last];
      DueList(init, now) + (if Due(last, now) then [last] else [])
  }

  /** The `Alarm`/`Played` log entries of the fired reminders, oldest first. */
  function AlarmEntries(fired: seq<Reminder>, now: int): (res: seq<LogEntry>)
    ensures |res| == |fired|
    ensures forall k :: 0 <= k < |fired| ==>
      && res[k].text == fired[k].text && res[k].kind == Alarm && res[k].status == Played
      && res[k].id == now && res[k].timestamp == now
  {
    seq(|fired|, k requires 0 <= k < |fired| => Entry(fired[k].text, Alarm, Played, now))
  }

  /** What one alarm asks of the browser: speech (or the fallback alert), then
      a system notification when permission was granted. */
  function AlarmEffects(text: string, speechSupported: bool, notificationsGranted: bool): (r: seq<Effect>)
    ensures Notified(NotificationTitle, text) in r <==> notificationsGranted
    ensures |r| == if notificationsGranted then 2 else 1
    ensures r[..1] == SpeechEffects(text, speechSupported)
    ensures notificationsGranted ==> r[1] == Notified(NotificationTitle, text)
  {
    SpeechEffects(text, speechSupported) + (if notificationsGranted then [Notified(NotificationTitle, text)] else [])
  }

  function AllAlarmEffects(fired: seq<Reminder>, speechSupported: bool, notificationsGranted: bool): seq<Effect>
  {
    if fired == [] then []
    else AllAlarmEffects(fired[..|fired| - 1], speechSupported, notificationsGranted)
         + AlarmEffects(fired[|fired| - 1].text, speechSupported, notificationsGranted)
  }

  /** The alarm the acknowledgment overlay refers to after the fired ones: the
      last fired, or the previous one when nothing fired. */
  function LastFired(fired: seq<Reminder>, previous: Option<Reminder>): Option<Reminder>
  {
    if fired == [] then previous else Some(Fired(fired[|fired| - 1]))
  }

  /** The tick examines one record more: it joins the fired ones when it is due. */
  lemma DueListStep(s: seq<Reminder>, i: nat, now: int)
    requires i < |s|
    ensures Due(s[i], now) ==> DueList(s[..i + 1], now) == DueList(s[..i], now) + [s[i]]
    ensures !Due(s[i], now) ==> DueList(s[..i + 1], now) == DueList(s[..i], now)
  {
    assert s[..i + 1][..i] == s[..i] && s[..i + 1][i] == s[i];
    assert DueList(s[..i], now) + [] == DueList(s[..i], now);
  }

  /** The list part-way through a tick: the first `i` records ticked, the
      rest as they were. */
  function TickedUpTo(s: seq<Reminder>, i: nat, now: int): (res: seq<Reminder>)
    requires i <= |s|
    ensures |res| == |s|
    ensures forall j :: 0 <= j < |s| ==> res[j] == if j < i then Ticked(s[j], now) else s[j]
  {
    TickReminders(s[..i], now) + s[i..]
  }

  /** Ticking the next record updates it in place. */
  lemma TickStep(s: seq<Reminder>, i: nat, now: int)
    requires i < |s|
    ensures TickedUpTo(s, i, now)[i] == s[i]
    ensures TickedUpTo(s, i + 1, now) == TickedUpTo(s, i, now)[i := Ticked(s[i], now)]
  {
    var a, b := TickedUpTo(s, i + 1, now), TickedUpTo(s, i, now)[i := Ticked(s[i], now)];
    forall j | 0 <= j < |s| ensures a[j] == b[j] {
      if j < i {
        assert a[j] == TickReminders(s[..i + 1], now)[j];
      }
    }
  }

  /** Before the tick nothing is ticked; after it, everything is. */
  lemma TickedUpToEnds(s: seq<Reminder>, now: int)
    ensures TickedUpTo(s, 0, now) == s
    ensures TickedUpTo(s, |s|, now) == TickReminders(s, now)
  {
    assert s[..0] == [] && s[0..] == s;
    assert s[..|s|] == s && s[|s|..] == [];
  }

  /** Before the tick has fired anything, nothing is logged, requested or
      shown. */
  lemma NothingFiredYet(s: seq<Reminder>, logs: seq<LogEntry>, effects: seq<Effect>,
                        previous: Option<Reminder>, speechSupported: bool, notificationsGranted: bool, now: int)
    ensures DueList(s[..0], now) == []
    ensures AddLogs(logs, AlarmEntries([], now)) == logs
    ensures effects + AllAlarmEffects([], speechSupported, notificationsGranted) == effects
    ensures LastFired([], previous) == previous
  {
    assert s[..0] == [];
    assert AlarmEntries([], now) == [];
    assert effects + [] == effects;
  }

  /** One more fired reminder adds its log entry, its effects, and becomes the
      overlay's alarm. */
  lemma FiredStep(fired: seq<Reminder>, x: Reminder, logs: seq<LogEntry>, effects: seq<Effect>,
                  previous: Option<Reminder>, speechSupported: bool, notificationsGranted: bool, now: int)
    ensures AddLogs(logs, AlarmEntries(fired + [x], now))
      == Logged(AddLogs(logs, AlarmEntries(fired, now)), Entry(x.text, Alarm, Played, now))
    ensures effects + AllAlarmEffects(fired + [x], speechSupported, notificationsGranted)
      == effects + AllAlarmEffects(fired, speechSupported, notificationsGranted)
         + AlarmEffects(x.text, speechSupported, notificationsGranted)
    ensures LastFired(fired + [x], previous) == Some(Fired(x))
  {
    var f := fired + [x];
    assert f[..|f| - 1] == fired;
    var es := AlarmEntries(f, now);
    assert es[..|es| - 1] == AlarmEntries(fired, now);
    var done := AllAlarmEffects(fired, speechSupported, notificationsGranted);
    var more := AlarmEffects(x.text, speechSupported, notificationsGranted);
    assert effects + (done + more) == effects + done + more;
  }

  /** What a tick acts on: the reminder list, the log, the requests made so
      far and the overlay's alarm. */
  datatype TickState = TickState(reminders: seq<Reminder>, logs: seq<LogEntry>, effects: seq<Effect>, alarm: Option<Reminder>)

  /** Some record among the first `i` is due at `now`. */
  predicate AnyDue(s: seq<Reminder>, i: nat, now: int)
    requires i <= |s|
  {
    i > 0 && (AnyDue(s, i - 1, now) || Due(s[i - 1], now))
  }

  /** A tick fires something exactly when some record is due. */
  lemma {:induction false} AnyDueIsDueList(s: seq<Reminder>, i: nat, now: int)
    requires i <= |s|
    ensures AnyDue(s, i, now) <==> DueList(s[..i], now) != []
  {
    if i == 0 {
      assert s[..0] == [];
    } else {
      var k := i - 1;
      AnyDueIsDueList(s, k, now);
      DueListStep(s, k, now);
      if Due(s[k], now) {
        assert AnyDue(s, i, now);
        assert |DueList(s[..i], now)| == |DueList(s[..k], now)| + 1;
      } else {
        assert AnyDue(s, i, now) == AnyDue(s, k, now);
      }
    }
  }

  /** The tick's loop body on the record `x` at `i`: a due record is fired,
      logged, announced and shown on the overlay; any other changes nothing. */
  function Step(t: TickState, i: nat, x: Reminder, now: int, speechSupported: bool, notificationsGranted: bool): TickState
    requires i < |t.reminders|
  {
    if Due(x, now) then
      TickState(
        t.reminders[i := Fired(x)],
        Logged(t.logs, Entry(x.text, Alarm, Played, now)),
        t.effects + AlarmEffects(x.text, speechSupported, notificationsGranted),
        Some(Fired(x)))
    else t
  }

  /** The state once a tick at `now` that started from `start` has run its
      loop body on the first `i` records. */
  function TickAfter(start: TickState, i: nat, now: int, speechSupported: bool, notificationsGranted: bool): (t: TickState)
    requires i <= |start.reminders|
    ensures |t.reminders| == |start.reminders|
  {
    if i == 0 then start
    else Step(TickAfter(start, i - 1, now, speechSupported, notificationsGranted), i - 1,
              start.reminders[i - 1], now, speechSupported, notificationsGranted)
  }

  /** The loop has not yet touched the records from `i` on. */
  lemma {:induction false} TickAfterUntouched(start: TickState, i: nat, j: nat, now: int,
                                              speechSupported: bool, notificationsGranted: bool)
    requires i <= j < |start.reminders|
    ensures TickAfter(start, i, now, speechSupported, notificationsGranted).reminders[j] == start.reminders[j]
  {
    if i > 0 {
      TickAfterUntouched(start, i - 1, j, now, speechSupported, notificationsGranted);
    }
  }

  /** The loop, one record at a time, ticks the records in place: after `i`
      records, the first `i` are ticked and the rest untouched. */
  lemma {:induction false} TickAfterReminders(start: TickState, i: nat, now: int,
                                              speechSupported: bool, notificationsGranted: bool)
    requires i <= |start.reminders|
    ensures TickAfter(start, i, now, speechSupported, notificationsGranted).reminders
      == TickedUpTo(start.reminders, i, now)
  {
    var s := start.reminders;
    if i == 0 {
      TickedUpToEnds(s, now);
    } else {
      var k := i - 1;
      TickAfterReminders(start, k, now, speechSupported, notificationsGranted);
      TickStep(s, k, now);
      if !Due(s[k], now) {
        assert TickedUpTo(s, k, now)[k := s[k]] == TickedUpTo(s, k, now);
      }
    }
  }

  /** After `i` records the log holds one `Alarm`/`Played` entry per record
      fired among them, newest first. */
  lemma {:induction false} TickAfterLogs(start: TickState, i: nat, now: int,
                                         speechSupported: bool, notificationsGranted: bool)
    requires i <= |start.reminders|
    ensures TickAfter(start, i, now, speechSupported, notificationsGranted).logs
      == AddLogs(start.logs, AlarmEntries(DueList(start.reminders[..i], now), now))
  {
    var s := start.reminders;
    if i == 0 {
      NothingFiredYet(s, start.logs, start.effects, start.alarm, speechSupported, notificationsGranted, now);
    } else {
      var k := i - 1;
      TickAfterLogs(start, k, now, speechSupported, notificationsGranted);
      DueListStep(s, k, now);
      if Due(s[k], now) {
        FiredStep(DueList(s[..k], now), s[k], start.logs, start.effects, start.alarm,
                  speechSupported, notificationsGranted, now);
      }
    }
  }

  /** After `i` records the requests made are one round per record fired
      among them, in list order. */
  lemma {:induction false} TickAfterEffects(start: TickState, i: nat, now: int,
                                            speechSupported: bool, notificationsGranted: bool)
    requires i <= |start.reminders|
    ensures TickAfter(start, i, now, speechSupported, notificationsGranted).effects
      == start.effects + AllAlarmEffects(DueList(start.reminders[..i], now), speechSupported, notificationsGranted)
  {
    var s := start.reminders;
    if i == 0 {
      NothingFiredYet(s, start.logs, start.effects, start.alarm, speechSupported, notificationsGranted, now);
    } else {
      var k := i - 1;
      TickAfterEffects(start, k, now, speechSupported, notificationsGranted);
      DueListStep(s, k, now);
      if Due(s[k], now) {
        FiredStep(DueList(s[..k], now), s[k], start.logs, start.effects, start.alarm,
                  speechSupported, notificationsGranted, now);
      }
    }
  }

  /** After `i` records the overlay shows the last record fired among them,
      or the alarm it showed before when none fired. */
  lemma {:induction false} TickAfterAlarm(start: TickState, i: nat, now: int,
                                          speechSupported: bool, notificationsGranted: bool)
    requires i <= |start.reminders|
    ensures TickAfter(start, i, now, speechSupported, notificationsGranted).alarm
      == LastFired(DueList(start.reminders[..i], now), start.alarm)
  {
    var s := start.reminders;
    if i == 0 {
      NothingFiredYet(s, start.logs, start.effects, start.alarm, speechSupported, notificationsGranted, now);
    } else {
      var k := i - 1;
      TickAfterAlarm(start, k, now, speechSupported, notificationsGranted);
      DueListStep(s, k, now);
      if Due(s[k], now) {
        FiredStep(DueList(s[..k], now), s[k], start.logs, start.effects, start.alarm,
                  speechSupported, notificationsGranted, now);
      }
    }
  }

  /** After the first `i` records the loop has done exactly the tick's closed
      form on them: those records ticked in place, and for the ones fired, their
      log entries, their requests and the overlay. */
  lemma TickAfterPrefix(start: TickState, i: nat, now: int, speechSupported: bool, notificationsGranted: bool)
    requires i <= |start.reminders|
    ensures var s := start.reminders;
      var fired := DueList(s[..i], now);
      TickAfter(start, i, now, speechSupported, notificationsGranted) == TickState(
        TickedUpTo(s, i, now),
        AddLogs(start.logs, AlarmEntries(fired, now)),
        start.effects + AllAlarmEffects(fired, speechSupported, notificationsGranted),
        LastFired(fired, start.alarm))
  {
    TickAfterReminders(start, i, now, speechSupported, notificationsGranted);
    TickAfterLogs(start, i, now, speechSupported, notificationsGranted);
    TickAfterEffects(start, i, now, speechSupported, notificationsGranted);
    TickAfterAlarm(start, i, now, speechSupported, notificationsGranted);
  }

  // ---------------------------------------------------------------------------
  // A tick without the Notification API

  /** Where the page has no Notification API, reading the permission after the
      first alarm of a tick throws and ends the tick. The loop, continued from
      the record at `i`, then stops just after the first due record, or runs to
      the end when none is due. */
  function ThrowingEnd(s: seq<Reminder>, i: nat, now: int): (n: nat)
    requires i <= |s|
    ensures i <= n <= |s|
    decreases |s| - i
  {
    if i == |s| then |s|
    else if Due(s[i], now) then i + 1
    else ThrowingEnd(s, i + 1, now)
  }

  /** How many records a tick at `now` runs its loop body on. */
  function Examined(s: seq<Reminder>, now: int, notificationApi: bool): (n: nat)
    ensures n <= |s|
    ensures notificationApi ==> n == |s|
  {
    if notificationApi then |s| else ThrowingEnd(s, 0, now)
  }

  /** The reminders a tick at `now` fires, in the order it fires them. */
  function FiredByTick(s: seq<Reminder>, now: int, notificationApi: bool): seq<Reminder>
  {
    DueList(s[..Examined(s, now, notificationApi)], now)
  }

  /** With the Notification API a tick fires every due reminder; without it,
      only the first due one in list order, and every later record is left as
      it was, to fire at a later tick. */
  lemma FiredByTickIsFirstDue(s: seq<Reminder>, now: int, notificationApi: bool)
    ensures notificationApi ==> FiredByTick(s, now, notificationApi) == DueList(s, now)
    ensures !notificationApi ==>
      FiredByTick(s, now, notificationApi) == if DueList(s, now) == [] then [] else [DueList(s, now)[0]]
    ensures forall j :: Examined(s, now, notificationApi) <= j < |s| ==>
      TickedUpTo(s, Examined(s, now, notificationApi), now)[j] == s[j]
  {
    if notificationApi {
      assert s[..|s|] == s;
    } else {
      assert s[..0] == [];
      ThrowingEndFires(s, 0, now);
    }
  }

  /** The loop continued from `i`, with nothing fired before it, fires the
      first due record only. */
  lemma {:induction false} ThrowingEndFires(s: seq<Reminder>, i: nat, now: int)
    requires i <= |s| && DueList(s[..i], now) == []
    ensures DueList(s[..ThrowingEnd(s, i, now)], now)
      == if DueList(s, now) == [] then [] else [DueList(s, now)[0]]
    decreases |s| - i
  {
    if i == |s| {
      assert s[..i] == s;
    } else {
      DueListStep(s, i, now);
      if Due(s[i], now) {
        FirstDueFires(s, i, now);
      } else {
        ThrowingEndFires(s, i + 1, now);
      }
    }
  }

  /** When nothing before `i` is due and the record at `i` is, it is the
      first record the whole tick fires. */
  lemma FirstDueFires(s: seq<Reminder>, i: nat, now: int)
    requires i < |s| && Due(s[i], now)
    requires DueList(s[..i + 1], now) == [s[i]]
    ensures DueList(s, now) != [] && DueList(s, now)[0] == s[i]
  {
    assert s == s[..i + 1] + s[i + 1..];
    DueListConcat(s[..i + 1], s[i + 1..], now);
  }

  // ---------------------------------------------------------------------------

  /** After a tick at `now`, a record that is due at a later tick is one
      scheduled after `now`: nothing fires twice, and nothing already overdue
      is left behind. */
  lemma NothingOverdueAfterTick(s: seq<Reminder>, now: int, later: int)
    ensures forall x :: x in TickReminders(s, now) && Due(x, later) ==> x.time > now
  {
    var res := TickReminders(s, now);
    forall x | x in res && Due(x, later) ensures x.time > now {
      var i :| 0 <= i < |res| && res[i] == x;
      assert !Due(s[i], now);
    }
  }

  /** A second tick at the same instant fires nothing and changes nothing. */
  lemma TickIdempotent(s: seq<Reminder>, now: int)
    ensures DueList(TickReminders(s, now), now) == []
    ensures TickReminders(TickReminders(s, now), now) == TickReminders(s, now)
  {
    NothingOverdueAfterTick(s, now, now);
    NothingDueFiresNothing(TickReminders(s, now), now);
  }

  /** A tick when nothing is due fires nothing. */
  lemma {:induction false} NothingDueFiresNothing(s: seq<Reminder>, now: int)
    requires forall x :: x in s ==> !Due(x, now)
    ensures DueList(s, now) == []
    ensures TickReminders(s, now) == s
  {
    if s != [] {
      NothingDueFiresNothing(s[..|s| - 1], now);
      assert s[|s| - 1] in s;
    }
  }

  /** A tick, whole or ended early, changes flags only, so the list stays
      sorted and every record's flags stay consistent. */
  lemma TickKeepsInvariants(s: seq<Reminder>, i: nat, now: int)
    requires i <= |s|
    ensures Sorted(s) ==> Sorted(TickedUpTo(s, i, now))
    ensures FlagsConsistent(s) ==> FlagsConsistent(TickedUpTo(s, i, now))
  {
    var res := TickedUpTo(s, i, now);
    if FlagsConsistent(s) {
      forall x | x in res ensures x.triggered ==> !x.active {
        var i :| 0 <= i < |res| && res[i] == x;
        assert s[i] in s;
      }
    }
  }

  /** Firing one record in place changes flags only, so the list stays sorted
      and every record's flags stay consistent. */
  lemma FiredInPlaceKeepsInvariants(s: seq<Reminder>, i: nat)
    requires i < |s|
    ensures Sorted(s) ==> Sorted(s[i := Fired(s[i])])
    ensures FlagsConsistent(s) ==> FlagsConsistent(s[i := Fired(s[i])])
  {
    var res := s[i := Fired(s[i])];
    if FlagsConsistent(s) {
      forall x | x in res ensures x.triggered ==> !x.active {
        var j :| 0 <= j < |res| && res[j] == x;
        assert j != i ==> s[j] in s;
      }
    }
  }

  /** On a sorted list the tick fires in ascending time order, ties in list
      (that is, insertion) order. */
  lemma {:induction false} DueListSorted(s: seq<Reminder>, now: int)
    requires Sorted(s)
    ensures Sorted(DueList(s, now))
  {
    if s != [] {
      var init, last := s[..|s| - 1], s[|s| - 1];
      DueListSorted(init, now);
      var d := DueList(init, now);
      forall x | x in d ensures x.time <= last.time {
        var k :| 0 <= k < |init| && init[k] == x;
      }
    }
  }

  /** The overlay only ever refers to an alarm that has fired. */
  lemma LastFiredHasFired(fired: seq<Reminder>, previous: Option<Reminder>)
    requires previous.Some? ==> previous.value.triggered && !previous.value.active
    ensures LastFired(fired, previous).Some? ==>
      LastFired(fired, previous).value.triggered && !LastFired(fired, previous).value.active
  {
  }

  /** The records a tick fires, as a subsequence: firing order is list order. */
  lemma {:induction false} DueListConcat(a: seq<Reminder>, b: seq<Reminder>, now: int)
    ensures DueList(a + b, now) == DueList(a, now) + DueList(b, now)
  {
    if b == [] {
      assert a + b == a;
      assert DueList(a, now) + [] == DueList(a, now);
    } else {
      var ab, binit, blast := a + b, b[..|b| - 1], b[|b| - 1];
      assert ab[..|ab| - 1] == a + binit && ab[|ab| - 1] == blast;
      DueListConcat(a, binit, now);
      var e := if Due(blast, now) then [blast] else [];
      assert DueList(ab, now) == DueList(a + binit, now) + e;
      assert DueList(b, now) == DueList(binit, now) + e;
      ConcatAssoc(DueList(a, now), DueList(binit, now), e);
    }
  }
}
