/** The activity log: newest entry first, at most fifty entries kept. */
module ActivityLog {
  import opened Records

  const MaxLogs := 50

  /** The entry `addLog` builds: the id and the timestamp are both the clock
      reading at the time of the call. */
  function Entry(text: string, kind: Kind, status: Status, now: int): (e: LogEntry)
    ensures e.id == e.timestamp == now
    ensures e.text == text && e.kind == kind && e.status == status
  {
    LogEntry(now, text, kind, status, now)
  }

  /** The log after `addLog`: the new entry goes to the top; when that makes
      the log longer than fifty, the one entry at the bottom is dropped. */
  function Logged(logs: seq<LogEntry>, e: LogEntry): (r: seq<LogEntry>)
    ensures |logs| < MaxLogs ==> |r| == |logs| + 1
    ensures |logs| >= MaxLogs ==> |r| == |logs|
    ensures |r| > 0 && r[0] == e
    ensures r[1..] == logs[..|r| - 1]
  {
    var pushed := [e] + logs;
    if |pushed| > MaxLogs then pushed[..|pushed| - 1] else pushed
  }

  /** The log after `addLog` was called once per entry of `es`, in order. */
  function AddLogs(logs: seq<LogEntry>, es: seq<LogEntry>): (r: seq<LogEntry>)
    ensures |logs| <= MaxLogs ==> |r| <= MaxLogs
  {
    if es == [] then logs else Logged(AddLogs(logs, es[..|es| - 1]), es[|es| - 1])
  }

  function Reversed<T>(s: seq<T>): (r: seq<T>)
    ensures |r| == |s|
  {
    if s == [] then [] else [s[|s| - 1]] + Reversed(s[..|s| - 1])
  }

  function Min(a: int, b: int): int { if a <= b then a else b }

  /** A log within the cap stays within the cap. */
  lemma LoggedKeepsCap(logs: seq<LogEntry>, e: LogEntry)
    requires |logs| <= MaxLogs
    ensures |Logged(logs, e)| <= MaxLogs
    ensures |logs| < MaxLogs ==> Logged(logs, e) == [e] + logs
    ensures |logs| == MaxLogs ==> Logged(logs, e) == [e] + logs[..MaxLogs - 1]
  {
  }

  /** Adding entries to a log within the cap leaves the fifty most recent
      entries of all, newest first: the added ones in reverse order, then the
      old log, cut at fifty. */
  lemma {:induction false} AddLogsKeepsNewest(logs: seq<LogEntry>, es: seq<LogEntry>)
    requires |logs| <= MaxLogs
    ensures AddLogs(logs, es) == (Reversed(es) + logs)[..Min(|es| + |logs|, MaxLogs)]
  {
    if es == [] {
      assert Reversed(es) + logs == logs;
    } else {
      var init, e := es[..|es| - 1], es[|es| - 1];
      AddLogsKeepsNewest(logs, init);
      assert Reversed(es) == [e] + Reversed(init);
      LoggedCut(Reversed(init) + logs, e);
      assert [e] + (Reversed(init) + logs) == Reversed(es) + logs;
    }
  }

  /** Adding an entry to the first fifty of `w` gives the first fifty of
      `w` with the entry on top. */
  lemma LoggedCut(w: seq<LogEntry>, e: LogEntry)
    ensures Logged(w[..Min(|w|, MaxLogs)], e) == ([e] + w)[..Min(|w| + 1, MaxLogs)]
  {
    var x := w[..Min(|w|, MaxLogs)];
    LoggedKeepsCap(x, e);
    if |w| < MaxLogs {
      assert x == w;
    } else {
      assert ([e] + w)[..MaxLogs] == [e] + x[..MaxLogs - 1];
    }
  }

  /** Fifty-one entries added to an empty log leave the last fifty, newest
      first: the first entry added is the one evicted. */
  lemma FiftyOneEntriesKeepFifty(es: seq<LogEntry>)
    requires |es| == MaxLogs + 1
    ensures |AddLogs([], es)| == MaxLogs
    ensures forall i :: 0 <= i < MaxLogs ==> AddLogs([], es)[i] == es[MaxLogs - i]
  {
    AddLogsKeepsNewest([], es);
    assert AddLogs([], es) == Reversed(es)[..MaxLogs];
    forall i | 0 <= i < MaxLogs
      ensures AddLogs([], es)[i] == es[MaxLogs - i]
    {
      ReversedAt(es, i);
    }
  }

  lemma {:induction false} ReversedAt<T>(s: seq<T>, i: int)
    requires 0 <= i < |s|
    ensures Reversed(s)[i] == s[|s| - 1 - i]
  {
    if i > 0 {
      ReversedAt(s[..|s| - 1], i - 1);
    }
  }
}
