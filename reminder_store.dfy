/** The reminder list as values: the stable sort by due time that keeps it
    ordered, deletion by id, the "active" view and the next upcoming reminder. */
module ReminderStore {
  import opened Records

  /** Ascending by due time. */
  ghost predicate Sorted(s: seq<Reminder>)
  {
    forall i, j :: 0 <= i < j < |s| ==> s[i].time <= s[j].time
  }

  /** A fired record is no longer active. */
  ghost predicate FlagsConsistent(s: seq<Reminder>)
  {
    forall x :: x in s ==> x.triggered ==> !x.active
  }

  /** The record `addReminder` builds: pending, with the clock reading as id. */
  function NewReminder(id: int, text: string, time: int): (r: Reminder)
    ensures r.active && !r.triggered
  {
    Reminder(id, text, time, true, false)
  }

  /** Inserts `r` after every leading record due no later than it. */
  function InsertByTime(s: seq<Reminder>, r: Reminder): (res: seq<Reminder>)
    ensures |res| == |s| + 1
    ensures multiset(res) == multiset(s) + multiset{r}
  {
    if s == [] then [r]
    else if r.time < s[0].time then [r] + s
    else
      assert s == [s[0]] + s[1..];
      [s[0]] + InsertByTime(s[1..], r)
  }

  /** The stable sort by due time (`Array.prototype.sort` with the comparator
      `a.time - b.time`), as an insertion sort. */
  function SortByTime(s: seq<Reminder>): (res: seq<Reminder>)
    ensures |res| == |s|
    ensures multiset(res) == multiset(s)
  {
    if s == [] then []
    else
      assert s == s[..|s| - 1] + [s[|s| - 1]];
      InsertByTime(SortByTime(s[..|s| - 1]), s[|s| - 1])
  }

  /** The records due at exactly `t`, in list order. */
  function WithTime(s: seq<Reminder>, t: int): (res: seq<Reminder>)
    ensures forall x :: x in res <==> x in s && x.time == t
  {
    if s == [] then []
    else if s[0].time == t then [s[0]] + WithTime(s[1..], t)
    else WithTime(s[1..], t)
  }

  /** `deleteReminder`: every record carrying `id` is removed. */
  function DeleteById(s: seq<Reminder>, id: int): (res: seq<Reminder>)
    ensures forall x :: x in res <==> x in s && x.id != id
    ensures |res| <= |s|
  {
    if s == [] then []
    else if s[0].id == id then DeleteById(s[1..], id)
    else [s[0]] + DeleteById(s[1..], id)
  }

  /** The list shown on the home view: the active records, in list order, so
      ascending by due time when the list is. */
  function Active(s: seq<Reminder>): (res: seq<Reminder>)
    ensures forall x :: x in res <==> x in s && x.active
    ensures Sorted(s) ==> Sorted(res)
  {
    if s == [] then []
    else if s[0].active then [s[0]] + Active(s[1..])
    else Active(s[1..])
  }

  /** The active records due strictly after `now`, in list order. */
  function Upcoming(s: seq<Reminder>, now: int): (res: seq<Reminder>)
    ensures forall x :: x in res <==> x in s && x.active && x.time > now
  {
    if s == [] then []
    else if s[0].active && s[0].time > now then [s[0]] + Upcoming(s[1..], now)
    else Upcoming(s[1..], now)
  }

  /** The dashboard's pick: the upcoming records stably sorted by time, first one. */
  function NextUpcoming(s: seq<Reminder>, now: int): (r: Option<Reminder>)
    ensures r.None? <==> Upcoming(s, now) == []
    ensures r.Some? ==> r.value in s && r.value.active && r.value.time > now
  {
    var c := Upcoming(s, now);
    if c == [] then None
    else
      var sorted := SortByTime(c);
      assert sorted[0] in multiset(c);
      Some(sorted[0])
  }

  // ---------------------------------------------------------------------------
  // Sorting

  lemma {:induction false} InsertKeepsSorted(s: seq<Reminder>, r: Reminder)
    requires Sorted(s)
    ensures Sorted(InsertByTime(s, r))
  {
    if s != [] && r.time >= s[0].time {
      InsertKeepsSorted(s[1..], r);
      var tail := InsertByTime(s[1..], r);
      forall x | x in tail ensures s[0].time <= x.time {
        assert x in multiset(tail);
      }
    }
  }

  lemma {:induction false} SortByTimeSorted(s: seq<Reminder>)
    ensures Sorted(SortByTime(s))
  {
    if s != [] {
      SortByTimeSorted(s[..|s| - 1]);
      InsertKeepsSorted(SortByTime(s[..|s| - 1]), s[|s| - 1]);
    }
  }

  lemma {:induction false} WithTimeConcat(a: seq<Reminder>, b: seq<Reminder>, t: int)
    ensures WithTime(a + b, t) == WithTime(a, t) + WithTime(b, t)
  {
    if a == [] {
      assert a + b == b;
    } else {
      assert (a + b)[0] == a[0] && (a + b)[1..] == a[1..] + b;
      WithTimeConcat(a[1..], b, t);
    }
  }

  lemma {:induction false} WithTimeAbsent(s: seq<Reminder>, t: int)
    requires forall x :: x in s ==> x.time != t
    ensures WithTime(s, t) == []
  {
    if s != [] {
      WithTimeAbsent(s[1..], t);
    }
  }

  /** Inserting into a sorted list puts the new record after the records
      already due at its time, and leaves every other time's group alone. */
  lemma {:induction false} InsertStable(s: seq<Reminder>, r: Reminder, t: int)
    requires Sorted(s)
    ensures WithTime(InsertByTime(s, r), t) == WithTime(s, t) + (if r.time == t then [r] else [])
  {
    if s == [] {
    } else if r.time < s[0].time {
      InsertedFirst(s, r, t);
    } else {
      InsertStable(s[1..], r, t);
      InsertedLater(s, r, t);
    }
  }

  /** A record due before the whole sorted list goes first, alone in its group. */
  lemma InsertedFirst(s: seq<Reminder>, r: Reminder, t: int)
    requires Sorted(s) && s != [] && r.time < s[0].time
    ensures WithTime(InsertByTime(s, r), t) == WithTime(s, t) + (if r.time == t then [r] else [])
  {
    assert InsertByTime(s, r) == [r] + s;
    WithTimeConcat([r], s, t);
    if r.time == t {
      WithTimeAbsent(s, t);
    }
  }

  /** A record due no earlier than the head goes into the tail, and the head's
      group membership is untouched. */
  lemma InsertedLater(s: seq<Reminder>, r: Reminder, t: int)
    requires s != [] && r.time >= s[0].time
    requires WithTime(InsertByTime(s[1..], r), t) == WithTime(s[1..], t) + (if r.time == t then [r] else [])
    ensures WithTime(InsertByTime(s, r), t) == WithTime(s, t) + (if r.time == t then [r] else [])
  {
    var rest := InsertByTime(s[1..], r);
    var own := if s[0].time == t then [s[0]] else [];
    assert InsertByTime(s, r) == [s[0]] + rest;
    WithTimeCons(s[0], rest, t);
    assert WithTime(s, t) == own + WithTime(s[1..], t);
    ConcatAssoc(own, WithTime(s[1..], t), if r.time == t then [r] else []);
  }

  lemma ConcatAssoc<T>(a: seq<T>, b: seq<T>, c: seq<T>)
    ensures a + (b + c) == a + b + c
  {
  }

  lemma WithTimeCons(x: Reminder, s: seq<Reminder>, t: int)
    ensures WithTime([x] + s, t) == (if x.time == t then [x] else []) + WithTime(s, t)
  {
    assert ([x] + s)[0] == x && ([x] + s)[1..] == s;
  }

  /** The sort is stable: records due at the same time keep their relative order. */
  lemma {:induction false} SortByTimeStable(s: seq<Reminder>, t: int)
    ensures WithTime(SortByTime(s), t) == WithTime(s, t)
  {
    if s != [] {
      var init, last := s[..|s| - 1], s[|s| - 1];
      var extra := if last.time == t then [last] else [];
      assert s == init + [last];
      SortByTimeSorted(init);
      calc {
        WithTime(SortByTime(s), t);
        WithTime(InsertByTime(SortByTime(init), last), t);
        { InsertStable(SortByTime(init), last, t); }
        WithTime(SortByTime(init), t) + extra;
        { SortByTimeStable(init, t); }
        WithTime(init, t) + extra;
        { assert WithTime([last], t) == extra; }
        WithTime(init, t) + WithTime([last], t);
        { WithTimeConcat(init, [last], t); }
        WithTime(s, t);
      }
    }
  }

  lemma {:induction false} InsertAtEnd(s: seq<Reminder>, r: Reminder)
    requires forall x :: x in s ==> x.time <= r.time
    ensures InsertByTime(s, r) == s + [r]
  {
    if s != [] {
      InsertAtEnd(s[1..], r);
    }
  }

  /** Sorting a sorted list changes nothing. */
  lemma {:induction false} SortByTimeOfSorted(s: seq<Reminder>)
    requires Sorted(s)
    ensures SortByTime(s) == s
  {
    if s != [] {
      var init, last := s[..|s| - 1], s[|s| - 1];
      SortByTimeOfSorted(init);
      InsertAtEnd(init, last);
    }
  }

  /** `addReminder` (push, then sort): one record more, every old record kept,
      the list sorted, and the new record last among those due at its time;
      on a sorted list this is an insertion after every record due no later. */
  lemma AddedReminder(s: seq<Reminder>, r: Reminder)
    ensures var res := SortByTime(s + [r]);
      && |res| == |s| + 1
      && multiset(res) == multiset(s) + multiset{r}
      && Sorted(res)
      && WithTime(res, r.time) == WithTime(s, r.time) + [r]
  {
    var res := SortByTime(s + [r]);
    assert multiset(s + [r]) == multiset(s) + multiset{r};
    SortByTimeSorted(s + [r]);
    SortByTimeStable(s + [r], r.time);
    WithTimeConcat(s, [r], r.time);
    assert WithTime([r], r.time) == [r];
  }

  /** Adding a pending record keeps every fired record inactive. */
  lemma AddedKeepsFlags(s: seq<Reminder>, r: Reminder)
    requires FlagsConsistent(s) && !r.triggered
    ensures FlagsConsistent(SortByTime(s + [r]))
  {
    var res := SortByTime(s + [r]);
    forall x | x in res ensures x.triggered ==> !x.active {
      assert x in multiset(res);
      assert x in multiset(s + [r]);
    }
  }

  /** On a sorted list, push-then-sort is an insertion after every record due
      no later than the new one. */
  lemma AddedToSorted(s: seq<Reminder>, r: Reminder)
    requires Sorted(s)
    ensures SortByTime(s + [r]) == InsertByTime(s, r)
  {
    var s' := s + [r];
    assert s'[..|s'| - 1] == s && s'[|s'| - 1] == r;
    assert SortByTime(s') == InsertByTime(SortByTime(s), r);
    SortByTimeOfSorted(s);
  }

  // ---------------------------------------------------------------------------
  // Deletion

  /** Deletion keeps the relative order of what it keeps: it distributes over
      concatenation. */
  lemma {:induction false} DeleteByIdConcat(a: seq<Reminder>, b: seq<Reminder>, id: int)
    ensures DeleteById(a + b, id) == DeleteById(a, id) + DeleteById(b, id)
  {
    if a == [] {
      assert a + b == b;
    } else {
      assert (a + b)[0] == a[0] && (a + b)[1..] == a[1..] + b;
      DeleteByIdConcat(a[1..], b, id);
    }
  }

  /** Deleting an id that no record carries changes nothing. */
  lemma {:induction false} DeleteAbsentIsNoOp(s: seq<Reminder>, id: int)
    requires forall x :: x in s ==> x.id != id
    ensures DeleteById(s, id) == s
  {
    if s != [] {
      DeleteAbsentIsNoOp(s[1..], id);
    }
  }

  lemma {:induction false} DeleteKeepsSorted(s: seq<Reminder>, id: int)
    requires Sorted(s)
    ensures Sorted(DeleteById(s, id))
  {
    if s != [] {
      DeleteKeepsSorted(s[1..], id);
    }
  }

  /** The active view keeps the relative order of what it shows: it
      distributes over concatenation. */
  lemma {:induction false} ActiveConcat(a: seq<Reminder>, b: seq<Reminder>)
    ensures Active(a + b) == Active(a) + Active(b)
  {
    if a == [] {
      assert a + b == b;
    } else {
      assert (a + b)[0] == a[0] && (a + b)[1..] == a[1..] + b;
      ActiveConcat(a[1..], b);
    }
  }

  // ---------------------------------------------------------------------------
  // Next upcoming

  /** Next upcoming is none exactly when no active record is due after `now`;
      otherwise it is such a record, due no later than any other, and the
      first in list order among those due at its time. */
  lemma NextUpcomingIsEarliest(s: seq<Reminder>, now: int)
    ensures NextUpcoming(s, now).None? <==> forall x :: x in s ==> !(x.active && x.time > now)
    ensures NextUpcoming(s, now).Some? ==>
      var u := NextUpcoming(s, now).value;
      && u in s && u.active && u.time > now
      && (forall x :: x in s && x.active && x.time > now ==> u.time <= x.time)
      && u == WithTime(Upcoming(s, now), u.time)[0]
  {
    var c := Upcoming(s, now);
    if c == [] {
      forall x | x in s ensures !(x.active && x.time > now) {
        assert x !in c;
      }
    } else {
      assert c[0] in s;
      var sorted := SortByTime(c);
      var u := sorted[0];
      assert u in multiset(c);
      SortByTimeSorted(c);
      forall x | x in s && x.active && x.time > now ensures u.time <= x.time {
        assert x in multiset(sorted);
        var k :| 0 <= k < |sorted| && sorted[k] == x;
        assert k == 0 || sorted[0].time <= sorted[k].time;
      }
      SortByTimeStable(c, u.time);
      assert WithTime(sorted, u.time) == [u] + WithTime(sorted[1..], u.time);
    }
  }
}
