/** Hour/minute/second arithmetic of the two countdown displays, and the
    instant a snoozed alarm is rescheduled to. JavaScript's `Math.floor(a / b)`
    with `b > 0` is Dafny's `a / b`; JavaScript's `%` truncates, so it is
    written out as `JsRem`. */
module Clock {

  datatype Hms = Hms(h: int, m: int, s: int)

  const SecondMs := 1000
  const MinuteMs := 60 * SecondMs
  const HourMs := 60 * MinuteMs
  /** A snoozed alarm comes back five minutes later. */
  const SnoozeMs := 5 * MinuteMs

  /** JavaScript's remainder: it takes the sign of the dividend. */
  function JsRem(a: int, b: int): (r: int)
    requires b > 0
    ensures a >= 0 ==> r == a % b
    ensures a < 0 ==> -b < r <= 0
    ensures (a - r) % b == 0
  {
    TruncatedRemainder(a, b);
    if a >= 0 then a % b else -((-a) % b)
  }

  /** Both branches of `JsRem` differ from the dividend by a multiple of `b`. */
  lemma TruncatedRemainder(a: int, b: int)
    requires b > 0
    ensures a >= 0 ==> (a - a % b) % b == 0
    ensures a < 0 ==> (a + (-a) % b) % b == 0
  {
    if a >= 0 {
      var q := a / b;
      assert a - a % b == q * b;
      MultipleRem(q, b);
    } else {
      var q := (-a) / b;
      assert -a == q * b + (-a) % b;
      assert a + (-a) % b == (-q) * b;
      MultipleRem(-q, b);
    }
  }

  /** A multiple of `b` leaves no remainder. */
  lemma MultipleRem(k: int, b: int)
    requires b > 0
    ensures (k * b) % b == 0
  {
    var q, m := (k * b) / b, (k * b) % b;
    assert k * b == q * b + m && 0 <= m < b;
    var d := k - q;
    assert d * b == m;
    MulAwayFromZero(d, b);
  }

  /** A non-zero multiple of `b` is at least `b` away from zero. */
  lemma MulAwayFromZero(d: int, b: int)
    requires b > 0
    ensures d >= 1 ==> d * b >= b
    ensures d <= -1 ==> d * b <= -b
  {
    if d >= 1 {
      assert d * b == (d - 1) * b + b;
    } else if d <= -1 {
      assert d * b == (d + 1) * b - b;
    }
  }

  /** The timer display: a number of seconds as hours, minutes and seconds. */
  function SplitSeconds(total: int): (r: Hms)
    ensures total >= 0 ==> r.h >= 0 && 0 <= r.m < 60 && 0 <= r.s < 60
    ensures total >= 0 ==> r.h * 3600 + r.m * 60 + r.s == total
  {
    Hms(total / 3600, JsRem(total, 3600) / 60, JsRem(total, 60))
  }

  /** The dashboard display: a number of milliseconds as whole hours, minutes
      and seconds, the milliseconds below a second dropped. The hour count is
      negative exactly when the duration is. */
  function SplitMillis(diff: int): (r: Hms)
    ensures r.h < 0 <==> diff < 0
    ensures diff >= 0 ==> 0 <= r.m < 60 && 0 <= r.s < 60
    ensures diff >= 0 ==>
      var shown := r.h * HourMs + r.m * MinuteMs + r.s * SecondMs;
      shown <= diff < shown + SecondMs
  {
    MillisParts(diff);
    Hms(diff / HourMs, JsRem(diff, HourMs) / MinuteMs, JsRem(diff, MinuteMs) / SecondMs)
  }

  /** The three parts of a non-negative duration: whole hours, the whole
      minutes left over, and the whole seconds left over from those. */
  lemma MillisParts(diff: int)
    ensures diff / HourMs < 0 <==> diff < 0
    ensures diff >= 0 ==>
      var h, m, s := diff / HourMs, diff % HourMs / MinuteMs, diff % MinuteMs / SecondMs;
      && 0 <= m < 60 && 0 <= s < 60
      && h * HourMs + m * MinuteMs + s * SecondMs <= diff < h * HourMs + m * MinuteMs + s * SecondMs + SecondMs
  {
    if diff >= 0 {
      var rh := diff % HourMs;
      assert diff == diff / HourMs * HourMs + rh;
      MinutesOfHour(diff);
      var rm := diff % MinuteMs;
      assert rh == rh / MinuteMs * MinuteMs + rm;
      assert rm == rm / SecondMs * SecondMs + rm % SecondMs && 0 <= rm % SecondMs < SecondMs;
    } else {
      assert diff == diff / HourMs * HourMs + diff % HourMs && diff % HourMs < HourMs;
    }
  }

  /** Minutes past the hour: fewer than sixty, and what is left of them is
      what is left of the whole minutes. */
  lemma MinutesOfHour(diff: int)
    requires diff >= 0
    ensures 0 <= diff % HourMs / MinuteMs < 60
    ensures diff % HourMs % MinuteMs == diff % MinuteMs
  {
    var h, rh := diff / HourMs, diff % HourMs;
    assert diff == h * HourMs + rh && 0 <= rh < HourMs;
    var m, rm := rh / MinuteMs, rh % MinuteMs;
    assert rh == m * MinuteMs + rm && 0 <= rm < MinuteMs;
    var q, q', rm' := h * 60 + m, diff / MinuteMs, diff % MinuteMs;
    assert diff == q * MinuteMs + rm;
    assert diff == q' * MinuteMs + rm' && 0 <= rm' < MinuteMs;
    assert (q - q') * MinuteMs < MinuteMs && (q' - q) * MinuteMs < MinuteMs;
  }

  /** The start of the minute that contains `t`. */
  function FloorToMinute(t: int): (r: int)
    ensures r <= t < r + MinuteMs
    ensures r % MinuteMs == 0
  {
    t / MinuteMs * MinuteMs
  }

  /** Snooze target as the program computes it: the instant five minutes from
      now is written as a UTC wall-clock string cut to the minute, and that
      string is read back as LOCAL wall-clock time. `utcOffset` is local time
      minus UTC, in milliseconds. */
  function SnoozeTimeAsWritten(now: int, utcOffset: int): (r: int)
    ensures now + SnoozeMs - MinuteMs < r + utcOffset <= now + SnoozeMs
  {
    FloorToMinute(now + SnoozeMs) - utcOffset
  }

  /** Snooze target as intended: the local wall-clock minute five minutes from
      now, read back as local time. It lands in the minute that ends five
      minutes from now, whatever the time zone. */
  function SnoozeTime(now: int, utcOffset: int): (r: int)
    ensures now + SnoozeMs - MinuteMs < r <= now + SnoozeMs
  {
    FloorToMinute(now + SnoozeMs + utcOffset) - utcOffset
  }

  /** For a whole-minute UTC offset the program's target is off by exactly the
      offset. */
  lemma SnoozeAsWrittenShiftedByOffset(now: int, utcOffset: int)
    requires utcOffset % MinuteMs == 0
    ensures SnoozeTimeAsWritten(now, utcOffset) == SnoozeTime(now, utcOffset) - utcOffset
  {
    var k := utcOffset / MinuteMs;
    assert utcOffset == k * MinuteMs;
    var f := FloorToMinute(now + SnoozeMs);
    assert f + utcOffset <= now + SnoozeMs + utcOffset < f + utcOffset + MinuteMs;
    assert (f + utcOffset) % MinuteMs == 0;
    FloorIsUnique(now + SnoozeMs + utcOffset, f + utcOffset);
  }

  /** In a zone two hours ahead of UTC the snoozed reminder is dated before the
      instant the user pressed snooze, so the next scheduler tick fires it at
      once instead of five minutes later. */
  lemma SnoozeAsWrittenIsOverdueAheadOfUtc(now: int)
    ensures SnoozeTimeAsWritten(now, 2 * HourMs) < now
    ensures SnoozeTime(now, 2 * HourMs) > now
  {
  }

  /** The only minute boundary within a minute of `t` from below is the floor. */
  lemma FloorIsUnique(t: int, f: int)
    requires f <= t < f + MinuteMs
    requires f % MinuteMs == 0
    ensures FloorToMinute(t) == f
  {
    var g := FloorToMinute(t);
    var a, b := f / MinuteMs, g / MinuteMs;
    assert f == a * MinuteMs;
    assert g == b * MinuteMs;
    assert (a - b) * MinuteMs < MinuteMs && (b - a) * MinuteMs < MinuteMs;
  }
}
