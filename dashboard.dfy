/** The home-screen hero panel: the next upcoming reminder and a countdown to it. */
module Dashboard {
  import opened Records
  import opened Clock
  import opened ReminderStore

  datatype View = Hidden | Countdown(text: string, left: Hms)

  /** `updateDashboard` at `now`: the panel shows the next upcoming reminder's
      text and the time left, split into hours, minutes and seconds; it is
      hidden when there is none, or when the hour count comes out negative. */
  function DashboardView(s: seq<Reminder>, now: int): (v: View)
    ensures v.Countdown? ==> NextUpcoming(s, now).Some? && v.text == NextUpcoming(s, now).value.text
    ensures v.Countdown? ==> v.left.h >= 0 && 0 <= v.left.m < 60 && 0 <= v.left.s < 60
  {
    match NextUpcoming(s, now)
    case None => Hidden
    case Some(u) =>
      var left := SplitMillis(u.time - now);
      if left.h < 0 then Hidden else Countdown(u.text, left)
  }

  /** The panel shows a countdown exactly when there is a next upcoming
      reminder (the negative-hour guard never hides it), and the countdown is
      the whole seconds left until that reminder is due. */
  lemma DashboardShowsNextUpcoming(s: seq<Reminder>, now: int)
    ensures DashboardView(s, now).Countdown? <==> NextUpcoming(s, now).Some?
    ensures DashboardView(s, now).Countdown? ==>
      var u := NextUpcoming(s, now).value;
      var left := DashboardView(s, now).left;
      && DashboardView(s, now).text == u.text
      && 0 <= left.m < 60 && 0 <= left.s < 60
      && var shown := left.h * HourMs + left.m * MinuteMs + left.s * SecondMs;
         0 <= shown <= u.time - now < shown + SecondMs
  {
    NextUpcomingIsEarliest(s, now);
  }
}
