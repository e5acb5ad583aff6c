/** The delay badge of a wanted entity: from the time it was last seen, its
    reappearance window [minDelay, maxDelay] in minutes and the current time,
    the badge shows a countdown (or "?"), a colour and a tooltip.

    Timestamps are integer milliseconds, as `Date.getTime()` gives them; the
    delays and every derived number of minutes are exact reals. */
module DelayBadge {
  import opened Wrappers
  import Js

  /** Where the elapsed time stands with respect to the window. */
  datatype Category = Unknown | Overdue | BeforeMin | InWindow

  /** The three text colours of the badge: gray, red and green. */
  datatype Color = Gray | Red | Green

  datatype TimeUnit = Hours | Minutes

  /** One rendered number of the countdown: its whole value, whether it
      carries the "~" prefix, and its "h" or "m" suffix. */
  datatype Label = Label(value: int, approx: bool, unit: TimeUnit)

  /** The badge text: the "?" glyph, or a countdown of one or two labels. */
  datatype Display = QuestionMark | Countdown(labels: seq<Label>)

  /** The second tooltip line: the `any_time` message, or the `min_delay` /
      `max_delay` message with the clock time it names (in milliseconds). */
  datatype Reappearance = AnyTime | MinDelayAt(time: int) | MaxDelayAt(time: int)

  /** The tooltip: the `last_seen_at` message with its time, then the
      reappearance line. */
  datatype Tooltip = Tooltip(lastSeenAt: int, reappearance: Reappearance)

  /** Everything the badge renders. The badge of an entity never seen has
      no tooltip at all. */
  datatype Badge = Badge(display: Display, color: Color, tooltip: Option<Tooltip>)

  const MillisPerMinute: real := 60000.0

  // ---------------------------------------------------------------------
  // Reference: the state the badge is meant to show
  // ---------------------------------------------------------------------

  /** The category of an observed entity, with the overdue test first. */
  function Categorize(elapsed: real, minDelay: real, maxDelay: real): (c: Category)
    ensures c != Unknown
    ensures c == Overdue <==> maxDelay < elapsed
    ensures c == BeforeMin <==> elapsed < minDelay && elapsed <= maxDelay
    ensures c == InWindow <==> minDelay <= elapsed <= maxDelay
  {
    if elapsed > maxDelay then Overdue
    else if elapsed < minDelay then BeforeMin
    else InWindow
  }

  /** The colour each category is shown in. */
  function CategoryColor(c: Category): (color: Color)
  {
    match c
    case Unknown => Gray
    case Overdue => Gray
    case BeforeMin => Red
    case InWindow => Green
  }

  /** Orders the categories along the passing of time. */
  function Stage(c: Category): (stage: nat)
  {
    match c
    case Unknown => 0
    case BeforeMin => 1
    case InWindow => 2
    case Overdue => 3
  }

  // ---------------------------------------------------------------------
  // The computation of the badge
  // ---------------------------------------------------------------------

  /** Minutes since the entity was last seen (negative if it was seen in
      the future). */
  function ElapsedMinutes(lastSeenAt: int, now: int): (r: real)
    ensures r * MillisPerMinute == (now - lastSeenAt) as real
    ensures 0.0 < r <==> lastSeenAt < now
  {
    (now - lastSeenAt) as real / (1000.0 * 60.0)
  }

  /** The clock time `delay` minutes after `lastSeenAt`, as `new Date`
      stores it: fractional milliseconds truncated toward zero. */
  function ReappearTime(lastSeenAt: int, delay: real): (r: int)
    ensures delay == delay.Floor as real ==> r == lastSeenAt + delay.Floor * 60000
    ensures -1.0 < (r - lastSeenAt) as real - delay * MillisPerMinute < 1.0
  {
    Js.Trunc(lastSeenAt as real + delay * 60.0 * 1000.0)
  }

  /** The category the badge is in; `Unknown` exactly when the entity has
      never been seen. */
  function Classify(lastSeenAt: Option<int>, minDelay: real, maxDelay: real, now: int): (c: Category)
    ensures c == Unknown <==> lastSeenAt.None?
  {
    match lastSeenAt
    case None => Unknown
    case Some(t) => Categorize(ElapsedMinutes(t, now), minDelay, maxDelay)
  }

  /** The countdown the badge shows, in minutes: to the opening of the
      window before it, to its closing inside it, none otherwise. */
  function RemainingMinutes(lastSeenAt: Option<int>, minDelay: real, maxDelay: real, now: int): (r: Option<real>)
    ensures r.Some? <==> Classify(lastSeenAt, minDelay, maxDelay, now) in {BeforeMin, InWindow}
    ensures r.Some? ==> 0.0 <= r.value
    ensures Classify(lastSeenAt, minDelay, maxDelay, now) == BeforeMin ==> 0.0 < r.value
  {
    match lastSeenAt
    case None => None
    case Some(t) =>
      var elapsed := ElapsedMinutes(t, now);
      match Categorize(elapsed, minDelay, maxDelay)
      case BeforeMin => Some(minDelay - elapsed)
      case InWindow => Some(maxDelay - elapsed)
      case _ => None
  }

  /** Whole hours of a number of minutes. */
  function HoursPart(minutes: real): (r: int)
    ensures (r * 60) as real <= minutes < (r * 60 + 60) as real
  {
    (minutes / 60.0).Floor
  }

  /** Whole minutes left over once the hours are taken out, with
      JavaScript's `%`. */
  function MinutesPart(minutes: real): (r: int)
    ensures 0.0 <= minutes ==> 0 <= r < 60
    ensures minutes < 0.0 ==> r <= 0
  {
    Js.Remainder(minutes, 60.0).Floor
  }

  /** The minutes one label stands for. */
  function LabelMinutes(l: Label): (minutes: int)
  {
    match l.unit
    case Hours => 60 * l.value
    case Minutes => l.value
  }

  /** The minutes a sequence of labels stands for together. */
  function TotalMinutes(ls: seq<Label>): (total: int)
  {
    if ls == [] then 0 else LabelMinutes(ls[0]) + TotalMinutes(ls[1..])
  }

  /** The minutes of two label sequences add up when they are joined. */
  lemma {:induction false} TotalMinutesAppend(a: seq<Label>, b: seq<Label>)
    ensures TotalMinutes(a + b) == TotalMinutes(a) + TotalMinutes(b)
  {
    if a == [] {
      assert a + b == b;
    } else {
      assert (a + b)[1..] == a[1..] + b;
      TotalMinutesAppend(a[1..], b);
    }
  }

  /** The countdown text: hours (when there are any) then minutes (when
      there are any, or when there are no hours); the "~" goes on the
      hours if they are shown and on the minutes otherwise. */
  function TimeDisplay(minutes: real): (r: seq<Label>)
    ensures |r| <= 2
    ensures |r| == 2 ==> r[0].unit == Hours && r[1].unit == Minutes
    ensures 0.0 <= minutes <==> |r| >= 1
    ensures 0.0 <= minutes ==> r[0].approx && forall i | 1 <= i < |r| :: !r[i].approx
    ensures 0.0 <= minutes ==> TotalMinutes(r) == minutes.Floor
    ensures forall i | 0 <= i < |r| && r[i].unit == Minutes :: 0 <= r[i].value < 60
    ensures forall i | 0 <= i < |r| && r[i].unit == Hours :: r[i].value > 0
    ensures |r| == 2 ==> r[1].value > 0
    ensures 0.0 <= minutes ==> (r[0].unit == Hours <==> 60.0 <= minutes)
  {
    var hours := HoursPart(minutes);
    var mins := MinutesPart(minutes);
    var hourLabels := if hours > 0 then [Label(hours, true, Hours)] else [];
    var minuteLabels := if mins > 0 || hours == 0 then [Label(mins, !(hours > 0), Minutes)] else [];
    if 0.0 <= minutes then
      HoursMinutesSplit(minutes);
      TotalMinutesAppend(hourLabels, minuteLabels);
      hourLabels + minuteLabels
    else
      NegativeSplit(minutes);
      hourLabels + minuteLabels
  }

  /** The text of the badge for an entity that has been seen. */
  function DelayDisplay(elapsed: real, minDelay: real, maxDelay: real): (r: Display)
    ensures r == QuestionMark <==> Categorize(elapsed, minDelay, maxDelay) == Overdue
    ensures r.Countdown? ==> 1 <= |r.labels| <= 2 && r.labels[0].approx
  {
    if elapsed > maxDelay then QuestionMark
    else if elapsed < minDelay then Countdown(TimeDisplay(minDelay - elapsed))
    else Countdown(TimeDisplay(maxDelay - elapsed))
  }

  /** The colour of the badge for an entity that has been seen. */
  function DelayColor(elapsed: real, minDelay: real, maxDelay: real): (r: Color)
    ensures r == CategoryColor(Categorize(elapsed, minDelay, maxDelay))
  {
    if elapsed > maxDelay then Gray
    else if elapsed < minDelay then Red
    else Green
  }

  /** The tooltip for an entity seen at `lastSeenAt`, `elapsed` minutes ago. */
  function TooltipText(lastSeenAt: int, elapsed: real, minDelay: real, maxDelay: real): (r: Tooltip)
    ensures r.lastSeenAt == lastSeenAt
    ensures r.reappearance.AnyTime? <==> Categorize(elapsed, minDelay, maxDelay) == Overdue
    ensures r.reappearance.MinDelayAt? <==> Categorize(elapsed, minDelay, maxDelay) == BeforeMin
    ensures r.reappearance.MaxDelayAt? <==> Categorize(elapsed, minDelay, maxDelay) == InWindow
    ensures r.reappearance.MinDelayAt? ==> r.reappearance.time == ReappearTime(lastSeenAt, minDelay)
    ensures r.reappearance.MaxDelayAt? ==> r.reappearance.time == ReappearTime(lastSeenAt, maxDelay)
  {
    if elapsed > maxDelay then Tooltip(lastSeenAt, AnyTime)
    else if elapsed < minDelay then Tooltip(lastSeenAt, MinDelayAt(ReappearTime(lastSeenAt, minDelay)))
    else Tooltip(lastSeenAt, MaxDelayAt(ReappearTime(lastSeenAt, maxDelay)))
  }

  /** The whole badge. */
  function Render(lastSeenAt: Option<int>, minDelay: real, maxDelay: real, now: int): (b: Badge)
    ensures lastSeenAt.None? ==> b == Badge(QuestionMark, Gray, None)
    ensures b.color == CategoryColor(Classify(lastSeenAt, minDelay, maxDelay, now))
    ensures b.tooltip.None? <==> lastSeenAt.None?
    ensures b.display.Countdown? <==> RemainingMinutes(lastSeenAt, minDelay, maxDelay, now).Some?
  {
    match lastSeenAt
    case None => Badge(QuestionMark, Gray, None)
    case Some(t) =>
      var elapsed := ElapsedMinutes(t, now);
      Badge(DelayDisplay(elapsed, minDelay, maxDelay),
            DelayColor(elapsed, minDelay, maxDelay),
            Some(TooltipText(t, elapsed, minDelay, maxDelay)))
  }

  // ---------------------------------------------------------------------
  // Properties
  // ---------------------------------------------------------------------

  /** A non-negative number of minutes splits into whole hours and fewer
      than sixty whole minutes that add up to its whole minutes. */
  lemma HoursMinutesSplit(m: real)
    requires 0.0 <= m
    ensures 0 <= HoursPart(m)
    ensures 0 <= MinutesPart(m) < 60
    ensures HoursPart(m) * 60 + MinutesPart(m) == m.Floor
  {
  }

  /** A negative number of minutes gives negative hours and no positive
      minutes, so nothing is rendered for it. */
  lemma NegativeSplit(m: real)
    requires m < 0.0
    ensures HoursPart(m) < 0
    ensures MinutesPart(m) <= 0
  {
  }

  /** An entity never seen shows "?" in gray, without tooltip or countdown. */
  lemma NeverSeen(minDelay: real, maxDelay: real, now: int)
    ensures Render(None, minDelay, maxDelay, now) == Badge(QuestionMark, Gray, None)
    ensures RemainingMinutes(None, minDelay, maxDelay, now) == None
  {
  }

  /** Past the maximum delay: "?" in gray, the "any time" tooltip, no
      countdown. */
  lemma OverdueBadge(t: int, minDelay: real, maxDelay: real, now: int)
    requires ElapsedMinutes(t, now) > maxDelay
    ensures Render(Some(t), minDelay, maxDelay, now) == Badge(QuestionMark, Gray, Some(Tooltip(t, AnyTime)))
    ensures RemainingMinutes(Some(t), minDelay, maxDelay, now) == None
  {
  }

  /** Before the minimum delay: a red countdown to the opening of the
      window, and a tooltip naming the time it opens. */
  lemma BeforeMinBadge(t: int, minDelay: real, maxDelay: real, now: int)
    requires ElapsedMinutes(t, now) <= maxDelay && ElapsedMinutes(t, now) < minDelay
    ensures var left := minDelay - ElapsedMinutes(t, now);
      RemainingMinutes(Some(t), minDelay, maxDelay, now) == Some(left) &&
      Render(Some(t), minDelay, maxDelay, now)
        == Badge(Countdown(TimeDisplay(left)), Red, Some(Tooltip(t, MinDelayAt(ReappearTime(t, minDelay)))))
  {
  }

  /** Inside the window: a green countdown to its closing, and a tooltip
      naming the time it closes. */
  lemma InWindowBadge(t: int, minDelay: real, maxDelay: real, now: int)
    requires minDelay <= ElapsedMinutes(t, now) <= maxDelay
    ensures var left := maxDelay - ElapsedMinutes(t, now);
      RemainingMinutes(Some(t), minDelay, maxDelay, now) == Some(left) &&
      Render(Some(t), minDelay, maxDelay, now)
        == Badge(Countdown(TimeDisplay(left)), Green, Some(Tooltip(t, MaxDelayAt(ReappearTime(t, maxDelay)))))
  {
  }

  /** Both ends of the window belong to it: at the minimum delay the
      countdown to the closing starts, at the maximum delay it shows "~0m"
      in green rather than the overdue "?". */
  lemma WindowBoundsInclusive(t: int, minDelay: real, maxDelay: real, now: int)
    requires minDelay <= maxDelay
    requires ElapsedMinutes(t, now) == minDelay || ElapsedMinutes(t, now) == maxDelay
    ensures Classify(Some(t), minDelay, maxDelay, now) == InWindow
    ensures Render(Some(t), minDelay, maxDelay, now).color == Green
    ensures ElapsedMinutes(t, now) == maxDelay ==>
      Render(Some(t), minDelay, maxDelay, now).display == Countdown([Label(0, true, Minutes)])
  {
    if ElapsedMinutes(t, now) == maxDelay {
      assert TimeDisplay(0.0) == [Label(0, true, Minutes)];
    }
  }

  /** The text, the colour and the tooltip of a seen entity always show the
      same category. */
  lemma PartsAgree(t: int, minDelay: real, maxDelay: real, now: int)
    ensures var b := Render(Some(t), minDelay, maxDelay, now);
      b.tooltip.Some? &&
      (b.display == QuestionMark <==> b.color == Gray) &&
      (b.color == Gray <==> b.tooltip.value.reappearance.AnyTime?) &&
      (b.color == Red <==> b.tooltip.value.reappearance.MinDelayAt?) &&
      (b.color == Green <==> b.tooltip.value.reappearance.MaxDelayAt?)
  {
  }

  /** The countdown runs out exactly at the time the tooltip names: adding
      it to the current time gives the opening (before the window) or the
      closing (inside it) of the window, up to the millisecond truncation
      of `new Date`. */
  lemma CountdownMeetsTooltip(t: int, minDelay: real, maxDelay: real, now: int)
    requires RemainingMinutes(Some(t), minDelay, maxDelay, now).Some?
    ensures var left := RemainingMinutes(Some(t), minDelay, maxDelay, now).value;
      var b := Render(Some(t), minDelay, maxDelay, now);
      match b.tooltip.value.reappearance
      case MinDelayAt(at) =>
        now as real + left * MillisPerMinute == t as real + minDelay * MillisPerMinute &&
        Js.Trunc(now as real + left * MillisPerMinute) == at
      case MaxDelayAt(at) =>
        now as real + left * MillisPerMinute == t as real + maxDelay * MillisPerMinute &&
        Js.Trunc(now as real + left * MillisPerMinute) == at
      case AnyTime => false
  {
  }

  /** As time passes, the badge only moves forward through the categories:
      before the window, in it, overdue. */
  lemma CategoryOnlyAdvances(t: int, minDelay: real, maxDelay: real, now: int, later: int)
    requires now <= later
    ensures Stage(Classify(Some(t), minDelay, maxDelay, now)) <= Stage(Classify(Some(t), minDelay, maxDelay, later))
  {
  }

  /** Seen ten minutes ago with a window of 30 to 120 minutes: a red "~20m". */
  lemma ScenarioBeforeMin(now: int)
    ensures RemainingMinutes(Some(now - 600000), 30.0, 120.0, now) == Some(20.0)
    ensures Render(Some(now - 600000), 30.0, 120.0, now).display == Countdown([Label(20, true, Minutes)])
    ensures Render(Some(now - 600000), 30.0, 120.0, now).color == Red
  {
    assert TimeDisplay(20.0) == [Label(20, true, Minutes)];
  }

  /** Seen ninety minutes ago with a window of 30 to 120 minutes: a green "~30m". */
  lemma ScenarioInWindow(now: int)
    ensures RemainingMinutes(Some(now - 5400000), 30.0, 120.0, now) == Some(30.0)
    ensures Render(Some(now - 5400000), 30.0, 120.0, now).display == Countdown([Label(30, true, Minutes)])
    ensures Render(Some(now - 5400000), 30.0, 120.0, now).color == Green
  {
    assert TimeDisplay(30.0) == [Label(30, true, Minutes)];
  }

  /** A countdown of 125 minutes reads "~2h 5m"; one of exactly two hours
      reads "~2h" alone. */
  lemma ScenarioHours()
    ensures TimeDisplay(125.0) == [Label(2, true, Hours), Label(5, false, Minutes)]
    ensures TimeDisplay(120.0) == [Label(2, true, Hours)]
  {
  }
}
