/** The daily reminder of `enableDailyNudge`: a permission gate, the next
    strictly-future occurrence of a wall-clock hour and minute, and the
    timer loop that re-arms itself after every reminder. The browser's
    `Notification` object and `setTimeout` are modelled as the inputs and
    transitions of a small state machine. */
module Reminder {
  import opened Clock

  const DEFAULT_HOUR: nat := 18
  const DEFAULT_MINUTE: nat := 0
  const GRANTED: string := "granted"

  /** Minutes after midnight of the wall-clock time `hour:minute`. */
  function Offset(hour: nat, minute: nat): nat
  {
    hour * 60 + minute
  }

  /** The instant of `hour:minute` on the day with number `day`, in ms. */
  function Occurrence(day: int, hour: nat, minute: nat): int
  {
    day * MS_PER_DAY + Offset(hour, minute) * MS_PER_MINUTE
  }

  /** Today at `hour:minute:00.000`, moved one day on when that is not
      strictly after `now`. */
  function NextFire(now: DateTime, hour: nat, minute: nat): (next: DateTime)
    requires Valid(now)
    ensures Valid(next) && next.second == 0 && next.ms == 0
    ensures ToMs(next) > ToMs(now)
    ensures var today := DayNumber(now.date);
      ToMs(next) == Occurrence(today, hour, minute) || ToMs(next) == Occurrence(today + 1, hour, minute)
    ensures Offset(hour, minute) < MINUTES_PER_DAY ==> ToMs(next) <= ToMs(now) + MS_PER_DAY
  {
    var target := SetTime(now, hour, minute);
    WithinDay(now);
    if ToMs(target) <= ToMs(now) then
      NextDayIsOneDayLater(target);
      target.(date := NextDay(target.date))
    else
      target
  }

  /** `next - now`: the timer delay in ms. */
  function Delay(now: DateTime, hour: nat, minute: nat): (ms: int)
    requires Valid(now)
    ensures ms > 0
    ensures Offset(hour, minute) < MINUTES_PER_DAY ==> ms <= MS_PER_DAY
  {
    ToMs(NextFire(now, hour, minute)) - ToMs(now)
  }

  /** For a time of day inside the day, the chosen instant is the earliest
      occurrence of that time strictly after `now`. */
  lemma NextFireIsEarliest(now: DateTime, hour: nat, minute: nat, day: int)
    requires Valid(now) && Offset(hour, minute) < MINUTES_PER_DAY
    requires Occurrence(day, hour, minute) > ToMs(now)
    ensures ToMs(NextFire(now, hour, minute)) <= Occurrence(day, hour, minute)
  {
    var today := DayNumber(now.date);
    WithinDay(now);
    if day == today {
      assert ToMs(SetTime(now, hour, minute)) == Occurrence(day, hour, minute);
    }
  }

  /** When the time of day is exactly `now`, the reminder is a full day away. */
  lemma TargetEqualToNowFiresTomorrow(now: DateTime, hour: nat, minute: nat)
    requires Valid(now)
    requires ToMs(SetTime(now, hour, minute)) == ToMs(now)
    ensures Delay(now, hour, minute) == MS_PER_DAY
  {
    NextDayIsOneDayLater(SetTime(now, hour, minute));
  }

  // ---------------------------------------------------------------------
  // The timer loop

  datatype Phase =
    | Idle
    | Scheduled(due: int, delay: int)
    | Firing

  datatype Nudge = Nudge(hour: nat, minute: nat, phase: Phase)

  /** How the awaited `checkFn()` settled. */
  datatype Outcome = Resolved | Rejected

  /** `schedule()`: reads the clock and sets one timer for the next
      occurrence. */
  function Arm(hour: nat, minute: nat, now: DateTime): (n: Nudge)
    requires Valid(now)
    ensures n.hour == hour && n.minute == minute
    ensures n.phase.Scheduled? && n.phase.due == ToMs(now) + n.phase.delay
    ensures n.phase.delay > 0
    ensures Offset(hour, minute) < MINUTES_PER_DAY ==> n.phase.delay <= MS_PER_DAY
  {
    Nudge(hour, minute, Scheduled(ToMs(NextFire(now, hour, minute)), Delay(now, hour, minute)))
  }

  /** `enableDailyNudge(checkFn, hour, minute)`: the loop starts only when
      the Notification capability exists and permission is granted. */
  function Enable(hasNotification: bool, permission: string, now: DateTime,
                  hour: nat := DEFAULT_HOUR, minute: nat := DEFAULT_MINUTE): (n: Nudge)
    requires Valid(now)
    ensures n.phase.Idle? <==> !hasNotification || permission != GRANTED
    ensures !n.phase.Idle? ==> n.phase.Scheduled? && n.phase.delay > 0
    ensures n.hour == hour && n.minute == minute
    ensures !n.phase.Idle? ==>
      n.phase.due == ToMs(NextFire(now, hour, minute)) && n.phase.delay == Delay(now, hour, minute)
  {
    if !hasNotification then Nudge(hour, minute, Idle)
    else if permission != GRANTED then Nudge(hour, minute, Idle)
    else Arm(hour, minute, now)
  }

  /** The timer elapses: the callback starts awaiting `checkFn()`. */
  function Elapse(n: Nudge): (r: Nudge)
    ensures n.phase.Scheduled? ==> r == n.(phase := Firing)
    ensures !n.phase.Scheduled? ==> r == n
  {
    if n.phase.Scheduled? then n.(phase := Firing) else n
  }

  /** `checkFn()` settles: the `finally` re-arms from the clock reading
      `now`, whatever the outcome. */
  function Settle(n: Nudge, outcome: Outcome, now: DateTime): (r: Nudge)
    requires Valid(now)
    ensures n.phase.Firing? ==> r.phase.Scheduled? && r.phase.due > ToMs(now)
    ensures n.phase.Firing? && Offset(n.hour, n.minute) < MINUTES_PER_DAY ==> r.phase.due <= ToMs(now) + MS_PER_DAY
    ensures !n.phase.Firing? ==> r == n
    ensures r.hour == n.hour && r.minute == n.minute
  {
    match outcome
    case Resolved => if n.phase.Firing? then Arm(n.hour, n.minute, now) else n
    case Rejected => if n.phase.Firing? then Arm(n.hour, n.minute, now) else n
  }

  /** One turn of the loop: an armed timer elapses, `checkFn` settles at
      `now`, and the loop is armed again for the same time of day, due
      strictly after `now` and, for a time inside the day, at most a day
      later. */
  lemma FireCycle(hour: nat, minute: nat, armedAt: DateTime, now: DateTime, outcome: Outcome)
    requires Valid(armedAt) && Valid(now)
    ensures Elapse(Arm(hour, minute, armedAt)).phase.Firing?
    ensures var r := Settle(Elapse(Arm(hour, minute, armedAt)), outcome, now);
      && r.hour == hour && r.minute == minute
      && r.phase.Scheduled? && ToMs(now) < r.phase.due
      && (Offset(hour, minute) < MINUTES_PER_DAY ==> r.phase.due <= ToMs(now) + MS_PER_DAY)
  {
  }

  /** A throwing `checkFn` re-arms exactly as a resolving one does. */
  lemma SettleIgnoresOutcome(n: Nudge, now: DateTime)
    requires Valid(now)
    ensures Settle(n, Resolved, now) == Settle(n, Rejected, now)
  {
  }

  /** Without the capability or the permission nothing ever fires: the
      loop stays idle through any timer or settlement. */
  lemma DeniedStaysIdle(hasNotification: bool, permission: string, now: DateTime, later: DateTime,
                        outcome: Outcome, hour: nat, minute: nat)
    requires Valid(now) && Valid(later)
    requires !hasNotification || permission != GRANTED
    ensures var n := Enable(hasNotification, permission, now, hour, minute);
      n.phase.Idle? && Elapse(n) == n && Settle(Elapse(n), outcome, later) == n
  {
  }

  /** A reminder that fires on time at occurrence `day` and settles within
      the day re-arms for the same time the next day: one day after the
      previous due time, although the delay is measured from the clock. */
  lemma RearmNextDay(hour: nat, minute: nat, day: int, now: DateTime, outcome: Outcome)
    requires Valid(now) && Offset(hour, minute) < MINUTES_PER_DAY
    requires Occurrence(day, hour, minute) <= ToMs(now) < Occurrence(day + 1, hour, minute)
    ensures Settle(Nudge(hour, minute, Firing), outcome, now).phase.due == Occurrence(day + 1, hour, minute)
  {
    var next := NextFire(now, hour, minute);
    NextFireIsEarliest(now, hour, minute, day + 1);
    var today := DayNumber(now.date);
    WithinDay(now);
    assert today == day || today == day + 1;
  }

  /** A `checkFn` that runs past one or more occurrences does not cause a
      burst of reminders: the next one is the first occurrence after the
      moment it settled. */
  lemma LateSettleSkipsMissed(hour: nat, minute: nat, now: DateTime, outcome: Outcome, day: int)
    requires Valid(now) && Offset(hour, minute) < MINUTES_PER_DAY
    requires Occurrence(day, hour, minute) > ToMs(now)
    ensures var due := Settle(Nudge(hour, minute, Firing), outcome, now).phase.due;
      ToMs(now) < due <= Occurrence(day, hour, minute)
  {
    NextFireIsEarliest(now, hour, minute, day);
  }
}
