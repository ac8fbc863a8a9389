/** The backend's gamification helpers: the XP needed for each level and
    the level a total falls in, the level's display name, the garden's
    growth stage, the soft streak of good days, and the XP a check-in
    awards. Database reads are parameters. */
module Progress {
  import opened Habits

  // ---------------------------------------------------------------------
  // Levels

  /** `_xp_threshold(level)`: the total XP at which `level` starts. */
  function XpThreshold(level: int): (t: int)
    ensures 2 * t == 100 * (level * (level - 1))
  {
    var p := level * (level - 1);
    HalfOfEven(p);
    100 * p / 2
  }

  /** The halving in `_xp_threshold` is exact. */
  lemma HalfOfEven(p: int)
    ensures 100 * p / 2 == 50 * p
  {
  }

  /** Level 1 starts at nothing, and each level needs 100 XP more than the
      one before: from `level` to `level + 1` takes `100 * level`. */
  lemma ThresholdStep(level: int)
    ensures XpThreshold(1) == 0
    ensures XpThreshold(level + 1) == XpThreshold(level) + 100 * level
  {
    assert (level + 1) * level == level * level + level;
    assert level * (level - 1) == level * level - level;
  }

  /** The thresholds grow with the level. */
  lemma {:induction false} ThresholdMonotone(a: int, b: int)
    requires 1 <= a <= b
    ensures XpThreshold(a) <= XpThreshold(b)
    ensures a < b ==> XpThreshold(a) < XpThreshold(b)
    decreases b - a
  {
    if a < b {
      ThresholdMonotone(a, b - 1);
      ThresholdStep(b - 1);
    }
  }

  /** The bracket a level owns: from its own threshold up to the next. */
  predicate InLevel(xp: int, level: int)
  {
    level >= 1 && XpThreshold(level) <= xp < XpThreshold(level + 1)
  }

  /** Two levels cannot own the same total. */
  lemma LevelUnique(xp: int, a: int, b: int)
    requires InLevel(xp, a) && InLevel(xp, b)
    ensures a == b
  {
    if a < b {
      ThresholdMonotone(a + 1, b);
    } else if b < a {
      ThresholdMonotone(b + 1, a);
    }
  }

  /** `level_from_xp(xp)`: climb from level 1 while the next threshold is
      reached; answer the level with its own and the next threshold. A
      negative total stays at level 1. */
  method LevelFromXp(xp: int) returns (level: int, curTh: int, nextTh: int)
    ensures level >= 1
    ensures curTh == XpThreshold(level) && nextTh == XpThreshold(level + 1)
    ensures xp < nextTh
    ensures xp >= 0 ==> InLevel(xp, level)
    ensures xp < 100 ==> level == 1
  {
    level := 1;
    while xp >= XpThreshold(level + 1)
      invariant level >= 1
      invariant level == 1 || XpThreshold(level) <= xp
      decreases xp - XpThreshold(level + 1)
    {
      ThresholdStep(level + 1);
      level := level + 1;
    }
    ThresholdStep(1);
    curTh := XpThreshold(level);
    nextTh := XpThreshold(level + 1);
  }

  /** The level names exactly as the back end's source file spells them:
      its bytes hold "Constant·e" and "Athlète" encoded twice, so the
      strings sent are "Constant¬∑e" and "Athl√®te". */
  const LEVEL_NAMES: seq<string> :=
    ["Novice", "Constant\U{00AC}\U{2211}e", "Momentum", "Transformer", "Athl\U{221A}\U{00AE}te"]

  /** `names[min(level-1, len(names)-1)]`, for a level `level_from_xp`
      produced: the first five levels have their own names and every level
      past them keeps the last. */
  function LevelName(level: int): (name: string)
    requires level >= 1
    ensures name in LEVEL_NAMES
    ensures level <= |LEVEL_NAMES| ==> name == LEVEL_NAMES[level - 1]
    ensures level >= |LEVEL_NAMES| ==> name == LEVEL_NAMES[|LEVEL_NAMES| - 1]
  {
    var i := if level - 1 < |LEVEL_NAMES| - 1 then level - 1 else |LEVEL_NAMES| - 1;
    LEVEL_NAMES[i]
  }

  // ---------------------------------------------------------------------
  // Growth stage

  datatype Stage = Seed | Sprout | Leafy | Flower
  {
    /** The stage's position in the garden's order. */
    function Rank(): nat
    {
      match this
      case Seed => 0
      case Sprout => 1
      case Leafy => 2
      case Flower => 3
    }

    /** The string the API sends. */
    function Name(): string
    {
      match this
      case Seed => "seed"
      case Sprout => "sprout"
      case Leafy => "leafy"
      case Flower => "flower"
    }
  }

  /** `growth_stage(streak)`. */
  function GrowthStage(streak: int): (s: Stage)
    ensures s == Flower <==> streak >= 7
    ensures s == Leafy <==> 5 <= streak < 7
    ensures s == Sprout <==> 3 <= streak < 5
    ensures s == Seed <==> streak < 3
  {
    if streak >= 7 then Flower
    else if streak >= 5 then Leafy
    else if streak >= 3 then Sprout
    else Seed
  }

  /** A longer streak never shows an earlier stage. */
  lemma GrowthMonotone(a: int, b: int)
    requires a <= b
    ensures GrowthStage(a).Rank() <= GrowthStage(b).Rank()
  {
  }

  // ---------------------------------------------------------------------
  // Soft streak

  /** `rows.get(day, 0)`: the number of habits done on a day, 0 for a day
      without check-ins. Days are day numbers. */
  function DoneOn(rows: map<int, int>, day: int): int
  {
    if day in rows then rows[day] else 0
  }

  /** The soft streak counted day by day from `day` backwards, looking at
      most `n` days. */
  function SoftStreak(rows: map<int, int>, day: int, threshold: int, n: nat): (k: nat)
    ensures k <= n
    decreases n
  {
    if n == 0 || DoneOn(rows, day) < threshold then 0
    else 1 + SoftStreak(rows, day - 1, threshold, n - 1)
  }

  /** `streak_soft(db, user_id, threshold, lookback)` after the query: the
      number of consecutive days ending today on which at least `threshold`
      habits were done, looking back at most `lookback` days. */
  method StreakSoft(rows: map<int, int>, today: int, threshold: int := 2, lookback: int := 30)
    returns (streak: nat)
    ensures streak as int <= if lookback > 0 then lookback else 0
    ensures forall d :: today - streak < d <= today ==> DoneOn(rows, d) >= threshold
    ensures streak < lookback ==> DoneOn(rows, today - streak) < threshold
    ensures streak == SoftStreak(rows, today, threshold, if lookback > 0 then lookback else 0)
  {
    var n: nat := if lookback > 0 then lookback else 0;
    streak := 0;
    var day := today;
    // Each pass is one turn of `for _ in range(lookback)`; the loop stops
    // where the Python `break`s.
    while streak < n && DoneOn(rows, day) >= threshold
      invariant streak <= n && day == today - streak
      invariant forall d :: today - streak < d <= today ==> DoneOn(rows, d) >= threshold
      invariant SoftStreak(rows, today, threshold, n) == streak + SoftStreak(rows, day, threshold, n - streak)
      decreases n - streak
    {
      streak := streak + 1;
      day := day - 1;
    }
  }

  /** Asking for fewer done habits per day never shortens the streak. */
  lemma {:induction false} SoftStreakThresholdMonotone(rows: map<int, int>, day: int, lower: int, higher: int, n: nat)
    requires lower <= higher
    ensures SoftStreak(rows, day, higher, n) <= SoftStreak(rows, day, lower, n)
    decreases n
  {
    if n > 0 && DoneOn(rows, day) >= higher {
      SoftStreakThresholdMonotone(rows, day - 1, lower, higher, n - 1);
    }
  }

  /** The query only fetches the last `lookback` days; the count never
      looks further back, so days before the window do not matter. */
  lemma {:induction false} SoftStreakWindow(rows: map<int, int>, window: map<int, int>, day: int, threshold: int, n: nat)
    requires forall d :: day - n < d <= day ==> DoneOn(rows, d) == DoneOn(window, d)
    ensures SoftStreak(rows, day, threshold, n) == SoftStreak(window, day, threshold, n)
    decreases n
  {
    if n > 0 {
      SoftStreakWindow(rows, window, day - 1, threshold, n - 1);
    }
  }

  // ---------------------------------------------------------------------
  // Check-in award

  datatype XpEvent = XpEvent(reason: string, amount: int)

  const HABIT_DONE: XpEvent := XpEvent("habit_done", 10)
  const DAILY_COMPLETE: XpEvent := XpEvent("daily_complete", 25)
  const DAILY_COMPLETE_MIN: nat := 3

  /** Today's check-ins of one user: habit id to its `done` flag. */
  type Day = map<int, bool>

  /** The habits marked done in a day. */
  function DoneSet(day: Day): set<int>
  {
    set k | k in day && day[k]
  }

  /** Whether the habit was already done before this check-in (`prev_done`). */
  predicate WasDone(day: Day, habitId: int)
  {
    habitId in day && day[habitId]
  }

  /** `create_or_update_checkin`: the day after the upsert, and the XP
      events awarded. Ticking a habit not done before earns `habit_done`,
      and `daily_complete` too when that makes at least three done today;
      anything else earns nothing. */
  function Checkin(day: Day, habitId: int, done: bool): (r: (Day, seq<XpEvent>))
    ensures r.0 == day[habitId := done]
    ensures r.1 != [] <==> done && !WasDone(day, habitId)
    ensures r.1 != [] ==> r.1[0] == HABIT_DONE
    ensures r.1 == [HABIT_DONE] || r.1 == [HABIT_DONE, DAILY_COMPLETE] || r.1 == []
    ensures DAILY_COMPLETE in r.1 <==>
      done && !WasDone(day, habitId) && |DoneSet(r.0)| >= DAILY_COMPLETE_MIN
  {
    var after := day[habitId := done];
    var events :=
      if done && !WasDone(day, habitId) then
        if |DoneSet(after)| >= DAILY_COMPLETE_MIN then [HABIT_DONE, DAILY_COMPLETE] else [HABIT_DONE]
      else [];
    (after, events)
  }

  /** The XP a list of events is worth. */
  function Total(events: seq<XpEvent>): int
  {
    if |events| == 0 then 0 else events[0].amount + Total(events[1..])
  }

  /** Unticking never earns anything. */
  lemma UntickEarnsNothing(day: Day, habitId: int)
    ensures Checkin(day, habitId, false).1 == []
  {
  }

  /** Repeating a tick earns nothing the second time. */
  lemma RetickEarnsNothing(day: Day, habitId: int)
    ensures var after := Checkin(day, habitId, true).0;
      Checkin(after, habitId, true).1 == []
  {
  }

  /** Ticking one more habit adds it to the done set and nothing else. */
  lemma DoneSetAfterTick(day: Day, habitId: int)
    requires !WasDone(day, habitId)
    ensures DoneSet(day[habitId := true]) == DoneSet(day) + {habitId}
    ensures |DoneSet(day[habitId := true])| == |DoneSet(day)| + 1
  {
    assert habitId !in DoneSet(day);
  }

  /** A new tick is worth 10 XP, or 35 when it brings the day to three or
      more done habits. */
  lemma TickWorth(day: Day, habitId: int)
    requires !WasDone(day, habitId)
    ensures Total(Checkin(day, habitId, true).1) ==
      if |DoneSet(day)| + 1 >= DAILY_COMPLETE_MIN then 35 else 10
  {
    DoneSetAfterTick(day, habitId);
    var events := Checkin(day, habitId, true).1;
    assert Total([HABIT_DONE]) == 10;
    assert Total([HABIT_DONE, DAILY_COMPLETE]) == 35 by {
      assert [HABIT_DONE, DAILY_COMPLETE][1..] == [DAILY_COMPLETE];
      assert Total([DAILY_COMPLETE]) == 25;
    }
  }

  /** As written, the daily bonus is not once a day: each new tick once
      three habits are done earns it again, and so does unticking and
      re-ticking. */
  lemma DailyBonusRepeats(day: Day, habitId: int)
    requires WasDone(day, habitId) && |DoneSet(day)| >= DAILY_COMPLETE_MIN
    ensures var unticked := Checkin(day, habitId, false).0;
      Checkin(unticked, habitId, true).1 == [HABIT_DONE, DAILY_COMPLETE]
  {
    var unticked := day[habitId := false];
    assert unticked[habitId := true] == day;
  }

  /** `attach_today_done(db, items, user_id)` with today's check-ins as
      `status`: every habit keeps its place and fields except `done`, which
      says whether it was checked in as done today. */
  function AttachTodayDone(items: seq<Habit>, status: Day): (r: seq<Habit>)
    ensures |r| == |items|
    ensures forall i :: 0 <= i < |items| ==>
      r[i] == items[i].(done := items[i].id in DoneSet(status))
  {
    if |items| == 0 then items
    else [items[0].(done := WasDone(status, items[0].id))] + AttachTodayDone(items[1..], status)
  }

  /** The list the Today page loads after a check-in shows the habit's new
      flag and every other habit's flag as before. */
  lemma AttachAfterCheckin(items: seq<Habit>, day: Day, habitId: int, done: bool)
    ensures var before := AttachTodayDone(items, day);
      var after := AttachTodayDone(items, Checkin(day, habitId, done).0);
      && |after| == |before|
      && forall i :: 0 <= i < |items| ==>
        after[i] == if items[i].id == habitId then before[i].(done := done) else before[i]
  {
  }

  // ---------------------------------------------------------------------
  // Challenge day

  /** The day of an active challenge shown in `challenges_active`: the
      days since its start counted from 1, kept between 1 and its
      duration. A zero-length challenge still shows day 1. */
  function ChallengeDay(today: int, start: int, duration: int): (day: int)
    ensures day >= 1
    ensures duration >= 1 ==> day <= duration
    ensures 1 <= today - start + 1 <= duration ==> day == today - start + 1
    ensures today < start ==> day == 1
    ensures today - start + 1 > duration && duration >= 1 ==> day == duration
    ensures duration < 1 ==> day == 1
  {
    var d := today - start + 1;
    var m := if d < duration then d else duration;
    if 1 > m then 1 else m
  }
}
