# BoostFit core logic in Dafny

BoostFit is a habit and nutrition coach. It has a React front end and a
FastAPI back end. This project models the sequential logic inside both
halves and proves properties of that model:

- **Calendar export** (`downloadICS`, `escapeICS`). The single-event
  iCalendar writer:
  - floating local date-times `YYYYMMDDTHHMM00`;
  - DTEND as the start plus a number of minutes;
  - text escaping;
  - the fixed list of content lines joined by CRLF;
  - the download file name.
- **Daily reminder** (`enableDailyNudge`). A permission gate, the next
  strictly-future occurrence of a wall-clock time, and a timer loop that
  re-arms after every reminder. The loop is an explicit state machine:
  Idle, Scheduled, Firing.
- **Day plan** (`ScheduleTimeline`):
  - a map from habit id to slot;
  - its serialisation to and from the `{habit_id, slot}` list of
    `/schedule/today`;
  - the optimistic drop, with rollback to the map captured at the drop;
  - the board of "unscheduled" habits plus one column per slot;
  - the start-time rule of the calendar button.
- **Page logic**:
  - the Today checklist: toggle, revert, celebration, done counter;
  - the Coach basket, meal swap and shopping guard;
  - the Onboarding habit manager, profile merge, age and reminder-time
    parsing;
  - the sign-in page's e-mail pattern and guards.
- **Back-end helpers**:
  - XP thresholds and levels, level names;
  - growth stage;
  - the soft streak;
  - the check-in XP award;
  - attaching today's done flags;
  - the shopping-list aggregation and sort;
  - the challenge-day clamp;
  - energy classification;
  - the EWMA weight trend.

Each operation is a pure function, or a method with loop invariants, over
immutable datatypes. The modules follow the program's files:

- `Text`: JavaScript whitespace, `String(n)`, `padStart`, `split`, `join`.
- `Clock`: local date-times and `Date` arithmetic.
- `Calendar`, `Reminder`, `Schedule`, `Today`, `Coach`, `Onboarding`,
  `Auth`: the front-end pieces.
- `Habits`: the habit record.
- `Progress`, `Shopping`, `Metrics`: the back-end helpers.

All inputs from outside the program are parameters of the model: the
clock, `Date.now()`, the random UID digits, permission answers, HTTP
outcomes, and the database rows a query returns.

A failed day-plan load leaves the map as it was: the `try` in `load`
has a `finally` but no `catch` (`Schedule.FinishLoad`).

The model also shows some behaviours of the code as written:

- `escapeICS` does not escape backslashes, so different titles can give
  the same escaped text (`Calendar.EscapeNotInjective`).
- The calendar button moves the start to tomorrow only when it is
  strictly before now. The reminder moves it when it is at or before now
  (`Schedule.StartVersusReminder`).
- The 25 XP daily bonus is granted again whenever a habit is re-ticked
  on a day that already has three done (`Progress.DailyBonusRepeats`).
- `backend/main.py` holds the level names "Constant·e" and "Athlète"
  encoded twice, so the server sends "Constant¬∑e" and "Athl√®te". The
  model uses these literal strings (`Progress.LevelName`).

## Model

| member | source | states |
|---|---|---|
| Text.NatText | frontend/src/utils/calendar.js:3 | `String(n)` of a non-negative integer is a non-empty digit string. It has one digit exactly when n < 10 and no leading zero otherwise. |
| Text.NatTextRoundTrip | frontend/src/utils/calendar.js:3 | Reading back the digits `String(n)` wrote gives n. |
| Text.IntText | frontend/src/utils/calendar.js:4 | `String(i)` of any integer, as used for the year, is non-empty. |
| Text.Pad2 | frontend/src/utils/calendar.js:3 | `String(n).padStart(2,'0')` is all digits, has length 2 for n < 100, and reads back as n. |
| Text.DigitsValueLeadingZero | frontend/src/utils/calendar.js:3 | A leading pad zero does not change the value the digits denote. |
| Text.SplitCrlf | frontend/src/utils/calendar.js:22 | Splitting a text at CRLF always gives at least one line. |
| Text.FindCrlf | frontend/src/utils/calendar.js:22 | The position found is the first CRLF at or after k, or the end of the text when there is none. |
| Text.SplitJoinCrlf | frontend/src/utils/calendar.js:22 | Lines that hold no line feed, joined by CRLF and split again, come back exactly. |
| Text.Split | frontend/src/pages/Onboarding.jsx:158 | `s.split(c)` gives at least one part. No part holds c, and joining the parts with c gives back s. |
| Text.SplitJoin | frontend/src/pages/Onboarding.jsx:158 | Splitting undoes joining, for parts that do not hold the separator. |
| Text.IndexOf | frontend/src/pages/Auth.jsx:49 | The position found holds the character, and no earlier position does. |
| Text.IndexOfAfter | frontend/src/pages/Auth.jsx:49 | In a + c + b with c not in a, the first c is at position \|a\|. |
| Clock.NextDay | frontend/src/utils/notify.js:10 | `setDate(getDate()+1)` gives a valid date whose day number is one more, across month and year ends. |
| Clock.PrevDay | frontend/src/utils/calendar.js:7 | Moving one day back gives a valid date whose day number is one less. |
| Clock.AddDays | frontend/src/utils/calendar.js:7 | Moving a date by n days gives a valid date whose day number differs by exactly n. |
| Clock.AddMinutes | frontend/src/utils/calendar.js:7 | `new Date(start.getTime() + k*60000)` is a valid date-time exactly k minutes later, with the same seconds and milliseconds. |
| Clock.SetTime | frontend/src/utils/notify.js:9 | `setHours(h, m, 0, 0)` is a valid date-time at midnight of the same day plus h hours and m minutes. |
| Clock.SetTimeInRange | frontend/src/components/ScheduleTimeline.jsx:112 | For an in-range hour and minute, `setHours` only replaces the time fields and zeroes seconds and milliseconds. |
| Clock.NextDayIsOneDayLater | frontend/src/utils/notify.js:10 | The same time on the next day is exactly 86 400 000 ms later. |
| Clock.WithinDay | frontend/src/utils/notify.js:7-9 | A date-time lies at or after its day's midnight and strictly before the next midnight. |
| Calendar.FormatParseRoundTrip | frontend/src/utils/calendar.js:3-4 | For a four-digit year, `dt(d)` has 15 characters with `T` at index 8. It reads back as the same date, hour and minute, with the seconds dropped. |
| Calendar.RunExample | frontend/src/utils/calendar.js:4-8 | A 15-minute event at 08:00 on 2024-01-01 is written as 20240101T080000 and ends at 20240101T081500. |
| Calendar.FormatNoLineFeed | frontend/src/utils/calendar.js:4 | A formatted date-time never holds a line feed. |
| Calendar.Escape | frontend/src/utils/calendar.js:32 | The escaped text holds no line feed. It is longer than the input by exactly the number of commas, semicolons and line feeds. |
| Calendar.EscapeGuardsSeparators | frontend/src/utils/calendar.js:32 | Every comma or semicolon in the escaped text comes right after a backslash. |
| Calendar.UnescapeEscape | frontend/src/utils/calendar.js:32 | A text without backslashes reads back exactly after escaping. |
| Calendar.EscapeNotInjective | frontend/src/utils/calendar.js:32 | Since backslashes are not escaped, a line feed and the two characters `\n` escape to the same text. |
| Calendar.DropSpaces | frontend/src/utils/calendar.js:28 | Removing leading whitespace never lengthens the text and leaves no whitespace in front. |
| Calendar.CollapseSpaces | frontend/src/utils/calendar.js:28 | `replace(/\s+/g,'_')` leaves no whitespace and never lengthens the text. |
| Calendar.CollapseNoSpace | frontend/src/utils/calendar.js:28 | A title without whitespace is left unchanged. |
| Calendar.CollapseRun | frontend/src/utils/calendar.js:28 | A maximal whitespace run after a whitespace-free prefix becomes exactly one underscore. |
| Calendar.FileName | frontend/src/utils/calendar.js:28 | The download name is the title with each maximal whitespace run replaced by `_` (`CollapseSpaces`), followed by `.ics`. The part before `.ics` is whitespace-free. |
| Calendar.FirstColon | frontend/src/utils/calendar.js:11-22 | The position found is the first colon of a content line, or its end when there is none. |
| Calendar.FirstColonAt | frontend/src/utils/calendar.js:11-22 | A colon with no colon before it is the first colon. |
| Calendar.PropertyParts | frontend/src/utils/calendar.js:14-19 | A `name:value` line with a colon-free name reads back as that name and that value. |
| Calendar.Names | frontend/src/utils/calendar.js:11-22 | The property names of a list of lines, one per line and in order. |
| Calendar.Lines | frontend/src/utils/calendar.js:11-22 | One content line per property, in order. |
| Calendar.LinesReadBack | frontend/src/utils/calendar.js:11-22 | Each content line reads back as the name and value it was written from. |
| Calendar.DescriptionNamed | frontend/src/utils/calendar.js:19 | The property list names DESCRIPTION exactly when a description line is asked for. |
| Calendar.UidNoLineFeed | frontend/src/utils/calendar.js:9 | A UID made of `Date.now()`, hex digits and the suffix holds no line feed. |
| Calendar.UidSuffix | frontend/src/utils/calendar.js:9 | Every UID ends in `@boostfit`. |
| Calendar.PropertyNoLineFeed | frontend/src/utils/calendar.js:14-19 | A name and value without line feeds give a line without line feeds. |
| Calendar.ContentLinesShape | frontend/src/utils/calendar.js:11-21 | The lines come in the fixed order BEGIN, VERSION, PRODID, BEGIN, UID, DTSTAMP, DTSTART, DTEND, SUMMARY, an optional DESCRIPTION, END, END. Each line carries its expected value, and none holds a line feed. |
| Calendar.JoinedLinesReadBack | frontend/src/utils/calendar.js:11-22 | The CRLF-joined text, split back at CRLF, gives exactly those lines in that order. |
| Calendar.CalendarText | frontend/src/utils/calendar.js:11-22 | The calendar text, split at CRLF, describes the event: the fixed names, in order, with their values. |
| Calendar.Encode | frontend/src/utils/calendar.js:2-28 | `downloadICS` produces two things. The text, split at CRLF, holds the fixed properties with the UID, the stamp, the start, the end, the escaped summary and the optional escaped description. The file name is the title with whitespace runs collapsed to `_`, then `.ics`, and the UID line ends in `@boostfit`. |
| Calendar.DtEndIsStartPlusDuration | frontend/src/utils/calendar.js:2-8 | DTEND reads back as a valid date-time exactly `durationMin` minutes (default 15) after the start, with the start's seconds cleared. This holds across midnights and month ends. |
| Calendar.TextFieldsRoundTrip | frontend/src/utils/calendar.js:2-19 | SUMMARY unescapes to the title. A DESCRIPTION line exists exactly when the description is non-empty, and then unescapes to it. |
| Reminder.NextFire | frontend/src/utils/notify.js:8-10 | The chosen instant is today or tomorrow at hour:minute with zero seconds and milliseconds, strictly after now. For a time inside the day it is at most one day away. |
| Reminder.Delay | frontend/src/utils/notify.js:10-11 | The timer delay is strictly positive. For a time inside the day it is at most one day. |
| Reminder.NextFireIsEarliest | frontend/src/utils/notify.js:8-10 | For a time inside the day, no occurrence after now comes before the chosen instant. |
| Reminder.TargetEqualToNowFiresTomorrow | frontend/src/utils/notify.js:10 | When today's target equals now, the reminder is exactly one day away. |
| Reminder.Arm | frontend/src/utils/notify.js:6-14 | `schedule()` sets one timer. Its due time is now plus a positive delay, at most one day for a time inside the day. |
| Reminder.Enable | frontend/src/utils/notify.js:1-16 | The loop stays idle exactly when the Notification capability is absent or permission is not `granted`. Otherwise a timer is set for the next occurrence of the requested hour and minute (`NextFire`), with the delay from now. The hour and minute are kept, and the defaults are 18:00. |
| Reminder.Elapse | frontend/src/utils/notify.js:12 | A scheduled timer fires. Any other state is left alone. |
| Reminder.Settle | frontend/src/utils/notify.js:13 | Once `checkFn` settles, the loop is re-armed from the current clock. The next due time is strictly in the future and, for a time inside the day, at most one day away. |
| Reminder.FireCycle | frontend/src/utils/notify.js:6-14 | One turn of the loop: an armed timer fires, `checkFn` settles, and the loop is armed again for the same time of day. The new due time is strictly after the settlement and, for a time inside the day, at most a day later. |
| Reminder.SettleIgnoresOutcome | frontend/src/utils/notify.js:13 | A throwing `checkFn` re-arms exactly as a resolving one does. |
| Reminder.DeniedStaysIdle | frontend/src/utils/notify.js:2-4 | Without capability or permission, nothing is ever scheduled, through any timer or settlement. |
| Reminder.RearmNextDay | frontend/src/utils/notify.js:6-13 | A reminder that settles before the next occurrence re-arms for the same time on the following day. |
| Reminder.LateSettleSkipsMissed | frontend/src/utils/notify.js:6-11 | A late settlement does not replay missed occurrences. The next due time is the first occurrence after the settlement. |
| Schedule.MinKey | frontend/src/components/ScheduleTimeline.jsx:32 | The smallest habit id of a non-empty map. |
| Schedule.EntryIds | frontend/src/components/ScheduleTimeline.jsx:23 | Every entry's habit id is among the ids of the list. |
| Schedule.Serialize | frontend/src/components/ScheduleTimeline.jsx:32 | `Object.entries(map)` gives one entry per assigned habit, in ascending id order, each carrying that habit's slot. |
| Schedule.Collect | frontend/src/components/ScheduleTimeline.jsx:22-23 | The loaded map's keys are exactly the listed ids, and the last entry for an id wins. |
| Schedule.CollectSerialize | frontend/src/components/ScheduleTimeline.jsx:23-32 | Loading a serialised map gives back that map. |
| Schedule.BeginLoad | frontend/src/components/ScheduleTimeline.jsx:19 | Starting a load raises the loading flag and keeps the map. |
| Schedule.FinishLoad | frontend/src/components/ScheduleTimeline.jsx:20-25 | An answer with items replaces the map by the map those entries build, the last entry for an id winning. An answer without items empties it. A failure keeps the map. The flag goes down either way. |
| Schedule.LoadSavedPayload | frontend/src/components/ScheduleTimeline.jsx:21-33 | A load that answers with a saved payload restores the saved map. |
| Schedule.LoadCycle | frontend/src/components/ScheduleTimeline.jsx:18-26 | A whole load that answers with a saved payload ends on the saved map with the flag down. A failed load ends on the old map with the flag down. |
| Schedule.Drop | frontend/src/components/ScheduleTimeline.jsx:30-37 | After a drop the habit maps to the slot and every other entry is unchanged. The new map is shown at once, the map before the drop is kept, and the posted payload loads back as the new map. |
| Schedule.Settle | frontend/src/components/ScheduleTimeline.jsx:38 | A successful save keeps the map. A failed one restores the map captured at the drop. |
| Schedule.FailedDropRollsBack | frontend/src/components/ScheduleTimeline.jsx:36-38 | A failed save undoes exactly its own drop. |
| Schedule.DropIdempotent | frontend/src/components/ScheduleTimeline.jsx:37 | Repeating the same drop changes nothing further. |
| Schedule.Find | frontend/src/components/ScheduleTimeline.jsx:76 | `habits.find` gives nothing exactly when no habit has the id. Otherwise it gives the first habit in the list with that id. |
| Schedule.DropCard | frontend/src/components/ScheduleTimeline.jsx:75-77 | Dropping an unknown id changes nothing. Dropping a known one assigns it and keeps the previous map for rollback. |
| Schedule.Unscheduled | frontend/src/components/ScheduleTimeline.jsx:15-16 | The unscheduled list holds exactly the habits whose id is not a key of the map. |
| Schedule.UnscheduledKeepsOrder | frontend/src/components/ScheduleTimeline.jsx:16 | The filter keeps input order: filtering a concatenation concatenates the filtered parts. |
| Schedule.Column | frontend/src/components/ScheduleTimeline.jsx:79 | A slot's column holds exactly the habits mapped to that slot. |
| Schedule.ColumnKeepsOrder | frontend/src/components/ScheduleTimeline.jsx:79 | The column filter keeps input order. |
| Schedule.BoardPartition | frontend/src/components/ScheduleTimeline.jsx:15-80 | When every mapped slot is a known slot, the unscheduled list and the three columns together hold each habit exactly as often as the input does. |
| Schedule.BoardCounts | frontend/src/components/ScheduleTimeline.jsx:15-80 | For any one habit, its count in the input equals its count over the four lists. |
| Schedule.Place | frontend/src/components/ScheduleTimeline.jsx:73-80 | Each habit belongs to one of the four lists. |
| Schedule.SlotById | frontend/src/components/ScheduleTimeline.jsx:5-9 | `SLOTS.find` succeeds exactly for the ids morning, lunch and evening, and gives the slot with that id. |
| Schedule.StartFor | frontend/src/components/ScheduleTimeline.jsx:111-113 | The start is at the slot's hour and minute with zero seconds. It lies at or after now and less than one day later. |
| Schedule.AddToCalendar | frontend/src/components/ScheduleTimeline.jsx:107-119 | There is no button exactly when the habit has no slot or an empty one. An unknown slot fails on click. Otherwise the event starts at the slot's time (`StartFor`: today, or tomorrow when that time has passed), within a day of now. It is titled after the habit and carries the nudge text and 15 minutes. |
| Schedule.StartVersusReminder | frontend/src/components/ScheduleTimeline.jsx:113 | The calendar start and the reminder pick the same instant, except when the slot time is exactly now. Then the calendar keeps now and the reminder picks tomorrow. |
| Today.DoneCount | frontend/src/pages/Today.jsx:17-18 | The done counter never exceeds the list length. It equals the length exactly when all habits are done, and is zero exactly when none is. |
| Today.SetDone | frontend/src/pages/Today.jsx:44 | Habits with the id get the new flag. Every other habit is unchanged, and the length is kept. |
| Today.Toggle | frontend/src/pages/Today.jsx:43-48 | The optimistic list flips only the clicked id to the negation of the clicked flag and is shown at once. The posted check-in carries that id and flag. |
| Today.Settle | frontend/src/pages/Today.jsx:47-57 | A failed post restores the list captured before the toggle. A successful one keeps the list and starts the celebration exactly when every habit of a non-empty list is done. |
| Today.CelebrationEnds | frontend/src/pages/Today.jsx:52 | The timer turns the celebration off and keeps the list. |
| Today.ConfettiCycle | frontend/src/pages/Today.jsx:47-53 | After a successful toggle and the 1.8 s timer, the optimistic list stays on screen and the confetti is off. |
| Today.FailedToggleReverts | frontend/src/pages/Today.jsx:55-56 | A failed check-in puts the page's list back exactly as it was. |
| Today.CelebratesWhenAllDone | frontend/src/pages/Today.jsx:49-50 | The celebration starts exactly when the post succeeds and every habit of a non-empty list is done. |
| Today.ToggleTwice | frontend/src/pages/Today.jsx:43-45 | Toggling back undoes a toggle when the clicked flag matched the list. |
| Today.ToggleMovesCountByOne | frontend/src/pages/Today.jsx:43-49 | With unique ids, a toggle moves the done counter by exactly one, in the direction of the new flag. |
| Coach.AddToBasket | frontend/src/pages/Coach.jsx:102-104 | A recipe already in the basket leaves it unchanged. A new one is appended at the end. A duplicate-free basket stays duplicate-free. |
| Coach.AddAll | frontend/src/pages/Coach.jsx:103 | Any series of additions gives a duplicate-free basket. |
| Coach.BasketHoldsEachOnce | frontend/src/pages/Coach.jsx:103 | After any series of additions the basket holds exactly the added recipes, each once. |
| Coach.ShoppingRequest | frontend/src/pages/Coach.jsx:106-108 | Nothing is requested exactly when the basket is empty. Otherwise the request carries the basket. |
| Coach.SumsAfterReplace | frontend/src/pages/Coach.jsx:132-138 | Replacing one recipe changes each sum by the difference between the two recipes. |
| Coach.Swap | frontend/src/pages/Coach.jsx:124-141 | Without an alternative the plan is unchanged. Otherwise only meal idx gets the first alternative, and both totals are recomputed over the new meals. |
| Coach.SwapTotalsConsistent | frontend/src/pages/Coach.jsx:137-138 | After a swap the totals equal the sums over the plan's meals. |
| Onboarding.RemoveId | frontend/src/pages/Onboarding.jsx:32 | The filtered list holds exactly the habits whose id differs. |
| Onboarding.RemoveIdKeepsOrder | frontend/src/pages/Onboarding.jsx:32 | The delete filter keeps the survivors in their order. |
| Onboarding.RemoveAbsentId | frontend/src/pages/Onboarding.jsx:32 | Deleting an id that is not in the list leaves the list unchanged. |
| Onboarding.Delete | frontend/src/pages/Onboarding.jsx:28-36 | Nothing changes unless the user confirms and the request succeeds. Then every habit with the id is removed. |
| Onboarding.AddRequest | frontend/src/pages/Onboarding.jsx:38-42 | An empty name sends nothing. Otherwise the form is posted as it is. |
| Onboarding.FinishAdd | frontend/src/pages/Onboarding.jsx:42-47 | A created habit is appended at the end, and the form is closed and reset to its defaults. A failure changes nothing. |
| Onboarding.AddThenDelete | frontend/src/pages/Onboarding.jsx:32-43 | Deleting a just-added habit with a new id gives back the previous list. |
| Onboarding.StringNumber | frontend/src/pages/Onboarding.jsx:158 | `Number(s)` of a decimal digit string is the value of the digits. |
| Onboarding.MergeProfile | frontend/src/pages/Onboarding.jsx:130 | The server's fields override the form's, field by field, and other form fields are kept. The time zone comes from the server only when the server's value is truthy. |
| Onboarding.LocalTimezoneKept | frontend/src/pages/Onboarding.jsx:130 | A truthy local time zone is never replaced by a falsy one. |
| Onboarding.LoadProfile | frontend/src/pages/Onboarding.jsx:127-133 | A failed load leaves the form unchanged. A successful one merges the body in. |
| Onboarding.Age | frontend/src/pages/Onboarding.jsx:166-170 | The age is blank exactly when the birth year is falsy. Otherwise it is max(0, current year − birth year). |
| Onboarding.AgeOfYear | frontend/src/pages/Onboarding.jsx:169 | A past birth year gives the difference. A future one gives 0. |
| Onboarding.ReminderText | frontend/src/pages/Onboarding.jsx:158 | An empty or missing field gives "18:00". Otherwise the field's text is used. |
| Onboarding.TimeOf | frontend/src/pages/Onboarding.jsx:158-161 | Text without a colon gives that hour and the default minute 0. |
| Onboarding.ReminderTimeRoundTrip | frontend/src/pages/Onboarding.jsx:158 | A time written `HH:MM` reads back as that hour and minute. |
| Onboarding.EmptyReminderIsDefault | frontend/src/pages/Onboarding.jsx:158 | An empty or missing field schedules 18:00, the reminder's own default. |
| Auth.ValidMatches | frontend/src/pages/Auth.jsx:5 | Every string the direct check accepts matches the pattern. |
| Auth.MatchesValid | frontend/src/pages/Auth.jsx:5 | Every match of the pattern passes the direct check. |
| Auth.EmailPatternIff | frontend/src/pages/Auth.jsx:5-19 | A string matches `^[^\s@]+@[^\s@]+\.[^\s@]+$` exactly when it has no whitespace, exactly one `@` with text before it, and a `.` after the `@` with text on both sides. |
| Auth.Utf16Length | frontend/src/pages/Auth.jsx:40 | `password.length` counts UTF-16 units: at least one and at most two per character. |
| Auth.SignIn | frontend/src/pages/Auth.jsx:21-26 | Sign-in is refused exactly when the e-mail is invalid or the password is empty, with its message. Otherwise the credentials are sent as given. |
| Auth.Username | frontend/src/pages/Auth.jsx:49 | The username seed holds no `@`. |
| Auth.UsernameIsLocalPart | frontend/src/pages/Auth.jsx:49 | The username seed is the text before the first `@`. |
| Auth.SignUp | frontend/src/pages/Auth.jsx:37-50 | The checks run in order: invalid e-mail, then a password that is empty or shorter than 6, then mismatched passwords. Each failure refuses with its own message exactly under its condition. A request is sent only with matching passwords. |
| Auth.SignUpUsername | frontend/src/pages/Auth.jsx:44-49 | A sign-up that goes through carries the address's local part as the username. |
| Auth.MagicLink | frontend/src/pages/Auth.jsx:61-66 | A magic link is refused exactly for an invalid e-mail. Otherwise it is sent to that address. |
| Progress.XpThreshold | backend/main.py:628-629 | Twice the threshold is 100·L·(L−1), so the halving is exact. |
| Progress.ThresholdStep | backend/main.py:628-629 | Level 1 starts at 0 XP, and each next level needs 100·L more. |
| Progress.ThresholdMonotone | backend/main.py:628-629 | Thresholds grow strictly with the level. |
| Progress.LevelUnique | backend/main.py:631-637 | No XP total lies in the brackets of two levels. |
| Progress.LevelFromXp | backend/main.py:631-637 | The level is at least 1 and xp is below the next threshold. For xp ≥ 0 the current threshold is at most xp, and xp below 100 is level 1. |
| Progress.LevelName | backend/main.py:1161-1162 | The name index always falls inside the five names as the source file spells them. Levels 1–5 get their own name, and higher levels get the last one. |
| Progress.GrowthStage | backend/main.py:387-391 | flower exactly for a streak ≥ 7, leafy for 5–6, sprout for 3–4, seed below 3. |
| Progress.GrowthMonotone | backend/main.py:387-391 | A longer streak never shows an earlier stage. |
| Progress.SoftStreak | backend/main.py:528-535 | The streak counted back over n days is at most n. |
| Progress.StreakSoft | backend/main.py:518-536 | The streak k is at most the lookback. Each of the k days back from today has at least the threshold done. When k is below the lookback, day today−k falls short. |
| Progress.SoftStreakThresholdMonotone | backend/main.py:528-535 | A lower threshold never gives a shorter streak. |
| Progress.SoftStreakWindow | backend/main.py:519-526 | The streak depends only on the last lookback days, the window the query fetches. |
| Progress.Checkin | backend/main.py:665-689 | The upsert sets the habit's flag. 10 XP is awarded exactly when the check-in is done and was not done before. The extra 25 XP is awarded exactly in that case when the day then has at least 3 done. |
| Progress.UntickEarnsNothing | backend/main.py:681 | Unticking never awards XP. |
| Progress.RetickEarnsNothing | backend/main.py:670-681 | Repeating a tick awards nothing the second time. |
| Progress.DoneSetAfterTick | backend/main.py:676-687 | Ticking a habit that was not done adds exactly it to the day's done set. |
| Progress.TickWorth | backend/main.py:681-689 | A new tick is worth 10 XP, or 35 when it brings the day to three or more done. |
| Progress.DailyBonusRepeats | backend/main.py:681-689 | Unticking and re-ticking on a day with three done awards the daily bonus again. |
| Progress.AttachTodayDone | backend/main.py:477-489 | Length and order are kept, and only `done` changes: it becomes whether today's status has the habit done. |
| Progress.AttachAfterCheckin | backend/main.py:477-489 | After a check-in, the attached list shows the habit's new flag and leaves the other habits as before. |
| Progress.ChallengeDay | backend/main.py:1222-1223 | The day is clamped into 1..duration. It is the plain day count inside that range, 1 before the start, and the duration after the end. A challenge of duration below 1 always shows day 1. |
| Shopping.Flatten | backend/main.py:931-932 | Every ingredient of every fetched recipe is visited. |
| Shopping.Named | backend/main.py:935-936 | The rows carrying a name are exactly those rows. |
| Shopping.Add | backend/main.py:933-934 | `acc[key] += qty`: the key gets exactly one row and its quantity grows by qty. No other key changes. |
| Shopping.AccumulateOrder | backend/main.py:930-936 | The rows of `acc.items()` list their pairs in the order the pairs first appear among the ingredients, as a Python dict keeps insertion order. |
| Shopping.NamedInFirstOrder | backend/main.py:936-937 | Keeping only the rows of one name preserves first-appearance order. |
| Shopping.AccumulateSums | backend/main.py:930-934 | After the loop, each (name, unit) pair that occurs has exactly one row, whose quantity is the sum over its occurrences. A missing unit counts as "" and a missing qty as 0. |
| Shopping.RowQty | backend/main.py:936 | With distinct pairs, a row's quantity is the total of its pair. |
| Shopping.LessIrreflexive | backend/main.py:936 | No name sorts before itself. |
| Shopping.LessTransitive | backend/main.py:936 | Python string order is transitive. |
| Shopping.LessTotal | backend/main.py:936 | Of two different names, one sorts before the other. |
| Shopping.NotAfterTransitive | backend/main.py:936 | "Sorts no later than" is transitive. |
| Shopping.Insert | backend/main.py:936 | Insertion adds exactly the new row and keeps the others. |
| Shopping.InsertSorted | backend/main.py:936 | Inserting into a list sorted by name keeps it sorted. |
| Shopping.InsertNamed | backend/main.py:936 | The inserted row goes before every row of its own name. |
| Shopping.SortByName | backend/main.py:936 | The sort keeps every pair's count and quantity. |
| Shopping.SortByNameSpec | backend/main.py:936 | The result is sorted by name, and rows with the same name keep their order, as Python's stable sort does. |
| Shopping.ShoppingList | backend/main.py:920-936 | Empty ids give []. Otherwise the rows are sorted by name, each pair appears once exactly when it occurs, each quantity is its pair's total, and rows of one name are in the order their pairs first appear among the ingredients. |
| Shopping.RowIsTotal | backend/main.py:930-936 | Each row carries the total quantity of its own pair. |
| Metrics.ClassifyEnergy | backend/utils.py:19-24 | high exactly for ratio ≥ 0.8, medium for 0.4 ≤ ratio < 0.8, low below 0.4. |
| Metrics.EnergyMonotone | backend/utils.py:19-24 | A higher ratio never gives a lower energy level. |
| Metrics.Round2 | backend/utils.py:15 | `round(x, 2)` lands on a hundredth within half a hundredth of x. At an exact tie it takes the even hundredth, so the result is determined for every x. |
| Metrics.Round2Exact | backend/utils.py:15 | A value already in hundredths is unchanged. |
| Metrics.Round2Ties | backend/utils.py:15 | Two examples of the tie rule: 0.125 gives 0.12 and 0.135 gives 0.14. |
| Metrics.Ewma | backend/utils.py:4-16 | The output has one row per point, keeping its date and weight. Its trend is the rounded value of the recurrence that starts at the first weight and steps with alpha·w + (1−alpha)·(previous unrounded trend). |
| Metrics.FirstTrend | backend/utils.py:13-14 | The first trend equals the first weight. |
| Metrics.TrendWithinRange | backend/utils.py:14 | For alpha in [0, 1], the trend stays between the lowest and highest weight seen so far. |
| Metrics.SteadyWeightFlatTrend | backend/utils.py:14 | A constant weight gives a flat trend equal to it. |

## Left out

- Time zones and daylight saving. Local time is a calendar date plus a time of day, with every day 86 400 000 ms long.
- Separate clock readings. `notify.js` reads `new Date()` twice for now and next, and `AddToCalButton` reads it twice as well. The model uses one reading for both.
- The download side effects of `downloadICS`: Blob, object URL, link click. `Date.now()`, `Math.random()` and the DTSTAMP clock reading are parameters.
- The browser APIs `Notification`, `requestPermission` and `setTimeout`. They are the inputs and transitions of the reminder state machine. `checkFn`'s notification is not modelled.
- Concurrency: racing saves in the day plan and overlapping toggles on the Today page. Each request is modelled as settling before the next user action.
- All SQL. Query results are parameters:
  - the check-in rows of the streak window;
  - today's check-ins;
  - the recipes' ingredient lists;
  - the challenge row.
- The 404 raised when there is no active challenge is not modelled, because it happens before the clamp.
- Floating-point numerics. Python `Decimal` values, alpha, ratios and quantities are exact reals. The 28-digit precision of `Decimal` is not modelled.
- Shopping.ShoppingList: quantities are not rounded with `round(v, 2)`. The sums are binary floats in the source, and their rounding has no exact contract.
- Shopping.ShoppingList: `float(ing.get("qty", 0))` is modelled for numeric quantities only. String quantities parsed by `float()` are not modelled.
- Python's dict keeps insertion order. `acc.items()` is modelled as the order in which the pairs first appear (`Shopping.AccumulateOrder`).
- Duplicate recipe ids: the ingredient lists are taken as the query returns them.
- `progress_01` in `gamify_status` and the other floating-point figures of the back end (BMR, targets, plateau, adherence).
- Onboarding.StringNumber: `Number()` is modelled for decimal digit strings only. Other notations (spaces, signs, decimals, hex, exponents) and NaN are outside the model.
- Onboarding.TimeOf: its contract covers text without a colon. The `HH:MM` form is covered by `Onboarding.ReminderTimeRoundTrip`, and a NaN hour or minute is outside the model.
- Onboarding.Age: a non-numeric birth year (NaN) is outside the model.
- Reminder.NextFire: the at-most-one-day bound is proved only for a time inside the day (hour·60 + minute < 1440). Larger values follow `setHours` normalisation and are allowed, without that bound.
- Reminder.Delay: the at-most-one-day bound holds only for a time inside the day, as for `Reminder.NextFire`.
- Metrics.FirstTrend: stated for a first weight already in hundredths. For other weights the first trend is that weight rounded.
- Coach.Swap: it requires an index inside the plan's meals. The page only swaps meals it displays, and an index outside would add a hole in JavaScript.
- The text formatting of `genShopping`, the clipboard, `exportPlan` and the Coach page's nudges and charts.
- Meal plans, recipes, snacks, weekly reviews and the coach chat: SQL and rendering.
- Profile `save()`, with its `Number()` normalisation and `PUT /profile`.
- Authentication infrastructure: supabase calls, sessions, JWT decoding.
- Rendering, routing and configuration components.
- `Object.entries` order for negative habit ids. Ids are modelled as listed in ascending order, which JavaScript guarantees only for array-index keys; database ids are positive.
