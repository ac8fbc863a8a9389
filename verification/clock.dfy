/** Floating local wall-clock time as a JavaScript `Date` exposes it through
    `getFullYear`, `getMonth() + 1`, `getDate`, `getHours`, `getMinutes`,
    `getSeconds` and `getMilliseconds`, in the proleptic Gregorian calendar.
    The local time zone is taken to have no daylight-saving shifts, so a day
    is always 86 400 000 ms long. */
module Clock {

  const MS_PER_MINUTE: int := 60000
  const MINUTES_PER_DAY: int := 1440
  const MS_PER_DAY: int := 86400000

  /** Days from 0000-01-01 to 1970-01-01. */
  const EPOCH_DAYS: int := 719528

  datatype Date = Date(year: int, month: int, day: int)

  datatype DateTime = DateTime(date: Date, hour: int, minute: int, second: int, ms: int)

  predicate IsLeap(y: int)
  {
    y % 4 == 0 && (y % 100 != 0 || y % 400 == 0)
  }

  function DaysInMonth(y: int, m: int): int
    requires 1 <= m <= 12
  {
    if m == 2 then (if IsLeap(y) then 29 else 28)
    else if m == 4 || m == 6 || m == 9 || m == 11 then 30
    else 31
  }

  predicate ValidDate(d: Date)
  {
    1 <= d.month <= 12 && 1 <= d.day <= DaysInMonth(d.year, d.month)
  }

  predicate Valid(t: DateTime)
  {
    && ValidDate(t.date)
    && 0 <= t.hour < 24 && 0 <= t.minute < 60
    && 0 <= t.second < 60 && 0 <= t.ms < 1000
  }

  /** Number of leap years in [0, y), negative for y < 0. */
  function LeapYearsBefore(y: int): int
  {
    (y + 3) / 4 - (y + 99) / 100 + (y + 399) / 400
  }

  /** Days from 1970-01-01 to January 1st of year `y`. */
  function DaysBeforeYear(y: int): int
  {
    365 * y + LeapYearsBefore(y) - EPOCH_DAYS
  }

  function DaysBeforeMonth(y: int, m: int): int
    requires 1 <= m <= 12
  {
    var cumulative := [0, 31, 59, 90, 120, 151, 181, 212, 243, 273, 304, 334];
    cumulative[m - 1] + (if m > 2 && IsLeap(y) then 1 else 0)
  }

  /** Days since 1970-01-01: an independent, closed-form count. */
  function DayNumber(d: Date): int
    requires ValidDate(d)
  {
    DaysBeforeYear(d.year) + DaysBeforeMonth(d.year, d.month) + d.day - 1
  }

  /** `getTime()` of a local date-time: ms since 1970-01-01 00:00 local. */
  function ToMs(t: DateTime): int
    requires ValidDate(t.date)
  {
    DayNumber(t.date) * MS_PER_DAY + t.hour * 3600000 + t.minute * MS_PER_MINUTE
      + t.second * 1000 + t.ms
  }

  lemma FloorStep(y: int, k: int)
    requires k == 4 || k == 100 || k == 400
    ensures (y + k) / k - (y + k - 1) / k == (if y % k == 0 then 1 else 0)
  {
    if k == 4 {
      assert (y + 4) / 4 - (y + 3) / 4 == (if y % 4 == 0 then 1 else 0);
    } else if k == 100 {
      assert (y + 100) / 100 - (y + 99) / 100 == (if y % 100 == 0 then 1 else 0);
    } else {
      assert (y + 400) / 400 - (y + 399) / 400 == (if y % 400 == 0 then 1 else 0);
    }
  }

  lemma LeapYearsStep(y: int)
    ensures LeapYearsBefore(y + 1) == LeapYearsBefore(y) + (if IsLeap(y) then 1 else 0)
  {
    FloorStep(y, 4);
    FloorStep(y, 100);
    FloorStep(y, 400);
    if y % 100 == 0 {
      assert y % 4 == 0;
    }
    if y % 400 == 0 {
      assert y % 100 == 0;
    }
  }

  lemma DaysBeforeYearStep(y: int)
    ensures DaysBeforeYear(y + 1) == DaysBeforeYear(y) + (if IsLeap(y) then 366 else 365)
  {
    LeapYearsStep(y);
  }

  /** `setDate(getDate() + 1)`. */
  function NextDay(d: Date): (r: Date)
    requires ValidDate(d)
    ensures ValidDate(r) && DayNumber(r) == DayNumber(d) + 1
  {
    if d.day < DaysInMonth(d.year, d.month) then d.(day := d.day + 1)
    else if d.month < 12 then Date(d.year, d.month + 1, 1)
    else
      DaysBeforeYearStep(d.year);
      Date(d.year + 1, 1, 1)
  }

  /** `setDate(getDate() - 1)`. */
  function PrevDay(d: Date): (r: Date)
    requires ValidDate(d)
    ensures ValidDate(r) && DayNumber(r) == DayNumber(d) - 1
  {
    if d.day > 1 then d.(day := d.day - 1)
    else if d.month > 1 then Date(d.year, d.month - 1, DaysInMonth(d.year, d.month - 1))
    else
      DaysBeforeYearStep(d.year - 1);
      Date(d.year - 1, 12, 31)
  }

  /** `setDate(getDate() + n)`: moves the date by `n` days, rolling months
      and years as needed. */
  function AddDays(d: Date, n: int): (r: Date)
    requires ValidDate(d)
    ensures ValidDate(r) && DayNumber(r) == DayNumber(d) + n
    decreases if n >= 0 then n else -n
  {
    if n == 0 then d
    else if n > 0 then AddDays(NextDay(d), n - 1)
    else AddDays(PrevDay(d), n + 1)
  }

  /** `new Date(t.getTime() + k * 60000)`: whole minutes are added, seconds
      and milliseconds are kept, and the date rolls over midnight. */
  function AddMinutes(t: DateTime, k: int): (r: DateTime)
    requires Valid(t)
    ensures Valid(r)
    ensures ToMs(r) == ToMs(t) + k * MS_PER_MINUTE
    ensures r.second == t.second && r.ms == t.ms
  {
    var total := t.hour * 60 + t.minute + k;
    var shift := total / MINUTES_PER_DAY;
    var rest := total % MINUTES_PER_DAY;
    var d := AddDays(t.date, shift);
    assert total == shift * MINUTES_PER_DAY + rest;
    DateTime(d, rest / 60, rest % 60, t.second, t.ms)
  }

  /** A date-time `d.setHours(h, m, 0, 0)` produces from `t`: midnight of
      the same day plus `h` hours and `m` minutes, normalised the way a
      `Date` normalises out-of-range hours and minutes. */
  function SetTime(t: DateTime, h: nat, m: nat): (r: DateTime)
    requires Valid(t)
    ensures Valid(r)
    ensures ToMs(r) == DayNumber(t.date) * MS_PER_DAY + (h * 60 + m) * MS_PER_MINUTE
  {
    AddMinutes(DateTime(t.date, 0, 0, 0, 0), h * 60 + m)
  }

  /** For in-range hour and minute `setHours` only replaces the time fields. */
  lemma SetTimeInRange(t: DateTime, h: nat, m: nat)
    requires Valid(t) && h < 24 && m < 60
    ensures SetTime(t, h, m) == DateTime(t.date, h, m, 0, 0)
  {
  }

  /** The day after a date-time is exactly 86 400 000 ms later. */
  lemma NextDayIsOneDayLater(t: DateTime)
    requires Valid(t)
    ensures ToMs(t.(date := NextDay(t.date))) == ToMs(t) + MS_PER_DAY
  {
  }

  /** The start of the day is never after a date-time, and the next day's
      start is strictly after it. */
  lemma WithinDay(t: DateTime)
    requires Valid(t)
    ensures DayNumber(t.date) * MS_PER_DAY <= ToMs(t) < DayNumber(t.date) * MS_PER_DAY + MS_PER_DAY
  {
  }
}
