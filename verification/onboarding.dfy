/** The Onboarding page: the custom habit manager (delete and add), the
    profile form's load merge, its age display and the reminder-time
    parsing behind the test button. Values the form holds are modelled as
    JavaScript values with JavaScript's truthiness. */
module Onboarding {
  import opened Text
  import opened Habits
  import Reminder

  // ---------------------------------------------------------------------
  // Habit manager

  /** `prev.filter(h => h.id !== habitId)`. */
  function RemoveId(habits: seq<Habit>, id: int): (r: seq<Habit>)
    ensures forall h :: h in r <==> h in habits && h.id != id
    ensures |r| <= |habits|
  {
    if |habits| == 0 then []
    else (if habits[0].id == id then [] else [habits[0]]) + RemoveId(habits[1..], id)
  }

  /** The filter keeps the survivors in their order. */
  lemma {:induction false} RemoveIdKeepsOrder(a: seq<Habit>, b: seq<Habit>, id: int)
    ensures RemoveId(a + b, id) == RemoveId(a, id) + RemoveId(b, id)
    decreases |a|
  {
    if |a| > 0 {
      var head := if a[0].id == id then [] else [a[0]];
      assert (a + b)[0] == a[0] && (a + b)[1..] == a[1..] + b;
      assert RemoveId(a + b, id) == head + RemoveId(a[1..] + b, id);
      RemoveIdKeepsOrder(a[1..], b, id);
      SeqAssoc(head, RemoveId(a[1..], id), RemoveId(b, id));
    } else {
      assert a + b == b;
    }
  }

  /** A list without the id is left exactly as it is. */
  lemma {:induction false} RemoveAbsentId(habits: seq<Habit>, id: int)
    requires forall i :: 0 <= i < |habits| ==> habits[i].id != id
    ensures RemoveId(habits, id) == habits
    decreases |habits|
  {
    if |habits| > 0 {
      RemoveAbsentId(habits[1..], id);
    }
  }

  datatype NewHabit = NewHabit(name: string, icon: string, category: string, difficulty: int)

  /** The form's contents when the page opens and after each addition. */
  const BLANK_HABIT: NewHabit := NewHabit("", "\U{1F3AF}", "lifestyle", 1)

  datatype Manager = Manager(habits: seq<Habit>, form: NewHabit, showForm: bool)

  /** `handleDelete(habitId)`: nothing happens unless the user confirms and
      the `DELETE` succeeds; then every habit with the id goes. */
  function Delete(m: Manager, id: int, confirmed: bool, ok: bool): (r: Manager)
    ensures !confirmed || !ok ==> r == m
    ensures confirmed && ok ==> r == m.(habits := RemoveId(m.habits, id))
    ensures forall h :: h in r.habits ==> h in m.habits
  {
    if !confirmed then m
    else if !ok then m
    else m.(habits := RemoveId(m.habits, id))
  }

  /** `handleAdd` up to the request: the body posted to `/habits/manage`,
      or none when the name is empty. */
  function AddRequest(m: Manager): (r: Option<NewHabit>)
    ensures r.None? <==> m.form.name == ""
    ensures r.Some? ==> r.value == m.form
  {
    if m.form.name == "" then None else Some(m.form)
  }

  /** `handleAdd` after the request: the created habit is appended and the
      form is closed and reset; a failure changes nothing. */
  function FinishAdd(m: Manager, created: Option<Habit>): (r: Manager)
    ensures created.None? ==> r == m
    ensures created.Some? ==>
      && r.habits == m.habits + [created.value]
      && r.form == BLANK_HABIT && !r.showForm
  {
    match created
    case None => m
    case Some(h) => Manager(m.habits + [h], BLANK_HABIT, false)
  }

  /** Deleting a habit just added removes it and nothing before it,
      provided its id was new. */
  lemma AddThenDelete(m: Manager, h: Habit)
    requires forall i :: 0 <= i < |m.habits| ==> m.habits[i].id != h.id
    ensures Delete(FinishAdd(m, Some(h)), h.id, true, true).habits == m.habits
  {
    RemoveIdKeepsOrder(m.habits, [h], h.id);
    RemoveAbsentId(m.habits, h.id);
  }

  // ---------------------------------------------------------------------
  // JavaScript values

  datatype JsValue = Undefined | Null | Bool(b: bool) | Num(n: int) | Str(s: string)

  /** JavaScript truthiness: `undefined`, `null`, `false`, `0` and `""` are
      falsy. */
  predicate Truthy(v: JsValue)
  {
    match v
    case Undefined => false
    case Null => false
    case Bool(b) => b
    case Num(n) => n != 0
    case Str(s) => s != ""
  }

  /** The result of `Number(...)` as far as it is modelled: an integer, or
      a value outside the model (NaN and the non-decimal notations). */
  datatype Numeric = Int(value: int) | Unmodelled

  /** `Number(s)` on a string: the empty string is 0, a run of decimal
      digits is its value. */
  function StringNumber(s: string): (r: Numeric)
    ensures AllDigits(s) ==> r == Int(DigitsValue(s))
  {
    if AllDigits(s) then Int(DigitsValue(s)) else Unmodelled
  }

  /** `Number(v)`. */
  function NumberOf(v: JsValue): Numeric
  {
    match v
    case Undefined => Unmodelled
    case Null => Int(0)
    case Bool(b) => Int(if b then 1 else 0)
    case Num(n) => Int(n)
    case Str(s) => StringNumber(s)
  }

  // ---------------------------------------------------------------------
  // Profile form

  type JsObject = map<string, JsValue>

  const TIMEZONE: string := "timezone"

  /** Reading a property: `undefined` when absent. */
  function Get(o: JsObject, key: string): JsValue
  {
    if key in o then o[key] else Undefined
  }

  /** `{ ...prev, ...data, timezone: data.timezone || prev.timezone }`. */
  function MergeProfile(prev: JsObject, data: JsObject): (r: JsObject)
    ensures forall k :: k != TIMEZONE ==> (k in r <==> k in prev || k in data)
    ensures forall k :: k != TIMEZONE && k in data ==> r[k] == data[k]
    ensures forall k :: k != TIMEZONE && k !in data && k in prev ==> r[k] == prev[k]
    ensures TIMEZONE in r
    ensures Truthy(Get(data, TIMEZONE)) ==> r[TIMEZONE] == data[TIMEZONE]
    ensures !Truthy(Get(data, TIMEZONE)) ==> r[TIMEZONE] == Get(prev, TIMEZONE)
  {
    var tz := if Truthy(Get(data, TIMEZONE)) then Get(data, TIMEZONE) else Get(prev, TIMEZONE);
    (prev + data)[TIMEZONE := tz]
  }

  /** The server's profile wins field by field, but a blank time zone from
      the server never erases the one the browser filled in. */
  lemma LocalTimezoneKept(prev: JsObject, data: JsObject)
    requires Truthy(Get(prev, TIMEZONE))
    ensures Truthy(MergeProfile(prev, data)[TIMEZONE])
  {
  }

  /** `load()`: a body is merged in; a failed request leaves the form
      alone. */
  function LoadProfile(prev: JsObject, body: Option<JsObject>): (r: JsObject)
    ensures body.None? ==> r == prev
    ensures body.Some? ==> r == MergeProfile(prev, body.value)
  {
    if body.None? then prev else MergeProfile(prev, body.value)
  }

  // ---------------------------------------------------------------------
  // Age

  datatype AgeText = Blank | Years(n: nat) | NotModelled

  /** The `age` memo: blank without a (truthy) birth year, otherwise the
      difference from the current year, never negative. */
  function Age(birthYear: JsValue, currentYear: int): (r: AgeText)
    ensures !Truthy(birthYear) <==> r.Blank?
    ensures r.Years? ==> NumberOf(birthYear).Int?
    ensures r.Years? ==> var b := NumberOf(birthYear).value;
      r.n >= currentYear - b && (r.n == 0 || r.n == currentYear - b)
  {
    if !Truthy(birthYear) then Blank
    else match NumberOf(birthYear)
      case Int(b) => Years(if currentYear - b > 0 then currentYear - b else 0)
      case Unmodelled => NotModelled
  }

  /** A birth year in the past gives the plain difference; one in the
      future gives 0. */
  lemma AgeOfYear(b: int, currentYear: int)
    requires b != 0
    ensures b <= currentYear ==> Age(Num(b), currentYear) == Years(currentYear - b)
    ensures b > currentYear ==> Age(Num(b), currentYear) == Years(0)
  {
  }

  // ---------------------------------------------------------------------
  // Reminder time

  /** `form.reminder_time || "18:00"`. */
  function ReminderText(field: JsValue): (text: string)
    requires field.Str? || !Truthy(field)
    ensures !Truthy(field) ==> text == "18:00"
    ensures Truthy(field) ==> text == field.s
  {
    if Truthy(field) then field.s else "18:00"
  }

  /** `text.split(":").map(Number)` destructured into `[hh, mm]`, then the
      hour and minute handed to `enableDailyNudge`: `mm` is absent without
      a colon and then takes the parameter's default; a part that is not a
      number leaves the time outside the model. */
  function TimeOf(text: string): (r: Option<(int, int)>)
    ensures ':' !in text && AllDigits(text) ==> r == Some((DigitsValue(text), Reminder.DEFAULT_MINUTE as int))
  {
    var parts := Split(text, ':');
    var hh := StringNumber(parts[0]);
    if hh.Unmodelled? then None
    else if |parts| == 1 then Some((hh.value, Reminder.DEFAULT_MINUTE))
    else match StringNumber(parts[1])
      case Unmodelled => None
      case Int(m) => Some((hh.value, m))
  }

  /** The time the test button schedules for the form's field. */
  function NudgeTime(field: JsValue): Option<(int, int)>
    requires field.Str? || !Truthy(field)
  {
    TimeOf(ReminderText(field))
  }

  lemma DigitsHaveNoColon(s: string)
    requires AllDigits(s)
    ensures ':' !in s
  {
  }

  /** A time written `HH:MM` reads back as that hour and minute. */
  lemma ReminderTimeRoundTrip(h: nat, m: nat)
    requires h < 24 && m < 60
    ensures TimeOf(Pad2(h) + ":" + Pad2(m)) == Some((h, m))
  {
    var text := Pad2(h) + ":" + Pad2(m);
    DigitsHaveNoColon(Pad2(h));
    DigitsHaveNoColon(Pad2(m));
    assert Join([Pad2(h), Pad2(m)], [':']) == text;
    SplitJoin([Pad2(h), Pad2(m)], ':');
  }

  lemma DefaultTimeText()
    ensures Pad2(18) + ":" + Pad2(0) == "18:00"
  {
    assert Pad2(18) == "18" by {
      assert NatText(18) == NatText(1) + [DigitChar(8)];
    }
    assert Pad2(0) == "00";
  }

  /** An empty or missing field falls back to 18:00, the reminder's own
      default time. */
  lemma EmptyReminderIsDefault(field: JsValue)
    requires !Truthy(field)
    ensures NudgeTime(field) == Some((Reminder.DEFAULT_HOUR as int, Reminder.DEFAULT_MINUTE as int))
  {
    DefaultTimeText();
    ReminderTimeRoundTrip(18, 0);
  }
}
