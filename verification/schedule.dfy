/** The day plan of `ScheduleTimeline`: a map from habit id to time slot,
    loaded from and saved to `/schedule/today` as a list of
    `{habit_id, slot}` entries, changed by dropping a habit card on a slot
    (optimistically, with rollback when the save fails), shown as an
    "unscheduled" list plus one column per slot, and exported to a calendar
    file for the next occurrence of a habit's slot. */
module Schedule {
  import opened Text
  import opened Clock
  import opened Habits
  import Calendar
  import Reminder

  datatype Slot = Slot(id: string, caption: string, hour: nat, minute: nat)

  const SLOTS: seq<Slot> := [
    Slot("morning", "Matin", 8, 0),
    Slot("lunch", "D\U{00E9}jeuner", 12, 30),
    Slot("evening", "Soir", 18, 30)
  ]

  /** One `{habit_id, slot}` element of the request and response bodies. */
  datatype Entry = Entry(habitId: int, slot: string)

  /** `map`: habit id to slot id. */
  type Assignment = map<int, string>

  datatype Store = Store(assignment: Assignment, loading: bool)

  /** The component's state when it mounts, before the first load. */
  const INITIAL: Store := Store(map[], true)

  // ---------------------------------------------------------------------
  // Serialisation

  predicate Ascending(entries: seq<Entry>)
  {
    forall i, j :: 0 <= i < j < |entries| ==> entries[i].habitId < entries[j].habitId
  }

  lemma {:induction false} LeastKey(s: set<int>) returns (k: int)
    requires s != {}
    ensures k in s && forall j :: j in s ==> k <= j
    decreases |s|
  {
    if forall y :: y !in s {
      assert false;
    }
    var x :| x in s;
    var rest := s - {x};
    if rest == {} {
      k := x;
    } else {
      var y := LeastKey(rest);
      k := if y < x then y else x;
    }
    forall j | j in s ensures k <= j {
      if j != x { assert j in rest; }
    }
  }

  lemma MinKeyExists(s: set<int>)
    requires s != {}
    ensures exists k :: k in s && forall j :: j in s ==> k <= j
  {
    var k := LeastKey(s);
  }

  /** The smallest habit id of a non-empty map. */
  function MinKey(m: Assignment): (k: int)
    requires m != map[]
    ensures k in m && forall j :: j in m ==> k <= j
  {
    MinKeyExists(m.Keys);
    var k :| k in m && forall j :: j in m ==> k <= j;
    k
  }

  /** The habit ids an entry list mentions. */
  function EntryIds(entries: seq<Entry>): (ids: set<int>)
    ensures forall i :: 0 <= i < |entries| ==> entries[i].habitId in ids
  {
    if |entries| == 0 then {} else {entries[0].habitId} + EntryIds(entries[1..])
  }

  lemma {:induction false} EntryIdsWitness(entries: seq<Entry>, x: int)
    requires x in EntryIds(entries)
    ensures exists i :: 0 <= i < |entries| && entries[i].habitId == x
    decreases |entries|
  {
    if entries[0].habitId != x {
      EntryIdsWitness(entries[1..], x);
      var i :| 0 <= i < |entries[1..]| && entries[1..][i].habitId == x;
      assert entries[i + 1].habitId == x;
    }
  }

  lemma {:induction false} EntryIdsAbsent(entries: seq<Entry>, x: int)
    requires forall i :: 0 <= i < |entries| ==> entries[i].habitId != x
    ensures x !in EntryIds(entries)
    decreases |entries|
  {
    if |entries| > 0 {
      EntryIdsAbsent(entries[1..], x);
    }
  }

  /** `Object.entries(map).map(...)`: one entry per assigned habit, in the
      ascending order in which JavaScript lists integer keys. */
  function Serialize(m: Assignment): (entries: seq<Entry>)
    ensures Ascending(entries)
    ensures forall i :: 0 <= i < |entries| ==> entries[i].habitId in m && m[entries[i].habitId] == entries[i].slot
    ensures EntryIds(entries) == m.Keys
    decreases |m|
  {
    if m == map[] then []
    else
      var k := MinKey(m);
      var rest := m - {k};
      assert |rest| < |m| by {
        assert rest.Keys == m.Keys - {k};
      }
      var tail := Serialize(rest);
      PrependLeast(m, k, tail);
      [Entry(k, m[k])] + tail
  }

  /** The step of `Serialize`: the least key in front of the serialised
      remainder. */
  lemma PrependLeast(m: Assignment, k: int, tail: seq<Entry>)
    requires k in m && forall j :: j in m ==> k <= j
    requires Ascending(tail) && EntryIds(tail) == (m - {k}).Keys
    requires forall i :: 0 <= i < |tail| ==> tail[i].habitId in m - {k} && (m - {k})[tail[i].habitId] == tail[i].slot
    ensures var entries := [Entry(k, m[k])] + tail;
      && Ascending(entries)
      && (forall i :: 0 <= i < |entries| ==> entries[i].habitId in m && m[entries[i].habitId] == entries[i].slot)
      && EntryIds(entries) == m.Keys
  {
    var entries := [Entry(k, m[k])] + tail;
    assert entries[1..] == tail;
    forall i | 1 <= i < |entries| ensures entries[i] == tail[i - 1] && entries[i].habitId != k
      && entries[i].habitId in m && m[entries[i].habitId] == entries[i].slot {
      assert tail[i - 1].habitId in m - {k};
    }
    forall i, j | 0 <= i < j < |entries| ensures entries[i].habitId < entries[j].habitId {
      if i > 0 {
        assert entries[i] == tail[i - 1];
      }
    }
  }

  /** No later entry has the habit id of entry `i`. */
  predicate LastFor(entries: seq<Entry>, i: int)
    requires 0 <= i < |entries|
  {
    forall j :: i < j < |entries| ==> entries[j].habitId != entries[i].habitId
  }

  /** `for (const it of items) next[it.habit_id] = it.slot`: later entries
      overwrite earlier ones with the same habit id. */
  function Collect(entries: seq<Entry>): (m: Assignment)
    ensures m.Keys == EntryIds(entries)
    ensures forall i :: 0 <= i < |entries| && LastFor(entries, i) ==> m[entries[i].habitId] == entries[i].slot
    decreases |entries|
  {
    if |entries| == 0 then map[]
    else
      var first := entries[0];
      var tail := entries[1..];
      assert forall i :: 1 <= i < |entries| && LastFor(entries, i) ==> LastFor(tail, i - 1);
      assert LastFor(entries, 0) ==> first.habitId !in EntryIds(tail) by {
        if LastFor(entries, 0) {
          assert forall j :: 0 <= j < |tail| ==> tail[j] == entries[j + 1];
          EntryIdsAbsent(tail, first.habitId);
        }
      }
      map[first.habitId := first.slot] + Collect(tail)
  }

  /** Loading what was saved gives back the saved map. */
  lemma CollectSerialize(m: Assignment)
    ensures Collect(Serialize(m)) == m
  {
    var entries := Serialize(m);
    var back := Collect(entries);
    forall k | k in m ensures back[k] == m[k] {
      EntryIdsWitness(entries, k);
      var i :| 0 <= i < |entries| && entries[i].habitId == k;
      assert LastFor(entries, i);
    }
  }

  // ---------------------------------------------------------------------
  // Loading and saving

  /** The answer to `GET /schedule/today`: a failure, or a body whose
      `items` may be missing. */
  datatype Response = Failed | Answered(items: Option<seq<Entry>>)

  /** `load()` up to the request: the loading flag goes up. */
  function BeginLoad(s: Store): (r: Store)
    ensures r.loading && r.assignment == s.assignment
  {
    s.(loading := true)
  }

  /** `load()` after the request. A body replaces the map (a body without
      items empties it); a failure leaves the map as it was, since the
      `try` has no `catch`, and the `finally` lowers the flag either way. */
  function FinishLoad(s: Store, response: Response): (r: Store)
    ensures !r.loading
    ensures response.Failed? ==> r.assignment == s.assignment
    ensures response.Answered? && response.items.None? ==> r.assignment == map[]
    ensures response.Answered? && response.items.Some? ==> r.assignment.Keys == EntryIds(response.items.value)
    ensures response.Answered? && response.items.Some? ==> r.assignment == Collect(response.items.value)
  {
    match response
    case Failed => s.(loading := false)
    case Answered(items) =>
      var entries := if items.Some? then items.value else [];
      Store(Collect(entries), false)
  }

  /** A load answering with what an earlier save sent restores that map. */
  lemma LoadSavedPayload(s: Store, m: Assignment)
    ensures FinishLoad(s, Answered(Some(Serialize(m)))).assignment == m
  {
    CollectSerialize(m);
  }

  /** A whole `load()` cycle: answered with a saved payload it ends on the
      saved map with the flag down; failed, it ends on the old map with the
      flag down. */
  lemma LoadCycle(s: Store, m: Assignment)
    ensures FinishLoad(BeginLoad(s), Answered(Some(Serialize(m)))) == Store(m, false)
    ensures FinishLoad(BeginLoad(s), Failed) == s.(loading := false)
  {
    CollectSerialize(m);
  }

  /** What is left to do once a drop's `POST` settles: the map captured at
      the drop and the body that was sent. */
  datatype Pending = Pending(snapshot: Assignment, payload: seq<Entry>)

  /** `onDrop(slotId, habit)`: the map with the habit moved to the slot is
      shown at once, and its serialisation is posted. */
  function Drop(s: Store, slotId: string, habit: Habit): (r: (Store, Pending))
    ensures habit.id in r.0.assignment && r.0.assignment[habit.id] == slotId
    ensures forall k :: k != habit.id ==> (k in r.0.assignment <==> k in s.assignment)
    ensures forall k :: k != habit.id && k in s.assignment ==> r.0.assignment[k] == s.assignment[k]
    ensures r.0.loading == s.loading
    ensures r.1.snapshot == s.assignment
    ensures Collect(r.1.payload) == r.0.assignment
  {
    var next := s.assignment[habit.id := slotId];
    CollectSerialize(next);
    (s.(assignment := next), Pending(s.assignment, Serialize(next)))
  }

  /** The `POST` settles: success keeps the map, failure puts back the map
      captured at the drop. */
  function Settle(s: Store, p: Pending, ok: bool): (r: Store)
    ensures ok ==> r == s
    ensures !ok ==> r.assignment == p.snapshot && r.loading == s.loading
  {
    if ok then s else s.(assignment := p.snapshot)
  }

  /** A failed save undoes exactly its own drop. */
  lemma FailedDropRollsBack(s: Store, slotId: string, habit: Habit)
    ensures var (t, p) := Drop(s, slotId, habit);
      Settle(t, p, false) == s
  {
  }

  /** Dropping the same habit on the same slot twice changes nothing more. */
  lemma DropIdempotent(s: Store, slotId: string, habit: Habit)
    ensures var t := Drop(s, slotId, habit).0;
      Drop(t, slotId, habit).0 == t
  {
  }

  /** `habits.find(x => x.id === Number(hid))`: the first habit with the id. */
  function Find(habits: seq<Habit>, id: int): (r: Option<Habit>)
    ensures r.None? <==> forall i :: 0 <= i < |habits| ==> habits[i].id != id
    ensures r.Some? ==> r.value in habits && r.value.id == id
    ensures r.Some? ==> exists i :: 0 <= i < |habits| && habits[i] == r.value && forall j :: 0 <= j < i ==> habits[j].id != id
  {
    if |habits| == 0 then None
    else if habits[0].id == id then Some(habits[0])
    else Find(habits[1..], id)
  }

  /** A card with id `hid` dropped on the slot `slotId`: ignored when no
      habit has that id. */
  function DropCard(s: Store, habits: seq<Habit>, slotId: string, hid: int): (r: (Store, Option<Pending>))
    ensures r.1.None? <==> forall i :: 0 <= i < |habits| ==> habits[i].id != hid
    ensures r.1.None? ==> r.0 == s
    ensures r.1.Some? ==> r.0.assignment == s.assignment[hid := slotId] && r.1.value.snapshot == s.assignment
  {
    match Find(habits, hid)
    case None => (s, None)
    case Some(h) =>
      var (t, p) := Drop(s, slotId, h);
      (t, Some(p))
  }

  // ---------------------------------------------------------------------
  // The board

  /** Habits whose id is not a key of the map, in list order. */
  function Unscheduled(habits: seq<Habit>, m: Assignment): (r: seq<Habit>)
    ensures forall h :: h in r <==> h in habits && h.id !in m
    ensures |r| <= |habits|
  {
    if |habits| == 0 then []
    else (if habits[0].id in m then [] else [habits[0]]) + Unscheduled(habits[1..], m)
  }

  /** Habits mapped to the slot `slotId`, in list order. */
  function Column(habits: seq<Habit>, m: Assignment, slotId: string): (r: seq<Habit>)
    ensures forall h :: h in r <==> h in habits && h.id in m && m[h.id] == slotId
    ensures |r| <= |habits|
  {
    if |habits| == 0 then []
    else (if habits[0].id in m && m[habits[0].id] == slotId then [habits[0]] else []) + Column(habits[1..], m, slotId)
  }

  /** The unscheduled filter keeps list order: filtering a concatenation
      concatenates the filtered parts. */
  lemma {:induction false} UnscheduledKeepsOrder(a: seq<Habit>, b: seq<Habit>, m: Assignment)
    ensures Unscheduled(a + b, m) == Unscheduled(a, m) + Unscheduled(b, m)
    decreases |a|
  {
    if |a| > 0 {
      var head := if a[0].id in m then [] else [a[0]];
      assert (a + b)[0] == a[0] && (a + b)[1..] == a[1..] + b;
      assert Unscheduled(a + b, m) == head + Unscheduled(a[1..] + b, m);
      UnscheduledKeepsOrder(a[1..], b, m);
      SeqAssoc(head, Unscheduled(a[1..], m), Unscheduled(b, m));
    } else {
      assert a + b == b;
    }
  }

  /** Each column keeps list order in the same way. */
  lemma {:induction false} ColumnKeepsOrder(a: seq<Habit>, b: seq<Habit>, m: Assignment, slotId: string)
    ensures Column(a + b, m, slotId) == Column(a, m, slotId) + Column(b, m, slotId)
    decreases |a|
  {
    if |a| > 0 {
      var head := if a[0].id in m && m[a[0].id] == slotId then [a[0]] else [];
      assert (a + b)[0] == a[0] && (a + b)[1..] == a[1..] + b;
      assert Column(a + b, m, slotId) == head + Column(a[1..] + b, m, slotId);
      ColumnKeepsOrder(a[1..], b, m, slotId);
      SeqAssoc(head, Column(a[1..], m, slotId), Column(b, m, slotId));
    } else {
      assert a + b == b;
    }
  }

  predicate IsSlotId(id: string)
  {
    id == SLOTS[0].id || id == SLOTS[1].id || id == SLOTS[2].id
  }

  /** The four lists of the board, in display order. */
  function Board(habits: seq<Habit>, m: Assignment): seq<seq<Habit>>
  {
    [Unscheduled(habits, m), Column(habits, m, SLOTS[0].id), Column(habits, m, SLOTS[1].id), Column(habits, m, SLOTS[2].id)]
  }

  /** When every mapped slot is one of the three, each habit is shown
      exactly once: unscheduled or in one column. */
  lemma BoardPartition(habits: seq<Habit>, m: Assignment)
    requires forall k :: k in m ==> IsSlotId(m[k])
    ensures var b := Board(habits, m);
      multiset(habits) == multiset(b[0]) + multiset(b[1]) + multiset(b[2]) + multiset(b[3])
  {
    var b := Board(habits, m);
    forall x ensures multiset(habits)[x] == (multiset(b[0]) + multiset(b[1]) + multiset(b[2]) + multiset(b[3]))[x] {
      BoardCounts(habits, m, x);
    }
  }

  /** The partition counted for one habit. */
  lemma {:induction false} BoardCounts(habits: seq<Habit>, m: Assignment, x: Habit)
    requires forall k :: k in m ==> IsSlotId(m[k])
    ensures multiset(habits)[x] == CountOn(Board(habits, m), x)
    decreases |habits|
  {
    if |habits| > 0 {
      var h, t := habits[0], habits[1..];
      BoardCounts(t, m, x);
      BoardCons(habits, m);
      var c, i := Board(t, m), Place(h, m);
      HeadCount(habits, x);
      ConsCount(h, c[0], x, i == 0);
      ConsCount(h, c[1], x, i == 1);
      ConsCount(h, c[2], x, i == 2);
      ConsCount(h, c[3], x, i == 3);
      var b := Board(habits, m);
      assert multiset(b[0])[x] == multiset(c[0])[x] + if i == 0 && x == h then 1 else 0;
      assert multiset(b[1])[x] == multiset(c[1])[x] + if i == 1 && x == h then 1 else 0;
      assert multiset(b[2])[x] == multiset(c[2])[x] + if i == 2 && x == h then 1 else 0;
      assert multiset(b[3])[x] == multiset(c[3])[x] + if i == 3 && x == h then 1 else 0;
      OnePlace(i, x == h);
      assert CountOn(b, x) == CountOn(c, x) + if x == h then 1 else 0;
    }
  }

  /** Exactly one of the four lists receives the habit. */
  lemma OnePlace(i: nat, same: bool)
    requires i < 4
    ensures (if i == 0 && same then 1 else 0) + (if i == 1 && same then 1 else 0)
      + (if i == 2 && same then 1 else 0) + (if i == 3 && same then 1 else 0) == if same then 1 else 0
  {
  }

  /** How often `x` is shown on a board. */
  function CountOn(b: seq<seq<Habit>>, x: Habit): nat
    requires |b| == 4
  {
    multiset(b[0])[x] + multiset(b[1])[x] + multiset(b[2])[x] + multiset(b[3])[x]
  }

  lemma ConsCount(h: Habit, s: seq<Habit>, x: Habit, present: bool)
    ensures multiset((if present then [h] else []) + s)[x] == multiset(s)[x] + if present && x == h then 1 else 0
  {
    if !present {
      assert [] + s == s;
    }
  }

  /** Which list of the board a habit belongs to. */
  function Place(h: Habit, m: Assignment): (i: nat)
    ensures i < 4
  {
    if h.id !in m then 0
    else if m[h.id] == SLOTS[0].id then 1
    else if m[h.id] == SLOTS[1].id then 2
    else 3
  }

  /** The first habit of a list heads its own board list, and the rest of
      the board is the board of the rest. */
  lemma BoardCons(habits: seq<Habit>, m: Assignment)
    requires |habits| > 0
    requires habits[0].id in m ==> IsSlotId(m[habits[0].id])
    ensures var h := habits[0];
      var b, c, i := Board(habits, m), Board(habits[1..], m), Place(h, m);
      && b[0] == (if i == 0 then [h] else []) + c[0]
      && b[1] == (if i == 1 then [h] else []) + c[1]
      && b[2] == (if i == 2 then [h] else []) + c[2]
      && b[3] == (if i == 3 then [h] else []) + c[3]
  {
  }

  lemma HeadCount(s: seq<Habit>, x: Habit)
    requires |s| > 0
    ensures multiset(s)[x] == multiset(s[1..])[x] + if x == s[0] then 1 else 0
  {
    assert s == [s[0]] + s[1..];
  }

  // ---------------------------------------------------------------------
  // Export to a calendar

  const TITLE_PREFIX: string := "BoostFit \U{2014} "
  const NUDGE_TEXT: string := "Petit rappel de tes micro-habitudes \U{1F4AA}"
  const EVENT_MINUTES: int := 15

  function SlotById(id: string): (r: Option<Slot>)
    ensures r.Some? <==> IsSlotId(id)
    ensures r.Some? ==> r.value in SLOTS && r.value.id == id
  {
    if SLOTS[0].id == id then Some(SLOTS[0])
    else if SLOTS[1].id == id then Some(SLOTS[1])
    else if SLOTS[2].id == id then Some(SLOTS[2])
    else None
  }

  /** `map[h.id]`: the habit's slot, undefined when it has none. */
  function SlotOf(m: Assignment, id: int): Option<string>
  {
    if id in m then Some(m[id]) else None
  }

  /** The start `AddToCalButton` computes: today at the slot's time, or
      tomorrow only when that time is strictly before `now`. */
  function StartFor(slot: Slot, now: DateTime): (start: DateTime)
    requires Valid(now) && slot in SLOTS
    ensures Valid(start) && start.hour == slot.hour && start.minute == slot.minute
    ensures start.second == 0 && start.ms == 0
    ensures ToMs(now) <= ToMs(start) < ToMs(now) + MS_PER_DAY
  {
    var today := SetTime(now, slot.hour, slot.minute);
    SetTimeInRange(now, slot.hour, slot.minute);
    WithinDay(now);
    if ToMs(today) < ToMs(now) then
      NextDayIsOneDayLater(today);
      today.(date := NextDay(today.date))
    else
      today
  }

  /** What the calendar button of a card amounts to. */
  datatype CalendarButton =
    | Hidden                        // no slot, or an empty one
    | Broken                        // shown, but the slot lookup fails on click
    | Offers(event: Calendar.Event) // the event handed to `downloadICS`

  function AddToCalendar(habit: Habit, slotId: Option<string>, now: DateTime): (b: CalendarButton)
    requires Valid(now)
    ensures b.Hidden? <==> slotId.None? || slotId.value == ""
    ensures b.Broken? <==> slotId.Some? && slotId.value != "" && !IsSlotId(slotId.value)
    ensures b.Offers? ==>
      && Valid(b.event.start) && ToMs(now) <= ToMs(b.event.start) < ToMs(now) + MS_PER_DAY
      && b.event.title == TITLE_PREFIX + habit.name
      && b.event.description == Some(NUDGE_TEXT)
      && b.event.durationMin == Some(EVENT_MINUTES)
    ensures b.Offers? ==>
      SlotById(slotId.value).Some? && b.event.start == StartFor(SlotById(slotId.value).value, now)
  {
    if slotId.None? || slotId.value == "" then Hidden
    else match SlotById(slotId.value)
      case None => Broken
      case Some(slot) =>
        Offers(Calendar.Event(TITLE_PREFIX + habit.name, Some(NUDGE_TEXT), StartFor(slot, now), Some(EVENT_MINUTES)))
  }

  /** The calendar export and the daily reminder pick the same instant,
      except when the slot time is exactly `now`: the export keeps today
      (strict `<`), the reminder moves to tomorrow (`<=`). */
  lemma StartVersusReminder(slot: Slot, now: DateTime)
    requires Valid(now) && slot in SLOTS
    ensures ToMs(SetTime(now, slot.hour, slot.minute)) != ToMs(now) ==>
      StartFor(slot, now) == Reminder.NextFire(now, slot.hour, slot.minute)
    ensures ToMs(SetTime(now, slot.hour, slot.minute)) == ToMs(now) ==>
      ToMs(StartFor(slot, now)) == ToMs(now)
      && ToMs(Reminder.NextFire(now, slot.hour, slot.minute)) == ToMs(now) + MS_PER_DAY
  {
    if ToMs(SetTime(now, slot.hour, slot.minute)) == ToMs(now) {
      Reminder.TargetEqualToNowFiresTomorrow(now, slot.hour, slot.minute);
    }
  }
}
