/** The Today page's habit checklist: the done counter, and the optimistic
    toggle that is shown at once, posted as a check-in, reverted if the
    post fails and celebrated when it completes the list. */
module Today {
  import opened Habits

  /** `habits.filter(h => h.done).length`. */
  function DoneCount(habits: seq<Habit>): (n: nat)
    ensures n <= |habits|
    ensures n == |habits| <==> forall i :: 0 <= i < |habits| ==> habits[i].done
    ensures n == 0 <==> forall i :: 0 <= i < |habits| ==> !habits[i].done
  {
    if |habits| == 0 then 0
    else (if habits[0].done then 1 else 0) + DoneCount(habits[1..])
  }

  /** `habits.map(x => x.id === h.id ? { ...x, done: newDone } : x)`. */
  function SetDone(habits: seq<Habit>, id: int, done: bool): (r: seq<Habit>)
    ensures |r| == |habits|
    ensures forall i :: 0 <= i < |habits| && habits[i].id != id ==> r[i] == habits[i]
    ensures forall i :: 0 <= i < |habits| && habits[i].id == id ==> r[i] == habits[i].(done := done)
  {
    if |habits| == 0 then []
    else [if habits[0].id == id then habits[0].(done := done) else habits[0]] + SetDone(habits[1..], id, done)
  }

  /** The body posted to `/checkins`. */
  datatype Checkin = Checkin(habitId: int, done: bool)

  datatype Page = Page(habits: seq<Habit>, celebrate: bool)

  /** A toggle in flight: the list before it and the list shown meanwhile. */
  datatype Pending = Pending(before: seq<Habit>, optimistic: seq<Habit>)

  /** `toggleHabit(h)` up to the post: every habit with `h`'s id gets the
      negation of `h.done`; nothing else changes. */
  function Toggle(p: Page, h: Habit): (r: (Page, Pending, Checkin))
    ensures r.0 == p.(habits := r.1.optimistic) && r.1.before == p.habits
    ensures r.2 == Checkin(h.id, !h.done)
    ensures |r.1.optimistic| == |p.habits|
    ensures forall i :: 0 <= i < |p.habits| ==>
      r.1.optimistic[i] == if p.habits[i].id == h.id then p.habits[i].(done := !h.done) else p.habits[i]
  {
    var optimistic := SetDone(p.habits, h.id, !h.done);
    (p.(habits := optimistic), Pending(p.habits, optimistic), Checkin(h.id, !h.done))
  }

  /** Whether a settled toggle starts the confetti: the post succeeded and
      the optimistic list, of the length the page had, is all done. */
  predicate Celebrates(pending: Pending, ok: bool)
  {
    ok && DoneCount(pending.optimistic) == |pending.before| && |pending.before| > 0
  }

  /** The post settles: failure restores the list captured at the toggle;
      success keeps it and may start the confetti. */
  function Settle(p: Page, pending: Pending, ok: bool): (r: Page)
    ensures !ok ==> r.habits == pending.before && r.celebrate == p.celebrate
    ensures ok ==> r.habits == p.habits
    ensures r.celebrate == (p.celebrate || Celebrates(pending, ok))
  {
    if !ok then p.(habits := pending.before)
    else if DoneCount(pending.optimistic) == |pending.before| && |pending.before| > 0 then p.(celebrate := true)
    else p
  }

  /** The 1.8 s timer after a celebration. */
  function CelebrationEnds(p: Page): (r: Page)
    ensures !r.celebrate && r.habits == p.habits
  {
    p.(celebrate := false)
  }

  /** A successful toggle followed by the confetti timer leaves the
      optimistic list on screen and the confetti off, whether or not it
      was started. */
  lemma ConfettiCycle(p: Page, h: Habit)
    ensures var (shown, pending, _) := Toggle(p, h);
      CelebrationEnds(Settle(shown, pending, true)) == shown.(celebrate := false)
  {
  }

  /** A failed check-in puts the page's list back exactly as it was. */
  lemma FailedToggleReverts(p: Page, h: Habit)
    ensures var (shown, pending, _) := Toggle(p, h);
      Settle(shown, pending, false) == p
  {
  }

  /** The confetti starts exactly when the check-in succeeds and leaves
      every habit of a non-empty list done. */
  lemma CelebratesWhenAllDone(p: Page, h: Habit, ok: bool)
    ensures var (_, pending, _) := Toggle(p, h);
      Celebrates(pending, ok) <==> ok && |p.habits| > 0 && forall i :: 0 <= i < |pending.optimistic| ==> pending.optimistic[i].done
  {
  }

  /** Toggling back with the flipped habit undoes a toggle, provided every
      entry with that id agreed with the clicked habit. */
  lemma ToggleTwice(p: Page, h: Habit)
    requires forall i :: 0 <= i < |p.habits| && p.habits[i].id == h.id ==> p.habits[i].done == h.done
    ensures var shown := Toggle(p, h).0;
      Toggle(shown, h.(done := !h.done)).0 == p
  {
    var shown := Toggle(p, h).0;
    var back := Toggle(shown, h.(done := !h.done)).0;
    assert back.habits == p.habits;
  }

  /** With ids unique, a toggle moves the done counter by exactly one. */
  lemma {:induction false} ToggleMovesCountByOne(habits: seq<Habit>, k: nat)
    requires k < |habits|
    requires forall i :: 0 <= i < |habits| && i != k ==> habits[i].id != habits[k].id
    ensures var h := habits[k];
      DoneCount(SetDone(habits, h.id, !h.done)) == DoneCount(habits) + (if h.done then -1 else 1)
    decreases |habits|
  {
    var h := habits[k];
    var r := SetDone(habits, h.id, !h.done);
    assert r[1..] == SetDone(habits[1..], h.id, !h.done);
    if k == 0 {
      assert SetDone(habits[1..], h.id, !h.done) == habits[1..];
    } else {
      ToggleMovesCountByOne(habits[1..], k - 1);
    }
  }
}
