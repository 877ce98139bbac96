/** Exactly which updates of the calendar let a slot be used twice. */
module SchedulerLimits {
  import opened TimeSlots
  import opened Calendars
  import Grids
  import opened TimeSeriesModel
  import opened TimeSeriesLaws
  import opened Scheduler

  lemma SlotInDay(s: Series, m: int)
    requires Inv(s) && IsSlot(s, m)
    ensures 0 <= m < 1440
  {
    if s.HasIncrement() {
      Grids.GridIsAbove(Start(s), Step(s), m);
    }
  }

  /** The update that takes the clock of the series forward to the minute m of the same day. */
  function ForwardTo(s: Series, c: CalState, m: int): UpdateParams {
    UpdateParams(0, 60 * m - (if s.relative then s.relDuration else TimeOfDay(c.suiteTime)), true)
  }

  lemma ForwardReaches(s: Series, c: CalState, m: int)
    requires 0 <= m < 1440 && Now(s, c) < m
    ensures
      var c' := Updated(c, ForwardTo(s, c, m));
      !MidnightReset(s, c') && Now(CalendarChanged(s, c'), c') == m
  {
    if !s.relative {
      SameDay(c.suiteTime, 60 * m);
      var c' := Updated(c, ForwardTo(s, c, m));
      ShownTime(c.initTime, c.suiteTime + 60 * m - TimeOfDay(c.suiteTime));
    }
  }

  lemma SameDay(t: int, x: int)
    requires TimeOfDay(t) <= x < DAY
    ensures DayOf(t + x - TimeOfDay(t)) == DayOf(t) && TimeOfDay(t + x - TimeOfDay(t)) == x
  {
    DayAndTime(t);
    assert t + x - TimeOfDay(t) == DayOf(t) * DAY + x;
  }

  /** Restoring the hybrid date does not change the time of day. */
  lemma ShownTime(init: int, t: int)
    ensures TimeOfDay(DayOf(init) * DAY + TimeOfDay(t)) == TimeOfDay(t)
  {
  }

  /** A node that was submitted for the slot m, some time ago. */
  function UsedSlot(s: Series, c: CalState, m: int): System {
    System(c, Attr(false, s), Nothing, false, 0, [Use(0, m)])
  }

  /** It arises by submitting a queued node at a minute at which its series is free. */
  lemma UsedSlotArises(s: Series, c: CalState)
    requires Inv(s) && IsFree(s, c)
    ensures Next(System(c, Attr(false, s), Nothing, true, 0, []), Submit) == UsedSlot(s, c, Now(s, c))
  {
    assert [] + [Use(0, Now(s, c))] == [Use(0, Now(s, c))];
  }

  lemma UsedSlotOk(s: Series, c: CalState, m: int)
    requires IsSlot(s, m) && m <= Now(s, c)
    ensures UsesOk(UsedSlot(s, c, m))
  {
  }

  /** After stepping back and being requeued, the series waits for a slot not after m. */
  lemma BackInTheQueue(s: Series, c: CalState, p: UpdateParams, m: int)
    requires Inv(s) && !MidnightReset(s, Updated(c, p)) && IsSlot(s, m)
    requires Now(CalendarChanged(s, Updated(c, p)), Updated(c, p)) < m
    ensures
      var st := Next(Next(UsedSlot(s, c, m), Action.Tick(p)), RequeueNode(true, false));
      && st == System(Updated(c, p), Attr(false, st.attr.ts), Nothing, true, 0, [Use(0, m)])
      && SameDefinition(st.attr.ts, s) && st.attr.ts.valid && st.attr.ts.next.Duration() <= m
      && NowOf(st) < m
  {
    var c1 := Updated(c, p);
    var s1 := CalendarChanged(s, c1);
    CalendarChangedKeepsInv(s, c1);
    SameSlotMinute(s, s1);
    RequeueIsForetold(s1, c1);
    RequeueKeepsDefinition(s1, c1);
    var st0 := UsedSlot(s, c, m);
    var st1 := Ticked(st0, p);
    assert st1.cal == c1 && st1.attr.ts == s1 && st1.period == 0 && st1.used == [Use(0, m)];
    hide Updated, CalendarChanged, Requeue, Inv, IsSlot;
    assert Next(st0, Action.Tick(p)) == st1;
    assert Next(st1, RequeueNode(true, false)) == Requeued(st1, s1, true);
  }

  lemma RequeueKeepsDefinition(s: Series, c: CalState)
    requires Inv(s)
    ensures SameDefinition(Requeue(s, c, true), s) && Now(Requeue(s, c, true), c) == Now(s, c)
  {
  }

  /** Brought forward to the minute m, a queued series waiting for a slot not after it is submitted. */
  lemma ForwardIsSubmitted(st: System, m: int)
    requires Inv(st.attr.ts) && st.attr.ts.valid && st.attr.ts.next.Duration() <= m && IsSlot(st.attr.ts, m)
    requires st.queued && !st.attr.free && st.due == Nothing && NowOf(st) < m
    ensures
      var q := ForwardTo(st.attr.ts, st.cal, m);
      && Next(Next(st, Action.Tick(q)), Submit).used == st.used + [Use(st.period, m)]
      && KeepsSlotsBehind(st, Action.Tick(q))
  {
    var s := st.attr.ts;
    SlotInDay(s, m);
    ForwardReaches(s, st.cal, m);
    var q := ForwardTo(s, st.cal, m);
    var c' := Updated(st.cal, q);
    var s' := CalendarChanged(s, c');
    CalendarChangedKeepsInv(s, c');
    SameSlotMinute(s, s');
    FreeMeansSlot(s', c');
    assert s'.valid && s'.next == s.next;
    var st' := Ticked(st, q);
    hide Updated, CalendarChanged, Inv, IsSlot, IsFree, ForwardTo;
    assert st'.attr.free && st'.due == Slot(Use(st.period, m)) && st'.queued;
  }

  /** Whenever an update steps back over a slot unseen, that slot can be used a second time. */
  lemma StepBackRepeatsASlot(s: Series, c: CalState, p: UpdateParams, m: int)
    returns (st: System, after: seq<Action>)
    requires Inv(s) && !MidnightReset(s, Updated(c, p)) && IsSlot(s, m)
    requires Now(CalendarChanged(s, Updated(c, p)), Updated(c, p)) < m <= Now(s, c)
    ensures st == UsedSlot(s, c, m) && Continues(st, s, c, p, after)
    ensures Scheduler.Run(st, [Action.Tick(p)] + after).used == [Use(0, m), Use(0, m)]
  {
    st := UsedSlot(s, c, m);
    UsedSlotOk(s, c, m);
    BackInTheQueue(s, c, p, m);
    var tick, requeue := Action.Tick(p), RequeueNode(true, false);
    var st1 := Next(st, tick);
    var st2 := Next(st1, requeue);
    SameSlotMinute(s, st2.attr.ts);
    ForwardIsSubmitted(st2, m);
    var forward := Action.Tick(ForwardTo(st2.attr.ts, st2.cal, m));
    var last := [Submit] + [];
    after := [requeue] + ([forward] + last);
    var st3 := Next(st2, forward);
    NoTickNoStep(st1, requeue);
    NoTickNoStep(st3, Submit);
    hide *;
    NoActions(Next(st3, Submit));
    OneAction(st3, Submit, []);
    OneAction(st2, forward, last);
    OneAction(st1, requeue, [forward] + last);
    OneAction(st, tick, after);
    assert [Use(0, m)] + [Use(0, m)] == [Use(0, m), Use(0, m)];
    ContinuesIs(st, s, c, p, after);
  }

  lemma ContinuesIs(st: System, s: Series, c: CalState, p: UpdateParams, after: seq<Action>)
    requires st.attr.ts == s && st.cal == c && Inv(s) && UsesOk(st)
    requires SlotsStayBehind(Next(st, Action.Tick(p)), after)
    ensures Continues(st, s, c, p, after)
  {
  }

  lemma NoTickNoStep(st: System, a: Action)
    requires !a.Tick?
    ensures KeepsSlotsBehind(st, a)
  {
  }

  lemma NoActions(st: System)
    requires Inv(st.attr.ts)
    ensures Scheduler.Run(st, []) == st && SlotsStayBehind(st, [])
  {
  }

  lemma OneAction(st: System, a: Action, rest: seq<Action>)
    requires Inv(st.attr.ts)
    ensures Scheduler.Run(st, [a] + rest) == Scheduler.Run(Next(st, a), rest)
    ensures KeepsSlotsBehind(st, a) && SlotsStayBehind(Next(st, a), rest) ==> SlotsStayBehind(st, [a] + rest)
  {
    hide Next, Inv, KeepsSlotsBehind;
    assert ([a] + rest)[1..] == rest;
  }

  /** Any state reached so far with this series and calendar, and what happens after the update, in
      which no other update goes back over a slot. */
  ghost predicate Continues(st: System, s: Series, c: CalState, p: UpdateParams, after: seq<Action>) {
    && st.attr.ts == s && st.cal == c && Inv(s) && UsesOk(st)
    && SlotsStayBehind(Next(st, Action.Tick(p)), after)
  }

  /** For every series, calendar and update: the slots stay in order in everything that can happen
      before and after it if and only if the update does not go back over a slot unseen. */
  lemma StepBackIsExact(s: Series, c: CalState, p: UpdateParams)
    requires Inv(s)
    ensures
      (forall st, after | Continues(st, s, c, p, after) ::
         StrictlyIncreasing(Scheduler.Run(st, [Action.Tick(p)] + after).used))
      <==> !StepsBackOver(s, c, p)
  {
    var tick := Action.Tick(p);
    if StepsBackOver(s, c, p) {
      var m :| IsSlot(s, m) && Now(CalendarChanged(s, Updated(c, p)), Updated(c, p)) < m <= Now(s, c);
      var st, after := StepBackRepeatsASlot(s, c, p, m);
      var used := Scheduler.Run(st, [tick] + after).used;
      assert !Before(used[0], used[1]);
    } else {
      hide Next, Inv, UsesOk, StepsBackOver, StrictlyIncreasing;
      forall st, after | Continues(st, s, c, p, after)
        ensures StrictlyIncreasing(Scheduler.Run(st, [tick] + after).used)
      {
        OneAction(st, tick, after);
        RunKeepsUses(st, [tick] + after);
        OkIsIncreasing(Scheduler.Run(st, [tick] + after));
      }
    }
  }

  lemma OkIsIncreasing(st: System)
    requires UsesOk(st)
    ensures StrictlyIncreasing(st.used)
  {
  }

  // ----- which updates step back

  /** The single slot at a minute, fresh; a relative one that has aged d seconds. */
  function SingleAt(m: int, relative: bool, d: int): (s: Series)
    requires 0 <= m < 1440 && (!relative ==> d == 0)
    ensures Inv(s) && !s.HasIncrement() && Start(s) == m
  {
    Series(SlotOf(m), NULL_SLOT, NULL_SLOT, relative, SlotOf(m), true, d, NULL_SLOT, m)
  }

  /** From a fresh node with a single slot at the current minute: submitted, taken back unseen, requeued
      and brought forward, it is submitted for the same slot again. */
  lemma FreshSlotRepeats(c: CalState, p: UpdateParams, m: int, relative: bool, d: int) returns (after: seq<Action>)
    requires 0 <= m < 1440 && (!relative ==> d == 0)
    requires
      var s, c' := SingleAt(m, relative, d), Updated(c, p);
      !MidnightReset(s, c') && Now(CalendarChanged(s, c'), c') < Now(s, c) == m
    ensures
      var st := System(c, Attr(false, SingleAt(m, relative, d)), Nothing, true, 0, []);
      Scheduler.Run(st, [Submit] + ([Action.Tick(p)] + after)).used == [Use(0, m), Use(0, m)]
  {
    var s := SingleAt(m, relative, d);
    SingleIsFree(s, c, m);
    hide *;
    var st := System(c, Attr(false, s), Nothing, true, 0, []);
    UsedSlotArises(s, c);
    var st', rest := StepBackRepeatsASlot(s, c, p, m);
    after := rest;
    OneAction(st, Submit, [Action.Tick(p)] + after);
  }

  lemma SingleIsFree(s: Series, c: CalState, m: int)
    requires !s.HasIncrement() && s.valid && Start(s) == Now(s, c) == m
    ensures IsSlot(s, m) && IsFree(s, c)
  {
  }

  /** An absolute series can be harmed by an update if and only if it takes the minute of the day back
      without the day-changed flag. */
  lemma UnseenStepBack(c: CalState, p: UpdateParams)
    ensures
      (exists s :: Inv(s) && !s.relative && StepsBackOver(s, c, p))
      <==> !Updated(c, p).dayChanged && TimeOfDay(Updated(c, p).suiteTime) / 60 < TimeOfDay(c.suiteTime) / 60
  {
    var m := TimeOfDay(c.suiteTime) / 60;
    if !Updated(c, p).dayChanged && TimeOfDay(Updated(c, p).suiteTime) / 60 < m {
      var s := SingleAt(m, false, 0);
      assert Inv(s) && IsSlot(s, m);
      assert StepsBackOver(s, c, p);
    }
  }

  /** A relative series of any age d can be harmed if and only if the update takes its clock back over
      a minute of the first day. */
  lemma NegativeIncrement(c: CalState, p: UpdateParams, d: int)
    ensures
      var now, now' := WholeMinutes(d), WholeMinutes(d + IncrementOf(c, p));
      (exists s :: Inv(s) && s.relative && s.relDuration == d && StepsBackOver(s, c, p))
      <==> 0 <= now && now' < now && now' < 1439
  {
    var now, now' := WholeMinutes(d), WholeMinutes(d + IncrementOf(c, p));
    if s :| Inv(s) && s.relative && s.relDuration == d && StepsBackOver(s, c, p) {
      RelativeStepBack(s, c, p);
    }
    if 0 <= now && now' < now && now' < 1439 {
      var m := if now < 1440 then now else 1439;
      SingleStepsBack(c, p, d, m);
    }
  }

  lemma RelativeStepBack(s: Series, c: CalState, p: UpdateParams)
    requires Inv(s) && s.relative && StepsBackOver(s, c, p)
    ensures
      var now, now' := WholeMinutes(s.relDuration), WholeMinutes(s.relDuration + IncrementOf(c, p));
      0 <= now && now' < now && now' < 1439
  {
    var c' := Updated(c, p);
    var m :| IsSlot(s, m) && Now(CalendarChanged(s, c'), c') < m <= Now(s, c);
    SlotInDay(s, m);
    hide IsSlot, Inv;
  }

  lemma SingleStepsBack(c: CalState, p: UpdateParams, d: int, m: int)
    requires 0 <= m < 1440 && WholeMinutes(d + IncrementOf(c, p)) < m <= WholeMinutes(d)
    ensures StepsBackOver(SingleAt(m, true, d), c, p)
  {
    var s := SingleAt(m, true, d);
    assert IsSlot(s, m);
    hide WholeMinutes;
  }

  /** An update of whole weeks, none included, harms no absolute series. */
  lemma WholeWeeksAreHarmless(s: Series, c: CalState, p: UpdateParams, k: nat)
    requires !s.relative && IncrementOf(c, p) == 7 * DAY * k
    ensures !StepsBackOver(s, c, p)
  {
    ShiftByDays(c.suiteTime, 7 * k, 0);
    ShownTime(c.initTime, c.suiteTime + 7 * DAY * k);
  }
}
