/** A time attribute driven by the suite calendar: the usage protocol of a time series,
    and what holds over every run of it. */
module Scheduler {
  import opened TimeSlots
  import opened Calendars
  import opened Grids
  import opened TimeSeriesModel
  import opened TimeSeriesLaws

  /** A series and the flag that keeps it free from its slot until it is requeued. */
  datatype Attr = Attr(free: bool, ts: Series)

  /** A slot: its minute, in which period between resets. */
  datatype Use = Use(period: nat, minute: int)

  datatype Due = Nothing | Slot(use: Use)

  /** `due` is the slot that made the attribute free, if a slot did; `queued` tells whether the node
      waits to be submitted; `used` lists the slots for which it was submitted. */
  datatype System = System(cal: CalState, attr: Attr, due: Due, queued: bool, period: nat, used: seq<Use>)

  datatype Action =
    | Tick(p: UpdateParams)
    | Submit
    | Complete(theMin: TimeSlot, theMax: TimeSlot, cmdContext: bool, resetNext: bool)
    | RequeueNode(resetNext: bool, resetRelative: bool)
    | MissSlot
    | FreeDependency
    | BeginSuite(theTime: int, localNow: int)

  /** Midnight starts a new period for an absolute series, and only for that. */
  predicate MidnightReset(s: Series, c: CalState) { !s.relative && c.dayChanged }

  ghost function Ticked(st: System, p: UpdateParams): System {
    var c := Updated(st.cal, p);
    var ts := CalendarChanged(st.attr.ts, c);
    var period := if MidnightReset(ts, c) then st.period + 1 else st.period;
    var st' := st.(cal := c, attr := st.attr.(ts := ts), period := period);
    if !st.attr.free && IsFree(ts, c)
    then st'.(attr := Attr(true, ts), due := Slot(Use(period, Now(ts, c))))
    else st'
  }

  /** A queued node is submitted if its attribute is flagged free or free at this very minute. */
  ghost function Submitted(st: System): System {
    if !st.queued then st
    else if st.attr.free then
      st.(queued := false, due := Nothing, used := st.used + if st.due.Slot? then [st.due.use] else [])
    else if IsFree(st.attr.ts, st.cal) then
      st.(queued := false, used := st.used + [Use(st.period, Now(st.attr.ts, st.cal))])
    else st
  }

  function Requeued(st: System, ts: Series, resetNext: bool): System
    requires Shape(ts) && ts.next.Proper()
  {
    st.(attr := Attr(false, Requeue(ts, st.cal, resetNext)), due := Nothing, queued := true)
  }

  /** One action; every action keeps the state invariant of the series. */
  ghost function Next(st: System, a: Action): (st': System)
    requires Inv(st.attr.ts)
    ensures Inv(st'.attr.ts)
  {
    var ts, cal := st.attr.ts, st.cal;
    OperationsKeepInv(ts, cal, false);
    match a
    case Tick(p) =>
      OperationsKeepInv(ts, Updated(cal, p), false);
      Ticked(st, p)
    case Submit => Submitted(st)
    case Complete(theMin, theMax, cmdContext, resetNext) =>
      var ts' := AfterCheck(ts, cal);
      RequeueKeepsInv(ts', cal, resetNext);
      if CheckForRequeue(ts, cal, theMin, theMax, cmdContext) then Requeued(st, ts', resetNext)
      else st.(attr := st.attr.(ts := ts'), queued := false)
    case RequeueNode(resetNext, resetRelative) =>
      var ts' := if resetRelative then RelativeReset(ts) else ts;
      RequeueKeepsInv(ts', cal, resetNext);
      Requeued(if resetRelative && ts.relative then st.(period := st.period + 1) else st, ts', resetNext)
    case MissSlot => if ts.valid then st.(attr := st.attr.(ts := Missed(ts))) else st
    case FreeDependency =>
      if st.attr.free || IsFree(ts, cal) then st else st.(attr := Attr(true, Missed(ts)), due := Nothing)
    case BeginSuite(theTime, localNow) =>
      var c := Begun(cal.clock, theTime, localNow);
      ResetKeepsInv(ts, c);
      System(c, Attr(false, Reset(ts, c)), Nothing, true, st.period + 1, st.used)
  }

  // ----- what every run keeps

  /** An update that takes the clock of the series back over one of its slots, without starting a
      new period. */
  ghost predicate StepsBackOver(s: Series, c: CalState, p: UpdateParams) {
    var c' := Updated(c, p);
    && !MidnightReset(s, c')
    && exists m :: IsSlot(s, m) && Now(CalendarChanged(s, c'), c') < m <= Now(s, c)
  }

  /** The action is not such an update. */
  ghost predicate KeepsSlotsBehind(st: System, a: Action) { a.Tick? ==> !StepsBackOver(st.attr.ts, st.cal, a.p) }

  /** The clock moves forward, and no whole week passes between two updates. */
  predicate ClockAdvances(c: CalState, a: Action) {
    a.Tick? ==>
      0 <= IncrementOf(c, a.p) && !WholeWeeksHidden(TimeOfDay(c.suiteTime), IncrementOf(c, a.p))
  }

  ghost predicate Before(u: Use, v: Use) {
    u.period < v.period || (u.period == v.period && u.minute < v.minute)
  }

  ghost predicate StrictlyIncreasing(used: seq<Use>) {
    forall i, j :: 0 <= i < j < |used| ==> Before(used[i], used[j])
  }

  ghost predicate AllSlots(s: Series, used: seq<Use>) {
    forall u :: u in used ==> IsSlot(s, u.minute)
  }

  /** The first minute at which a holding series can become free: one past the slot for
      an expired single slot. */
  function Barrier(s: Series): int {
    if s.HasIncrement() then s.next.Duration() else if s.valid then Start(s) else Start(s) + 1
  }

  /** A slot not after the current minute. */
  ghost predicate Behind(u: Use, period: nat, now: int) {
    u.period <= period && (u.period == period ==> u.minute <= now)
  }

  /** The uses are in order, and the last one is behind: not after now and, while the queued node
      holds, in this period before the barrier. */
  ghost predicate Ordered(used: seq<Use>, period: nat, now: int, holding: bool, barrier: int) {
    && StrictlyIncreasing(used)
    && (used == [] ||
        var u := used[|used| - 1];
        Behind(u, period, now) && (holding && u.period == period ==> u.minute < barrier))
  }

  predicate Holding(st: System) { st.queued && !st.attr.free }

  /** The slot that made the attribute free is behind and, while the node is queued, not yet used. */
  ghost predicate DueOk(due: Due, queued: bool, used: seq<Use>, period: nat, now: int) {
    due.Slot? ==>
      && Behind(due.use, period, now)
      && (queued && used != [] ==> Before(used[|used| - 1], due.use))
  }

  ghost predicate UsesOk(st: System) {
    && AllSlots(st.attr.ts, st.used)
    && (st.due.Slot? ==> st.attr.free && IsSlot(st.attr.ts, st.due.use.minute))
    && Ordered(st.used, st.period, Now(st.attr.ts, st.cal), Holding(st), Barrier(st.attr.ts))
    && DueOk(st.due, st.queued, st.used, st.period, Now(st.attr.ts, st.cal))
  }

  /** One use more, after the last one and behind. */
  lemma UseKeepsOrder(used: seq<Use>, u: Use, period: nat, now: int, barrier: int)
    requires StrictlyIncreasing(used) && (used == [] || Before(used[|used| - 1], u)) && Behind(u, period, now)
    ensures Ordered(used + [u], period, now, false, barrier)
  {
  }

  /** The part of a series that no operation changes. */
  predicate SameDefinition(s: Series, t: Series) {
    s.start == t.start && s.finish == t.finish && s.incr == t.incr && s.relative == t.relative
  }

  lemma {:induction false} WholeMinutesGrow(a: int, b: int)
    requires a <= b
    ensures WholeMinutes(a) <= WholeMinutes(b)
  {
  }

  /** Within one period the series' clock never runs backwards. */
  lemma NowGrows(st: System, p: UpdateParams)
    requires ClockAdvances(st.cal, Action.Tick(p))
    requires !MidnightReset(st.attr.ts, Updated(st.cal, p))
    ensures
      var c := Updated(st.cal, p);
      Now(st.attr.ts, st.cal) <= Now(CalendarChanged(st.attr.ts, c), c)
  {
    var s, c := st.attr.ts, Updated(st.cal, p);
    if s.relative {
      WholeMinutesGrow(s.relDuration, s.relDuration + c.increment);
    } else {
      SameDayMovesForward(st.cal, p);
    }
  }

  /** A free minute is a slot, not before the barrier. */
  lemma FreeIsPastBarrier(s: Series, c: CalState)
    requires Inv(s) && IsFree(s, c)
    ensures IsSlot(s, Now(s, c)) && Barrier(s) <= Now(s, c)
  {
    FreeMeansSlot(s, c);
  }

  lemma OrderLater(used: seq<Use>, period: nat, now: int, holding: bool, barrier: int,
                   period': nat, now': int, holding': bool, barrier': int)
    requires Ordered(used, period, now, holding, barrier) && period <= period'
    requires used != [] ==> Behind(used[|used| - 1], period', now')
    requires (holding' ==> holding) && (period == period' ==> barrier <= barrier')
    ensures Ordered(used, period', now', holding', barrier')
  {
  }

  lemma DueLater(due: Due, queued: bool, used: seq<Use>, period: nat, now: int, period': nat, now': int)
    requires DueOk(due, queued, used, period, now) && (due.Slot? ==> Behind(due.use, period', now'))
    ensures DueOk(due, queued, used, period', now')
  {
  }

  /** A slot that frees a holding node is after the last one used. */
  lemma NewSlotIsDue(used: seq<Use>, period: nat, now: int, queued: bool, barrier: int, period': nat, now': int)
    requires Ordered(used, period, now, queued, barrier) && period <= period'
    requires period == period' ==> barrier <= now'
    ensures DueOk(Slot(Use(period', now')), queued, used, period', now')
  {
  }

  /** What a tick changes. */
  lemma TickChanges(st: System, p: UpdateParams)
    requires Inv(st.attr.ts)
    ensures
      var c, st' := Updated(st.cal, p), Ticked(st, p);
      var s, ts := st.attr.ts, st'.attr.ts;
      var reset, freed := MidnightReset(s, c), !st.attr.free && IsFree(ts, c);
      && SameDefinition(ts, s) && st'.cal == c && st'.used == st.used && st'.queued == st.queued
      && st'.period == (if reset then st.period + 1 else st.period)
      && st'.attr.free == (st.attr.free || freed)
      && st'.due == (if freed then Slot(Use(st'.period, Now(ts, c))) else st.due)
      && (!reset ==> Barrier(ts) == Barrier(s))
      && (freed ==> IsSlot(ts, Now(ts, c)) && Barrier(ts) <= Now(ts, c))
  {
    var c := Updated(st.cal, p);
    var ts := CalendarChanged(st.attr.ts, c);
    CalendarChangedKeepsInv(st.attr.ts, c);
    if IsFree(ts, c) {
      FreeIsPastBarrier(ts, c);
    }
    hide Updated;
  }

  lemma TickKeepsUses(st: System, p: UpdateParams)
    requires Inv(st.attr.ts) && UsesOk(st) && KeepsSlotsBehind(st, Action.Tick(p))
    ensures SameDefinition(Ticked(st, p).attr.ts, st.attr.ts)
    ensures UsesOk(Ticked(st, p))
  {
    var st' := Ticked(st, p);
    var now, now' := Now(st.attr.ts, st.cal), Now(st'.attr.ts, st'.cal);
    TickChanges(st, p);
    SlotsBehind(st, p);
    SameSlots(st.attr.ts, st'.attr.ts, st.used);
    SameSlotMinute(st.attr.ts, st'.attr.ts);
    if st.used != [] {
      assert st.used[|st.used| - 1] in st.used;
    }
    hide Ordered, DueOk, Inv, IsFree, Updated, Ticked, Now, Barrier, IsSlot, StepsBackOver, Behind;
    OrderLater(st.used, st.period, now, Holding(st), Barrier(st.attr.ts),
               st'.period, now', Holding(st'), Barrier(st'.attr.ts));
    if !st.attr.free && IsFree(st'.attr.ts, st'.cal) {
      NewSlotIsDue(st.used, st.period, now, st.queued, Barrier(st.attr.ts), st'.period, now');
    } else {
      DueLater(st.due, st.queued, st.used, st.period, now, st'.period, now');
    }
  }

  /** The last use and the slot due stay behind. */
  lemma SlotsBehind(st: System, p: UpdateParams)
    requires Inv(st.attr.ts) && UsesOk(st) && KeepsSlotsBehind(st, Action.Tick(p))
    ensures
      var st' := Ticked(st, p);
      var now' := Now(st'.attr.ts, st'.cal);
      && (st.used != [] ==> Behind(st.used[|st.used| - 1], st'.period, now'))
      && (st.due.Slot? ==> Behind(st.due.use, st'.period, now'))
  {
    TickChanges(st, p);
    var st' := Ticked(st, p);
    var now, now' := Now(st.attr.ts, st.cal), Now(st'.attr.ts, st'.cal);
    assert st'.attr.ts == CalendarChanged(st.attr.ts, st'.cal);
    assert forall m :: st'.period == st.period && IsSlot(st.attr.ts, m) && m <= now ==> m <= now';
    hide Ticked, Updated, CalendarChanged, Now, IsSlot, Inv;
    if st.used != [] {
      assert st.used[|st.used| - 1] in st.used;
      StaysBehind(st, st.used[|st.used| - 1], st'.period, now, now');
    }
    if st.due.Slot? {
      StaysBehind(st, st.due.use, st'.period, now, now');
    }
  }

  /** A slot that was behind stays behind. */
  lemma StaysBehind(st: System, u: Use, period: nat, now: int, now': int)
    requires UsesOk(st) && now == Now(st.attr.ts, st.cal) && IsSlot(st.attr.ts, u.minute)
    requires (st.used != [] && u == st.used[|st.used| - 1]) || (st.due.Slot? && u == st.due.use)
    requires period == st.period || period == st.period + 1
    requires period == st.period && u.minute <= now ==> u.minute <= now'
    ensures Behind(u, period, now')
  {
  }

  lemma SameSlotMinute(s: Series, t: Series)
    requires SameDefinition(s, t)
    ensures forall m :: IsSlot(s, m) <==> IsSlot(t, m)
  {
  }

  lemma SubmitKeepsUses(st: System)
    requires Inv(st.attr.ts) && UsesOk(st)
    ensures UsesOk(Submitted(st)) && Submitted(st).attr == st.attr
  {
    var now, barrier := Now(st.attr.ts, st.cal), Barrier(st.attr.ts);
    if st.queued && st.attr.free && st.due.Slot? {
      UseKeepsOrder(st.used, st.due.use, st.period, now, barrier);
    } else if st.queued && !st.attr.free && IsFree(st.attr.ts, st.cal) {
      FreeIsPastBarrier(st.attr.ts, st.cal);
      UseKeepsOrder(st.used, Use(st.period, now), st.period, now, barrier);
    }
  }

  lemma SameSlots(s: Series, t: Series, used: seq<Use>)
    requires SameDefinition(s, t) && AllSlots(s, used)
    ensures AllSlots(t, used)
  {
  }

  /** Requeue lifts the barrier above every slot not after now. */
  lemma RequeueLiftsBarrier(s: Series, c: CalState, resetNext: bool, minute: int)
    requires Inv(s) && IsSlot(s, minute) && minute <= Now(s, c)
    ensures minute < Barrier(Requeue(s, c, resetNext))
  {
    RequeueMovesPast(s, c, resetNext);
  }

  lemma RequeueKeepsUses(st: System, ts: Series, resetNext: bool)
    requires Inv(ts) && AllSlots(ts, st.used)
    requires Ordered(st.used, st.period, Now(ts, st.cal), false, 0)
    ensures SameDefinition(Requeue(ts, st.cal, resetNext), ts)
    ensures UsesOk(Requeued(st, ts, resetNext))
  {
    var r := Requeue(ts, st.cal, resetNext);
    SameSlots(ts, r, st.used);
    assert Now(r, st.cal) == Now(ts, st.cal);
    if st.used != [] {
      var u := st.used[|st.used| - 1];
      assert u in st.used;
      if u.period == st.period {
        RequeueLiftsBarrier(ts, st.cal, resetNext, u.minute);
      }
    }
  }

  lemma MissKeepsUses(st: System, free: bool)
    requires Inv(st.attr.ts) && UsesOk(st) && (st.attr.free ==> free)
    ensures UsesOk(st.(attr := Attr(free, Missed(st.attr.ts))))
  {
    MissedKeepsInv(st.attr.ts);
    SameSlots(st.attr.ts, Missed(st.attr.ts), st.used);
  }

  /** One action keeps the definition of the series and the order of its uses. */
  lemma StepKeepsUses(st: System, a: Action)
    requires Inv(st.attr.ts) && UsesOk(st) && KeepsSlotsBehind(st, a)
    ensures SameDefinition(Next(st, a).attr.ts, st.attr.ts)
    ensures UsesOk(Next(st, a))
  {
    match a
    case Tick(p) => TickKeepsUses(st, p);
    case Submit => SubmitKeepsUses(st);
    case Complete(_, _, _, _) => CompleteKeepsUses(st, a);
    case RequeueNode(_, _) => RequeueNodeKeepsUses(st, a);
    case MissSlot => MissKeepsUses(st, st.attr.free);
    case FreeDependency => MissKeepsUses(st, true);
    case BeginSuite(_, _) => BeginKeepsUses(st, a);
  }

  lemma CompleteKeepsUses(st: System, a: Action)
    requires Inv(st.attr.ts) && UsesOk(st) && a.Complete?
    ensures SameDefinition(Next(st, a).attr.ts, st.attr.ts)
    ensures UsesOk(Next(st, a))
  {
    var ts := AfterCheck(st.attr.ts, st.cal);
    AfterCheckKeepsInv(st.attr.ts, st.cal);
    SameSlots(st.attr.ts, ts, st.used);
    RequeueKeepsUses(st, ts, a.resetNext);
  }

  lemma RequeueNodeKeepsUses(st: System, a: Action)
    requires Inv(st.attr.ts) && UsesOk(st) && a.RequeueNode?
    ensures SameDefinition(Next(st, a).attr.ts, st.attr.ts)
    ensures UsesOk(Next(st, a))
  {
    var newPeriod := a.resetRelative && st.attr.ts.relative;
    var ts := if newPeriod then RelativeReset(st.attr.ts) else st.attr.ts;
    assert Inv(ts);
    SameSlots(st.attr.ts, ts, st.used);
    RequeueKeepsUses(if newPeriod then st.(period := st.period + 1) else st, ts, a.resetNext);
  }

  lemma BeginKeepsUses(st: System, a: Action)
    requires Inv(st.attr.ts) && UsesOk(st) && a.BeginSuite?
    ensures SameDefinition(Next(st, a).attr.ts, st.attr.ts)
    ensures UsesOk(Next(st, a))
  {
    SameSlots(st.attr.ts, Next(st, a).attr.ts, st.used);
  }

  // ----- runs

  ghost function Run(st: System, actions: seq<Action>): (st': System)
    requires Inv(st.attr.ts)
    ensures Inv(st'.attr.ts)
    decreases |actions|
  {
    if actions == [] then st else Run(Next(st, actions[0]), actions[1..])
  }

  /** The only demand on a run: no update in it goes back over a slot unseen. */
  ghost predicate SlotsStayBehind(st: System, actions: seq<Action>)
    requires Inv(st.attr.ts)
    decreases |actions|
  {
    actions == [] ||
    (KeepsSlotsBehind(st, actions[0]) && SlotsStayBehind(Next(st, actions[0]), actions[1..]))
  }

  /** It is met where the clock advances at every update. */
  ghost predicate ClockAdvancesThroughout(st: System, actions: seq<Action>)
    requires Inv(st.attr.ts)
    decreases |actions|
  {
    actions == [] ||
    (ClockAdvances(st.cal, actions[0]) && ClockAdvancesThroughout(Next(st, actions[0]), actions[1..]))
  }

  lemma {:induction false} AdvancingKeepsSlotsBehind(st: System, actions: seq<Action>)
    requires Inv(st.attr.ts) && ClockAdvancesThroughout(st, actions)
    ensures SlotsStayBehind(st, actions)
    decreases |actions|
  {
    if actions != [] {
      if actions[0].Tick? && !MidnightReset(st.attr.ts, Updated(st.cal, actions[0].p)) {
        NowGrows(st, actions[0].p);
      }
      hide Next, Inv;
      AdvancingKeepsSlotsBehind(Next(st, actions[0]), actions[1..]);
    }
  }

  lemma {:induction false} RunKeepsUses(st: System, actions: seq<Action>)
    requires Inv(st.attr.ts) && UsesOk(st) && SlotsStayBehind(st, actions)
    ensures SameDefinition(Run(st, actions).attr.ts, st.attr.ts)
    ensures UsesOk(Run(st, actions))
    decreases |actions|
  {
    if actions != [] {
      StepKeepsUses(st, actions[0]);
      RunKeepsUses(Next(st, actions[0]), actions[1..]);
    }
  }

  /** No slot is used twice in a period, over every run: the slots for which the node is submitted
      are strictly increasing and each is a slot of the definition, however long the jobs run and
      whatever is missed, forced or requeued in between. */
  lemma NoSlotIsUsedTwice(st: System, actions: seq<Action>)
    requires Inv(st.attr.ts) && st.used == [] && st.due == Nothing && SlotsStayBehind(st, actions)
    ensures
      var used := Run(st, actions).used;
      && (forall i, j :: 0 <= i < j < |used| ==>
           used[i].period < used[j].period || (used[i].period == used[j].period && used[i].minute < used[j].minute))
      && (forall i :: 0 <= i < |used| ==> IsSlot(st.attr.ts, used[i].minute))
  {
    RunKeepsUses(st, actions);
    var used := Run(st, actions).used;
    forall i, j | 0 <= i < j < |used|
      ensures used[i].period < used[j].period || (used[i].period == used[j].period && used[i].minute < used[j].minute)
    {
      assert Before(used[i], used[j]);
    }
    forall i | 0 <= i < |used|
      ensures IsSlot(st.attr.ts, used[i].minute)
    {
      assert used[i] in used;
    }
  }

  // ----- a requeued attribute does not wait for ever

  /** Updates only, none of which starts a new period. */
  ghost predicate QuietTicks(st: System, actions: seq<Action>)
    requires Inv(st.attr.ts)
    decreases |actions|
  {
    actions == [] ||
    (&& actions[0].Tick?
     && !MidnightReset(st.attr.ts, Updated(st.cal, actions[0].p))
     && QuietTicks(Next(st, actions[0]), actions[1..]))
  }

  /** Nothing that clears the flag: no requeue, on completion or by command, and no suite begin. */
  ghost predicate KeepsFlag(st: System, a: Action) {
    && !a.RequeueNode? && !a.BeginSuite?
    && (a.Complete? ==> !CheckForRequeue(st.attr.ts, st.cal, a.theMin, a.theMax, a.cmdContext))
  }

  ghost predicate FlagKept(st: System, actions: seq<Action>)
    requires Inv(st.attr.ts)
    decreases |actions|
  {
    actions == [] || (KeepsFlag(st, actions[0]) && FlagKept(Next(st, actions[0]), actions[1..]))
  }

  /** Once free, the attribute stays free until it is requeued or reset, over midnights, submissions,
      missed slots and completions that are not requeued. */
  lemma {:induction false} FreeStaysFree(st: System, actions: seq<Action>)
    requires Inv(st.attr.ts) && st.attr.free && FlagKept(st, actions)
    ensures Run(st, actions).attr.free
    decreases |actions|
  {
    if actions != [] {
      var st' := Next(st, actions[0]);
      assert st'.attr.free;
      hide Next, Inv;
      FreeStaysFree(st', actions[1..]);
    }
  }

  lemma {:induction false} TicksKeepFlag(st: System, actions: seq<Action>)
    requires Inv(st.attr.ts) && QuietTicks(st, actions)
    ensures FlagKept(st, actions)
    decreases |actions|
  {
    if actions != [] {
      hide Next, Inv;
      TicksKeepFlag(Next(st, actions[0]), actions[1..]);
    }
  }

  /** Updates of at most `limit` seconds. */
  ghost predicate ShortTicks(st: System, actions: seq<Action>, limit: int)
    requires Inv(st.attr.ts)
    decreases |actions|
  {
    actions == [] ||
    (&& actions[0].Tick? && 0 <= IncrementOf(st.cal, actions[0].p) <= limit
     && ShortTicks(Next(st, actions[0]), actions[1..], limit))
  }

  /** The clock of the system's series. */
  function NowOf(st: System): int { Now(st.attr.ts, st.cal) }

  lemma MinuteByMinute(st: System, p: UpdateParams)
    requires 0 <= IncrementOf(st.cal, p) <= 60 && !MidnightReset(st.attr.ts, Updated(st.cal, p))
    ensures NowOf(Ticked(st, p)) <= NowOf(st) + 1
  {
    var s, c := st.attr.ts, Updated(st.cal, p);
    if !s.relative {
      WithinAWeek(TimeOfDay(st.cal.suiteTime), IncrementOf(st.cal, p));
      SameDayMovesForward(st.cal, p);
    }
  }

  lemma QuietTickKeeps(st: System, p: UpdateParams)
    requires Inv(st.attr.ts) && !MidnightReset(st.attr.ts, Updated(st.cal, p))
    ensures
      var st' := Ticked(st, p);
      && SameDefinition(st'.attr.ts, st.attr.ts) && st'.attr.ts.next == st.attr.ts.next
      && st'.attr.ts.valid == st.attr.ts.valid && st'.attr.ts.last == st.attr.ts.last && st'.queued == st.queued
      && (st'.attr.free <==> st.attr.free || IsFree(st'.attr.ts, st'.cal))
  {
  }

  /** A valid attribute is free once its clock has reached the slot it waits for, if the clock gets
      there by updates of at most a minute; it need not end at that minute. */
  lemma {:induction false} WaitingEnds(st: System, actions: seq<Action>)
    requires Inv(st.attr.ts) && st.attr.ts.valid && QuietTicks(st, actions) && ShortTicks(st, actions, 60)
    requires NowOf(st) < st.attr.ts.next.Duration() <= NowOf(Run(st, actions))
    ensures Run(st, actions).attr.free && Run(st, actions).queued == st.queued
    ensures !st.attr.free ==> Run(st, actions).due == Slot(Use(st.period, st.attr.ts.next.Duration()))
    decreases |actions|
  {
    var p := actions[0].p;
    var st' := Next(st, actions[0]);
    assert st' == Ticked(st, p);
    QuietTickKeeps(st, p);
    MinuteByMinute(st, p);
    QueuedStays(st', actions[1..]);
    if NowOf(st') == st.attr.ts.next.Duration() {
      WaitingSlotFrees(st'.attr.ts);
      assert IsFree(st'.attr.ts, st'.cal);
      TicksKeepFlag(st', actions[1..]);
      FreeStaysFree(st', actions[1..]);
      DueStays(st', actions[1..]);
    } else {
      WaitingEnds(st', actions[1..]);
    }
  }

  lemma {:induction false} QueuedStays(st: System, actions: seq<Action>)
    requires Inv(st.attr.ts) && QuietTicks(st, actions)
    ensures Run(st, actions).queued == st.queued
    decreases |actions|
  {
    if actions != [] {
      QueuedStays(Next(st, actions[0]), actions[1..]);
    }
  }

  lemma {:induction false} DueStays(st: System, actions: seq<Action>)
    requires Inv(st.attr.ts) && st.attr.free && QuietTicks(st, actions)
    ensures Run(st, actions).due == st.due
    decreases |actions|
  {
    if actions != [] {
      DueStays(Next(st, actions[0]), actions[1..]);
    }
  }

  /** And the queued node is then submitted for that very slot. */
  lemma WaitedSlotIsUsed(st: System, actions: seq<Action>)
    requires Inv(st.attr.ts) && st.attr.ts.valid && QuietTicks(st, actions) && ShortTicks(st, actions, 60)
    requires NowOf(st) < st.attr.ts.next.Duration() <= NowOf(Run(st, actions)) && st.queued && !st.attr.free
    ensures
      var st' := Next(Run(st, actions), Submit);
      !st'.queued && st'.used == Run(st, actions).used + [Use(st.period, st.attr.ts.next.Duration())]
    ensures Run(st, actions).used == st.used
  {
    WaitingEnds(st, actions);
    UsedStays(st, actions);
    hide QuietTicks, ShortTicks, Inv;
  }

  lemma {:induction false} UsedStays(st: System, actions: seq<Action>)
    requires Inv(st.attr.ts) && QuietTicks(st, actions)
    ensures Run(st, actions).used == st.used
    decreases |actions|
  {
    if actions != [] {
      UsedStays(Next(st, actions[0]), actions[1..]);
    }
  }

  /** An attribute whose clock has stepped over its last slot stays unfree for the rest of the period. */
  lemma {:induction false} SteppedOver(st: System, actions: seq<Action>)
    requires Inv(st.attr.ts) && !st.attr.free && st.attr.ts.last < NowOf(st)
    requires QuietTicks(st, actions) && ClockAdvancesThroughout(st, actions)
    ensures !Run(st, actions).attr.free
    decreases |actions|
  {
    if actions != [] {
      var st' := Next(st, actions[0]);
      assert st' == Ticked(st, actions[0].p);
      QuietTickKeeps(st, actions[0].p);
      NowGrows(st, actions[0].p);
      FreeMeansSlot(st'.attr.ts, st'.cal);
      if st.attr.ts.HasIncrement() {
        LastIsLastSlot(st'.attr.ts);
      }
      SteppedOver(st', actions[1..]);
    }
  }

  /** The series 10:00 to 12:00 by the hour, waiting for its last slot. */
  function LastHour(): Series {
    Series(TimeSlot(10, 0), TimeSlot(12, 0), TimeSlot(1, 0), false, TimeSlot(12, 0), true, 0, NULL_SLOT, 720)
  }

  lemma LastHourIsInv()
    ensures Inv(LastHour())
  {
    var s := LastHour();
    assert FirstAfter(780, 60, 720) == 780;
    assert FirstAfter(720, 60, 720) == 780;
    assert FirstAfter(660, 60, 720) == 780;
    assert FirstAfter(600, 60, 720) == 780;
    assert OnGrid(600, 60, 660) && OnGrid(600, 60, 720);
  }

  /** Quiet updates of at most `limit` seconds bring a valid series from before its next slot to or
      past it. */
  ghost predicate Reaches(st: System, actions: seq<Action>, limit: int) {
    && Inv(st.attr.ts) && st.attr.ts.valid && QuietTicks(st, actions) && ShortTicks(st, actions, limit)
    && NowOf(st) < st.attr.ts.next.Duration() <= NowOf(Run(st, actions))
  }

  /** A minute is the sharp bound: all such runs end free if and only if updates take no more than
      sixty seconds. */
  lemma SixtySecondsIsSharp(limit: int)
    ensures
      (forall st, actions | Reaches(st, actions, limit) :: Run(st, actions).attr.free) <==> limit <= 60
  {
    if limit <= 60 {
      forall st, actions | Reaches(st, actions, limit)
        ensures Run(st, actions).attr.free
      {
        ShorterTicks(st, actions, limit);
        WaitingEnds(st, actions);
      }
    } else {
      var st := JustBeforeNoon();
      var tick := Action.Tick(UpdateParams(0, 61, true));
      LongTickStepsOver();
      assert [tick][1..] == [];
      assert Run(st, [tick]) == Next(st, tick);
      assert Reaches(st, [tick], limit);
    }
  }

  lemma {:induction false} ShorterTicks(st: System, actions: seq<Action>, limit: int)
    requires Inv(st.attr.ts) && limit <= 60 && ShortTicks(st, actions, limit)
    ensures ShortTicks(st, actions, 60)
    decreases |actions|
  {
    if actions != [] {
      hide Next, Inv;
      ShorterTicks(Next(st, actions[0]), actions[1..], limit);
    }
  }

  /** At 11:59:59, waiting for 12:00. */
  function JustBeforeNoon(): System {
    System(Begun(REAL, 12 * 3600 - 1, 0), Attr(false, LastHour()), Nothing, true, 0, [])
  }

  /** An update of a minute and a second steps over the slot: the series is past its last slot, and
      not free. */
  lemma LongTickStepsOver()
    ensures Inv(LastHour())
    ensures
      var st, p := JustBeforeNoon(), UpdateParams(0, 61, true);
      var st' := Next(st, Action.Tick(p));
      && IncrementOf(st.cal, p) == 61 && !MidnightReset(LastHour(), Updated(st.cal, p))
      && NowOf(st) < st.attr.ts.next.Duration() < NowOf(st') && st'.attr.ts.valid && !st'.attr.free
      && st'.attr.ts.last < NowOf(st')
  {
    LastHourIsInv();
    var st, p := JustBeforeNoon(), UpdateParams(0, 61, true);
    var c := st.cal;
    assert DayOf(c.suiteTime) == 0 && DayOf(c.suiteTime + 61) == 0;
    assert !Updated(c, p).dayChanged;
    var st' := Ticked(st, p);
    assert NowOf(st') == 721;
    FreeMeansSlot(LastHour(), st'.cal);
  }

  /** A series that completes and is requeued is never stuck in the queued state: it waits
      for a slot after now and not after the last one, and can be submitted again as soon as
      updates of at most a minute have brought the clock to or past that slot. */
  lemma NeverStuckInQueue(st: System, a: Action, ticks: seq<Action>)
    requires Inv(st.attr.ts) && st.attr.ts.HasIncrement() && a.Complete?
    requires CheckForRequeue(st.attr.ts, st.cal, a.theMin, a.theMax, a.cmdContext)
    requires QuietTicks(Next(st, a), ticks) && ShortTicks(Next(st, a), ticks, 60)
    requires Next(st, a).attr.ts.next.Duration() <= NowOf(Run(Next(st, a), ticks))
    ensures !Next(st, a).attr.free
    ensures NowOf(st) < Next(st, a).attr.ts.next.Duration() <= st.attr.ts.last
    ensures Run(Next(st, a), ticks).attr.free && Run(Next(st, a), ticks).queued
  {
    RequeuedIsNeverStuck(st.attr.ts, st.cal, a.theMin, a.theMax, a.cmdContext, a.resetNext);
    WaitingEnds(Next(st, a), ticks);
  }

  // ----- jobs that run past midnight

  /** What can happen between a requeue and the next completion: updates, the submission, missed slots
      and forced freeing. */
  ghost predicate NoRequeue(actions: seq<Action>) {
    forall a <- actions :: a.Tick? || a.Submit? || a.MissSlot? || a.FreeDependency?
  }

  lemma {:induction false} RequeueTimeStays(st: System, actions: seq<Action>)
    requires Inv(st.attr.ts) && NoRequeue(actions)
    ensures
      var s, t := st.attr.ts, Run(st, actions).attr.ts;
      Inv(t) && SameDefinition(t, s) && t.last == s.last && t.atRequeue == s.atRequeue
    decreases |actions|
  {
    if actions != [] {
      assert actions[0] in actions;
      StepKeepsRequeueTime(st, actions[0]);
      hide Inv, Next;
      RequeueTimeStays(Next(st, actions[0]), actions[1..]);
    }
  }

  lemma StepKeepsRequeueTime(st: System, a: Action)
    requires Inv(st.attr.ts) && (a.Tick? || a.Submit? || a.MissSlot? || a.FreeDependency?)
    ensures
      var s, t := st.attr.ts, Next(st, a).attr.ts;
      SameDefinition(t, s) && t.last == s.last && t.atRequeue == s.atRequeue
  {
    hide Inv, IsFree, Updated;
  }

  /** The action requeues the node: by command, or on a completion that asks for it. */
  ghost predicate Requeues(st: System, a: Action) {
    a.RequeueNode? || (a.Complete? && CheckForRequeue(st.attr.ts, st.cal, a.theMin, a.theMax, a.cmdContext))
  }

  /** A job requeued at one time and completing later, however many updates and midnights after, asks to
      be requeued again if and only if its series is then valid, the time of day is in range and, unless
      the requeue left the series expired, not before that of the requeue: whatever the dates. */
  lemma RequeueComparesTimeOfDay(st: System, a: Action, run: seq<Action>,
                                 theMin: TimeSlot, theMax: TimeSlot, cmdContext: bool)
    requires Inv(st.attr.ts) && st.attr.ts.HasIncrement() && !st.attr.ts.relative
    requires Requeues(st, a) && NoRequeue(run)
    ensures
      var s, st' := st.attr.ts, Next(st, a);
      var end := Run(st', run);
      var now := TimeOfDay(end.cal.suiteTime) / 60;
      CheckForRequeue(end.attr.ts, end.cal, theMin, theMax, cmdContext)
      <==> && end.attr.ts.valid && (st'.attr.ts.valid ==> TimeOfDay(st.cal.suiteTime) / 60 <= now)
           && now < s.last && (cmdContext || Start(s) <= now)
  {
    RequeueIsRecorded(st, a);
    var st' := Next(st, a);
    RequeueTimeStays(st', run);
    var end := Run(st', run);
    hide Inv, CheckForRequeue, Run, Next, Requeues, NoRequeue;
    CheckComparesTimeOfDay(end.attr.ts, end.cal, theMin, theMax, cmdContext);
  }

  /** From a suite begin on, the time of the begin is compared in the same way, expired or not. */
  lemma BeginComparesTimeOfDay(st: System, a: Action, run: seq<Action>,
                               theMin: TimeSlot, theMax: TimeSlot, cmdContext: bool)
    requires Inv(st.attr.ts) && st.attr.ts.HasIncrement() && !st.attr.ts.relative && a.BeginSuite? && NoRequeue(run)
    ensures
      var s, end := st.attr.ts, Run(Next(st, a), run);
      var now := TimeOfDay(end.cal.suiteTime) / 60;
      CheckForRequeue(end.attr.ts, end.cal, theMin, theMax, cmdContext)
      <==> && end.attr.ts.valid && TimeOfDay(a.theTime) / 60 <= now
           && now < s.last && (cmdContext || Start(s) <= now)
  {
    BeginIsRecorded(st, a);
    RequeueTimeStays(Next(st, a), run);
    var end := Run(Next(st, a), run);
    hide Inv, CheckForRequeue, Run, Next, NoRequeue;
    CheckComparesTimeOfDay(end.attr.ts, end.cal, theMin, theMax, cmdContext);
  }

  lemma BeginIsRecorded(st: System, a: Action)
    requires Inv(st.attr.ts) && st.attr.ts.HasIncrement() && !st.attr.ts.relative && a.BeginSuite?
    ensures
      var s, r := st.attr.ts, Next(st, a).attr.ts;
      && SameDefinition(r, s) && r.last == s.last
      && r.atRequeue.InDay() && r.atRequeue.Duration() == TimeOfDay(a.theTime) / 60
  {
    var c := Begun(st.cal.clock, a.theTime, a.localNow);
    ResetFindsFirst(st.attr.ts, c);
    assert SuiteSlot(c).Duration() == TimeOfDay(a.theTime) / 60;
  }

  /** Requeue remembers the time of day, or forgets it if it leaves the series expired. */
  lemma RequeueRecordsTime(s: Series, c: CalState, resetNext: bool)
    requires Inv(s) && s.HasIncrement() && !s.relative
    ensures
      var r := Requeue(s, c, resetNext);
      && SameDefinition(r, s) && r.last == s.last
      && (!r.valid ==> r.atRequeue.IsNull())
      && (r.valid ==> r.atRequeue.InDay() && r.atRequeue.Duration() == TimeOfDay(c.suiteTime) / 60)
  {
    RequeueKeepsInv(s, c, resetNext);
    OrderIsByDuration(Requeue(s, c, resetNext).next, s.finish);
  }

  lemma RequeueIsRecorded(st: System, a: Action)
    requires Inv(st.attr.ts) && st.attr.ts.HasIncrement() && !st.attr.ts.relative && Requeues(st, a)
    ensures
      var s, r := st.attr.ts, Next(st, a).attr.ts;
      && SameDefinition(r, s) && r.last == s.last
      && (!r.valid ==> r.atRequeue.IsNull())
      && (r.valid ==> r.atRequeue.InDay() && r.atRequeue.Duration() == TimeOfDay(st.cal.suiteTime) / 60)
  {
    var s := st.attr.ts;
    AfterCheckKeepsInv(s, st.cal);
    var ts := if a.Complete? then AfterCheck(s, st.cal) else s;
    RequeueRecordsTime(ts, st.cal, a.resetNext);
    assert Next(st, a).attr.ts == Requeue(ts, st.cal, a.resetNext) by { hide Requeue, Inv; }
  }

  /** The series 10:00 to 12:00 by the hour, waiting for its first slot. */
  function FirstHour(): Series { LastHour().(next := TimeSlot(10, 0)) }

  lemma FirstHourIsInv()
    ensures Inv(FirstHour())
  {
    LastHourIsInv();
  }

  /** A real calendar at a time of day, and how an update of whole hours moves it. */
  predicate At(c: CalState, day: int, hour: int) {
    c.clock == REAL && 0 <= hour < 24 && c.suiteTime == day * DAY + hour * 3600
  }

  lemma HoursLater(c: CalState, day: int, hour: int, day': int, hour': int)
    requires At(c, day, hour) && 0 <= hour' < 24 && day <= day' < day + 7
    ensures
      var c' := Updated(c, UpdateParams(0, (day' - day) * DAY + (hour' - hour) * 3600, true));
      At(c', day', hour') && (c'.dayChanged <==> day != day')
    ensures DayOf(c.suiteTime) == day && TimeOfDay(c.suiteTime) == hour * 3600
  {
    var t, t' := c.suiteTime, day' * DAY + hour' * 3600;
    assert DayOf(t) == day && DayOf(t') == day';
    SevenDayCycle(day, day' - day);
  }

  lemma RequeueOf(st: System, resetNext: bool)
    requires Inv(st.attr.ts)
    ensures
      var st' := Next(st, RequeueNode(resetNext, false));
      st' == st.(attr := Attr(false, Requeue(st.attr.ts, st.cal, resetNext)), due := Nothing, queued := true)
  {
    hide Inv, Requeue;
  }

  /** An update that brings a holding series to the slot it waits for. */
  lemma TickToSlot(st: System, p: UpdateParams)
    requires Inv(st.attr.ts) && !st.attr.free && !st.attr.ts.relative
    requires
      var c := Updated(st.cal, p);
      var ts := CalendarChanged(st.attr.ts, c);
      ts.valid && Now(ts, c) == ts.next.Duration()
    ensures
      var c := Updated(st.cal, p);
      var ts := CalendarChanged(st.attr.ts, c);
      var period := if c.dayChanged then st.period + 1 else st.period;
      Next(st, Action.Tick(p))
      == st.(cal := c, attr := Attr(true, ts), period := period, due := Slot(Use(period, Now(ts, c))))
  {
    var c := Updated(st.cal, p);
    CalendarChangedKeepsInv(st.attr.ts, c);
    WaitingSlotFrees(CalendarChanged(st.attr.ts, c));
    hide Inv, IsFree, Updated;
  }

  lemma TickOf(st: System, p: UpdateParams)
    requires Inv(st.attr.ts)
    ensures
      var c, st' := Updated(st.cal, p), Next(st, Action.Tick(p));
      st'.attr.ts == CalendarChanged(st.attr.ts, c) && st'.cal == c && st'.used == st.used
  {
    hide Inv, IsFree, Updated, CalendarChanged;
  }

  lemma SubmitOf(st: System)
    requires Inv(st.attr.ts) && st.queued && st.attr.free && st.due.Slot?
    ensures Next(st, Submit) == st.(queued := false, due := Nothing, used := st.used + [st.due.use])
  {
    hide Inv;
  }

  lemma MidnightRewinds(s: Series, c: CalState)
    requires Inv(s) && !s.relative && c.dayChanged
    ensures Inv(CalendarChanged(s, c)) && CalendarChanged(s, c) == s.(valid := true, next := s.start)
  {
    CalendarChangedKeepsInv(s, c);
    hide Inv;
  }

  /** Hours after which a real calendar shows another hour. */
  function Hours(n: int): UpdateParams { UpdateParams(0, n * 3600, true) }

  /** A queued node with the hourly series, at a time of day, just requeued. */
  ghost function RequeuedAt(c: CalState): System
    requires Inv(FirstHour())
  {
    Next(System(c, Attr(false, FirstHour()), Nothing, true, 0, []), RequeueNode(true, false))
  }

  /** The job is submitted after some hours and completes after some more. */
  ghost function JobOf(st: System, wait: int, length: int): System
    requires Inv(st.attr.ts)
  {
    Next(Next(Next(st, Action.Tick(Hours(wait))), Submit), Action.Tick(Hours(length)))
  }

  /** A job whose completion is over midnight is at the start of a day's slots again. */
  lemma JobOverMidnight(st: System, wait: int, length: int)
    requires Inv(st.attr.ts) && !st.attr.ts.relative && !st.attr.free && st.queued
    requires
      var c := Updated(st.cal, Hours(wait));
      var ts := CalendarChanged(st.attr.ts, c);
      && ts.valid && Now(ts, c) == ts.next.Duration() && Inv(ts) && !ts.relative
      && Updated(c, Hours(length)).dayChanged
    ensures
      var c := Updated(st.cal, Hours(wait));
      var ts, c' := CalendarChanged(st.attr.ts, c), Updated(c, Hours(length));
      var end := JobOf(st, wait, length);
      && end.cal == c' && Inv(end.attr.ts) && end.attr.ts == ts.(next := ts.start)
      && end.used == st.used + [Use(if c.dayChanged then st.period + 1 else st.period, Now(ts, c))]
  {
    var c := Updated(st.cal, Hours(wait));
    var ts, c' := CalendarChanged(st.attr.ts, c), Updated(c, Hours(length));
    TickToSlot(st, Hours(wait));
    var st1 := Next(st, Action.Tick(Hours(wait)));
    SubmitOf(st1);
    var st2 := Next(st1, Submit);
    TickOf(st2, Hours(length));
    MidnightRewinds(ts, c');
    hide Next, Inv, Updated, CalendarChanged, Now;
  }

  /** Requeued at 10:00 and submitted for 11:00, a job that completes at 11:00 the next day, over
      midnight, asks to be requeued all the same. */
  lemma OverMidnightIsRequeued(c: CalState)
    requires At(c, 0, 10)
    ensures Inv(FirstHour())
    ensures
      var end := JobOf(RequeuedAt(c), 1, 24);
      && end.used == [Use(0, 660)] && At(end.cal, 1, 11)
      && CheckForRequeue(end.attr.ts, end.cal, NULL_SLOT, NULL_SLOT, false)
  {
    FirstHourIsInv();
    HoursLater(c, 0, 10, 0, 11);
    var c1 := Updated(c, Hours(1));
    HoursLater(c1, 0, 11, 1, 11);
    var c2 := Updated(c1, Hours(24));
    HoursLater(c2, 1, 11, 1, 11);
    RequeueFindsHour(FirstHour(), c, 11);
    RequeueOf(System(c, Attr(false, FirstHour()), Nothing, true, 0, []), true);
    RequeueKeepsInv(FirstHour(), c, true);
    var st := RequeuedAt(c);
    var s := FirstHour().(next := TimeSlot(11, 0), atRequeue := SuiteSlot(c));
    assert st.attr.ts == s && CalendarChanged(s, c1) == s && Now(s, c1) == 660;
    assert SuiteSlot(c) == TimeSlot(10, 0);
    hide Inv, Updated, Requeue, CheckForRequeue, Next;
    JobOverMidnight(st, 1, 24);
    CheckComparesTimeOfDay(s.(next := s.start), c2, NULL_SLOT, NULL_SLOT, false);
  }

  /** Requeued at 13:00, after the last slot, and submitted for 10:00 the next day, a job that completes
      at 11:00 the day after asks to be requeued, although 11:00 is before 13:00: no time is compared. */
  lemma ExpiredComparesNothing(c: CalState)
    requires At(c, 0, 13)
    ensures Inv(FirstHour())
    ensures
      var end := JobOf(RequeuedAt(c), 21, 25);
      && end.used == [Use(1, 600)] && At(end.cal, 2, 11)
      && CheckForRequeue(end.attr.ts, end.cal, NULL_SLOT, NULL_SLOT, false)
  {
    FirstHourIsInv();
    HoursLater(c, 0, 13, 1, 10);
    var c1 := Updated(c, Hours(21));
    HoursLater(c1, 1, 10, 2, 11);
    var c2 := Updated(c1, Hours(25));
    HoursLater(c2, 2, 11, 2, 11);
    var st0 := System(c, Attr(false, FirstHour()), Nothing, true, 0, []);
    RequeueOf(st0, true);
    var st := RequeuedAt(c);
    RequeueRecordsTime(FirstHour(), c, true);
    RequeueKeepsInv(FirstHour(), c, true);
    MidnightRewinds(st.attr.ts, c1);
    var s := CalendarChanged(st.attr.ts, c1);
    assert Now(FirstHour(), c) == 780 && !st.attr.ts.valid;
    assert Now(s, c1) == 600;
    hide Inv, Updated, Requeue, CheckForRequeue, Next, CalendarChanged;
    JobOverMidnight(st, 21, 25);
    CheckComparesTimeOfDay(s, c2, NULL_SLOT, NULL_SLOT, false);
  }

  lemma RequeueFindsHour(s: Series, c: CalState, h: int)
    requires s == FirstHour() && 10 <= h <= 12 && TimeOfDay(c.suiteTime) / 3600 == h - 1
    ensures Inv(s) && Requeue(s, c, true) == s.(next := TimeSlot(h, 0), atRequeue := SuiteSlot(c))
  {
    FirstHourIsInv();
    var now := TimeOfDay(c.suiteTime) / 60;
    FirstHourAfter(now, h) by { MinutesOfHour(TimeOfDay(c.suiteTime), h - 1); }
    assert NextSlot(s, now) == TimeSlot(h, 0);
    hide FirstAfter, Inv, TimeOfDay;
  }

  lemma MinutesOfHour(t: int, h: int)
    requires 0 <= t && t / 3600 == h
    ensures 60 * h <= t / 60 < 60 * h + 60
  {
  }

  lemma FirstHourAfter(now: int, h: int)
    requires 10 <= h <= 12 && 60 * h - 60 <= now < 60 * h
    ensures FirstAfter(600, 60, now) == 60 * h
  {
    hide FirstAfter;
    FirstAfterStep(600, 60, now);
    FirstAfterStep(660, 60, now);
    FirstAfterStep(720, 60, now);
  }

  /** If an update hides a week, a slot can be used again in what counts as the same period. */
  lemma HiddenWeekRepeatsASlot()
    ensures Inv(FirstHour())
    ensures
      var st := System(Begun(REAL, 10 * 3600, 0), Attr(false, FirstHour()), Nothing, true, 0, []);
      var back := Next(Next(st, Submit), Action.Tick(UpdateParams(0, 6 * DAY + 23 * 3600, true)));
      var again := Next(Next(back, RequeueNode(true, false)), Action.Tick(UpdateParams(0, 3600, true)));
      Next(again, Submit).used == [Use(0, 600), Use(0, 600)]
  {
    FirstHourIsInv();
    var c := Begun(REAL, 10 * 3600, 0);
    var st := System(c, Attr(false, FirstHour()), Nothing, true, 0, []);
    WaitingSlotFrees(FirstHour());
    assert Now(FirstHour(), c) == 600;
    var st1 := Next(st, Submit);
    assert st1 == st.(queued := false, used := [Use(0, 600)]);
    var p := UpdateParams(0, 6 * DAY + 23 * 3600, true);
    var t := 10 * 3600 + 6 * DAY + 23 * 3600;
    assert DayOf(t) == 7 && TimeOfDay(t) == 9 * 3600;
    var c2 := Updated(c, p);
    assert c2.suiteTime == t && !c2.dayChanged;
    FreeMeansSlot(FirstHour(), c2);
    var st2 := Next(st1, Action.Tick(p));
    assert st2 == st1.(cal := c2);
    RequeueFindsHour(FirstHour(), c2, 10);
    var st3 := Next(st2, RequeueNode(true, false));
    var s3 := FirstHour().(atRequeue := SuiteSlot(c2));
    assert st3 == st2.(attr := Attr(false, s3), queued := true);
    var q := UpdateParams(0, 3600, true);
    var c4 := Updated(c2, q);
    assert c4.suiteTime == t + 3600 && DayOf(t + 3600) == 7 && TimeOfDay(t + 3600) == 10 * 3600 && !c4.dayChanged;
    WaitingSlotFrees(s3);
    assert Now(s3, c4) == 600 && IsFree(s3, c4);
    var st4 := Next(st3, Action.Tick(q));
    assert st4 == st3.(cal := c4, attr := Attr(true, s3), due := Slot(Use(0, 600)));
  }
}
