/** What each step of the protocol of a time attribute does, told by its effect on the attribute and on the
    node that waits for it. */
module SchedulerSteps {
  import opened TimeSlots
  import opened Calendars
  import opened TimeSeriesModel
  import opened TimeSeriesLaws
  import opened Scheduler

  /** The node could be submitted now for this attribute. */
  ghost predicate Submittable(st: System) { st.attr.free || IsFree(st.attr.ts, st.cal) }

  /** An update starts a new period for an absolute series at midnight and for nothing else; it frees an
      attribute that was not if and only if this minute is a slot it waits for, and that slot is then due. */
  lemma TickTells(st: System, p: UpdateParams)
    requires Inv(st.attr.ts)
    ensures
      var st' := Next(st, Action.Tick(p));
      && st'.cal == Updated(st.cal, p) && st'.queued == st.queued && st'.used == st.used
      && st'.attr.ts == CalendarChanged(st.attr.ts, st'.cal)
      && st'.period == st.period + (if !st.attr.ts.relative && st'.cal.dayChanged then 1 else 0)
      && (var s := st'.attr.ts;
          st'.attr.free
          <==> st.attr.free || (s.valid && IsSlot(s, NowOf(st')) && s.next.Duration() <= NowOf(st')))
      && st'.due == if st'.attr.free && !st.attr.free then Slot(Use(st'.period, NowOf(st'))) else st.due
  {
    var st' := Next(st, Action.Tick(p));
    FreeMeansSlot(st'.attr.ts, st'.cal);
    hide Inv, Updated, IsFree, IsSlot;
  }

  /** A submission takes a queued node off the queue if and only if its attribute lets it, and records one
      use more if and only if that is a slot's doing: the slot due, or the slot of this minute. */
  lemma SubmissionTells(st: System)
    requires Inv(st.attr.ts) && UsesOk(st)
    ensures
      var st' := Next(st, Submit);
      && st'.cal == st.cal && st'.attr == st.attr && st'.period == st.period
      && (st'.queued <==> st.queued && !Submittable(st))
      && (|st'.used| == |st.used| + 1 <==>
            st.queued && Submittable(st) && (st.attr.free ==> st.due != Nothing))
      && (st'.used != st.used ==>
            && |st'.used| == |st.used| + 1 && st'.used[..|st.used|] == st.used
            && var u := st'.used[|st.used|];
               if st.attr.free then Slot(u) == st.due else u == Use(st.period, NowOf(st)))
  {
    hide IsFree, Inv, UsesOk;
  }

  /** A requeue queues the node, clears the flag and leaves the attribute waiting, on the same clock. */
  lemma RequeuedWaits(st: System, ts: Series, resetNext: bool)
    requires Inv(ts)
    ensures
      var st' := Requeued(st, ts, resetNext);
      && st'.queued && !Submittable(st') && st'.due == Nothing && st'.cal == st.cal && st'.used == st.used
      && st'.period == st.period && NowOf(st') == Now(ts, st.cal)
  {
    RequeueMovesPast(ts, st.cal, resetNext);
    RequeueKeepsInv(ts, st.cal, resetNext);
    SameClock(ts, st.cal, resetNext);
    hide Requeue, Inv, IsFree;
  }

  lemma SameClock(ts: Series, c: CalState, resetNext: bool)
    requires Inv(ts)
    ensures Now(Requeue(ts, c, resetNext), c) == Now(ts, c)
  {
  }

  /** A completed node is queued again if and only if its attribute asks; then the flag is cleared, and
      otherwise it is kept and nothing changes but the time remembered. */
  lemma CompletionTells(st: System, theMin: TimeSlot, theMax: TimeSlot, cmdContext: bool, resetNext: bool)
    requires Inv(st.attr.ts)
    ensures
      var st' := Next(st, Complete(theMin, theMax, cmdContext, resetNext));
      && st'.cal == st.cal && st'.period == st.period && st'.used == st.used
      && (st'.queued <==> CheckForRequeue(st.attr.ts, st.cal, theMin, theMax, cmdContext))
      && (st'.queued ==> !Submittable(st') && st'.due == Nothing && NowOf(st') == NowOf(st))
      && (!st'.queued ==>
            && st'.attr.free == st.attr.free && st'.due == st.due
            && st'.attr.ts.(atRequeue := st.attr.ts.atRequeue) == st.attr.ts)
  {
    AfterCheckKeepsInv(st.attr.ts, st.cal);
    RequeuedWaits(st, AfterCheck(st.attr.ts, st.cal), resetNext);
    AskingIsQuiet(st.attr.ts, st.cal);
    hide Requeued, CheckForRequeue, AfterCheck, Inv, Submittable;
  }

  /** If a requeue by command resets the relative clock, a relative series starts again from zero. */
  lemma RequeueTells(st: System, resetNext: bool, resetRelative: bool)
    requires Inv(st.attr.ts)
    ensures
      var st' := Next(st, RequeueNode(resetNext, resetRelative));
      && st'.queued && !Submittable(st') && st'.due == Nothing && st'.cal == st.cal && st'.used == st.used
      && NowOf(st') == (if resetRelative && st.attr.ts.relative then 0 else NowOf(st))
      && st'.period == (if resetRelative && st.attr.ts.relative then st.period + 1 else st.period)
  {
    var ts := if resetRelative then RelativeReset(st.attr.ts) else st.attr.ts;
    RelativeClockResets(st.attr.ts, st.cal);
    OperationsKeepInv(st.attr.ts, st.cal, resetNext);
    RequeuedWaits(if resetRelative && st.attr.ts.relative then st.(period := st.period + 1) else st, ts, resetNext);
    hide Requeued, Inv, Now, RelativeReset, Submittable;
  }

  /** Freeing by force lets the node be submitted for no slot, and lets the attribute miss its next slot; an
      attribute that lets it be submitted anyway is left as it is. */
  lemma ForcedFreeingTells(st: System)
    requires Inv(st.attr.ts) && UsesOk(st)
    ensures
      var st' := Next(st, FreeDependency);
      && Submittable(st')
      && (Submittable(st) ==> st' == st)
      && (!Submittable(st) ==>
            && st' == st.(attr := Attr(true, Missed(st.attr.ts)), due := Nothing)
            && Next(st', Submit).used == st.used)
  {
    MissedKeepsInv(st.attr.ts);
    hide Inv, IsFree, Missed, UsesOk;
  }

  /** A suite begin starts a new period with the node queued and nothing due: the attribute can be used at
      once exactly if this minute is one of its slots. */
  lemma BeginTells(st: System, theTime: int, localNow: int)
    requires Inv(st.attr.ts)
    ensures
      var st' := Next(st, BeginSuite(theTime, localNow));
      && st'.queued && !st'.attr.free && st'.due == Nothing && st'.period == st.period + 1 && st'.used == st.used
      && st'.cal == Begun(st.cal.clock, theTime, localNow)
      && NowOf(st') == (if st.attr.ts.relative then 0 else TimeOfDay(theTime) / 60)
      && (Submittable(st') <==> IsSlot(st'.attr.ts, NowOf(st')))
  {
    ResetAllowsCurrentMinute(st.attr.ts, Begun(st.cal.clock, theTime, localNow));
    hide Inv;
  }

  /** A missed slot changes nothing but the series, and nothing at all if that has expired. */
  lemma MissTells(st: System)
    requires Inv(st.attr.ts)
    ensures
      var st' := Next(st, MissSlot);
      && st' == st.(attr := st.attr.(ts := st'.attr.ts))
      && (!st.attr.ts.valid ==> st' == st)
      && (st.attr.ts.valid ==>
            && st'.attr.free == st.attr.free
            && (IsFree(st'.attr.ts, st.cal) <==> IsFree(st.attr.ts, st.cal) && NowOf(st) != st.attr.ts.next.Duration()))
  {
    if st.attr.ts.valid {
      MissedSlotIsSkipped(st.attr.ts, st.cal);
    }
    hide Inv, IsFree, Missed;
  }
}
