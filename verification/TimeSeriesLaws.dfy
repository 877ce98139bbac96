/** Laws of one time series: the state invariant, what requeue and reset compute, and
    that a series allowed to requeue is never left without a slot to wait for. */
module TimeSeriesLaws {
  import opened TimeSlots
  import opened Calendars
  import opened Grids
  import opened TimeSeriesModel

  function Start(s: Series): int { s.start.Duration() }
  function Step(s: Series): int { s.incr.Duration() }
  function Finish(s: Series): int { s.finish.Duration() }

  /** The minutes the definition of the series names. */
  ghost predicate IsSlot(s: Series, minute: int) {
    if s.HasIncrement() then OnGrid(Start(s), Step(s), minute) && minute <= Finish(s)
    else minute == Start(s)
  }

  // ----- the state invariant

  lemma FreshKeepsInv(start: TimeSlot, finish: TimeSlot, incr: TimeSlot, relative: bool)
    ensures FreshSingle(start, relative).Ok? ==> Inv(FreshSingle(start, relative).value)
    ensures FreshSeries(start, finish, incr, relative).Ok? ==> Inv(FreshSeries(start, finish, incr, relative).value)
  {
  }

  /** The next slot found by the advancing loops is on the series' own grid. */
  lemma AdvanceStaysOnGrid(s: Series, now: int)
    requires CanAdvance(s) && OnGrid(Start(s), Step(s), s.next.Duration())
    ensures OnGrid(Start(s), Step(s), NextSlot(s, now).Duration())
    ensures NextSlot(s, now).Duration() == FirstAfter(s.next.Duration(), Step(s), now)
  {
    var n := FirstAfter(s.next.Duration(), Step(s), now);
    FirstAfterIsFirst(s.next.Duration(), Step(s), now);
    OnGridFrom(Start(s), Step(s), s.next.Duration(), n);
  }

  lemma AdvanceKeepsInv(s: Series, now: int, at: TimeSlot)
    requires Inv(s) && s.HasIncrement() && (at.IsNull() || at.InDay())
    ensures
      var n := NextSlot(s, now);
      && Inv(Advanced(s, now, at))
      && n.Duration() == FirstAfter(s.next.Duration(), Step(s), now)
      && (n.Greater(s.finish) <==> n.Duration() > Finish(s))
  {
    AdvanceStaysOnGrid(s, now);
    OrderIsByDuration(NextSlot(s, now), s.finish);
  }

  lemma ResetOnlyKeepsInv(s: Series)
    requires Inv(s)
    ensures Inv(ResetOnly(s)) && Inv(RelativeReset(s))
  {
  }

  lemma ResetAtKeepsInv(r: Series, now: int, at: TimeSlot)
    requires Inv(r) && (at.IsNull() || at.InDay())
    ensures Inv(ResetAt(r, now, at))
  {
    if r.HasIncrement() {
      AdvanceKeepsInv(r, now - 1, at);
    }
  }

  lemma ResetKeepsInv(s: Series, c: CalState)
    requires Inv(s)
    ensures Inv(Reset(s, c))
  {
    var r := ResetOnly(s);
    ResetOnlyKeepsInv(s);
    ResetAtKeepsInv(r, Now(r, c), if r.relative then r.atRequeue else SuiteSlot(c));
  }

  lemma ResetFindsFirst(s: Series, c: CalState)
    requires Inv(s) && s.HasIncrement()
    ensures
      var r := Reset(s, c);
      && r.next.Duration() == FirstAfter(Start(s), Step(s), Now(ResetOnly(s), c) - 1)
      && (r.valid <==> r.next.Duration() <= Finish(s))
  {
    ResetOnlyKeepsInv(s);
    var r := ResetOnly(s);
    AdvanceKeepsInv(r, Now(r, c) - 1, if r.relative then r.atRequeue else SuiteSlot(c));
  }

  /** The series whose next slot requeue advances. */
  function Rewound(s: Series, flag: bool): Series {
    if flag then s.(valid := true, next := s.start) else s
  }

  lemma RequeueKeepsInv(s: Series, c: CalState, flag: bool)
    requires Inv(s)
    ensures Inv(Rewound(s, flag)) && Inv(Requeue(s, c, flag))
    ensures s.HasIncrement() ==>
      var r := Requeue(s, c, flag);
      && r.next.Duration() == FirstAfter(Rewound(s, flag).next.Duration(), Step(s), Now(s, c))
      && (r.valid <==> r.next.Duration() <= Finish(s))
  {
    if s.HasIncrement() {
      var q := Rewound(s, flag);
      var now := Now(q, c);
      AdvanceKeepsInv(q, now, NULL_SLOT);
      AdvanceKeepsInv(q, now, if q.relative then q.atRequeue else SuiteSlot(c));
    }
  }

  lemma MissedKeepsInv(s: Series)
    requires Inv(s)
    ensures Inv(Missed(s))
    ensures s.HasIncrement() ==> Missed(s).next.Duration() == s.next.Duration() + Step(s)
  {
    if s.HasIncrement() {
      var v := s.next.Duration() + Step(s);
      assert Missed(s).next == SlotOf(v);
      OrderIsByDuration(SlotOf(v), s.finish);
      GridIsAbove(Start(s), Step(s), s.next.Duration());
    }
  }

  lemma CalendarChangedKeepsInv(s: Series, c: CalState)
    requires Inv(s)
    ensures Inv(CalendarChanged(s, c))
  {
  }

  lemma AfterCheckKeepsInv(s: Series, c: CalState)
    requires Inv(s)
    ensures Inv(AfterCheck(s, c)) && AfterCheck(s, c) == s.(atRequeue := AfterCheck(s, c).atRequeue)
  {
  }

  /** Every operation keeps the state invariant. */
  lemma OperationsKeepInv(s: Series, c: CalState, flag: bool)
    requires Inv(s)
    ensures Inv(CalendarChanged(s, c)) && Inv(RelativeReset(s)) && Inv(ResetOnly(s)) && Inv(Reset(s, c))
    ensures Inv(Requeue(s, c, flag)) && Inv(Missed(s)) && Inv(AfterCheck(s, c))
  {
    hide *;
    CalendarChangedKeepsInv(s, c);
    AfterCheckKeepsInv(s, c);
    ResetOnlyKeepsInv(s);
    ResetKeepsInv(s, c);
    RequeueKeepsInv(s, c, flag);
    MissedKeepsInv(s);
  }

  /** The remembered last slot is the largest slot not after finish, whether or not the
      increment divides the range. */
  lemma LastIsLastSlot(s: Series)
    requires Shape(s) && s.HasIncrement()
    ensures IsLastSlot(Start(s), Step(s), Finish(s), s.last)
  {
    LastBeforeFirstAfter(Start(s), Step(s), Finish(s));
  }

  // ----- what is free

  /** Free minutes are slots of the definition, never before the next slot. */
  lemma FreeMeansSlot(s: Series, c: CalState)
    requires Inv(s)
    ensures IsFree(s, c) <==> s.valid && IsSlot(s, Now(s, c)) && s.next.Duration() <= Now(s, c)
  {
    if s.HasIncrement() {
      OnGridFrom(Start(s), Step(s), s.next.Duration(), Now(s, c));
    }
  }

  /** The slots listed for users are the minutes that can be free exactly when the
      increment divides the range from start to finish. */
  lemma ListedSlotsAreFreeSlots(s: Series)
    requires Shape(s) && s.HasIncrement()
    ensures
      (forall x :: (x == Finish(s) || (x < Finish(s) && OnGrid(Start(s), Step(s), x))) <==> IsSlot(s, x))
      <==> (Finish(s) - Start(s)) % Step(s) == 0
  {
    OnGridDivides(Start(s), Step(s), Finish(s));
    assert OnGrid(Start(s), Step(s), Finish(s)) <==> IsSlot(s, Finish(s));
  }

  // ----- requeue and reset

  /** Requeue with a reset finds the first slot after now, or expires; compute_next_time_slot
      foretells which; and the series is not free in the minute it was requeued. */
  lemma RequeueIsForetold(s: Series, c: CalState)
    requires Inv(s)
    ensures
      var r := Requeue(s, c, true);
      && (r.valid <==> !ComputeNext(s, c).IsNull())
      && (r.valid ==> r.next == ComputeNext(s, c))
      && (r.valid ==> Now(s, c) < r.next.Duration() && IsSlot(s, r.next.Duration()))
      && (forall x :: IsSlot(s, x) && Now(s, c) < x ==> r.valid && r.next.Duration() <= x)
      && !IsFree(r, c)
  {
    RequeueMovesPast(s, c, true);
    if s.HasIncrement() {
      FirstAfterIsFirst(Start(s), Step(s), Now(s, c));
    }
  }

  /** Requeue, with or without a reset, leaves the series waiting strictly after now, and
      without a reset it never gives back a slot already passed over. */
  lemma RequeueMovesPast(s: Series, c: CalState, flag: bool)
    requires Inv(s)
    ensures
      var r := Requeue(s, c, flag);
      && Inv(r)
      && (s.HasIncrement() ==> Now(s, c) < r.next.Duration())
      && (s.HasIncrement() && !flag ==> s.next.Duration() <= r.next.Duration())
      && (!s.HasIncrement() && Start(s) <= Now(s, c) ==> !r.valid)
      && !IsFree(r, c)
  {
    RequeueKeepsInv(s, c, flag);
    FreeMeansSlot(Requeue(s, c, flag), c);
  }

  /** Right after a reset the series is free in the current minute exactly when the
      minute is a slot, so a suite begun on a slot runs at once. */
  lemma ResetAllowsCurrentMinute(s: Series, c: CalState)
    requires Inv(s)
    ensures
      var r := Reset(s, c);
      && (IsFree(r, c) <==> IsSlot(s, Now(r, c)))
      && (forall x :: IsSlot(s, x) && Now(r, c) <= x ==> r.valid && r.next.Duration() <= x)
  {
    var r := Reset(s, c);
    ResetKeepsInv(s, c);
    FreeMeansSlot(r, c);
    if s.HasIncrement() {
      ResetFindsFirst(s, c);
      FirstAfterIsFirst(Start(s), Step(s), Now(ResetOnly(s), c) - 1);
    }
  }

  /** A reset leaves the series valid if and only if a slot is not before its clock, which starts at zero if
      it is relative, and then waiting for the first such slot, or for the start of a single one. */
  lemma ResetTells(s: Series, c: CalState)
    requires Inv(s)
    ensures
      var r := Reset(s, c);
      && Now(r, c) == (if s.relative then 0 else TimeOfDay(c.suiteTime) / 60)
      && (r.valid <==> exists x :: IsSlot(s, x) && Now(r, c) <= x)
      && (r.valid ==> IsSlot(s, r.next.Duration()) && Now(r, c) <= r.next.Duration())
      && r == s.(valid := r.valid, next := r.next, relDuration := r.relDuration, atRequeue := r.atRequeue)
  {
    var r := Reset(s, c);
    ResetKeepsInv(s, c);
    ResetAllowsCurrentMinute(s, c);
    if s.HasIncrement() {
      ResetFindsFirst(s, c);
      FirstAfterIsFirst(Start(s), Step(s), Now(ResetOnly(s), c) - 1);
      OrderIsByDuration(r.next, s.finish);
      if r.valid {
        assert IsSlot(s, r.next.Duration()) && Now(r, c) <= r.next.Duration();
      }
    } else {
      assert IsSlot(s, Start(s));
    }
  }

  /** The time remembered for the midnight test: an absolute series with an increment remembers the time of
      day of its reset, and of its requeue unless that leaves it expired; nothing else is remembered. */
  lemma ResetRemembers(s: Series, c: CalState, flag: bool)
    requires Inv(s)
    ensures
      var r, q := Reset(s, c), Requeue(s, c, flag);
      if !s.HasIncrement() then r.atRequeue == s.atRequeue == q.atRequeue
      else
        && (s.relative ==> r.atRequeue == s.atRequeue)
        && (!s.relative ==> r.atRequeue.InDay() && r.atRequeue.Duration() == TimeOfDay(c.suiteTime) / 60)
        && (!q.valid ==> q.atRequeue.IsNull())
        && (q.valid ==> q.atRequeue == if s.relative then s.atRequeue else r.atRequeue)
  {
    if s.HasIncrement() {
      RequeueKeepsInv(s, c, flag);
      OrderIsByDuration(Requeue(s, c, flag).next, s.finish);
    }
  }

  /** The requeueable query agrees with the computed next slot except between the last
      slot and finish, where nothing is left to run. */
  lemma RequeueableIsExact(s: Series, c: CalState)
    requires Inv(s)
    ensures (Requeueable(s, c) <==> !ComputeNext(s, c).IsNull())
            <==> !(s.HasIncrement() && s.last <= Now(s, c) < Finish(s))
  {
    RequeueIsForetold(s, c);
    if s.HasIncrement() {
      LastIsLastSlot(s);
      var r := Requeue(s, c, true);
      OrderIsByDuration(r.next, s.finish);
      if r.valid {
        assert r.next.Duration() <= s.last;
      } else {
        assert IsSlot(s, s.last);
      }
    }
  }

  /** A valid series becomes free as soon as its clock shows the next slot. */
  lemma WaitingSlotFrees(r: Series)
    requires Inv(r) && r.valid
    ensures forall c' {:trigger IsFree(r, c')} :: Now(r, c') == r.next.Duration() ==> IsFree(r, c')
  {
  }

  /** A series allowed to requeue is never stuck: requeued at the same calendar it is
      valid, waits for a slot after now and not after the last one, and is free in that
      minute. */
  lemma RequeuedIsNeverStuck(s: Series, c: CalState, theMin: TimeSlot, theMax: TimeSlot, cmdContext: bool, flag: bool)
    requires Inv(s) && s.HasIncrement()
    requires CheckForRequeue(s, c, theMin, theMax, cmdContext)
    ensures
      var r := Requeue(AfterCheck(s, c), c, flag);
      && r.valid && Now(s, c) < r.next.Duration() <= r.last
      && IsSlot(s, r.next.Duration())
      && forall c' {:trigger IsFree(r, c')} :: Now(r, c') == r.next.Duration() ==> IsFree(r, c')
  {
    var a := AfterCheck(s, c);
    AfterCheckKeepsInv(s, c);
    RequeueableWaits(a, c, flag);
    var r := Requeue(a, c, flag);
    hide AfterCheck, Requeue;
    WaitingSlotFrees(r);
  }

  lemma RequeueableWaits(a: Series, c: CalState, flag: bool)
    requires Inv(a) && a.HasIncrement() && a.valid && Now(a, c) < a.last
    ensures
      var r := Requeue(a, c, flag);
      && Inv(r) && r.valid && Now(a, c) < r.next.Duration() <= r.last
      && IsSlot(a, r.next.Duration())
  {
    var q := Rewound(a, flag);
    RequeueKeepsInv(a, c, flag);
    LastIsLastSlot(a);
    SlotStillToCome(Start(a), Step(a), Finish(a), a.last, q.next.Duration(), Now(a, c));
  }

  /** At or after the last slot a series never asks to be requeued, in any context. */
  lemma LastSlotNeverRequeues(s: Series, c: CalState, theMin: TimeSlot, theMax: TimeSlot, cmdContext: bool)
    requires Inv(s) && s.HasIncrement()
    requires forall x :: IsSlot(s, x) ==> x <= Now(s, c)
    ensures !CheckForRequeue(s, c, theMin, theMax, cmdContext)
  {
    LastIsLastSlot(s);
    assert IsSlot(s, s.last);
  }

  /** An absolute series asks to be requeued if and only if it is valid, the time of day is in range,
      and not before the remembered requeue time, if there is one. */
  lemma CheckComparesTimeOfDay(s: Series, c: CalState, theMin: TimeSlot, theMax: TimeSlot, cmdContext: bool)
    requires Inv(s) && s.HasIncrement() && !s.relative
    ensures
      var now := TimeOfDay(c.suiteTime) / 60;
      CheckForRequeue(s, c, theMin, theMax, cmdContext)
      <==> && s.valid && (s.atRequeue.IsNull() || s.atRequeue.Duration() <= now)
           && now < s.last && (cmdContext || Start(s) <= now)
  {
    OrderIsByDuration(s.next, s.finish);
    if !s.atRequeue.IsNull() {
      OrderIsByDuration(SuiteSlot(c), s.atRequeue);
    }
  }

  /** A series asks to be requeued if and only if it is valid, a slot is still to come, outside a command
      the first slot has been reached and, for an absolute series, no remembered requeue time is after the
      time of day.  A relative series remembers none that counts. */
  lemma SeriesAsks(s: Series, c: CalState, theMin: TimeSlot, theMax: TimeSlot, cmdContext: bool)
    requires Inv(s) && s.HasIncrement()
    ensures
      CheckForRequeue(s, c, theMin, theMax, cmdContext)
      <==> && s.valid && (exists x :: IsSlot(s, x) && Now(s, c) < x) && (cmdContext || Start(s) <= Now(s, c))
           && (s.relative || s.atRequeue.IsNull() || s.atRequeue.Duration() <= TimeOfDay(c.suiteTime) / 60)
  {
    LastIsLastSlot(s);
    assert IsSlot(s, s.last);
    OrderIsByDuration(s.next, s.finish);
    if !s.relative {
      CheckComparesTimeOfDay(s, c, theMin, theMax, cmdContext);
    }
  }

  /** Resetting the relative clock sets a relative one to zero, and does nothing else and nothing to an
      absolute series. */
  lemma RelativeClockResets(s: Series, c: CalState)
    ensures s.relative ==> Now(RelativeReset(s), c) == 0 && RelativeReset(s).relDuration == 0
    ensures !s.relative ==> RelativeReset(s) == s
    ensures RelativeReset(s).(relDuration := s.relDuration) == s
  {
  }

  /** Asking a second time: the requeue time still counts only if it was after the time of day then. */
  lemma AskedForgets(s: Series, c: CalState, c': CalState, theMin: TimeSlot, theMax: TimeSlot, cmdContext: bool)
    requires Inv(s) && s.HasIncrement() && !s.relative
    ensures
      var before, now := TimeOfDay(c.suiteTime) / 60, TimeOfDay(c'.suiteTime) / 60;
      CheckForRequeue(AfterCheck(s, c), c', theMin, theMax, cmdContext)
      <==> && s.valid && now < s.last && (cmdContext || Start(s) <= now)
           && (s.atRequeue.IsNull() || s.atRequeue.Duration() <= before || s.atRequeue.Duration() <= now)
  {
    AfterCheckKeepsInv(s, c);
    OrderIsByDuration(s.next, s.finish);
    if !s.atRequeue.IsNull() {
      OrderIsByDuration(SuiteSlot(c), s.atRequeue);
    }
    CheckComparesTimeOfDay(AfterCheck(s, c), c', theMin, theMax, cmdContext);
  }

  /** Asking changes nothing else, and nothing at all in an expired, a relative or a single one. */
  lemma AskingIsQuiet(s: Series, c: CalState)
    requires Inv(s)
    ensures AfterCheck(s, c) == s.(atRequeue := AfterCheck(s, c).atRequeue)
    ensures !s.valid || s.relative || !s.HasIncrement() ==> AfterCheck(s, c) == s
    ensures AfterCheck(s, c).atRequeue == s.atRequeue || AfterCheck(s, c).atRequeue.IsNull()
  {
  }

  /** The clock of a series counts whole minutes: of the day, or since the relative reset, towards zero. */
  lemma NowCountsMinutes(s: Series, c: CalState)
    ensures
      var seconds := if s.relative then s.relDuration else TimeOfDay(c.suiteTime);
      && (seconds >= 0 ==> 60 * Now(s, c) <= seconds < 60 * Now(s, c) + 60)
      && (seconds < 0 ==> 60 * Now(s, c) - 60 < seconds <= 60 * Now(s, c))
  {
  }

  /** A new series or slot has the definition it was given, waits for its start, and has not aged; the
      constructor refuses exactly the slots that make no series. */
  lemma FreshIsAsked(start: TimeSlot, finish: TimeSlot, incr: TimeSlot, relative: bool)
    ensures FreshSingle(start, relative).Ok? <==> start.InDay()
    ensures FreshSeries(start, finish, incr, relative).Ok? <==> SeriesSlots(start, finish, incr)
    ensures start.InDay() ==>
      var s := FreshSingle(start, relative).value;
      && s.start == start == s.next && !s.HasIncrement() && s.incr.IsNull() && s.relative == relative
      && s.valid && s.relDuration == 0 && s.atRequeue.IsNull()
    ensures SeriesSlots(start, finish, incr) ==>
      var s := FreshSeries(start, finish, incr, relative).value;
      && s.start == start == s.next && s.finish == finish && s.incr == incr && s.relative == relative
      && s.valid && s.relDuration == 0 && s.atRequeue.IsNull()
  {
  }

  /** A slot that is missed is not free at its minute, and no other slot to come is lost. */
  lemma MissedSlotIsSkipped(s: Series, c: CalState)
    requires Inv(s) && s.valid
    ensures IsFree(Missed(s), c) <==> IsFree(s, c) && Now(s, c) != s.next.Duration()
  {
    var m := Missed(s);
    MissedKeepsInv(s);
    FreeMeansSlot(s, c);
    FreeMeansSlot(m, c);
    assert Now(m, c) == Now(s, c) && (IsSlot(m, Now(s, c)) <==> IsSlot(s, Now(s, c)));
    if s.HasIncrement() {
      var now, next := Now(s, c), s.next.Duration();
      if IsSlot(s, now) && next < now {
        NextGridPoint(Start(s), Step(s), next, now);
        LaterSlotIsLater(s, m, now);
      }
    }
  }

  lemma LaterSlotIsLater(s: Series, m: Series, now: int)
    requires Inv(s) && Inv(m) && s.HasIncrement() && m.finish == s.finish && m.start == s.start && m.incr == s.incr
    requires m.next.Duration() <= now <= Finish(s)
    ensures m.valid
  {
  }

  /** The two changes the calendar brings about: a relative series ages by the increment; an absolute one
      begins again at midnight, and only then. */
  lemma CalendarBrings(s: Series, c: CalState)
    ensures s.relative ==> CalendarChanged(s, c) == s.(relDuration := s.relDuration + c.increment)
    ensures !s.relative && c.dayChanged ==> CalendarChanged(s, c) == s.(valid := true, next := s.start)
    ensures !s.relative && !c.dayChanged ==> CalendarChanged(s, c) == s
  {
  }

  /** The exception for a slot outside the day: its hour before its minute. */
  lemma SlotError(t: TimeSlot)
    requires !t.InDay()
    ensures TestTimeSlot(t) == Err(if 0 <= t.h < 24 then MinuteOutOfRange else HourOutOfRange)
  {
  }

  /** Slots that make no series: the exception for the first slot outside the day. */
  lemma RangeError(start: TimeSlot, finish: TimeSlot, incr: TimeSlot)
    requires !(start.InDay() && finish.InDay() && incr.InDay())
    ensures
      var bad := if !start.InDay() then start else if !finish.InDay() then finish else incr;
      CheckSlots(start, finish, incr) == TestTimeSlot(bad)
  {
    hide TestTimeSlot;
  }

  /** And for slots inside the day, first the order, then a zero increment, then one that does not fit. */
  lemma OrderError(start: TimeSlot, finish: TimeSlot, incr: TimeSlot)
    requires start.InDay() && finish.InDay() && incr.InDay() && !SeriesSlots(start, finish, incr)
    ensures
      CheckSlots(start, finish, incr)
      == Err(if finish.Duration() < start.Duration() then StartAfterFinish
             else if incr.Duration() == 0 then ZeroIncrement else IncrementTooLarge)
  {
    hide TestTimeSlot;
  }
}
