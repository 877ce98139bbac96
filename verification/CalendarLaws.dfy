/** What a calendar shows after any history of updates, told from the history alone. */
module CalendarLaws {
  import opened Calendars

  /** An update that follows the wall clock. */
  predicate OnWallClock(e: Event) { e.Tick? && !e.p.forTest && e.p.pollPeriod >= 60 }

  /** The wall-clock time of the last such update, or of the begin. */
  function LastWall(es: seq<Event>, localNow: int): int
  {
    if es == [] then localNow
    else
      var front, last := es[..|es| - 1], es[|es| - 1];
      if OnWallClock(last) then last.p.timeNow else LastWall(front, localNow)
  }

  /** How far the update after a history moves the calendar: by the poll period in a test, by a minute
      when the poll period is under a minute, by the wall-clock time since it was last followed
      otherwise. */
  function Move(es: seq<Event>, p: UpdateParams, localNow: int): int
  {
    if p.forTest then p.pollPeriod
    else if p.pollPeriod >= 60 then p.timeNow - LastWall(es, localNow)
    else 60
  }

  /** All moves of a history. */
  function TotalMove(es: seq<Event>, localNow: int): int
  {
    if es == [] then 0
    else
      var front, last := es[..|es| - 1], es[|es| - 1];
      TotalMove(front, localNow) + if last.Tick? then Move(front, last.p, localNow) else 0
  }

  /** The move of the last update of a history; a begun calendar shows a minute. */
  function LastMove(es: seq<Event>, localNow: int): int
  {
    if es == [] then 60
    else
      var front, last := es[..|es| - 1], es[|es| - 1];
      if last.Tick? then Move(front, last.p, localNow) else LastMove(front, localNow)
  }

  function Max(a: int, b: int): int { if a < b then b else a }

  /** The duration: wall-clock time since the begin when it is followed, one move more otherwise; an
      update of the duration only never shortens it. */
  function Elapsed(es: seq<Event>, localNow: int): int
  {
    if es == [] then 0
    else
      var front, last := es[..|es| - 1], es[|es| - 1];
      match last
      case DurationOnly(t) => Max(Elapsed(front, localNow), t - localNow)
      case Tick(p) =>
        if OnWallClock(last) then p.timeNow - localNow else Elapsed(front, localNow) + Move(front, p, localNow)
  }

  lemma {:induction false} HistoryTells(clock: Clock, t0: int, localNow: int, es: seq<Event>)
    ensures
      var c := Run(Begun(clock, t0, localNow), es);
      && c.clock == clock && c.initTime == t0 && c.initLocalTime == localNow
      && c.lastTime == LastWall(es, localNow)
      && c.duration == Elapsed(es, localNow)
      && c.increment == LastMove(es, localNow)
    decreases |es|
  {
    if es != [] {
      HistoryTells(clock, t0, localNow, es[..|es| - 1]);
      hide DayOf, TimeOfDay, DayOfWeek;
    }
  }

  /** Over every history, a real calendar shows the time of the begin and all moves since. */
  lemma {:induction false} RealTimeline(t0: int, localNow: int, es: seq<Event>)
    ensures
      var c := Run(Begun(REAL, t0, localNow), es);
      && c.suiteTime == t0 + TotalMove(es, localNow)
      && c.duration == Elapsed(es, localNow) && c.increment == LastMove(es, localNow)
      && (es == [] ==> !c.dayChanged)
    decreases |es|
  {
    HistoryTells(REAL, t0, localNow, es);
    if es != [] {
      var front := es[..|es| - 1];
      RealTimeline(t0, localNow, front);
      HistoryTells(REAL, t0, localNow, front);
      hide DayOf, TimeOfDay, DayOfWeek;
    }
  }

  /** And a hybrid calendar shows that time of day on the day of the begin. */
  lemma HybridTimeline(t0: int, localNow: int, es: seq<Event>)
    ensures
      var c := Run(Begun(HYBRID, t0, localNow), es);
      && TimeOfDay(c.suiteTime) == TimeOfDay(t0 + TotalMove(es, localNow)) && DayOf(c.suiteTime) == DayOf(t0)
      && c.duration == Elapsed(es, localNow) && c.increment == LastMove(es, localNow)
  {
    HybridSimulatesReal(t0, localNow, es);
    RealTimeline(t0, localNow, es);
    HistoryTells(HYBRID, t0, localNow, es);
    hide *;
  }

  /** Updates at these wall-clock times, all of which follow the clock. */
  predicate AtTimes(es: seq<Event>, times: seq<int>) {
    |es| == |times| && forall i :: 0 <= i < |es| ==> OnWallClock(es[i]) && es[i].p.timeNow == times[i]
  }

  /** A calendar that always follows the wall clock is in phase with it: suite time and duration have
      moved by all the wall-clock time since the begin, and the last increment is the time since the
      update before. */
  lemma InPhaseWithWallClock(t0: int, localNow: int, es: seq<Event>, times: seq<int>)
    requires times != [] && AtTimes(es, times)
    ensures
      var c, n := Run(Begun(REAL, t0, localNow), es), |times|;
      && c.suiteTime == t0 + (times[n - 1] - localNow) && c.duration == times[n - 1] - localNow
      && c.increment == times[n - 1] - (if n == 1 then localNow else times[n - 2])
  {
    RealTimeline(t0, localNow, es);
    WallClockMoves(es, localNow, times);
    WallClockMoves(es[..|es| - 1], localNow, times[..|times| - 1]);
    hide Run;
  }

  lemma {:induction false} WallClockMoves(es: seq<Event>, localNow: int, times: seq<int>)
    requires AtTimes(es, times)
    ensures TotalMove(es, localNow) == LastWall(es, localNow) - localNow
    ensures LastWall(es, localNow) == if times == [] then localNow else times[|times| - 1]
    ensures times != [] ==> Elapsed(es, localNow) == times[|times| - 1] - localNow
    decreases |es|
  {
    if es != [] {
      WallClockMoves(es[..|es| - 1], localNow, times[..|times| - 1]);
    }
  }
}
