/** The suite calendar.  Points in time are whole seconds, counted so that a day
    number is a Julian day number. */
module Calendars {

  const DAY := 86400

  datatype Clock = REAL | HYBRID

  /** What the server hands to one calendar update. */
  datatype UpdateParams = UpdateParams(timeNow: int, pollPeriod: int, forTest: bool)

  function DayOf(t: int): int { t / DAY }

  function TimeOfDay(t: int): (s: int)
    ensures 0 <= s < DAY
    ensures t == DayOf(t) * DAY + s
  {
    t % DAY
  }

  /** 0 is Sunday; Julian day 0 is a Monday. */
  function DayOfWeek(day: int): (w: int)
    ensures 0 <= w < 7
  {
    (day + 1) % 7
  }

  /** The whole calendar.  `cachedDay` is the date the cached day-of-week,
      day-of-year, day-of-month, month and year were taken from. */
  datatype CalState = CalState(
    clock: Clock, initTime: int, suiteTime: int, initLocalTime: int, lastTime: int,
    duration: int, increment: int, dayChanged: bool, cachedDay: int)

  function Begun(clock: Clock, theTime: int, localNow: int): CalState {
    CalState(clock, theTime, theTime, localNow, localNow, 0, 60, false, DayOf(theTime))
  }

  /** The increment an update applies: one minute when the poll period is under a
      minute, the wall-clock difference otherwise, the poll period in a test. */
  function IncrementOf(c: CalState, p: UpdateParams): int {
    if p.forTest then p.pollPeriod
    else if p.pollPeriod < 60 then 60
    else p.timeNow - c.lastTime
  }

  predicate FollowsWallClock(p: UpdateParams) { !p.forTest && p.pollPeriod >= 60 }

  function Updated(c: CalState, p: UpdateParams): CalState {
    var inc := IncrementOf(c, p);
    var moved := c.suiteTime + inc;
    var shown := if c.clock == HYBRID then DayOf(c.initTime) * DAY + TimeOfDay(moved) else moved;
    c.(duration := if FollowsWallClock(p) then p.timeNow - c.initLocalTime else c.duration + inc,
       increment := inc,
       lastTime := if FollowsWallClock(p) then p.timeNow else c.lastTime,
       suiteTime := shown,
       dayChanged := DayOfWeek(DayOf(c.suiteTime)) != DayOfWeek(DayOf(moved)),
       cachedDay := DayOf(shown))
  }

  function DurationUpdated(c: CalState, timeNow: int): CalState {
    var d := timeNow - c.initLocalTime;
    if d > c.duration then c.(duration := d) else c
  }

  lemma DayAndTime(t: int)
    ensures DayOf(t) * DAY + TimeOfDay(t) == t
  {
  }

  class Calendar {
    var ctype: Clock
    var initTime: int
    var suiteTime: int
    var initLocalTime: int
    var lastTime: int
    var duration: int
    var increment: int
    var dayChanged: bool
    var cachedDay: int

    function Value(): CalState
      reads this
    {
      CalState(ctype, initTime, suiteTime, initLocalTime, lastTime, duration, increment, dayChanged, cachedDay)
    }

    constructor (clock: Clock, theTime: int, localNow: int)
      ensures Value() == Begun(clock, theTime, localNow)
    {
      ctype := clock;
      new;
      Begin(theTime, localNow);
    }

    method Begin(theTime: int, localNow: int)
      modifies this
      ensures Value() == Begun(old(ctype), theTime, localNow)
    {
      duration := 0;
      increment := 60;
      suiteTime := theTime;
      initTime := theTime;
      dayChanged := false;
      initLocalTime := localNow;
      lastTime := initLocalTime;
      UpdateCache();
    }

    method Update(p: UpdateParams)
      modifies this
      ensures Value() == Updated(old(Value()), p)
    {
      hide DayOfWeek, DayOf, TimeOfDay;
      var theDayOfWeek := DayOfWeek(DayOf(suiteTime));
      if !p.forTest {
        if p.pollPeriod < 60 {
          duration := duration + 60;
          suiteTime := suiteTime + 60;
          increment := 60;
        } else {
          duration := p.timeNow - initLocalTime;
          increment := p.timeNow - lastTime;
          suiteTime := suiteTime + increment;
          lastTime := p.timeNow;
        }
      } else {
        duration := duration + p.pollPeriod;
        suiteTime := suiteTime + p.pollPeriod;
        increment := p.pollPeriod;
      }

      // Must come before the hybrid date is restored.
      var newDayOfWeek := DayOfWeek(DayOf(suiteTime));
      dayChanged := theDayOfWeek != newDayOfWeek;

      DayAndTime(suiteTime);
      if ctype == HYBRID {
        if DayOf(suiteTime) != DayOf(initTime) {
          var td := TimeOfDay(suiteTime);
          suiteTime := DayOf(initTime) * DAY + td;
        }
      }
      UpdateCache();
    }

    method UpdateDurationOnly(timeNow: int)
      modifies this
      ensures Value() == DurationUpdated(old(Value()), timeNow)
    {
      var dur := timeNow - initLocalTime;
      if dur > duration {
        duration := dur;
      }
    }

    method UpdateCache()
      modifies this`cachedDay
      ensures cachedDay == DayOf(suiteTime)
    {
      cachedDay := DayOf(suiteTime);
    }
  }

  // ----- runs

  datatype Event = Tick(p: UpdateParams) | DurationOnly(timeNow: int)

  function After(c: CalState, e: Event): CalState {
    match e
    case Tick(p) => Updated(c, p)
    case DurationOnly(t) => DurationUpdated(c, t)
  }

  function Run(c: CalState, es: seq<Event>): CalState
    decreases |es|
  {
    if es == [] then c else After(Run(c, es[..|es| - 1]), es[|es| - 1])
  }

  /** What the two clocks share: everything but the date. */
  ghost predicate SameClockFace(r: CalState, h: CalState) {
    && TimeOfDay(r.suiteTime) == TimeOfDay(h.suiteTime)
    && r.initTime == h.initTime
    && r.initLocalTime == h.initLocalTime
    && r.lastTime == h.lastTime
    && r.duration == h.duration
    && r.increment == h.increment
    && r.dayChanged == h.dayChanged
  }

  /** Shifting both ends of a move by whole days changes neither the time of day
      reached nor whether the weekday changed. */
  lemma ShiftByDays(t: int, k: int, inc: int)
    ensures TimeOfDay(t + k * DAY + inc) == TimeOfDay(t + inc)
    ensures DayOf(t + k * DAY + inc) == DayOf(t + inc) + k
  {
  }

  lemma StepKeepsClockFace(r: CalState, h: CalState, e: Event)
    requires r.clock == REAL && h.clock == HYBRID && SameClockFace(r, h)
    requires DayOf(h.suiteTime) == DayOf(h.initTime)
    ensures After(r, e).clock == REAL && After(h, e).clock == HYBRID
    ensures SameClockFace(After(r, e), After(h, e))
    ensures DayOf(After(h, e).suiteTime) == DayOf(After(h, e).initTime)
  {
    if e.Tick? {
      SameMove(r.suiteTime, h.suiteTime, IncrementOf(r, e.p));
    }
  }

  lemma SameMove(t: int, u: int, inc: int)
    requires TimeOfDay(t) == TimeOfDay(u)
    ensures TimeOfDay(t + inc) == TimeOfDay(u + inc)
    ensures DayOfWeek(DayOf(t)) != DayOfWeek(DayOf(t + inc)) <==> DayOfWeek(DayOf(u)) != DayOfWeek(DayOf(u + inc))
  {
    var k := DayOf(t) - DayOf(u);
    assert t == u + k * DAY;
    ShiftByDays(u, k, inc);
    var n := DayOf(u + inc) - DayOf(u);
    SevenDayCycle(DayOf(u) + 1, n);
    SevenDayCycle(DayOf(t) + 1, n);
  }

  /** A HYBRID calendar simulates the REAL one modulo one day, over every run. */
  lemma {:induction false} HybridSimulatesReal(t0: int, localNow: int, es: seq<Event>)
    ensures
      var r := Run(Begun(REAL, t0, localNow), es);
      var h := Run(Begun(HYBRID, t0, localNow), es);
      && r.clock == REAL && h.clock == HYBRID && SameClockFace(r, h)
      && h.initTime == t0 && DayOf(h.suiteTime) == DayOf(t0)
    decreases |es|
  {
    if es != [] {
      var front := es[..|es| - 1];
      HybridSimulatesReal(t0, localNow, front);
      StepKeepsClockFace(Run(Begun(REAL, t0, localNow), front), Run(Begun(HYBRID, t0, localNow), front), es[|es| - 1]);
      StepKeepsInit(Run(Begun(HYBRID, t0, localNow), front), es[|es| - 1]);
    }
  }

  lemma StepKeepsInit(c: CalState, e: Event)
    ensures After(c, e).initTime == c.initTime && After(c, e).initLocalTime == c.initLocalTime
    ensures After(c, e).clock == c.clock
  {
  }

  ghost predicate CacheFresh(c: CalState) { c.cachedDay == DayOf(c.suiteTime) }

  /** The cached date never lags behind the shown date, on either clock. */
  lemma {:induction false} CacheStaysFresh(clock: Clock, t0: int, localNow: int, es: seq<Event>)
    ensures CacheFresh(Run(Begun(clock, t0, localNow), es))
    decreases |es|
  {
    if es != [] {
      CacheStaysFresh(clock, t0, localNow, es[..|es| - 1]);
    }
  }

  // ----- the day-changed flag

  /** How many midnights lie between a time of day and `inc` seconds later. */
  function MidnightsCrossed(timeOfDay: int, inc: int): int { (timeOfDay + inc) / DAY }

  /** The weekday comparison cannot see a whole number of weeks. */
  predicate WholeWeeksHidden(timeOfDay: int, inc: int) {
    var n := MidnightsCrossed(timeOfDay, inc);
    n != 0 && n % 7 == 0
  }

  /** The flag tells whether midnight was crossed exactly when the number of midnights
      is not a positive multiple of seven. */
  lemma DayChangedIsExact(c: CalState, p: UpdateParams)
    ensures
      var tod, inc := TimeOfDay(c.suiteTime), IncrementOf(c, p);
      (Updated(c, p).dayChanged <==> MidnightsCrossed(tod, inc) != 0) <==> !WholeWeeksHidden(tod, inc)
  {
    var tod, inc := TimeOfDay(c.suiteTime), IncrementOf(c, p);
    var d := DayOf(c.suiteTime);
    ShiftByDays(tod, d, inc);
    var n := MidnightsCrossed(tod, inc);
    assert DayOf(c.suiteTime + inc) == d + n;
    SevenDayCycle(d + 1, n);
  }

  lemma SevenDayCycle(a: int, n: int)
    ensures (a + n) % 7 == a % 7 <==> n % 7 == 0
  {
  }

  /** For increments up to a week that means: the move stays within seven days of
      the midnight before it. */
  lemma WithinAWeek(timeOfDay: int, inc: int)
    requires 0 <= timeOfDay < DAY && 0 <= inc <= 7 * DAY
    ensures !WholeWeeksHidden(timeOfDay, inc) <==> timeOfDay + inc < 7 * DAY
  {
  }

  /** An increment under seven days can go unnoticed: from 23:30, 6 days and 23 hours later. */
  lemma UnderSevenDaysIsNotEnough()
    ensures
      var c := Begun(REAL, 23 * 3600 + 1800, 0);
      var p := UpdateParams(0, 6 * DAY + 23 * 3600, true);
      && IncrementOf(c, p) < 7 * DAY
      && MidnightsCrossed(TimeOfDay(c.suiteTime), IncrementOf(c, p)) == 7
      && !Updated(c, p).dayChanged
  {
  }

  /** On a clock that only moves forward, an update that shows no day change and hides
      no week moved forward inside the same day. */
  lemma SameDayMovesForward(c: CalState, p: UpdateParams)
    requires 0 <= IncrementOf(c, p) && !WholeWeeksHidden(TimeOfDay(c.suiteTime), IncrementOf(c, p))
    requires !Updated(c, p).dayChanged
    ensures TimeOfDay(Updated(c, p).suiteTime) == TimeOfDay(c.suiteTime) + IncrementOf(c, p)
  {
    var tod, inc := TimeOfDay(c.suiteTime), IncrementOf(c, p);
    DayChangedIsExact(c, p);
    ShiftByDays(tod, DayOf(c.suiteTime), inc);
    assert MidnightsCrossed(tod, inc) == 0;
  }
}
