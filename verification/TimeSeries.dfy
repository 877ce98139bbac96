/** A single time slot, or a series of slots start, start+incr, ... up to finish.
    The class keeps the program's loops and assignments; each method is proved against
    a function on the value `Series`, about which the laws are proved. */
module TimeSeriesModel {
  import opened TimeSlots
  import opened Calendars
  import opened Grids

  datatype Series = Series(
    start: TimeSlot, finish: TimeSlot, incr: TimeSlot, relative: bool,
    next: TimeSlot, valid: bool, relDuration: int, atRequeue: TimeSlot, last: int)
  {
    predicate HasIncrement() { !finish.IsNull() }
  }

  datatype Error = HourOutOfRange | MinuteOutOfRange | StartAfterFinish | ZeroIncrement | IncrementTooLarge

  datatype Result<+T> = Ok(value: T) | Err(error: Error)

  // ----- construction

  function TestTimeSlot(t: TimeSlot): (e: Result<bool>)
    ensures e.Ok? <==> t.InDay()
  {
    if t.h < 0 || t.h > 23 then Err(HourOutOfRange)
    else if t.m < 0 || t.m > 59 then Err(MinuteOutOfRange)
    else Ok(true)
  }

  /** What the constructor demands of the three slots of a series. */
  predicate SeriesSlots(start: TimeSlot, finish: TimeSlot, incr: TimeSlot) {
    && start.InDay() && finish.InDay() && incr.InDay()
    && 0 < incr.Duration() && start.Duration() + incr.Duration() <= finish.Duration()
  }

  function CheckSlots(start: TimeSlot, finish: TimeSlot, incr: TimeSlot): (e: Result<bool>)
    ensures e.Ok? <==> SeriesSlots(start, finish, incr)
  {
    if TestTimeSlot(start).Err? then TestTimeSlot(start)
    else if TestTimeSlot(finish).Err? then TestTimeSlot(finish)
    else if TestTimeSlot(incr).Err? then TestTimeSlot(incr)
    else if start.Duration() > finish.Duration() then Err(StartAfterFinish)
    else if incr.h == 0 && incr.m == 0 then Err(ZeroIncrement)
    else if incr.Duration() > finish.Duration() - start.Duration() then Err(IncrementTooLarge)
    else Ok(true)
  }

  /** The last slot: one increment before the first slot after finish. */
  function LastSlot(start: TimeSlot, finish: TimeSlot, incr: TimeSlot): int
    requires 0 < incr.Duration()
  {
    FirstAfter(start.Duration(), incr.Duration(), finish.Duration()) - incr.Duration()
  }

  function FreshSingle(t: TimeSlot, relative: bool): Result<Series> {
    match TestTimeSlot(t)
    case Err(e) => Err(e)
    case Ok(_) => Ok(Series(t, NULL_SLOT, NULL_SLOT, relative, t, true, 0, NULL_SLOT, t.Duration()))
  }

  function FreshSeries(start: TimeSlot, finish: TimeSlot, incr: TimeSlot, relative: bool): Result<Series> {
    match CheckSlots(start, finish, incr)
    case Err(e) => Err(e)
    case Ok(_) => Ok(Series(start, finish, incr, relative, start, true, 0, NULL_SLOT, LastSlot(start, finish, incr)))
  }

  // ----- the state invariant

  predicate Shape(s: Series) {
    && s.start.InDay()
    && (if s.HasIncrement()
        then SeriesSlots(s.start, s.finish, s.incr) && s.last == LastSlot(s.start, s.finish, s.incr)
        else s.incr.IsNull() && s.last == s.start.Duration())
    && (s.atRequeue.IsNull() || s.atRequeue.InDay())
    && (!s.relative ==> s.relDuration == 0)
  }

  /** Between operations: the next slot of a series is on its grid, and the series is
      valid exactly while that slot is not past finish; a single slot is always next. */
  ghost predicate Inv(s: Series) {
    && Shape(s)
    && s.next.Proper()
    && (if s.HasIncrement()
        then && OnGrid(s.start.Duration(), s.incr.Duration(), s.next.Duration())
             && (s.valid <==> s.next.Duration() <= s.finish.Duration())
        else s.next == s.start)
  }

  // ----- the operations on values

  /** Minutes of a duration in seconds, rounded towards zero. */
  function WholeMinutes(seconds: int): int {
    if seconds >= 0 then seconds / 60 else -((-seconds) / 60)
  }

  /** The series' clock, in minutes: time since the relative reset, or time of day. */
  function Now(s: Series, c: CalState): int {
    if s.relative then WholeMinutes(s.relDuration) else TimeOfDay(c.suiteTime) / 60
  }

  function SuiteSlot(c: CalState): (t: TimeSlot)
    ensures t.InDay()
  {
    SlotOf(TimeOfDay(c.suiteTime) / 60)
  }

  function CalendarChanged(s: Series, c: CalState): Series {
    if s.relative then s.(relDuration := s.relDuration + c.increment)
    else if c.dayChanged then s.(valid := true, next := s.start)
    else s
  }

  function RelativeReset(s: Series): Series {
    if s.relative then s.(relDuration := 0) else s
  }

  function ResetOnly(s: Series): Series {
    RelativeReset(s.(valid := true, next := s.start))
  }

  /** Slots in range and a positive increment: what the advancing loops rely on. */
  predicate CanAdvance(s: Series) {
    s.next.Proper() && s.incr.Proper() && 0 < s.incr.Duration()
  }

  function NextSlot(s: Series, now: int): TimeSlot
    requires CanAdvance(s)
  {
    SlotOf(FirstAfter(s.next.Duration(), s.incr.Duration(), now))
  }

  /** A valid series moved to its first slot after `now`, expired if that is past finish. */
  function Advanced(s: Series, now: int, at: TimeSlot): Series
    requires CanAdvance(s)
  {
    var n := NextSlot(s, now);
    s.(next := n, valid := !n.Greater(s.finish), atRequeue := at)
  }

  function Reset(s: Series, c: CalState): Series
    requires Shape(s)
  {
    var r := ResetOnly(s);
    ResetAt(r, Now(r, c), if r.relative then r.atRequeue else SuiteSlot(c))
  }

  function ResetAt(r: Series, now: int, at: TimeSlot): Series
    requires Shape(r) && r.next.Proper()
  {
    if r.HasIncrement() then Advanced(r, now - 1, at) else r.(valid := now <= r.start.Duration())
  }

  function Requeue(s: Series, c: CalState, resetNext: bool): Series
    requires Shape(s) && s.next.Proper()
  {
    var r := if resetNext then s.(valid := true, next := s.start) else s;
    var now := Now(r, c);
    if !r.HasIncrement() then
      if now >= r.start.Duration() then r.(valid := false) else r
    else
      var n := NextSlot(r, now);
      if n.Greater(r.finish) then r.(next := n, valid := false, atRequeue := NULL_SLOT)
      else r.(next := n, atRequeue := if r.relative then r.atRequeue else SuiteSlot(c))
  }

  function ComputeNext(s: Series, c: CalState): TimeSlot
    requires Shape(s)
  {
    var now := Now(s, c);
    if !s.HasIncrement() then
      if now >= s.start.Duration() then NULL_SLOT else s.start
    else
      var n := NextSlot(s.(next := s.start), now);
      if n.Greater(s.finish) then NULL_SLOT else n
  }

  predicate Requeueable(s: Series, c: CalState) {
    || Now(s, c) < s.start.Duration()
    || (s.HasIncrement() && Now(s, c) < s.finish.Duration())
  }

  /** Free: not expired, and this minute is the single slot, or the next slot or one
      of those following it up to finish. */
  ghost predicate IsFree(s: Series, c: CalState) {
    && s.valid
    && if s.HasIncrement()
       then OnGrid(s.next.Duration(), s.incr.Duration(), Now(s, c)) && Now(s, c) <= s.finish.Duration()
       else Now(s, c) == s.start.Duration()
  }

  function Missed(s: Series): Series {
    if !s.HasIncrement() then s.(valid := false)
    else
      var v := s.next.Duration() + s.incr.Duration();
      var n := TimeSlot(v / 60, v % 60);
      s.(next := n, valid := s.valid && !n.Greater(s.finish))
  }

  /** The job ran past midnight: the time of day is before that of the last requeue. */
  predicate RanPastMidnight(s: Series, c: CalState) {
    !s.relative && !s.atRequeue.IsNull() && !SuiteSlot(c).GreaterEq(s.atRequeue)
  }

  predicate CheckForRequeue(s: Series, c: CalState, theMin: TimeSlot, theMax: TimeSlot, cmdContext: bool) {
    var now := Now(s, c);
    && s.valid
    && if s.HasIncrement() then
         && !s.next.Greater(s.finish)
         && !RanPastMidnight(s, c)
         && (cmdContext || s.start.Duration() <= now)
         && now < s.last
       else
         && theMin != theMax
         && (cmdContext || theMin.Duration() <= now)
         && now < theMax.Duration()
  }

  /** Asking forgets the time of the last requeue, unless that time decided the answer. */
  function AfterCheck(s: Series, c: CalState): Series {
    if s.valid && s.HasIncrement() && !s.next.Greater(s.finish) && !s.relative && !RanPastMidnight(s, c)
    then s.(atRequeue := NULL_SLOT) else s
  }

  // ----- the class

  class TimeSeries {
    const start: TimeSlot
    const finish: TimeSlot
    const incr: TimeSlot
    const relativeToSuiteStart: bool
    var nextTimeSlot: TimeSlot
    var suiteTimeAtRequeue: TimeSlot
    var relativeDuration: int
    var lastTimeSlot: int
    var isValid: bool

    function Value(): Series
      reads this
    {
      Series(start, finish, incr, relativeToSuiteStart, nextTimeSlot, isValid,
             relativeDuration, suiteTimeAtRequeue, lastTimeSlot)
    }

    predicate HasIncrement() { !finish.IsNull() }

    constructor Blank(start: TimeSlot, finish: TimeSlot, incr: TimeSlot, relative: bool)
      ensures Value() == Series(start, finish, incr, relative, start, true, 0, NULL_SLOT, start.Duration())
    {
      this.start, this.finish, this.incr := start, finish, incr;
      relativeToSuiteStart := relative;
      nextTimeSlot := start;
      suiteTimeAtRequeue := NULL_SLOT;
      relativeDuration := 0;
      lastTimeSlot := start.Duration();
      isValid := true;
    }

    static method CreateSingle(t: TimeSlot, relative: bool) returns (r: Result<TimeSeries>)
      ensures r.Ok? ==> fresh(r.value) && FreshSingle(t, relative) == Ok(r.value.Value()) && Inv(r.value.Value())
      ensures r.Err? ==> FreshSingle(t, relative) == Err(r.error)
    {
      var test := TestTimeSlot(t);
      if test.Err? {
        return Err(test.error);
      }
      var ts := new TimeSeries.Blank(t, NULL_SLOT, NULL_SLOT, relative);
      return Ok(ts);
    }

    static method CreateSeries(start: TimeSlot, finish: TimeSlot, incr: TimeSlot, relative: bool)
      returns (r: Result<TimeSeries>)
      ensures r.Ok? ==> fresh(r.value) && Inv(r.value.Value())
      ensures r.Ok? ==> FreshSeries(start, finish, incr, relative) == Ok(r.value.Value())
      ensures r.Err? ==> FreshSeries(start, finish, incr, relative) == Err(r.error)
    {
      var test := CheckSlots(start, finish, incr);
      if test.Err? {
        return Err(test.error);
      }
      var ts := new TimeSeries.Blank(start, finish, incr, relative);
      ts.ComputeLastTimeSlot();
      return Ok(ts);
    }

    method ComputeLastTimeSlot()
      requires HasIncrement() ==> SeriesSlots(start, finish, incr)
      modifies this`lastTimeSlot
      ensures HasIncrement() ==> lastTimeSlot == LastSlot(start, finish, incr)
      ensures !HasIncrement() ==> lastTimeSlot == old(lastTimeSlot)
    {
      if HasIncrement() {
        ghost var step, end := incr.Duration(), finish.Duration();
        ghost var first := FirstAfter(start.Duration(), step, end);
        hide FirstAfter, SeriesSlots;
        lastTimeSlot := start.Duration();
        while lastTimeSlot <= finish.Duration()
          invariant FirstAfter(lastTimeSlot, step, end) == first
          decreases end - lastTimeSlot
        {
          FirstAfterStep(lastTimeSlot, step, end);
          lastTimeSlot := lastTimeSlot + incr.Duration();
        }
        FirstAfterStep(lastTimeSlot, step, end);
        lastTimeSlot := lastTimeSlot - incr.Duration();
      }
    }

    method Duration(c: Calendar) returns (d: int)
      ensures d == Now(Value(), c.Value())
    {
      if relativeToSuiteStart {
        d := WholeMinutes(relativeDuration);
      } else {
        var timeOfDay := TimeOfDay(c.suiteTime);
        d := 60 * (timeOfDay / 3600) + timeOfDay / 60 % 60;
      }
    }

    method CalendarChange(c: Calendar) returns (changed: bool)
      modifies this
      ensures Value() == CalendarChanged(old(Value()), c.Value())
      ensures changed == (relativeToSuiteStart || c.dayChanged)
    {
      if relativeToSuiteStart {
        relativeDuration := relativeDuration + c.increment;
        return true;
      } else if c.dayChanged {
        isValid := true;
        nextTimeSlot := start;
        return true;
      }
      return false;
    }

    method ResetRelativeDuration() returns (changed: bool)
      modifies this
      ensures Value() == RelativeReset(old(Value())) && changed == relativeToSuiteStart
    {
      if relativeToSuiteStart {
        relativeDuration := 0;
        return true;
      }
      return false;
    }

    method DoResetOnly()
      modifies this
      ensures Value() == ResetOnly(old(Value()))
    {
      isValid := true;
      nextTimeSlot := start;
      var _ := ResetRelativeDuration();
    }

    /** The loops of reset and requeue: advance by one increment at a time. */
    method AdvancePast(now: int)
      requires CanAdvance(Value())
      modifies this`nextTimeSlot
      ensures nextTimeSlot == NextSlot(old(Value()), now)
    {
      hide FirstAfter;
      ghost var goal := FirstAfter(nextTimeSlot.Duration(), incr.Duration(), now);
      while now >= nextTimeSlot.Duration()
        invariant nextTimeSlot.Proper()
        invariant FirstAfter(nextTimeSlot.Duration(), incr.Duration(), now) == goal
        decreases now - nextTimeSlot.Duration()
      {
        FirstAfterStep(nextTimeSlot.Duration(), incr.Duration(), now);
        var value := nextTimeSlot.Duration();
        value := value + incr.Duration();
        nextTimeSlot := TimeSlot(value / 60, value % 60);
        assert nextTimeSlot.Duration() == value;
      }
      FirstAfterStep(nextTimeSlot.Duration(), incr.Duration(), now);
    }

    /** Moves to the first slot after `now`, and expires if that is past finish. */
    method AdvanceOrExpire(now: int)
      requires CanAdvance(Value()) && isValid
      modifies this`nextTimeSlot, this`isValid
      ensures Value() == Advanced(old(Value()), now, suiteTimeAtRequeue)
    {
      hide SlotOf, FirstAfter;
      AdvancePast(now);
      if nextTimeSlot.Greater(finish) {
        isValid := false;
      }
    }

    method DoReset(c: Calendar)
      requires Shape(Value())
      modifies this
      ensures Value() == Reset(old(Value()), c.Value())
    {
      hide SuiteSlot, Now, ResetAt;
      DoResetOnly();
      var currentTime := Duration(c);
      StartAt(currentTime, SuiteSlot(c.Value()));
    }

    /** The part of a reset after the current time is known. */
    method StartAt(currentTime: int, suiteTime: TimeSlot)
      requires Shape(Value()) && nextTimeSlot.Proper() && isValid
      modifies this
      ensures Value() == ResetAt(old(Value()), currentTime,
                                 if relativeToSuiteStart then old(suiteTimeAtRequeue) else suiteTime)
    {
      if HasIncrement() {
        if !relativeToSuiteStart {
          suiteTimeAtRequeue := suiteTime;
        }
        AdvanceOrExpire(currentTime - 1);
      } else {
        if currentTime > start.Duration() {
          isValid := false;
        }
      }
    }

    method DoRequeue(c: Calendar, resetNextTimeSlot: bool)
      requires Shape(Value()) && nextTimeSlot.Proper()
      modifies this
      ensures Value() == Requeue(old(Value()), c.Value(), resetNextTimeSlot)
    {
      if resetNextTimeSlot {
        isValid := true;
        nextTimeSlot := start;
      }
      var currentTime := Duration(c);
      if !HasIncrement() {
        if currentTime >= start.Duration() {
          isValid := false;
        }
        return;
      }
      if !relativeToSuiteStart {
        suiteTimeAtRequeue := SuiteSlot(c.Value());
      }
      AdvancePast(currentTime);
      if nextTimeSlot.Greater(finish) {
        isValid := false;
        suiteTimeAtRequeue := NULL_SLOT;
      }
    }

    method ComputeNextTimeSlot(c: Calendar) returns (t: TimeSlot)
      requires Shape(Value())
      ensures t == ComputeNext(Value(), c.Value())
    {
      var currentTime := Duration(c);
      if !HasIncrement() {
        if currentTime >= start.Duration() {
          return NULL_SLOT;
        }
        return start;
      }
      hide FirstAfter, SlotOf;
      var slot := start;
      ghost var step := incr.Duration();
      ghost var first := FirstAfter(start.Duration(), step, currentTime);
      while currentTime >= slot.Duration()
        invariant slot.Proper() && FirstAfter(slot.Duration(), step, currentTime) == first
        decreases currentTime - slot.Duration()
      {
        FirstAfterStep(slot.Duration(), step, currentTime);
        var value := slot.Duration();
        value := value + incr.Duration();
        slot := TimeSlot(value / 60, value % 60);
        assert slot.Duration() == value;
      }
      FirstAfterStep(slot.Duration(), step, currentTime);
      OrderIsByDuration(slot, SlotOf(first));
      if slot.Greater(finish) {
        return NULL_SLOT;
      }
      return slot;
    }

    method Free(c: Calendar) returns (free: bool)
      requires Shape(Value()) && nextTimeSlot.Proper()
      ensures free <==> IsFree(Value(), c.Value())
    {
      if !isValid {
        return false;
      }
      var d := Duration(c);
      free := MatchDurationWithTimeSeries(d);
    }

    method MatchDurationWithTimeSeries(d: int) returns (free: bool)
      requires Shape(Value()) && nextTimeSlot.Proper()
      ensures HasIncrement() ==>
        (free <==> OnGrid(nextTimeSlot.Duration(), incr.Duration(), d) && d <= finish.Duration())
      ensures !HasIncrement() ==> (free <==> d == start.Duration())
    {
      if !HasIncrement() {
        return SameHoursAndMinutes(d, start.Duration());
      }
      var slot := nextTimeSlot.Duration();
      while slot <= finish.Duration()
        invariant nextTimeSlot.Duration() <= slot
        invariant OnGrid(nextTimeSlot.Duration(), incr.Duration(), slot)
        invariant forall x :: OnGrid(nextTimeSlot.Duration(), incr.Duration(), x) && x < slot ==> x != d
        decreases finish.Duration() - slot
      {
        if SameHoursAndMinutes(d, slot) {
          return true;
        }
        GridBelow(nextTimeSlot.Duration(), incr.Duration(), slot);
        slot := slot + incr.Duration();
      }
      return false;
    }

    method MissNextTimeSlot()
      requires Shape(Value()) && nextTimeSlot.Proper()
      modifies this
      ensures Value() == Missed(old(Value()))
    {
      hide Shape;
      if !HasIncrement() {
        isValid := false;
      } else {
        hide TimeSlot.Greater;
        var value := nextTimeSlot.Duration();
        value := value + incr.Duration();
        nextTimeSlot := TimeSlot(value / 60, value % 60);
        if nextTimeSlot.Greater(finish) {
          isValid := false;
        }
      }
    }

    /** Not a pure query: it clears the remembered requeue time. */
    method CheckRequeue(c: Calendar, theMin: TimeSlot, theMax: TimeSlot, cmdContext: bool) returns (again: bool)
      modifies this`suiteTimeAtRequeue
      ensures again == CheckForRequeue(old(Value()), c.Value(), theMin, theMax, cmdContext)
      ensures Value() == AfterCheck(old(Value()), c.Value())
    {
      if !isValid {
        return false;
      }
      var calendarDuration := Duration(c);
      if HasIncrement() {
        if nextTimeSlot.Greater(finish) {
          return false;
        }
        if !relativeToSuiteStart && !suiteTimeAtRequeue.IsNull() {
          var suiteTimeNow := SuiteSlot(c.Value());
          if suiteTimeNow.GreaterEq(suiteTimeAtRequeue) {
            suiteTimeAtRequeue := NULL_SLOT;
          } else {
            return false;
          }
        }
        if cmdContext {
          return calendarDuration < lastTimeSlot;
        }
        return calendarDuration >= start.Duration() && calendarDuration < lastTimeSlot;
      }
      if theMin == theMax {
        return false;
      }
      if cmdContext {
        return calendarDuration < theMax.Duration();
      }
      return calendarDuration >= theMin.Duration() && calendarDuration < theMax.Duration();
    }

    /** The slots shown to users: grid points before finish, then finish itself. */
    method FreeSlots() returns (slots: seq<int>)
      requires Shape(Value())
      ensures !HasIncrement() ==> slots == [start.Duration()]
      ensures HasIncrement() ==>
        forall x :: x in slots <==>
          x == finish.Duration() || (x < finish.Duration() && OnGrid(start.Duration(), incr.Duration(), x))
      ensures HasIncrement() ==> forall i, j :: 0 <= i < j < |slots| ==> slots[i] < slots[j]
    {
      if HasIncrement() {
        slots := GridBefore(start.Duration(), incr.Duration(), finish.Duration());
        assert forall a :: 0 <= a < |slots| ==> slots[a] in slots;
        return slots + [finish.Duration()];
      }
      return [start.Duration()];
    }
  }

  /** The loop of free_slots: the grid points before `end`, in order. */
  method GridBefore(start: int, incr: int, end: int) returns (slots: seq<int>)
    requires incr > 0
    ensures forall x :: x in slots <==> OnGrid(start, incr, x) && x < end
    ensures forall a, b :: 0 <= a < b < |slots| ==> slots[a] < slots[b]
  {
    slots := [];
    var i := start;
    while i < end
      invariant OnGrid(start, incr, i)
      invariant forall x :: x in slots <==> OnGrid(start, incr, x) && x < i
      invariant forall a :: 0 <= a < |slots| ==> slots[a] < i
      invariant forall x :: x in slots ==> x < end
      invariant forall a, b :: 0 <= a < b < |slots| ==> slots[a] < slots[b]
      decreases end - i
    {
      GridBelow(start, incr, i);
      slots := slots + [i];
      i := i + incr;
    }
  }

  /** Comparing hours and minutes one by one, as the program does. */
  predicate SameHoursAndMinutes(d: int, slot: int) {
    WholeHours(d) == WholeHours(slot) && d - 60 * WholeHours(d) == slot - 60 * WholeHours(slot)
  }

  function WholeHours(minutes: int): int {
    if minutes >= 0 then minutes / 60 else -((-minutes) / 60)
  }
}
