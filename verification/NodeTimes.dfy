/** A node with several time attributes: the decision to requeue it is taken over all of them, and
    what is then left to wait for. */
module NodeTimes {
  import opened TimeSlots
  import opened Calendars
  import opened Grids
  import opened TimeSeriesModel
  import opened TimeSeriesLaws

  /** The last minute the definition names. */
  function End(s: Series): int { if s.HasIncrement() then Finish(s) else Start(s) }

  /** The earliest start and the latest end over all attributes. */
  ghost predicate Bounds(times: seq<Series>, theMin: TimeSlot, theMax: TimeSlot) {
    && theMin.Proper() && theMax.Proper()
    && (forall s <- times :: theMin.Duration() <= Start(s) && End(s) <= theMax.Duration())
    && (exists s <- times :: Start(s) == theMin.Duration())
    && (exists s <- times :: End(s) == theMax.Duration())
  }

  ghost predicate AllInv(times: seq<Series>) { forall s <- times :: Inv(s) }

  predicate AllShaped(times: seq<Series>) { forall s <- times :: Shape(s) }

  method MinMaxTimeSlots(s: Series, theMin: TimeSlot, theMax: TimeSlot) returns (lo: TimeSlot, hi: TimeSlot)
    requires Shape(s) && (theMin.IsNull() <==> theMax.IsNull())
    requires !theMin.IsNull() ==> theMin.Proper() && theMax.Proper()
    ensures lo.Proper() && hi.Proper()
    ensures lo == if theMin.IsNull() || Start(s) < theMin.Duration() then s.start else theMin
    ensures hi.Duration() == if theMax.IsNull() || End(s) > theMax.Duration() then End(s) else theMax.Duration()
  {
    lo, hi := theMin, theMax;
    if !theMin.IsNull() {
      OrderIsByDuration(s.start, theMin);
      OrderIsByDuration(s.start, theMax);
    }
    if lo.IsNull() || s.start.Less(lo) {
      lo := s.start;
    }
    if hi.IsNull() || s.start.Greater(hi) {
      hi := s.start;
    }
    if s.HasIncrement() {
      OrderIsByDuration(s.finish, lo);
      OrderIsByDuration(s.finish, hi);
      if s.finish.Less(lo) {
        lo := s.finish;
      }
      if s.finish.Greater(hi) {
        hi := s.finish;
      }
    }
  }

  method NodeBounds(times: seq<Series>) returns (theMin: TimeSlot, theMax: TimeSlot)
    requires AllShaped(times)
    ensures times != [] ==> Bounds(times, theMin, theMax)
  {
    theMin, theMax := NULL_SLOT, NULL_SLOT;
    for i := 0 to |times|
      invariant i == 0 ==> theMin == NULL_SLOT && theMax == NULL_SLOT
      invariant i > 0 ==> Bounds(times[..i], theMin, theMax)
    {
      assert times[i] in times;
      ghost var lo, hi := theMin, theMax;
      theMin, theMax := MinMaxTimeSlots(times[i], theMin, theMax);
      BoundsGrow(times[..i], times[i], lo, hi, theMin, theMax);
      assert times[..i + 1] == times[..i] + [times[i]];
    }
    assert times[..|times|] == times;
  }

  lemma BoundsGrow(times: seq<Series>, s: Series, lo: TimeSlot, hi: TimeSlot, theMin: TimeSlot, theMax: TimeSlot)
    requires times == [] ==> lo.IsNull() && hi.IsNull()
    requires times != [] ==> Bounds(times, lo, hi)
    requires theMin.Proper() && theMax.Proper() && Start(s) <= End(s)
    requires theMin == if lo.IsNull() || Start(s) < lo.Duration() then s.start else lo
    requires theMax.Duration() == if hi.IsNull() || End(s) > hi.Duration() then End(s) else hi.Duration()
    ensures Bounds(times + [s], theMin, theMax)
  {
    var all := times + [s];
    assert s in all;
    if times != [] {
      var a :| a in times && Start(a) == lo.Duration();
      var b :| b in times && End(b) == hi.Duration();
      assert a in all && b in all;
    }
  }

  /** Some attribute asks for the node to be requeued. */
  ghost predicate Asks(times: seq<Series>, c: CalState, theMin: TimeSlot, theMax: TimeSlot, cmdContext: bool) {
    exists s <- times :: CheckForRequeue(s, c, theMin, theMax, cmdContext)
  }

  /** The attributes, some of which have been asked. */
  ghost predicate AskedSome(times: seq<Series>, after: seq<Series>, c: CalState) {
    |after| == |times| && forall i :: 0 <= i < |times| ==> after[i] == times[i] || after[i] == AfterCheck(times[i], c)
  }

  /** The first n attributes have been asked, and no others. */
  ghost predicate AskedFirst(times: seq<Series>, after: seq<Series>, n: nat, c: CalState) {
    && |after| == |times| && n <= |times|
    && forall i :: 0 <= i < |times| ==> after[i] == if i < n then AfterCheck(times[i], c) else times[i]
  }

  /** The loop over the time attributes of a completed node; it stops at the first that asks. */
  method TestForRequeue(times: seq<Series>, c: CalState, cmdContext: bool)
    returns (ask: bool, after: seq<Series>, theMin: TimeSlot, theMax: TimeSlot)
    requires AllShaped(times)
    ensures times != [] ==> Bounds(times, theMin, theMax)
    ensures ask <==> Asks(times, c, theMin, theMax, cmdContext)
    ensures AskedSome(times, after, c)
    ensures ask ==> exists n: nat ::
              && n < |times| && CheckForRequeue(times[n], c, theMin, theMax, cmdContext)
              && (forall j :: 0 <= j < n ==> !CheckForRequeue(times[j], c, theMin, theMax, cmdContext))
              && AskedFirst(times, after, n + 1, c)
    ensures !ask ==> AskedFirst(times, after, |times|, c)
  {
    after := times;
    theMin, theMax := NodeBounds(times);
    for i := 0 to |times|
      invariant AskedFirst(times, after, i, c)
      invariant forall j :: 0 <= j < i ==> !CheckForRequeue(times[j], c, theMin, theMax, cmdContext)
    {
      after := after[i := AfterCheck(times[i], c)];
      if CheckForRequeue(times[i], c, theMin, theMax, cmdContext) {
        assert times[i] in times;
        assert AskedFirst(times, after, i + 1, c);
        return true, after, theMin, theMax;
      }
    }
    return false, after, theMin, theMax;
  }

  /** A single slot asks if and only if it is valid, the attributes do not all name one and the same
      minute, some end is still to come and, outside a command, some start has been reached. */
  lemma SingleAsks(times: seq<Series>, s: Series, c: CalState, theMin: TimeSlot, theMax: TimeSlot, cmdContext: bool)
    requires Inv(s) && !s.HasIncrement() && AllInv(times) && Bounds(times, theMin, theMax)
    ensures
      CheckForRequeue(s, c, theMin, theMax, cmdContext)
      <==> && s.valid && (exists a, b :: a in times && b in times && Start(a) < End(b))
           && (exists t <- times :: Now(s, c) < End(t))
           && (cmdContext || exists t <- times :: Start(t) <= Now(s, c))
  {
    hide Inv;
    var a :| a in times && Start(a) == theMin.Duration();
    var b :| b in times && End(b) == theMax.Duration();
    OrderIsByDuration(theMin, theMax);
    assert theMin.Duration() <= Start(b) <= End(b) by { StartBeforeEnd(b); }
    assert theMin != theMax <==> theMin.Duration() < theMax.Duration();
    if exists x, y :: x in times && y in times && Start(x) < End(y) {
      var x, y :| x in times && y in times && Start(x) < End(y);
      assert theMin.Duration() <= Start(x) && End(y) <= theMax.Duration();
    }
  }

  lemma StartBeforeEnd(s: Series)
    requires Inv(s)
    ensures Start(s) <= End(s)
  {
  }

  // ----- what a requeued node waits for

  /** After a requeue the series is valid exactly when it was, or is rewound, and its last slot is
      still to come. */
  lemma RequeueValidExactly(s: Series, c: CalState, flag: bool)
    requires Inv(s)
    ensures Requeue(s, c, flag).valid <==> (flag || s.valid) && Now(s, c) < s.last
  {
    if s.HasIncrement() {
      RequeueKeepsInv(s, c, flag);
      LastIsLastSlot(s);
      var from := Rewound(s, flag).next.Duration();
      FirstAfterIsFirst(from, Step(s), Now(s, c));
      OnGridFrom(Start(s), Step(s), from, FirstAfter(from, Step(s), Now(s, c)));
      if (flag || s.valid) && Now(s, c) < s.last {
        SlotStillToCome(Start(s), Step(s), Finish(s), s.last, from, Now(s, c));
      }
    }
  }

  /** Requeued, the series waits for a slot after now and not after the limit. */
  ghost predicate Waits(s: Series, c: CalState, flag: bool, limit: int)
    requires Inv(s)
  {
    var r := Requeue(s, c, flag);
    r.valid && Now(s, c) < r.next.Duration() <= limit
  }

  predicate StillToCome(s: Series, c: CalState, flag: bool) { (flag || s.valid) && Now(s, c) < s.last }

  lemma WaitsExactly(s: Series, c: CalState, flag: bool, limit: int)
    requires Inv(s) && End(s) <= limit
    ensures Waits(s, c, flag, limit) <==> StillToCome(s, c, flag)
  {
    RequeueValidExactly(s, c, flag);
    if s.HasIncrement() {
      RequeueKeepsInv(s, c, flag);
    }
  }

  /** A node requeued on completion has an attribute left to wait for, after now and not after the
      latest end, if and only if some attribute, expired ones counting only if slots are rewound, has
      its last slot still to come. */
  lemma RequeuedNodeWaits(times: seq<Series>, after: seq<Series>, c: CalState, theMin: TimeSlot, theMax: TimeSlot,
                          flag: bool)
    requires AllInv(times) && Bounds(times, theMin, theMax) && AskedSome(times, after, c)
    ensures AllInv(after)
    ensures (exists s <- after :: Waits(s, c, flag, theMax.Duration()))
            <==> exists s <- times :: StillToCome(s, c, flag)
  {
    hide Inv, Waits, AfterCheck, StillToCome;
    forall i | 0 <= i < |times|
      ensures Inv(after[i])
      ensures Waits(after[i], c, flag, theMax.Duration()) <==> StillToCome(times[i], c, flag)
    {
      assert times[i] in times;
      CheckedWaits(times[i], after[i], c, flag, theMax.Duration());
    }
    assert AllInv(after);
    if s :| s in after && Waits(s, c, flag, theMax.Duration()) {
      var i :| 0 <= i < |after| && after[i] == s;
      assert times[i] in times;
    }
    if s :| s in times && StillToCome(s, c, flag) {
      var i :| 0 <= i < |times| && times[i] == s;
      assert after[i] in after;
    }
  }

  lemma CheckedWaits(s: Series, t: Series, c: CalState, flag: bool, limit: int)
    requires Inv(s) && End(s) <= limit && (t == s || t == AfterCheck(s, c))
    ensures Inv(t) && (Waits(t, c, flag, limit) <==> StillToCome(s, c, flag))
  {
    AfterCheckKeepsInv(s, c);
    WaitsExactly(t, c, flag, limit);
  }

  /** If the attribute that asks is a series, the node has something to wait for, rewound or not. */
  lemma AskedBySeries(times: seq<Series>, s: Series, c: CalState, theMin: TimeSlot, theMax: TimeSlot,
                      cmdContext: bool, flag: bool)
    requires s in times && s.HasIncrement() && CheckForRequeue(s, c, theMin, theMax, cmdContext)
    ensures exists t <- times :: StillToCome(t, c, flag)
  {
    assert StillToCome(s, c, flag);
  }

  /** If slots are rewound and the latest end is a slot on the clock of the one that asks, too. */
  lemma AskedAndRewound(times: seq<Series>, s: Series, last: Series, c: CalState, theMin: TimeSlot, theMax: TimeSlot,
                        cmdContext: bool)
    requires s in times && last in times && CheckForRequeue(s, c, theMin, theMax, cmdContext)
    requires last.last == theMax.Duration() && Now(last, c) == Now(s, c)
    ensures exists t <- times :: StillToCome(t, c, true)
  {
    if s.HasIncrement() {
      AskedBySeries(times, s, c, theMin, theMax, cmdContext, true);
    } else {
      assert StillToCome(last, c, true);
    }
  }

  // ----- missing a slot

  /** The first valid attribute, in the order of the list, misses its next slot. */
  function MissFirst(times: seq<Series>): seq<Series> {
    if times == [] then []
    else if times[0].valid then [Missed(times[0])] + times[1..]
    else [times[0]] + MissFirst(times[1..])
  }

  method MissNextTimeSlot(times: seq<Series>) returns (after: seq<Series>)
    ensures after == MissFirst(times)
  {
    for i := 0 to |times|
      invariant forall j :: 0 <= j < i ==> !times[j].valid
    {
      if times[i].valid {
        MissFirstAt(times, i);
        return times[i := Missed(times[i])];
      }
    }
    NoneToMiss(times);
    after := times;
  }

  /** Only the first valid attribute changes. */
  lemma {:induction false} MissFirstAt(times: seq<Series>, i: nat)
    requires i < |times| && times[i].valid && forall j :: 0 <= j < i ==> !times[j].valid
    ensures MissFirst(times) == times[i := Missed(times[i])]
  {
    hide Missed;
    if i > 0 {
      MissFirstAt(times[1..], i - 1);
      assert times[i := Missed(times[i])] == [times[0]] + times[1..][i - 1 := Missed(times[i])];
    }
  }

  lemma {:induction false} NoneToMiss(times: seq<Series>)
    requires forall j :: 0 <= j < |times| ==> !times[j].valid
    ensures MissFirst(times) == times
  {
    if times != [] {
      NoneToMiss(times[1..]);
    }
  }

  function Single(h: int): Series
    requires 0 <= h < 24
  {
    FreshSingle(TimeSlot(h, 0), false).value
  }

  /** Otherwise the node can be left in the queue: of the single slots 12:00 and 10:00, in this order, a
      command misses the first; the second asks at 10:30, and nothing is left to wait for. */
  lemma NodeCanBeStuck()
    ensures
      var times, c := MissFirst([Single(12), Single(10)]), Begun(REAL, 10 * 3600 + 1800, 0);
      && AllInv(times) && Bounds(times, TimeSlot(10, 0), TimeSlot(12, 0))
      && Asks(times, c, TimeSlot(10, 0), TimeSlot(12, 0), false)
      && !exists s <- times :: StillToCome(s, c, false)
  {
    var a, b := Missed(Single(12)), Single(10);
    var times, c := [a, b], Begun(REAL, 10 * 3600 + 1800, 0);
    assert MissFirst([Single(12), Single(10)]) == times;
    assert a in times && b in times;
    assert Now(a, c) == 630 && Now(b, c) == 630;
    assert CheckForRequeue(b, c, TimeSlot(10, 0), TimeSlot(12, 0), false);
  }
}
