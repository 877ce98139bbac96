/** A node with several time attributes on one clock, over whole runs: the minutes for which it is
    submitted.  The attributes are alternatives: one free attribute is enough. */
module NodeRuns {
  import opened TimeSlots
  import opened Calendars
  import opened TimeSeriesModel
  import opened TimeSeriesLaws
  import opened Scheduler

  datatype NodeAttr = NodeAttr(free: bool, due: Due, ts: Series)

  datatype Node = Node(cal: CalState, attrs: seq<NodeAttr>, queued: bool, period: nat, used: seq<Use>)

  /** `i` is the attribute that lets the node be submitted, is missed, or is freed by force; `asked` tells
      which attributes were asked on completion. */
  datatype NodeAction =
    | TickNode(p: UpdateParams)
    | SubmitFor(i: nat)
    | CompleteNode(theMin: TimeSlot, theMax: TimeSlot, cmdContext: bool, asked: seq<bool>, resetNext: bool)
    | RequeueAll(resetNext: bool, resetRelative: bool)
    | MissOne(i: nat)
    | FreeOne(i: nat)
    | BeginNode(theTime: int, localNow: int)

  /** All attributes tell the same time. */
  ghost predicate OneClock(attrs: seq<NodeAttr>) {
    attrs != [] &&
    forall i :: 0 <= i < |attrs| ==>
      attrs[i].ts.relative == attrs[0].ts.relative && attrs[i].ts.relDuration == attrs[0].ts.relDuration
  }

  ghost predicate AllInv(attrs: seq<NodeAttr>) { forall i :: 0 <= i < |attrs| ==> Inv(attrs[i].ts) }

  function Clock(n: Node): int
    requires n.attrs != []
  {
    Now(n.attrs[0].ts, n.cal)
  }

  function Relative(n: Node): bool
    requires n.attrs != []
  {
    n.attrs[0].ts.relative
  }

  // ----- the steps

  ghost function TickedAttr(x: NodeAttr, c: CalState, period: nat): NodeAttr {
    var ts := CalendarChanged(x.ts, c);
    if !x.free && IsFree(ts, c) then NodeAttr(true, Slot(Use(period, Now(ts, c))), ts) else x.(ts := ts)
  }

  function RequeuedAttr(ts: Series, c: CalState, resetNext: bool): NodeAttr
    requires Shape(ts) && ts.next.Proper()
  {
    NodeAttr(false, Nothing, Requeue(ts, c, resetNext))
  }

  /** All attributes are requeued, starting from these series, and the node is queued. */
  ghost predicate AllRequeued(n: Node, base: seq<Series>, resetNext: bool, n': Node) {
    && |base| == |n.attrs| == |n'.attrs| && n'.cal == n.cal && n'.queued && n'.used == n.used
    && forall i :: 0 <= i < |base| ==>
         Inv(base[i]) && n'.attrs[i] == RequeuedAttr(base[i], n.cal, resetNext)
  }

  /** The series after some of them have been asked. */
  ghost predicate Asked(n: Node, a: NodeAction, base: seq<Series>)
    requires a.CompleteNode?
  {
    && |a.asked| == |base| == |n.attrs|
    && forall i :: 0 <= i < |base| ==>
         base[i] == if a.asked[i] then AfterCheck(n.attrs[i].ts, n.cal) else n.attrs[i].ts
  }

  ghost predicate SomeAsks(n: Node, a: NodeAction)
    requires a.CompleteNode?
  {
    exists i :: 0 <= i < |n.attrs| && CheckForRequeue(n.attrs[i].ts, n.cal, a.theMin, a.theMax, a.cmdContext)
  }

  ghost predicate Completed(n: Node, a: NodeAction, n': Node)
    requires a.CompleteNode?
  {
    exists base: seq<Series> :: Asked(n, a, base) &&
      if SomeAsks(n, a) then AllRequeued(n, base, a.resetNext, n') && n'.period == n.period
      else && |n'.attrs| == |n.attrs| && n' == n.(attrs := n'.attrs, queued := false)
           && forall i :: 0 <= i < |base| ==> n'.attrs[i] == n.attrs[i].(ts := base[i])
  }

  ghost predicate RequeuedByCommand(n: Node, a: NodeAction, n': Node)
    requires a.RequeueAll? && n.attrs != []
  {
    exists base: seq<Series> ::
      && AllRequeued(n, base, a.resetNext, n')
      && (forall i :: 0 <= i < |base| ==>
            base[i] == if a.resetRelative then RelativeReset(n.attrs[i].ts) else n.attrs[i].ts)
      && n'.period == if a.resetRelative && Relative(n) then n.period + 1 else n.period
  }

  ghost predicate NodeStep(n: Node, a: NodeAction, n': Node)
    requires n.attrs != [] && AllInv(n.attrs)
  {
    match a
    case TickNode(p) =>
      var c := Updated(n.cal, p);
      && n' == n.(cal := c, attrs := n'.attrs, period := n'.period) && |n'.attrs| == |n.attrs|
      && n'.period == (if !Relative(n) && c.dayChanged then n.period + 1 else n.period)
      && forall i :: 0 <= i < |n.attrs| ==> n'.attrs[i] == TickedAttr(n.attrs[i], c, n'.period)
    case SubmitFor(i) =>
      && n.queued && i < |n.attrs|
      && var x := n.attrs[i];
         if x.free then n' == n.(queued := false, used := n.used + if x.due.Slot? then [x.due.use] else [])
         else IsFree(x.ts, n.cal) && n' == n.(queued := false, used := n.used + [Use(n.period, Now(x.ts, n.cal))])
    case CompleteNode(_, _, _, _, _) => Completed(n, a, n')
    case RequeueAll(_, _) => RequeuedByCommand(n, a, n')
    case MissOne(i) =>
      i < |n.attrs| && n.attrs[i].ts.valid
      && n' == n.(attrs := n.attrs[i := n.attrs[i].(ts := Missed(n.attrs[i].ts))])
    case FreeOne(i) =>
      i < |n.attrs| && !n.attrs[i].free
      && n' == n.(attrs := n.attrs[i := NodeAttr(true, Nothing, Missed(n.attrs[i].ts))])
    case BeginNode(theTime, localNow) =>
      var c := Begun(n.cal.clock, theTime, localNow);
      && n' == Node(c, n'.attrs, true, n.period + 1, n.used) && |n'.attrs| == |n.attrs|
      && forall i :: 0 <= i < |n.attrs| ==> n'.attrs[i] == NodeAttr(false, Nothing, Reset(n.attrs[i].ts, c))
  }

  // ----- what every run keeps

  ghost predicate AllUsed(attrs: seq<NodeAttr>, used: seq<Use>) {
    forall u <- used :: exists i :: 0 <= i < |attrs| && IsSlot(attrs[i].ts, u.minute)
  }

  /** The slot due is behind and not yet used; a holding attribute waits for a slot after the last use. */
  ghost predicate AttrOk(x: NodeAttr, queued: bool, used: seq<Use>, period: nat, now: int) {
    && (x.due.Slot? ==> x.free && IsSlot(x.ts, x.due.use.minute) && DueOk(x.due, queued, used, period, now))
    && (queued && !x.free && used != [] && used[|used| - 1].period == period && x.ts.valid ==>
          used[|used| - 1].minute < x.ts.next.Duration())
  }

  ghost predicate LastBehind(used: seq<Use>, period: nat, now: int) {
    used != [] ==> Behind(used[|used| - 1], period, now)
  }

  ghost predicate NodeOk(n: Node) {
    && OneClock(n.attrs) && AllInv(n.attrs)
    && StrictlyIncreasing(n.used) && AllUsed(n.attrs, n.used) && LastBehind(n.used, n.period, Clock(n))
    && forall i :: 0 <= i < |n.attrs| ==> AttrOk(n.attrs[i], n.queued, n.used, n.period, Clock(n))
  }

  /** No update goes back over a slot of one of the attributes unseen. */
  ghost predicate NodeKeepsBehind(n: Node, a: NodeAction) {
    a.TickNode? ==> forall i :: 0 <= i < |n.attrs| ==> !StepsBackOver(n.attrs[i].ts, n.cal, a.p)
  }

  lemma SameNow(n: Node, i: nat)
    requires OneClock(n.attrs) && i < |n.attrs|
    ensures Now(n.attrs[i].ts, n.cal) == Clock(n)
  {
  }

  ghost predicate SameDefinitions(a: seq<NodeAttr>, b: seq<NodeAttr>) {
    |a| == |b| && forall i :: 0 <= i < |a| ==> SameDefinition(a[i].ts, b[i].ts)
  }

  lemma SameUsed(a: seq<NodeAttr>, b: seq<NodeAttr>, used: seq<Use>)
    requires SameDefinitions(a, b) && AllUsed(a, used)
    ensures AllUsed(b, used)
  {
    forall u | u in used
      ensures exists i :: 0 <= i < |b| && IsSlot(b[i].ts, u.minute)
    {
      var i :| 0 <= i < |a| && IsSlot(a[i].ts, u.minute);
      SameSlotMinute(a[i].ts, b[i].ts);
    }
  }

  // ----- ticks

  lemma TickedAttrOk(x: NodeAttr, c: CalState, queued: bool, used: seq<Use>, period: nat, now: int, period': nat)
    requires Inv(x.ts) && AttrOk(x, queued, used, period, now) && LastBehind(used, period, now)
    requires period' == if MidnightReset(x.ts, c) then period + 1 else period
    requires x.due.Slot? ==> Behind(x.due.use, period', Now(CalendarChanged(x.ts, c), c))
    ensures
      var x' := TickedAttr(x, c, period');
      && Inv(x'.ts) && SameDefinition(x'.ts, x.ts)
      && AttrOk(x', queued, used, period', Now(x'.ts, c))
  {
    var ts := CalendarChanged(x.ts, c);
    CalendarChangedKeepsInv(x.ts, c);
    SameSlotMinute(x.ts, ts);
    FreeMeansSlot(ts, c);
    hide Inv, IsSlot, IsFree, Now;
    assert period' == period ==> ts.next == x.ts.next && ts.valid == x.ts.valid;
  }

  /** A slot of one of the attributes that was behind stays behind. */
  lemma SlotStaysBehind(n: Node, p: UpdateParams, i: nat, u: Use, period': nat, now': int)
    requires OneClock(n.attrs) && i < |n.attrs| && IsSlot(n.attrs[i].ts, u.minute)
    requires !StepsBackOver(n.attrs[i].ts, n.cal, p) && Behind(u, n.period, Clock(n))
    requires period' == if !Relative(n) && Updated(n.cal, p).dayChanged then n.period + 1 else n.period
    requires now' == Now(CalendarChanged(n.attrs[i].ts, Updated(n.cal, p)), Updated(n.cal, p))
    ensures Behind(u, period', now')
  {
    SameNow(n, i);
    hide Updated, CalendarChanged, Now, IsSlot;
  }

  lemma TickedClock(n: Node, c: CalState, i: nat)
    requires OneClock(n.attrs) && i < |n.attrs|
    ensures Now(CalendarChanged(n.attrs[i].ts, c), c) == Now(CalendarChanged(n.attrs[0].ts, c), c)
    ensures
      var s, t := CalendarChanged(n.attrs[i].ts, c), CalendarChanged(n.attrs[0].ts, c);
      s.relative == t.relative && s.relDuration == t.relDuration
  {
  }

  lemma TickKeepsNode(n: Node, p: UpdateParams, n': Node)
    requires NodeOk(n) && NodeStep(n, TickNode(p), n') && NodeKeepsBehind(n, TickNode(p))
    ensures NodeOk(n') && SameDefinitions(n.attrs, n'.attrs)
  {
    var c := Updated(n.cal, p);
    forall i | 0 <= i < |n.attrs|
      ensures Inv(n'.attrs[i].ts) && SameDefinition(n.attrs[i].ts, n'.attrs[i].ts)
      ensures n'.attrs[i].ts == CalendarChanged(n.attrs[i].ts, c)
      ensures AttrOk(n'.attrs[i], n'.queued, n'.used, n'.period, Now(n'.attrs[i].ts, c))
    {
      TickKeepsAttr(n, p, n', i);
    }
    assert n'.used == n.used && n'.queued == n.queued && n'.cal == c && |n'.attrs| == |n.attrs| > 0;
    LastStaysBehind(n, p, n');
    hide Inv, Updated, CalendarChanged, Now, AttrOk, IsSlot, StepsBackOver, LastBehind, NodeStep, OneClock;
    TickedOneClock(n, c, n');
    SameUsed(n.attrs, n'.attrs, n.used);
  }

  lemma TickedOneClock(n: Node, c: CalState, n': Node)
    requires OneClock(n.attrs) && |n'.attrs| == |n.attrs| && n'.cal == c
    requires forall i :: 0 <= i < |n.attrs| ==> n'.attrs[i].ts == CalendarChanged(n.attrs[i].ts, c)
    ensures OneClock(n'.attrs)
    ensures forall i :: 0 <= i < |n.attrs| ==> Now(n'.attrs[i].ts, c) == Clock(n')
  {
    hide CalendarChanged, Now;
    forall i | 0 <= i < |n.attrs|
      ensures Now(n'.attrs[i].ts, c) == Clock(n')
      ensures n'.attrs[i].ts.relative == n'.attrs[0].ts.relative
      ensures n'.attrs[i].ts.relDuration == n'.attrs[0].ts.relDuration
    {
      TickedClock(n, c, i);
    }
  }

  lemma TickKeepsAttr(n: Node, p: UpdateParams, n': Node, i: nat)
    requires NodeOk(n) && NodeStep(n, TickNode(p), n') && NodeKeepsBehind(n, TickNode(p)) && i < |n.attrs|
    ensures
      var c, x, x' := Updated(n.cal, p), n.attrs[i], n'.attrs[i];
      && Inv(x'.ts) && SameDefinition(x.ts, x'.ts) && x'.ts == CalendarChanged(x.ts, c)
      && AttrOk(x', n'.queued, n'.used, n'.period, Now(x'.ts, c))
  {
    var c, x := Updated(n.cal, p), n.attrs[i];
    assert n'.attrs[i] == TickedAttr(x, c, n'.period);
    var now' := Now(CalendarChanged(x.ts, c), c);
    if x.due.Slot? {
      SlotStaysBehind(n, p, i, x.due.use, n'.period, now');
    }
    hide Inv, Updated, Now, IsSlot, StepsBackOver, CalendarChanged, IsFree;
    TickedAttrOk(x, c, n.queued, n.used, n.period, Clock(n), n'.period);
  }

  lemma LastStaysBehind(n: Node, p: UpdateParams, n': Node)
    requires NodeOk(n) && NodeStep(n, TickNode(p), n') && NodeKeepsBehind(n, TickNode(p))
    requires |n'.attrs| == |n.attrs| && n'.attrs[0].ts == CalendarChanged(n.attrs[0].ts, Updated(n.cal, p))
    ensures LastBehind(n'.used, n'.period, Clock(n'))
  {
    var c := Updated(n.cal, p);
    if n.used != [] {
      var u := n.used[|n.used| - 1];
      assert u in n.used;
      var i :| 0 <= i < |n.attrs| && IsSlot(n.attrs[i].ts, u.minute);
      SlotStaysBehind(n, p, i, u, n'.period, Now(CalendarChanged(n.attrs[i].ts, c), c));
      TickedClock(n, c, i);
    }
  }

  // ----- submissions

  /** The slot for which the node is submitted: it is behind, and after the last one used. */
  lemma SubmittedSlot(n: Node, i: nat, u: Use)
    requires NodeOk(n) && n.queued && i < |n.attrs|
    requires
      var x := n.attrs[i];
      if x.free then x.due == Slot(u) else IsFree(x.ts, n.cal) && u == Use(n.period, Now(x.ts, n.cal))
    ensures IsSlot(n.attrs[i].ts, u.minute) && Behind(u, n.period, Clock(n))
    ensures n.used != [] ==> Before(n.used[|n.used| - 1], u)
  {
    var x := n.attrs[i];
    SameNow(n, i);
    assert Inv(x.ts) && AttrOk(x, n.queued, n.used, n.period, Clock(n));
    FreeMeansSlot(x.ts, n.cal);
    hide Inv, IsFree, Now, IsSlot, AllUsed;
  }

  lemma SubmitKeepsNode(n: Node, i: nat, n': Node)
    requires NodeOk(n) && NodeStep(n, SubmitFor(i), n')
    ensures NodeOk(n') && SameDefinitions(n.attrs, n'.attrs)
  {
    var x := n.attrs[i];
    assert n'.attrs == n.attrs && !n'.queued && n'.cal == n.cal && n'.period == n.period;
    var adds := !x.free || x.due.Slot?;
    var u := if x.free && x.due.Slot? then x.due.use else Use(n.period, Now(x.ts, n.cal));
    assert n'.used == if adds then n.used + [u] else n.used;
    hide Inv, IsFree, Now, IsSlot, NodeStep, AttrOk, Behind;
    if adds {
      SubmittedSlot(n, i, u);
      UseKeepsOrder(n.used, u, n.period, Clock(n), 0);
      assert n'.used[|n'.used| - 1] == u;
    }
    forall j | 0 <= j < |n.attrs|
      ensures AttrOk(n'.attrs[j], false, n'.used, n.period, Clock(n))
    {
      NotQueuedOk(n.attrs[j], n.queued, n.used, n'.used, n.period, Clock(n));
    }
  }

  lemma NotQueuedOk(x: NodeAttr, queued: bool, used: seq<Use>, used': seq<Use>, period: nat, now: int)
    requires AttrOk(x, queued, used, period, now)
    ensures AttrOk(x, false, used', period, now)
  {
  }

  // ----- requeues and resets

  /** After a requeue the attribute waits past now, if it waits at all. */
  lemma RequeuedAttrOk(ts: Series, c: CalState, resetNext: bool, used: seq<Use>, period: nat)
    requires Inv(ts) && LastBehind(used, period, Now(ts, c))
    ensures
      var x := RequeuedAttr(ts, c, resetNext);
      && Inv(x.ts) && SameDefinition(x.ts, ts) && x.ts.relDuration == ts.relDuration && Now(x.ts, c) == Now(ts, c)
      && AttrOk(x, true, used, period, Now(ts, c))
  {
    RequeueWaitsPast(ts, c, resetNext);
    hide Inv, Requeue, Now;
  }

  lemma RequeueWaitsPast(ts: Series, c: CalState, resetNext: bool)
    requires Inv(ts)
    ensures
      var r := Requeue(ts, c, resetNext);
      && Inv(r) && SameDefinition(r, ts) && r.relDuration == ts.relDuration && Now(r, c) == Now(ts, c)
      && (r.valid ==> Now(ts, c) < r.next.Duration())
  {
    RequeueMovesPast(ts, c, resetNext);
    var r := Requeue(ts, c, resetNext);
    if !ts.HasIncrement() {
      assert r.next == ts.start;
    }
  }

  /** All series of the base tell the same time, with the definitions of the node's attributes. */
  ghost predicate BaseOk(n: Node, base: seq<Series>, period: nat) {
    && |base| == |n.attrs| > 0
    && (forall i :: 0 <= i < |base| ==>
          && Inv(base[i]) && SameDefinition(base[i], n.attrs[i].ts)
          && base[i].relative == base[0].relative && base[i].relDuration == base[0].relDuration)
    && LastBehind(n.used, period, Now(base[0], n.cal))
  }

  lemma RequeueKeepsNode(n: Node, base: seq<Series>, resetNext: bool, n': Node)
    requires StrictlyIncreasing(n.used) && AllUsed(n.attrs, n.used)
    requires BaseOk(n, base, n'.period) && AllRequeued(n, base, resetNext, n')
    ensures NodeOk(n') && SameDefinitions(n.attrs, n'.attrs)
  {
    forall i | 0 <= i < |base|
      ensures Inv(n'.attrs[i].ts) && SameDefinition(n'.attrs[i].ts, n.attrs[i].ts)
      ensures n'.attrs[i].ts.relative == base[0].relative && n'.attrs[i].ts.relDuration == base[0].relDuration
      ensures Now(n'.attrs[i].ts, n.cal) == Now(base[0], n.cal)
      ensures AttrOk(n'.attrs[i], true, n.used, n'.period, Now(base[0], n.cal))
    {
      assert Now(base[i], n.cal) == Now(base[0], n.cal);
      RequeuedAttrOk(base[i], n.cal, resetNext, n.used, n'.period);
    }
    hide Inv, RequeuedAttr, Now, AttrOk, IsSlot, LastBehind;
    SameUsed(n.attrs, n'.attrs, n.used);
  }

  lemma CompleteKeepsNode(n: Node, a: NodeAction, n': Node)
    requires NodeOk(n) && a.CompleteNode? && NodeStep(n, a, n')
    ensures NodeOk(n') && SameDefinitions(n.attrs, n'.attrs)
  {
    assert Completed(n, a, n');
    var base: seq<Series> :| Asked(n, a, base) &&
      if SomeAsks(n, a) then AllRequeued(n, base, a.resetNext, n') && n'.period == n.period
      else && |n'.attrs| == |n.attrs| && n' == n.(attrs := n'.attrs, queued := false)
           && forall i :: 0 <= i < |base| ==> n'.attrs[i] == n.attrs[i].(ts := base[i]);
    AskedBaseOk(n, a, base);
    if SomeAsks(n, a) {
      hide *;
      RequeueKeepsNode(n, base, a.resetNext, n') by { NodeOkGives(n); }
    } else {
      CheckedKeepsNode(n, a, base, n');
    }
  }

  lemma NodeOkGives(n: Node)
    requires NodeOk(n)
    ensures StrictlyIncreasing(n.used) && AllUsed(n.attrs, n.used)
  {
  }

  lemma AskedBaseOk(n: Node, a: NodeAction, base: seq<Series>)
    requires NodeOk(n) && a.CompleteNode? && Asked(n, a, base)
    ensures BaseOk(n, base, n.period)
    ensures forall i :: 0 <= i < |base| ==>
      base[i].next == n.attrs[i].ts.next && base[i].valid == n.attrs[i].ts.valid
  {
    forall i | 0 <= i < |base|
      ensures Inv(base[i]) && base[i] == n.attrs[i].ts.(atRequeue := base[i].atRequeue)
    {
      AfterCheckKeepsInv(n.attrs[i].ts, n.cal);
    }
    assert Now(base[0], n.cal) == Clock(n);
    hide Inv, AfterCheck, Now, AttrOk, AllUsed;
  }

  lemma CheckedKeepsNode(n: Node, a: NodeAction, base: seq<Series>, n': Node)
    requires NodeOk(n) && BaseOk(n, base, n.period)
    requires forall i :: 0 <= i < |base| ==> base[i].next == n.attrs[i].ts.next && base[i].valid == n.attrs[i].ts.valid
    requires |n'.attrs| == |n.attrs| && n' == n.(attrs := n'.attrs, queued := false)
    requires forall i :: 0 <= i < |base| ==> n'.attrs[i] == n.attrs[i].(ts := base[i])
    requires base[0].relDuration == n.attrs[0].ts.relDuration
    ensures NodeOk(n') && SameDefinitions(n.attrs, n'.attrs)
  {
    assert Clock(n') == Clock(n);
    forall i | 0 <= i < |n.attrs|
      ensures AttrOk(n'.attrs[i], false, n.used, n.period, Clock(n))
    {
      SameSlotMinute(n.attrs[i].ts, base[i]);
      assert AttrOk(n.attrs[i], n.queued, n.used, n.period, Clock(n));
    }
    hide Inv, Now, AttrOk, IsSlot, LastBehind;
    SameUsed(n.attrs, n'.attrs, n.used);
  }

  lemma CommandKeepsNode(n: Node, a: NodeAction, n': Node)
    requires NodeOk(n) && a.RequeueAll? && NodeStep(n, a, n')
    ensures NodeOk(n') && SameDefinitions(n.attrs, n'.attrs)
  {
    assert RequeuedByCommand(n, a, n');
    var base: seq<Series> :|
      && AllRequeued(n, base, a.resetNext, n')
      && (forall i :: 0 <= i < |base| ==>
            base[i] == if a.resetRelative then RelativeReset(n.attrs[i].ts) else n.attrs[i].ts)
      && n'.period == if a.resetRelative && Relative(n) then n.period + 1 else n.period;
    CommandBaseOk(n, a, base, n'.period);
    hide *;
    RequeueKeepsNode(n, base, a.resetNext, n') by { NodeOkGives(n); }
  }

  lemma CommandBaseOk(n: Node, a: NodeAction, base: seq<Series>, period: nat)
    requires NodeOk(n) && a.RequeueAll? && |base| == |n.attrs|
    requires forall i :: 0 <= i < |base| ==>
      Inv(base[i]) && base[i] == if a.resetRelative then RelativeReset(n.attrs[i].ts) else n.attrs[i].ts
    requires period == if a.resetRelative && Relative(n) then n.period + 1 else n.period
    ensures BaseOk(n, base, period)
  {
    assert period == n.period ==> Now(base[0], n.cal) == Clock(n);
    hide Inv, Now, AttrOk, AllUsed;
  }

  lemma ResetAttrOk(ts: Series, c: CalState, used: seq<Use>, period: nat, now: int)
    requires Inv(ts) && (used != [] ==> used[|used| - 1].period < period)
    ensures
      var x := NodeAttr(false, Nothing, Reset(ts, c));
      && Inv(x.ts) && SameDefinition(x.ts, ts) && x.ts.relDuration == (if ts.relative then 0 else ts.relDuration)
      && AttrOk(x, true, used, period, now)
  {
    ResetKeepsInv(ts, c);
    hide Inv;
  }

  lemma BeginKeepsNode(n: Node, a: NodeAction, n': Node)
    requires NodeOk(n) && a.BeginNode? && NodeStep(n, a, n')
    ensures NodeOk(n') && SameDefinitions(n.attrs, n'.attrs)
  {
    var c := Begun(n.cal.clock, a.theTime, a.localNow);
    forall i | 0 <= i < |n.attrs|
      ensures Inv(n'.attrs[i].ts) && SameDefinition(n'.attrs[i].ts, n.attrs[i].ts)
      ensures n'.attrs[i].ts.relDuration == if n.attrs[i].ts.relative then 0 else n.attrs[i].ts.relDuration
      ensures AttrOk(n'.attrs[i], true, n.used, n'.period, Clock(n'))
    {
      assert n'.attrs[i] == NodeAttr(false, Nothing, Reset(n.attrs[i].ts, c));
      hide Reset, Inv;
      ResetAttrOk(n.attrs[i].ts, c, n.used, n'.period, Clock(n'));
    }
    hide Inv, Reset, Now, AttrOk, IsSlot;
    SameUsed(n.attrs, n'.attrs, n.used);
  }

  // ----- one attribute missed or freed by force

  lemma MissedAttrOk(x: NodeAttr, free: bool, queued: bool, used: seq<Use>, period: nat, now: int)
    requires Inv(x.ts) && AttrOk(x, queued, used, period, now) && (x.free ==> free)
    ensures
      var ts := Missed(x.ts);
      && Inv(ts) && SameDefinition(ts, x.ts) && ts.relDuration == x.ts.relDuration
      && AttrOk(NodeAttr(free, if x.free then x.due else Nothing, ts), queued, used, period, now)
  {
    MissedKeepsInv(x.ts);
    var ts := Missed(x.ts);
    SameSlotMinute(x.ts, ts);
    assert ts.valid ==> x.ts.valid && x.ts.next.Duration() <= ts.next.Duration();
    hide Inv, Missed, IsSlot;
  }

  lemma OneChangedKeepsNode(n: Node, i: nat, x: NodeAttr)
    requires NodeOk(n) && i < |n.attrs|
    requires Inv(x.ts) && SameDefinition(x.ts, n.attrs[i].ts) && x.ts.relDuration == n.attrs[i].ts.relDuration
    requires AttrOk(x, n.queued, n.used, n.period, Clock(n))
    ensures
      var n' := n.(attrs := n.attrs[i := x]);
      NodeOk(n') && SameDefinitions(n.attrs, n'.attrs)
  {
    var n' := n.(attrs := n.attrs[i := x]);
    assert Clock(n') == Clock(n);
    hide Inv, Now, AttrOk, IsSlot, LastBehind;
    SameUsed(n.attrs, n'.attrs, n.used);
  }

  lemma NoDueUnlessFree(x: NodeAttr, queued: bool, used: seq<Use>, period: nat, now: int)
    requires AttrOk(x, queued, used, period, now)
    ensures x.free || x.due == Nothing
  {
  }

  lemma MissKeepsNode(n: Node, a: NodeAction, n': Node)
    requires NodeOk(n) && (a.MissOne? || a.FreeOne?) && NodeStep(n, a, n')
    ensures NodeOk(n') && SameDefinitions(n.attrs, n'.attrs)
  {
    var x := n.attrs[a.i];
    var y := NodeAttr(x.free || a.FreeOne?, if x.free then x.due else Nothing, Missed(x.ts));
    NoDueUnlessFree(x, n.queued, n.used, n.period, Clock(n));
    assert n' == n.(attrs := n.attrs[a.i := y]);
    MissedAttrOk(x, y.free, n.queued, n.used, n.period, Clock(n));
    hide Inv, Missed, AttrOk, Now, IsSlot;
    OneChangedKeepsNode(n, a.i, y);
  }

  // ----- runs

  /** Every action keeps the order of the uses. */
  lemma NodeStepKeepsOk(n: Node, a: NodeAction, n': Node)
    requires NodeOk(n) && NodeStep(n, a, n') && NodeKeepsBehind(n, a)
    ensures NodeOk(n') && SameDefinitions(n.attrs, n'.attrs)
  {
    hide *;
    match a
    case TickNode(p) => TickKeepsNode(n, p, n');
    case SubmitFor(i) => SubmitKeepsNode(n, i, n');
    case CompleteNode(_, _, _, _, _) => CompleteKeepsNode(n, a, n');
    case RequeueAll(_, _) => CommandKeepsNode(n, a, n');
    case MissOne(_) => MissKeepsNode(n, a, n');
    case FreeOne(_) => MissKeepsNode(n, a, n');
    case BeginNode(_, _) => BeginKeepsNode(n, a, n');
  }

  /** The states of a run, one more than its actions, in which no update goes back over a slot unseen. */
  ghost predicate IsNodeRun(states: seq<Node>, actions: seq<NodeAction>) {
    && |states| == |actions| + 1
    && forall k :: 0 <= k < |actions| ==>
         && states[k].attrs != [] && AllInv(states[k].attrs)
         && NodeStep(states[k], actions[k], states[k + 1]) && NodeKeepsBehind(states[k], actions[k])
  }

  lemma {:induction false} NodeRunKeepsOk(states: seq<Node>, actions: seq<NodeAction>, k: nat)
    requires IsNodeRun(states, actions) && k < |states| && NodeOk(states[0])
    ensures NodeOk(states[k]) && SameDefinitions(states[0].attrs, states[k].attrs)
  {
    hide NodeStep, NodeOk, NodeKeepsBehind, AllInv, SameDefinitions;
    if k > 0 {
      NodeRunKeepsOk(states, actions, k - 1);
      NodeStepKeepsOk(states[k - 1], actions[k - 1], states[k]);
      SameThrough(states[0].attrs, states[k - 1].attrs, states[k].attrs);
    } else {
      SameAsItself(states[0].attrs);
    }
  }

  lemma SameThrough(a: seq<NodeAttr>, b: seq<NodeAttr>, c: seq<NodeAttr>)
    requires SameDefinitions(a, b) && SameDefinitions(b, c)
    ensures SameDefinitions(a, c)
  {
  }

  lemma SameAsItself(a: seq<NodeAttr>)
    ensures SameDefinitions(a, a)
  {
  }

  /** A node that has not been submitted yet, with no slot due. */
  ghost predicate FreshNode(n: Node) {
    && OneClock(n.attrs) && AllInv(n.attrs) && n.used == []
    && forall i :: 0 <= i < |n.attrs| ==> n.attrs[i].due == Nothing
  }

  /** Over every run of a node with several time attributes on one clock, the minutes for which it is
      submitted, whichever free attribute they are taken from, are slots of an attribute and increase
      strictly between two resets. */
  lemma NoMinuteIsUsedTwice(states: seq<Node>, actions: seq<NodeAction>, k: nat)
    requires IsNodeRun(states, actions) && k < |states| && FreshNode(states[0])
    ensures StrictlyIncreasing(states[k].used)
    ensures |states[k].attrs| == |states[0].attrs|
    ensures forall u <- states[k].used ::
      exists i :: 0 <= i < |states[0].attrs| && IsSlot(states[0].attrs[i].ts, u.minute)
  {
    assert NodeOk(states[0]);
    hide IsNodeRun, NodeStep;
    NodeRunKeepsOk(states, actions, k);
    SameUsed(states[k].attrs, states[0].attrs, states[k].used);
  }
}
