/** What a node does is what its time attributes would do alone: every step of a node is, for each of its
    attributes, a step or two of the protocol of a single attribute. */
module NodeSteps {
  import opened TimeSlots
  import opened Calendars
  import opened TimeSeriesModel
  import opened TimeSeriesLaws
  import opened Scheduler
  import opened NodeRuns

  /** One attribute of the node by itself. */
  function Alone(n: Node, i: nat): System
    requires i < |n.attrs|
  {
    var x := n.attrs[i];
    System(n.cal, Attr(x.free, x.ts), x.due, n.queued, n.period, n.used)
  }

  /** The steps of attribute i by itself when the node takes a step.  On completion the first that asks
      requeues all: those not asked are requeued as by a command, and those asked in vain as well. */
  ghost function StepsOf(n: Node, a: NodeAction, i: nat): seq<Action>
    requires i < |n.attrs| && (a.CompleteNode? ==> |a.asked| == |n.attrs|)
  {
    match a
    case TickNode(p) => [Action.Tick(p)]
    case SubmitFor(j) => if i == j then [Submit] else []
    case CompleteNode(theMin, theMax, cmdContext, asked, resetNext) =>
      var check := Complete(theMin, theMax, cmdContext, resetNext);
      if !SomeAsks(n, a) then if asked[i] then [check] else []
      else if !asked[i] then [RequeueNode(resetNext, false)]
      else if CheckForRequeue(n.attrs[i].ts, n.cal, theMin, theMax, cmdContext) then [check]
      else [check, RequeueNode(resetNext, false)]
    case RequeueAll(resetNext, resetRelative) => [RequeueNode(resetNext, resetRelative)]
    case MissOne(j) => if i == j then [MissSlot] else []
    case FreeOne(j) => if i == j then [FreeDependency] else []
    case BeginNode(theTime, localNow) => [BeginSuite(theTime, localNow)]
  }

  /** The step is one that the attribute could take alone: a slot is not forced while it is free of
      itself, and without a requeue all attributes have been asked. */
  ghost predicate Ordinary(n: Node, a: NodeAction) {
    match a
    case FreeOne(i) => i < |n.attrs| ==> !IsFree(n.attrs[i].ts, n.cal)
    case CompleteNode(_, _, _, asked, _) => SomeAsks(n, a) || forall i :: 0 <= i < |asked| ==> asked[i]
    case _ => true
  }

  lemma OneStep(st: System, a: Action)
    requires Inv(st.attr.ts)
    ensures Scheduler.Run(st, [a]) == Next(st, a)
  {
    hide Next, Inv;
    assert [a][1..] == [];
    assert Scheduler.Run(Next(st, a), []) == Next(st, a);
  }

  lemma TwoSteps(st: System, a: Action, b: Action)
    requires Inv(st.attr.ts)
    ensures Scheduler.Run(st, [a, b]) == Next(Next(st, a), b)
  {
    hide Next, Inv;
    assert [a, b][1..] == [b];
    OneStep(Next(st, a), b);
  }

  lemma TickIs(st: System, p: UpdateParams)
    requires Inv(st.attr.ts)
    ensures Next(st, Action.Tick(p)) == Ticked(st, p)
  {
  }

  lemma TickedAlone(x: NodeAttr, st: System, p: UpdateParams, period: nat)
    requires st.attr == Attr(x.free, x.ts) && st.due == x.due
    requires period == if !x.ts.relative && Updated(st.cal, p).dayChanged then st.period + 1 else st.period
    ensures
      var x', st' := TickedAttr(x, Updated(st.cal, p), period), Ticked(st, p);
      && st'.attr == Attr(x'.free, x'.ts) && st'.due == x'.due && st'.period == period
      && st'.cal == Updated(st.cal, p) && st'.queued == st.queued && st'.used == st.used
  {
    hide Updated, IsFree;
  }

  lemma TickAgrees(n: Node, p: UpdateParams, n': Node, i: nat)
    requires OneClock(n.attrs) && AllInv(n.attrs) && i < |n.attrs| && NodeStep(n, TickNode(p), n')
    ensures |n'.attrs| == |n.attrs|
    ensures Alone(n', i) == Next(Alone(n, i), Action.Tick(p))
  {
    assert Inv(n.attrs[i].ts);
    assert n.attrs[i].ts.relative == Relative(n);
    TickIs(Alone(n, i), p);
    hide Inv, IsFree, Updated, TickedAttr, Ticked, Next, OneClock, AllInv;
    TickedAlone(n.attrs[i], Alone(n, i), p, n'.period);
  }

  lemma SubmitAgrees(n: Node, i: nat, n': Node)
    requires AllInv(n.attrs) && i < |n.attrs| && NodeStep(n, SubmitFor(i), n')
    requires !n.attrs[i].free ==> n.attrs[i].due == Nothing
    ensures Alone(n', i).(due := Nothing) == Next(Alone(n, i), Submit)
  {
    hide Inv, IsFree;
  }

  lemma MissAgrees(n: Node, a: NodeAction, n': Node)
    requires n.attrs != [] && AllInv(n.attrs) && (a.MissOne? || a.FreeOne?) && NodeStep(n, a, n') && Ordinary(n, a)
    ensures Alone(n', a.i) == Next(Alone(n, a.i), if a.MissOne? then MissSlot else FreeDependency)
  {
    hide Inv, IsFree, Missed;
  }

  lemma BeginAgrees(n: Node, theTime: int, localNow: int, n': Node, i: nat)
    requires AllInv(n.attrs) && i < |n.attrs| && NodeStep(n, BeginNode(theTime, localNow), n')
    ensures Alone(n', i) == Next(Alone(n, i), BeginSuite(theTime, localNow))
  {
    hide Inv, Reset;
  }

  /** A check does not change the clock or the definition, and asked or not, the series is requeued. */
  lemma RequeueAgrees(n: Node, base: Series, resetNext: bool, n': Node, i: nat)
    requires i < |n.attrs| == |n'.attrs| && Inv(base) && Inv(n.attrs[i].ts)
    requires n'.cal == n.cal && n'.queued && n'.used == n.used
    requires n'.attrs[i] == RequeuedAttr(base, n.cal, resetNext)
    ensures Alone(n', i) == Requeued(Alone(n, i).(period := n'.period), base, resetNext)
  {
    hide Inv, Requeue;
  }

  lemma CompleteIs(st: System, theMin: TimeSlot, theMax: TimeSlot, cmdContext: bool, resetNext: bool)
    requires Inv(st.attr.ts)
    ensures
      var ts := AfterCheck(st.attr.ts, st.cal);
      && Inv(ts)
      && Next(st, Complete(theMin, theMax, cmdContext, resetNext)) ==
         if CheckForRequeue(st.attr.ts, st.cal, theMin, theMax, cmdContext) then Requeued(st, ts, resetNext)
         else st.(attr := st.attr.(ts := ts), queued := false)
  {
    AfterCheckKeepsInv(st.attr.ts, st.cal);
    hide AfterCheck, Requeue, CheckForRequeue;
  }

  lemma CommandIs(st: System, resetNext: bool, resetRelative: bool)
    requires Inv(st.attr.ts)
    ensures
      var ts := if resetRelative then RelativeReset(st.attr.ts) else st.attr.ts;
      var period := if resetRelative && st.attr.ts.relative then st.period + 1 else st.period;
      && Inv(ts)
      && Next(st, RequeueNode(resetNext, resetRelative)) == Requeued(st.(period := period), ts, resetNext)
  {
    OperationsKeepInv(st.attr.ts, st.cal, false);
    hide Requeue, RelativeReset, Inv;
  }

  lemma RequeuedTwice(st: System, ts: Series, resetNext: bool)
    requires Inv(ts)
    ensures Requeued(st.(attr := st.attr.(ts := ts), queued := false), ts, resetNext) == Requeued(st, ts, resetNext)
  {
    hide Requeue, Inv;
  }

  lemma AskedAgrees(n: Node, a: NodeAction, base: seq<Series>, n': Node, i: nat)
    requires AllInv(n.attrs) && i < |n.attrs| && a.CompleteNode? && SomeAsks(n, a)
    requires Asked(n, a, base) && AllRequeued(n, base, a.resetNext, n') && n'.period == n.period
    ensures Alone(n', i) == Scheduler.Run(Alone(n, i), StepsOf(n, a, i))
  {
    var st := Alone(n, i);
    var check, again := Complete(a.theMin, a.theMax, a.cmdContext, a.resetNext), RequeueNode(a.resetNext, false);
    assert Inv(st.attr.ts) && Inv(base[i]);
    hide *;
    CompleteIs(st, a.theMin, a.theMax, a.cmdContext, a.resetNext);
    CommandIs(st, a.resetNext, false);
    CommandIs(st.(attr := st.attr.(ts := AfterCheck(st.attr.ts, st.cal)), queued := false), a.resetNext, false);
    RequeuedTwice(st, AfterCheck(st.attr.ts, st.cal), a.resetNext);
    OneStep(st, check);
    OneStep(st, again);
    TwoSteps(st, check, again);
    AskedGives(n, a, base, n', i);
    RequeueAgrees(n, base[i], a.resetNext, n', i);
    StepsWhenAsked(n, a, i);
  }

  lemma AskedGives(n: Node, a: NodeAction, base: seq<Series>, n': Node, i: nat)
    requires a.CompleteNode? && i < |n.attrs| && Asked(n, a, base) && AllRequeued(n, base, a.resetNext, n')
    ensures |n'.attrs| == |n.attrs| && n'.cal == n.cal && n'.queued && n'.used == n.used
    ensures Inv(base[i]) && n'.attrs[i] == RequeuedAttr(base[i], n.cal, a.resetNext)
    ensures base[i] == if a.asked[i] then AfterCheck(n.attrs[i].ts, n.cal) else n.attrs[i].ts
  {
    hide Inv, AfterCheck, RequeuedAttr;
  }

  lemma StepsWhenAsked(n: Node, a: NodeAction, i: nat)
    requires a.CompleteNode? && i < |n.attrs| == |a.asked| && SomeAsks(n, a)
    ensures
      var check, again := Complete(a.theMin, a.theMax, a.cmdContext, a.resetNext), RequeueNode(a.resetNext, false);
      StepsOf(n, a, i) ==
        if !a.asked[i] then [again]
        else if CheckForRequeue(n.attrs[i].ts, n.cal, a.theMin, a.theMax, a.cmdContext) then [check]
        else [check, again]
  {
    hide SomeAsks, CheckForRequeue;
  }

  /** Without a requeue, all have been asked, in vain. */
  lemma NotAskedAgrees(n: Node, a: NodeAction, base: seq<Series>, n': Node, i: nat)
    requires AllInv(n.attrs) && i < |n.attrs| && a.CompleteNode? && !SomeAsks(n, a) && Asked(n, a, base)
    requires |n'.attrs| == |n.attrs| && n' == n.(attrs := n'.attrs, queued := false) && a.asked[i]
    requires n'.attrs[i] == n.attrs[i].(ts := base[i])
    ensures Alone(n', i) == Scheduler.Run(Alone(n, i), StepsOf(n, a, i))
  {
    var st := Alone(n, i);
    assert Inv(st.attr.ts);
    assert !CheckForRequeue(st.attr.ts, n.cal, a.theMin, a.theMax, a.cmdContext);
    hide Inv, AfterCheck, CheckForRequeue, Next, Scheduler.Run, Requeued;
    CompleteIs(st, a.theMin, a.theMax, a.cmdContext, a.resetNext);
    OneStep(st, Complete(a.theMin, a.theMax, a.cmdContext, a.resetNext));
  }

  lemma CompleteAgrees(n: Node, a: NodeAction, n': Node, i: nat)
    requires n.attrs != [] && AllInv(n.attrs) && i < |n.attrs| && a.CompleteNode? && NodeStep(n, a, n')
    requires Ordinary(n, a)
    ensures |a.asked| == |n'.attrs| == |n.attrs|
    ensures Alone(n', i) == Scheduler.Run(Alone(n, i), StepsOf(n, a, i))
  {
    assert Completed(n, a, n');
    hide AllInv, SomeAsks, AllRequeued, AfterCheck, StepsOf, Scheduler.Run;
    var base: seq<Series> :| Asked(n, a, base) &&
      if SomeAsks(n, a) then AllRequeued(n, base, a.resetNext, n') && n'.period == n.period
      else && |n'.attrs| == |n.attrs| && n' == n.(attrs := n'.attrs, queued := false)
           && forall i :: 0 <= i < |base| ==> n'.attrs[i] == n.attrs[i].(ts := base[i]);
    if SomeAsks(n, a) {
      AskedGives(n, a, base, n', i);
      AskedAgrees(n, a, base, n', i);
    } else {
      NotAskedAgrees(n, a, base, n', i);
    }
  }

  lemma CommandBase(n: Node, a: NodeAction, n': Node, i: nat) returns (b: Series)
    requires i < |n.attrs| && a.RequeueAll? && RequeuedByCommand(n, a, n')
    ensures Inv(b) && b == if a.resetRelative then RelativeReset(n.attrs[i].ts) else n.attrs[i].ts
    ensures |n'.attrs| == |n.attrs| && n'.cal == n.cal && n'.queued && n'.used == n.used
    ensures n'.attrs[i] == RequeuedAttr(b, n.cal, a.resetNext)
    ensures n'.period == if a.resetRelative && Relative(n) then n.period + 1 else n.period
  {
    var base: seq<Series> :|
      && AllRequeued(n, base, a.resetNext, n')
      && (forall i :: 0 <= i < |base| ==>
            base[i] == if a.resetRelative then RelativeReset(n.attrs[i].ts) else n.attrs[i].ts)
      && n'.period == if a.resetRelative && Relative(n) then n.period + 1 else n.period;
    b := base[i];
    hide Inv, RequeuedAttr, RelativeReset;
  }

  lemma CommandAgrees(n: Node, a: NodeAction, n': Node, i: nat)
    requires OneClock(n.attrs) && AllInv(n.attrs) && i < |n.attrs| && a.RequeueAll? && NodeStep(n, a, n')
    ensures |n'.attrs| == |n.attrs|
    ensures Alone(n', i) == Next(Alone(n, i), RequeueNode(a.resetNext, a.resetRelative))
  {
    assert RequeuedByCommand(n, a, n') && Inv(n.attrs[i].ts);
    assert Relative(n) == n.attrs[i].ts.relative;
    hide OneClock, AllInv, NodeStep, Next, Inv, Requeued, RelativeReset, RequeuedByCommand, RequeuedAttr;
    var b := CommandBase(n, a, n', i);
    RequeueAgrees(n, b, a.resetNext, n', i);
    CommandIs(Alone(n, i), a.resetNext, a.resetRelative);
  }

  /** A step of the node is, for every one of its attributes, that attribute's own steps, but for what
      the node's attributes share when another one lets it be submitted. */
  lemma EachAttributeAlone(n: Node, a: NodeAction, n': Node, i: nat)
    requires NodeOk(n) && NodeStep(n, a, n') && Ordinary(n, a) && i < |n.attrs|
    ensures |n'.attrs| == |n.attrs| && (a.CompleteNode? ==> |a.asked| == |n.attrs|)
    ensures
      var st, st' := Scheduler.Run(Alone(n, i), StepsOf(n, a, i)), Alone(n', i);
      && st'.cal == st.cal && st'.attr == st.attr && st'.period == st.period && (n'.queued ==> st'.due == st.due)
      && ((a.SubmitFor? && a.i != i) || (st'.queued == st.queued && st'.used == st.used))
  {
    var st := Alone(n, i);
    NodeOkHolds(n, i);
    hide *;
    match a
    case TickNode(p) =>
      TickAgrees(n, p, n', i);
      OneStep(st, Action.Tick(p));
      StepsAre(n, a, i);
    case SubmitFor(j) =>
      SubmitAgreesAll(n, j, n', i);
    case CompleteNode(_, _, _, _, _) =>
      CompleteAgrees(n, a, n', i);
    case RequeueAll(resetNext, resetRelative) =>
      CommandAgrees(n, a, n', i);
      OneStep(st, RequeueNode(resetNext, resetRelative));
      StepsAre(n, a, i);
    case MissOne(_) =>
      MissAgreesAll(n, a, n', i);
    case FreeOne(_) =>
      MissAgreesAll(n, a, n', i);
    case BeginNode(theTime, localNow) =>
      BeginAgrees(n, theTime, localNow, n', i);
      OneStep(st, BeginSuite(theTime, localNow));
      StepsAre(n, a, i);
  }

  lemma NodeOkHolds(n: Node, i: nat)
    requires NodeOk(n) && i < |n.attrs|
    ensures OneClock(n.attrs) && AllInv(n.attrs) && Inv(n.attrs[i].ts)
    ensures !n.attrs[i].free ==> n.attrs[i].due == Nothing
  {
    assert AttrOk(n.attrs[i], n.queued, n.used, n.period, NodeRuns.Clock(n));
    hide Inv;
  }

  lemma StepsAre(n: Node, a: NodeAction, i: nat)
    requires i < |n.attrs| && !a.CompleteNode?
    ensures
      StepsOf(n, a, i) ==
        match a
        case TickNode(p) => [Action.Tick(p)]
        case SubmitFor(j) => if i == j then [Submit] else []
        case RequeueAll(resetNext, resetRelative) => [RequeueNode(resetNext, resetRelative)]
        case MissOne(j) => if i == j then [MissSlot] else []
        case FreeOne(j) => if i == j then [FreeDependency] else []
        case BeginNode(theTime, localNow) => [BeginSuite(theTime, localNow)]
        case _ => []
  {
  }

  lemma SubmitAgreesAll(n: Node, j: nat, n': Node, i: nat)
    requires NodeOk(n) && i < |n.attrs| && NodeStep(n, SubmitFor(j), n')
    ensures |n'.attrs| == |n.attrs| && n'.attrs[i] == n.attrs[i] && !n'.queued && n'.cal == n.cal
    ensures n'.period == n.period
    ensures
      var st := Scheduler.Run(Alone(n, i), StepsOf(n, SubmitFor(j), i));
      && st.cal == n'.cal && st.attr == Alone(n', i).attr && st.period == n'.period
      && (i == j ==> !st.queued && st.used == n'.used)
  {
    NodeOkHolds(n, i);
    hide NodeOk, Inv, IsFree, Next, AllInv;
    if i == j {
      OneStep(Alone(n, i), Submit);
      SubmitAgrees(n, i, n') by { NodeOkHolds(n, i); }
    } else {
      assert Scheduler.Run(Alone(n, i), []) == Alone(n, i);
    }
  }

  lemma MissAgreesAll(n: Node, a: NodeAction, n': Node, i: nat)
    requires NodeOk(n) && i < |n.attrs| && (a.MissOne? || a.FreeOne?) && NodeStep(n, a, n') && Ordinary(n, a)
    ensures |n'.attrs| == |n.attrs| && Alone(n', i) == Scheduler.Run(Alone(n, i), StepsOf(n, a, i))
  {
    NodeOkHolds(n, i);
    MissAgrees(n, a, n');
    hide NodeOk, Inv, IsFree, Next, Missed, AllInv;
    if i == a.i {
      OneStep(Alone(n, i), if a.MissOne? then MissSlot else FreeDependency);
    } else {
      assert Scheduler.Run(Alone(n, i), []) == Alone(n, i);
    }
  }

  /** A completed node is queued again if and only if one of its attributes asks for it. */
  lemma CompletedIsQueued(n: Node, a: NodeAction, n': Node)
    requires n.attrs != [] && AllInv(n.attrs) && a.CompleteNode? && NodeStep(n, a, n')
    ensures n'.queued <==>
            exists x :: x in n.attrs && CheckForRequeue(x.ts, n.cal, a.theMin, a.theMax, a.cmdContext)
    ensures n'.queued ==> forall x <- n'.attrs :: !x.free
    ensures !n'.queued ==> forall i :: 0 <= i < |n.attrs| ==> n'.attrs[i].free == n.attrs[i].free
  {
    assert Completed(n, a, n');
    hide AllInv, CheckForRequeue, AfterCheck, Requeue, Inv;
    forall x | x in n.attrs && CheckForRequeue(x.ts, n.cal, a.theMin, a.theMax, a.cmdContext)
      ensures SomeAsks(n, a)
    {
      var i :| 0 <= i < |n.attrs| && n.attrs[i] == x;
    }
  }

  // ----- a node does not wait for ever

  predicate OnlyTicks(actions: seq<NodeAction>) { forall a <- actions :: a.TickNode? }

  /** The updates of a run, as one attribute sees them. */
  function TicksOf(actions: seq<NodeAction>): seq<Action>
    requires OnlyTicks(actions)
  {
    if actions == [] then [] else [Action.Tick(actions[0].p)] + TicksOf(actions[1..])
  }

  /** Over updates, each attribute goes exactly the way it would go alone. */
  lemma {:induction false} TicksAlone(states: seq<Node>, actions: seq<NodeAction>, i: nat)
    requires IsNodeRun(states, actions) && OnlyTicks(actions) && NodeOk(states[0]) && i < |states[0].attrs|
    ensures NodeOk(states[|actions|]) && |states[|actions|].attrs| == |states[0].attrs|
    ensures Alone(states[|actions|], i) == Scheduler.Run(Alone(states[0], i), TicksOf(actions))
    decreases |actions|
  {
    NodeOkHolds(states[0], i);
    hide NodeOk, NodeStep, NodeKeepsBehind, Inv, AllInv, Next, OneClock;
    if actions != [] {
      var p := actions[0].p;
      assert NodeStep(states[0], actions[0], states[1]) && NodeKeepsBehind(states[0], actions[0]);
      NodeStepKeepsOk(states[0], actions[0], states[1]);
      TickAgrees(states[0], p, states[1], i);
      RestIsRun(states, actions);
      TicksAlone(states[1..], actions[1..], i);
    }
  }

  lemma RestIsRun(states: seq<Node>, actions: seq<NodeAction>)
    requires IsNodeRun(states, actions) && actions != []
    ensures IsNodeRun(states[1..], actions[1..])
  {
    hide NodeStep, NodeKeepsBehind, AllInv;
  }

  /** A queued node none of whose attributes may be free: when its clock has come, by updates of at most a
      minute, to the slot for which one of them waits, that one is free, the node can be submitted for it,
      and the use recorded is that very slot. */
  lemma NodeWaitingEnds(states: seq<Node>, actions: seq<NodeAction>, i: nat)
    requires IsNodeRun(states, actions) && OnlyTicks(actions) && NodeOk(states[0]) && i < |states[0].attrs|
    requires Inv(states[0].attrs[i].ts) && states[0].attrs[i].ts.valid && !states[0].attrs[i].free && states[0].queued
    requires QuietTicks(Alone(states[0], i), TicksOf(actions)) && ShortTicks(Alone(states[0], i), TicksOf(actions), 60)
    requires
      var st := Alone(states[0], i);
      NowOf(st) < st.attr.ts.next.Duration() <= NowOf(Scheduler.Run(st, TicksOf(actions)))
    ensures
      var n, slot := states[|actions|], Use(states[0].period, states[0].attrs[i].ts.next.Duration());
      && NodeOk(n) && |n.attrs| == |states[0].attrs| && n.attrs[i].free
      && NodeStep(n, SubmitFor(i), n.(queued := false, used := states[0].used + [slot]))
      && forall n' :: NodeStep(n, SubmitFor(i), n') ==> n'.used == states[0].used + [slot] && !n'.queued
  {
    var st := Alone(states[0], i);
    var ticks := TicksOf(actions);
    TicksAlone(states, actions, i);
    var n := states[|actions|];
    NodeOkHolds(n, i);
    SameNow(states[0], i) by { NodeOkHolds(states[0], i); }
    SameNow(n, i);
    hide QuietTicks, ShortTicks, NodeOk, IsNodeRun, Inv, AllInv, OneClock, Scheduler.Run, TicksOf;
    WaitingEnds(st, ticks);
    UsedStays(st, ticks);
  }
}
