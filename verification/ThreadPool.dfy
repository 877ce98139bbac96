/** The thread pool as interleaved steps.  Each step is what one thread does while it holds
    the mutex, or the running of a job outside it. */
module ThreadPools {

  /** A worker about to test its wait condition, asleep on it, running a job, or gone. */
  datatype Worker<Job> = Idle | Asleep | Running(job: Job) | Exited

  datatype Pool<Job> = Pool(
    jobs: seq<Job>, shutdown: bool, notifiedAll: bool, workers: seq<Worker<Job>>,
    enqueued: seq<Job>, taken: seq<Job>, finished: seq<Job>)

  datatype Step<Job> =
    | Enqueue(job: Job, woken: nat)
    | Take(i: nat)
    | Sleep(i: nat)
    | Wake(i: nat)
    | Finish(i: nat)
    | Exit(i: nat)
    | SetShutdown
    | NotifyAll

  function Initial<Job>(n: nat): Pool<Job> {
    Pool([], false, false, seq(n, _ => Idle), [], [], [])
  }

  predicate Is<Job(==)>(p: Pool<Job>, i: nat, w: Worker<Job>) { i < |p.workers| && p.workers[i] == w }

  predicate SomeAsleep<Job(==)>(p: Pool<Job>) { exists i :: 0 <= i < |p.workers| && p.workers[i] == Asleep }

  /** Notifying one wakes some sleeper if there is one. */
  predicate Enabled<Job(==)>(p: Pool<Job>, s: Step<Job>) {
    match s
    case Enqueue(_, woken) => if SomeAsleep(p) then Is(p, woken, Asleep) else true
    case Take(i) => Is(p, i, Idle) && p.jobs != []
    case Sleep(i) => Is(p, i, Idle) && p.jobs == [] && !p.shutdown
    case Wake(i) => Is(p, i, Asleep)
    case Finish(i) => i < |p.workers| && p.workers[i].Running?
    case Exit(i) => Is(p, i, Idle) && p.jobs == [] && p.shutdown
    case SetShutdown => !p.shutdown
    case NotifyAll => p.shutdown && !p.notifiedAll
  }

  function Set<Job>(p: Pool<Job>, i: nat, w: Worker<Job>): Pool<Job>
    requires i < |p.workers|
  {
    p.(workers := p.workers[i := w])
  }

  function Awoken<Job>(ws: seq<Worker<Job>>): (r: seq<Worker<Job>>)
    ensures |r| == |ws|
    ensures forall i :: 0 <= i < |ws| ==> r[i] == if ws[i].Asleep? then Idle else ws[i]
  {
    seq(|ws|, i requires 0 <= i < |ws| => if ws[i].Asleep? then Idle else ws[i])
  }

  function Next<Job(==)>(p: Pool<Job>, s: Step<Job>): Pool<Job>
    requires Enabled(p, s)
  {
    match s
    case Enqueue(job, woken) =>
      var q := p.(jobs := p.jobs + [job], enqueued := p.enqueued + [job]);
      if SomeAsleep(p) then Set(q, woken, Idle) else q
    case Take(i) =>
      Set(p.(jobs := p.jobs[1..], taken := p.taken + [p.jobs[0]]), i, Running(p.jobs[0]))
    case Sleep(i) => Set(p, i, Asleep)
    case Wake(i) => Set(p, i, Idle)
    case Finish(i) => Set(p.(finished := p.finished + [p.workers[i].job]), i, Idle)
    case Exit(i) => Set(p, i, Exited)
    case SetShutdown => p.(shutdown := true)
    case NotifyAll => p.(notifiedAll := true, workers := Awoken(p.workers))
  }

  // ----- counting workers

  function IdleCount<Job>(ws: seq<Worker<Job>>): nat {
    if ws == [] then 0 else (if ws[0].Idle? then 1 else 0) + IdleCount(ws[1..])
  }

  function AsleepCount<Job>(ws: seq<Worker<Job>>): nat {
    if ws == [] then 0 else (if ws[0].Asleep? then 1 else 0) + AsleepCount(ws[1..])
  }

  function RunningCount<Job>(ws: seq<Worker<Job>>): nat {
    if ws == [] then 0 else (if ws[0].Running? then 1 else 0) + RunningCount(ws[1..])
  }

  /** The jobs being run, each as often as it is. */
  ghost function RunningJobs<Job>(ws: seq<Worker<Job>>): multiset<Job> {
    if ws == [] then multiset{}
    else (if ws[0].Running? then multiset{ws[0].job} else multiset{}) + RunningJobs(ws[1..])
  }

  function One<Job>(w: Worker<Job>): (int, int, int) {
    (if w.Idle? then 1 else 0, if w.Asleep? then 1 else 0, if w.Running? then 1 else 0)
  }

  ghost function JobOf<Job>(w: Worker<Job>): multiset<Job> {
    if w.Running? then multiset{w.job} else multiset{}
  }

  /** Changing one worker changes the counts by that worker. */
  lemma {:induction false} CountsUpdate<Job>(ws: seq<Worker<Job>>, i: nat, w: Worker<Job>)
    requires i < |ws|
    ensures IdleCount(ws[i := w]) == IdleCount(ws) - One(ws[i]).0 + One(w).0
    ensures AsleepCount(ws[i := w]) == AsleepCount(ws) - One(ws[i]).1 + One(w).1
    ensures RunningCount(ws[i := w]) == RunningCount(ws) - One(ws[i]).2 + One(w).2
  {
    var us := ws[i := w];
    if i == 0 {
      assert us[1..] == ws[1..];
    } else {
      assert us[1..] == ws[1..][i - 1 := w];
      CountsUpdate(ws[1..], i - 1, w);
    }
  }

  lemma {:induction false} JobsUpdate<Job>(ws: seq<Worker<Job>>, i: nat, w: Worker<Job>)
    requires i < |ws|
    ensures RunningJobs(ws[i := w]) + JobOf(ws[i]) == RunningJobs(ws) + JobOf(w)
  {
    var us := ws[i := w];
    if i == 0 {
      assert us[1..] == ws[1..];
      Exchange(JobOf(w), RunningJobs(ws[1..]), JobOf(ws[0]));
    } else {
      assert us[1..] == ws[1..][i - 1 := w];
      JobsUpdate(ws[1..], i - 1, w);
      Regroup(JobOf(ws[0]), RunningJobs(us[1..]), JobOf(ws[i]));
      Regroup(JobOf(ws[0]), RunningJobs(ws[1..]), JobOf(w));
    }
  }

  lemma Exchange<T>(a: multiset<T>, b: multiset<T>, c: multiset<T>)
    ensures (a + b) + c == (c + b) + a
  {
  }

  lemma Regroup<T>(a: multiset<T>, b: multiset<T>, c: multiset<T>)
    ensures (a + b) + c == a + (b + c)
  {
  }

  /** A worker that neither starts nor ends a job leaves the running jobs alone. */
  lemma SameJobs<Job>(ws: seq<Worker<Job>>, i: nat, w: Worker<Job>)
    requires i < |ws| && !ws[i].Running? && !w.Running?
    ensures RunningJobs(ws[i := w]) == RunningJobs(ws)
  {
    JobsUpdate(ws, i, w);
    assert RunningJobs(ws[i := w]) + multiset{} == RunningJobs(ws[i := w]);
    assert RunningJobs(ws) + multiset{} == RunningJobs(ws);
  }

  lemma JobStarts<Job>(ws: seq<Worker<Job>>, i: nat, j: Job)
    requires i < |ws| && !ws[i].Running?
    ensures RunningJobs(ws[i := Running(j)]) == RunningJobs(ws) + multiset{j}
  {
    JobsUpdate(ws, i, Running(j));
    assert RunningJobs(ws[i := Running(j)]) + multiset{} == RunningJobs(ws[i := Running(j)]);
  }

  lemma JobEnds<Job>(ws: seq<Worker<Job>>, i: nat, w: Worker<Job>)
    requires i < |ws| && ws[i].Running? && !w.Running?
    ensures RunningJobs(ws[i := w]) + multiset{ws[i].job} == RunningJobs(ws)
  {
    JobsUpdate(ws, i, w);
    assert RunningJobs(ws) + multiset{} == RunningJobs(ws);
  }

  lemma {:induction false} CountsAwoken<Job>(ws: seq<Worker<Job>>)
    ensures IdleCount(Awoken(ws)) == IdleCount(ws) + AsleepCount(ws)
    ensures AsleepCount(Awoken(ws)) == 0
    ensures RunningCount(Awoken(ws)) == RunningCount(ws)
    ensures RunningJobs(Awoken(ws)) == RunningJobs(ws)
  {
    if ws != [] {
      assert Awoken(ws)[1..] == Awoken(ws[1..]);
      CountsAwoken(ws[1..]);
    }
  }

  lemma {:induction false} AsleepIsCounted<Job>(ws: seq<Worker<Job>>, i: nat)
    requires i < |ws| && ws[i].Asleep?
    ensures AsleepCount(ws) > 0
  {
    if i > 0 {
      AsleepIsCounted(ws[1..], i - 1);
    }
  }

  // ----- what every interleaving keeps

  ghost predicate SomeExited<Job>(p: Pool<Job>) { exists i :: 0 <= i < |p.workers| && p.workers[i].Exited? }

  ghost predicate AllExited<Job>(p: Pool<Job>) { forall i :: 0 <= i < |p.workers| ==> p.workers[i].Exited? }

  ghost predicate Inv<Job>(p: Pool<Job>) {
    // jobs leave the queue once each, in the order they entered it
    && p.taken + p.jobs == p.enqueued
    // a taken job is running or has run, exactly once
    && multiset(p.taken) == multiset(p.finished) + RunningJobs(p.workers)
    // no wake-up is lost: with a sleeper, the awake idle workers cover the queue
    && (AsleepCount(p.workers) > 0 ==> IdleCount(p.workers) >= |p.jobs|)
    // workers leave, and all are notified, only after shutdown
    && (SomeExited(p) ==> p.shutdown)
    && (p.notifiedAll ==> p.shutdown && AsleepCount(p.workers) == 0)
  }

  lemma InitialInv<Job>(n: nat)
    ensures Inv(Initial<Job>(n))
  {
    NothingAsleep<Job>(n);
  }

  lemma {:induction false} NothingAsleep<Job>(n: nat)
    ensures AsleepCount(seq(n, _ => Worker<Job>.Idle)) == 0
    ensures RunningJobs(seq(n, _ => Worker<Job>.Idle)) == multiset{}
  {
    if n > 0 {
      assert seq(n, _ => Worker<Job>.Idle)[1..] == seq(n - 1, _ => Worker<Job>.Idle);
      NothingAsleep<Job>(n - 1);
    }
  }

  lemma StepKeepsInv<Job>(p: Pool<Job>, s: Step<Job>)
    requires Inv(p) && Enabled(p, s)
    ensures Inv(Next(p, s))
  {
    hide RunningJobs, IdleCount, AsleepCount, RunningCount;
    match s
    case Enqueue(job, woken) => EnqueueKeepsInv(p, s);
    case Take(i) => TakeKeepsInv(p, i);
    case Sleep(i) =>
      CountsUpdate(p.workers, i, Asleep);
      SameJobs(p.workers, i, Asleep);
    case Wake(i) =>
      CountsUpdate(p.workers, i, Idle);
      SameJobs(p.workers, i, Idle);
      AsleepIsCounted(p.workers, i);
    case Finish(i) => FinishKeepsInv(p, i);
    case Exit(i) =>
      CountsUpdate(p.workers, i, Exited);
      SameJobs(p.workers, i, Exited);
    case SetShutdown =>
    case NotifyAll => CountsAwoken(p.workers);
  }

  lemma EnqueueKeepsInv<Job>(p: Pool<Job>, s: Step<Job>)
    requires Inv(p) && s.Enqueue? && Enabled(p, s)
    ensures Inv(Next(p, s))
  {
    assert p.taken + (p.jobs + [s.job]) == p.taken + p.jobs + [s.job];
    if SomeAsleep(p) {
      CountsUpdate(p.workers, s.woken, Idle);
      SameJobs(p.workers, s.woken, Idle);
      AsleepIsCounted(p.workers, s.woken);
    } else {
      NoneAsleep(p.workers);
    }
  }

  lemma {:induction false} NoneAsleep<Job>(ws: seq<Worker<Job>>)
    requires forall i :: 0 <= i < |ws| ==> !ws[i].Asleep?
    ensures AsleepCount(ws) == 0
  {
    if ws != [] {
      NoneAsleep(ws[1..]);
    }
  }

  lemma TakeKeepsInv<Job>(p: Pool<Job>, i: nat)
    requires Inv(p) && Enabled(p, Take(i))
    ensures Inv(Next(p, Take(i)))
  {
    hide RunningJobs, IdleCount, AsleepCount, RunningCount;
    var j := p.jobs[0];
    CountsUpdate(p.workers, i, Running(j));
    JobStarts(p.workers, i, j);
    Regroup(multiset(p.finished), RunningJobs(p.workers), multiset{j});
    assert p.taken + [j] + p.jobs[1..] == p.taken + p.jobs;
    assert multiset(p.taken + [j]) == multiset(p.taken) + multiset{j};
    var q := Next(p, Take(i));
    forall k | 0 <= k < |q.workers| && q.workers[k].Exited?
      ensures p.workers[k].Exited?
    {
    }
  }

  lemma FinishKeepsInv<Job>(p: Pool<Job>, i: nat)
    requires Inv(p) && Enabled(p, Finish(i))
    ensures Inv(Next(p, Finish(i)))
  {
    hide RunningJobs, IdleCount, AsleepCount, RunningCount;
    var j := p.workers[i].job;
    CountsUpdate(p.workers, i, Idle);
    JobEnds(p.workers, i, Idle);
    var rest := RunningJobs(p.workers[i := Idle]);
    Exchange(multiset(p.finished), rest, multiset{j});
    assert multiset(p.finished) + (rest + multiset{j}) == multiset(p.finished) + multiset{j} + rest;
    assert multiset(p.finished + [j]) == multiset(p.finished) + multiset{j};
  }

  // ----- runs

  ghost predicate IsRun<Job>(p: Pool<Job>, steps: seq<Step<Job>>)
    decreases |steps|
  {
    steps == [] || (Enabled(p, steps[0]) && IsRun(Next(p, steps[0]), steps[1..]))
  }

  function Run<Job(==)>(p: Pool<Job>, steps: seq<Step<Job>>): Pool<Job>
    requires IsRun(p, steps)
    decreases |steps|
  {
    if steps == [] then p else Run(Next(p, steps[0]), steps[1..])
  }

  lemma {:induction false} RunKeepsInv<Job>(p: Pool<Job>, steps: seq<Step<Job>>)
    requires Inv(p) && IsRun(p, steps)
    ensures Inv(Run(p, steps))
    ensures |Run(p, steps).workers| == |p.workers|
    decreases |steps|
  {
    hide Inv, Enabled, Next;
    if steps != [] {
      StepKeepsInv(p, steps[0]);
      SameWorkers(p, steps[0]);
      RunKeepsInv(Next(p, steps[0]), steps[1..]);
    }
  }

  lemma SameWorkers<Job>(p: Pool<Job>, s: Step<Job>)
    requires Enabled(p, s)
    ensures |Next(p, s).workers| == |p.workers|
  {
  }

  // ----- which jobs are left behind

  /** Some job is enqueued when there is no worker left to take it. */
  ghost predicate Orphans<Job>(p: Pool<Job>, steps: seq<Step<Job>>)
    requires IsRun(p, steps)
    decreases |steps|
  {
    steps != [] && ((steps[0].Enqueue? && AllExited(p)) || Orphans(Next(p, steps[0]), steps[1..]))
  }

  ghost predicate Drained<Job>(p: Pool<Job>) { AllExited(p) ==> p.jobs == [] }

  /** The last worker leaves an empty queue behind. */
  lemma StepKeepsDrained<Job>(p: Pool<Job>, s: Step<Job>)
    requires Drained(p) && Enabled(p, s) && !(s.Enqueue? && AllExited(p))
    ensures Drained(Next(p, s))
  {
    var q := Next(p, s);
    if AllExited(q) && !AllExited(p) {
      var i :| 0 <= i < |p.workers| && !p.workers[i].Exited?;
      assert q.workers[i].Exited?;
    }
  }

  /** An orphaned job stays in the queue for ever. */
  lemma {:induction false} OrphansStay<Job>(p: Pool<Job>, steps: seq<Step<Job>>)
    requires IsRun(p, steps) && AllExited(p) && p.jobs != []
    ensures AllExited(Run(p, steps)) && Run(p, steps).jobs != []
    decreases |steps|
  {
    if steps != [] {
      var q := Next(p, steps[0]);
      assert AllExited(q) && q.jobs != [];
      hide Next;
      OrphansStay(q, steps[1..]);
    }
  }

  /** When all workers have exited, the queue is empty if and only if no job was enqueued after the
      last of them had. */
  lemma {:induction false} LeftBehind<Job>(p: Pool<Job>, steps: seq<Step<Job>>)
    requires IsRun(p, steps) && Drained(p)
    ensures AllExited(Run(p, steps)) ==> (Run(p, steps).jobs == [] <==> !Orphans(p, steps))
    decreases |steps|
  {
    if steps != [] {
      var s, q := steps[0], Next(p, steps[0]);
      if s.Enqueue? && AllExited(p) {
        assert AllExited(q) && q.jobs != [];
        OrphansStay(q, steps[1..]);
      } else {
        StepKeepsDrained(p, s);
        hide Next, Enabled;
        LeftBehind(q, steps[1..]);
      }
    }
  }

  lemma {:induction false} NoneRunning<Job>(ws: seq<Worker<Job>>)
    requires forall i :: 0 <= i < |ws| ==> ws[i].Exited?
    ensures RunningJobs(ws) == multiset{}
  {
    if ws != [] {
      NoneRunning(ws[1..]);
    }
  }

  lemma ExitedHaveRun<Job>(p: Pool<Job>)
    requires Inv(p) && AllExited(p)
    ensures multiset(p.finished) == multiset(p.enqueued) <==> p.jobs == []
  {
    NoneRunning(p.workers);
    assert multiset(p.finished) == multiset(p.taken);
    assert p.enqueued == p.taken + p.jobs;
    if p.jobs != [] {
      assert |multiset(p.enqueued)| == |multiset(p.taken)| + |p.jobs|;
    } else {
      assert p.taken + [] == p.taken;
    }
  }

  /** Over every interleaving from the start, for every number of workers, none included: jobs are
      taken in FIFO order, once each; no wake-up is lost; and when all workers have exited, the
      queue is empty and every job has been run, each as often as it was enqueued, if and only if
      no job was enqueued after the last worker had exited. */
  lemma PoolSafety<Job>(n: nat, steps: seq<Step<Job>>)
    requires IsRun(Initial<Job>(n), steps)
    ensures
      var p := Run(Initial(n), steps);
      && p.taken <= p.enqueued && p.jobs == p.enqueued[|p.taken|..]
      && (SomeAsleep(p) ==> IdleCount(p.workers) >= |p.jobs|)
      && (AllExited(p) ==> (p.jobs == [] <==> !Orphans(Initial(n), steps)))
      && (AllExited(p) ==> (multiset(p.finished) == multiset(p.enqueued) <==> !Orphans(Initial(n), steps)))
  {
    InitialInv<Job>(n);
    RunKeepsInv(Initial(n), steps);
    LeftBehind(Initial(n), steps);
    var p := Run(Initial(n), steps);
    assert p.enqueued[..|p.taken|] == p.taken;
    if SomeAsleep(p) {
      var i :| 0 <= i < |p.workers| && p.workers[i] == Asleep;
      AsleepIsCounted(p.workers, i);
    }
    if AllExited(p) {
      ExitedHaveRun(p);
    }
  }

  /** Some job is enqueued after the shutdown flag has been set. */
  ghost predicate Late<Job>(p: Pool<Job>, steps: seq<Step<Job>>)
    requires IsRun(p, steps)
    decreases |steps|
  {
    steps != [] && ((steps[0].Enqueue? && p.shutdown) || Late(Next(p, steps[0]), steps[1..]))
  }

  /** In a pool that has workers, jobs enqueued before shutdown are never left behind. */
  lemma {:induction false} OnlyLateJobsAreOrphans<Job>(p: Pool<Job>, steps: seq<Step<Job>>)
    requires Inv(p) && IsRun(p, steps) && p.workers != [] && !Late(p, steps)
    ensures !Orphans(p, steps)
    decreases |steps|
  {
    if steps != [] {
      if AllExited(p) {
        assert p.workers[0].Exited?;
      }
      hide Inv, Enabled, Next;
      StepKeepsInv(p, steps[0]);
      SameWorkers(p, steps[0]);
      OnlyLateJobsAreOrphans(Next(p, steps[0]), steps[1..]);
    }
  }

  // ----- shutdown completes

  /** Decreases with every step once all have been notified. */
  function Measure<Job>(p: Pool<Job>): nat {
    3 * |p.jobs| + 2 * RunningCount(p.workers) + IdleCount(p.workers)
  }

  lemma WorkDecreases<Job>(p: Pool<Job>, s: Step<Job>)
    requires Inv(p) && p.notifiedAll && Enabled(p, s) && !s.Enqueue?
    ensures Measure(Next(p, s)) < Measure(p)
    ensures Next(p, s).notifiedAll
  {
    match s
    case Take(i) => CountsUpdate(p.workers, i, Running(p.jobs[0]));
    case Wake(i) => AsleepIsCounted(p.workers, i);
    case Finish(i) => CountsUpdate(p.workers, i, Idle);
    case Exit(i) => CountsUpdate(p.workers, i, Exited);
    case _ =>
  }

  /** Nobody is left waiting: while a worker remains, some step is possible. */
  lemma WorkerCanStep<Job>(p: Pool<Job>, i: nat)
    requires Inv(p) && p.notifiedAll && i < |p.workers| && !p.workers[i].Exited?
    ensures Enabled(p, Take(i)) || Enabled(p, Exit(i)) || Enabled(p, Finish(i))
  {
    if p.workers[i].Asleep? {
      AsleepIsCounted(p.workers, i);
    }
  }

  ghost predicate NoEnqueue<Job>(steps: seq<Step<Job>>) {
    forall i :: 0 <= i < |steps| ==> !steps[i].Enqueue?
  }

  /** After the notification every interleaving is finite, and one that cannot be
      continued has joined all workers, with the queue drained and every job run. */
  lemma {:induction false} ShutdownCompletes<Job>(p: Pool<Job>, steps: seq<Step<Job>>)
    requires Inv(p) && p.notifiedAll && Drained(p)
    requires IsRun(p, steps) && NoEnqueue(steps)
    ensures |steps| <= Measure(p)
    ensures
      var q := Run(p, steps);
      (forall s: Step<Job> :: !s.Enqueue? ==> !Enabled(q, s)) ==>
        AllExited(q) && q.jobs == [] && multiset(q.finished) == multiset(q.enqueued)
    decreases |steps|
  {
    if steps == [] {
      if forall s: Step<Job> :: !s.Enqueue? ==> !Enabled(p, s) {
        StuckMeansJoined(p);
      }
    } else {
      StepKeepsInv(p, steps[0]);
      StepKeepsDrained(p, steps[0]);
      WorkDecreases(p, steps[0]);
      hide Inv, Enabled, Next, Drained;
      ShutdownCompletes(Next(p, steps[0]), steps[1..]);
    }
  }

  lemma StuckMeansJoined<Job>(p: Pool<Job>)
    requires Inv(p) && p.notifiedAll && Drained(p)
    requires forall s: Step<Job> :: !s.Enqueue? ==> !Enabled(p, s)
    ensures AllExited(p) && p.jobs == [] && multiset(p.finished) == multiset(p.enqueued)
  {
    StuckHaveExited(p);
    ExitedHaveRun(p);
  }

  // ----- from the start

  ghost predicate Includes<Job>(steps: seq<Step<Job>>, s: Step<Job>) { exists i :: 0 <= i < |steps| && steps[i] == s }

  lemma IncludesCons<Job>(steps: seq<Step<Job>>, s: Step<Job>)
    requires steps != []
    ensures Includes(steps, s) <==> steps[0] == s || Includes(steps[1..], s)
  {
    if Includes(steps, s) {
      var i :| 0 <= i < |steps| && steps[i] == s;
      assert i > 0 ==> steps[1..][i - 1] == s;
    }
    if Includes(steps[1..], s) {
      var i :| 0 <= i < |steps[1..]| && steps[1..][i] == s;
      assert steps[i + 1] == s;
    }
  }

  /** The flags tell the history: shutdown is set by its step and by nothing else, for good, and so is the
      notification of all. */
  lemma {:induction false} FlagsTell<Job>(p: Pool<Job>, steps: seq<Step<Job>>)
    requires IsRun(p, steps)
    ensures Run(p, steps).shutdown <==> p.shutdown || Includes(steps, SetShutdown)
    ensures Run(p, steps).notifiedAll <==> p.notifiedAll || Includes(steps, NotifyAll)
    decreases |steps|
  {
    if steps != [] {
      IncludesCons(steps, SetShutdown);
      IncludesCons(steps, NotifyAll);
      StepFlags(p, steps[0]);
      hide Next, Enabled, Includes;
      FlagsTell(Next(p, steps[0]), steps[1..]);
    }
  }

  lemma StepFlags<Job>(p: Pool<Job>, s: Step<Job>)
    requires Enabled(p, s)
    ensures Next(p, s).shutdown <==> p.shutdown || s == SetShutdown
    ensures Next(p, s).notifiedAll <==> p.notifiedAll || s == NotifyAll
  {
  }

  /** Nothing ever blocks the pool: a job can be enqueued in every state, and a worker that is left can go on,
      an idle one in exactly one way. */
  lemma EveryoneCanGoOn<Job>(p: Pool<Job>, job: Job, i: nat)
    requires i < |p.workers|
    ensures exists woken: nat :: Enabled(p, Enqueue(job, woken))
    ensures p.workers[i] == Idle ==>
              && (Enabled(p, Take(i)) <==> p.jobs != [])
              && (Enabled(p, Sleep(i)) <==> p.jobs == [] && !p.shutdown)
              && (Enabled(p, Exit(i)) <==> p.jobs == [] && p.shutdown)
    ensures p.workers[i] == Asleep ==> Enabled(p, Wake(i))
    ensures p.workers[i].Running? ==> Enabled(p, Finish(i))
  {
    if SomeAsleep(p) {
      var k :| 0 <= k < |p.workers| && p.workers[k] == Asleep;
      assert Enabled(p, Enqueue(job, k));
    } else {
      assert Enabled(p, Enqueue(job, 0));
    }
  }

  /** The jobs handed in, in order. */
  function JobsOf<Job>(steps: seq<Step<Job>>): seq<Job> {
    if steps == [] then [] else (if steps[0].Enqueue? then [steps[0].job] else []) + JobsOf(steps[1..])
  }

  function Takes<Job>(steps: seq<Step<Job>>): nat {
    if steps == [] then 0 else (if steps[0].Take? then 1 else 0) + Takes(steps[1..])
  }

  function Finishes<Job>(steps: seq<Step<Job>>): nat {
    if steps == [] then 0 else (if steps[0].Finish? then 1 else 0) + Finishes(steps[1..])
  }

  lemma StepHistory<Job>(p: Pool<Job>, s: Step<Job>)
    requires Enabled(p, s)
    ensures Next(p, s).enqueued == p.enqueued + (if s.Enqueue? then [s.job] else [])
    ensures Next(p, s).jobs == (if s.Take? then p.jobs[1..] else p.jobs + if s.Enqueue? then [s.job] else [])
    ensures |Next(p, s).taken| == |p.taken| + if s.Take? then 1 else 0
    ensures |Next(p, s).finished| == |p.finished| + if s.Finish? then 1 else 0
    ensures |Next(p, s).workers| == |p.workers|
  {
  }

  /** The histories tell the run: every job handed in has been enqueued, in order, and as many have been
      taken and run as workers took and finished them; no worker comes or goes. */
  lemma {:induction false} HistoriesTell<Job>(p: Pool<Job>, steps: seq<Step<Job>>)
    requires IsRun(p, steps)
    ensures
      var q := Run(p, steps);
      && q.enqueued == p.enqueued + JobsOf(steps) && |q.workers| == |p.workers|
      && |q.taken| == |p.taken| + Takes(steps) && |q.finished| == |p.finished| + Finishes(steps)
    decreases |steps|
  {
    if steps != [] {
      StepHistory(p, steps[0]);
      hide Next, Enabled;
      var p' := Next(p, steps[0]);
      HistoriesTell(p', steps[1..]);
      assert p'.enqueued + JobsOf(steps[1..]) == p.enqueued + JobsOf(steps);
    }
  }

  /** From the start: as many workers as asked for, and the queue holds the jobs handed in that have not been
      taken, in order. */
  lemma QueueTells<Job>(n: nat, steps: seq<Step<Job>>)
    requires IsRun(Initial<Job>(n), steps)
    ensures
      var p := Run(Initial(n), steps);
      && |p.workers| == n && |p.taken| == Takes(steps) <= |JobsOf(steps)|
      && p.taken == JobsOf(steps)[..Takes(steps)] && p.jobs == JobsOf(steps)[Takes(steps)..]
      && |p.finished| == Finishes(steps)
  {
    HistoriesTell(Initial<Job>(n), steps);
    PoolSafety<Job>(n, steps);
    hide Run, IsRun;
  }

  /** A step of a worker moves that worker, and no other, as it says; so does an enqueue the one it wakes. */
  lemma OneWorkerMoves<Job>(p: Pool<Job>, s: Step<Job>, i: nat)
    requires Enabled(p, s) && s != NotifyAll && i < |p.workers|
    ensures
      var was, now := p.workers[i], Next(p, s).workers[i];
      && |Next(p, s).workers| == |p.workers|
      && (s == Take(i) ==> was == Idle && p.jobs != [] && now == Running(p.jobs[0]))
      && (s == Sleep(i) ==> was == Idle && now == Asleep)
      && (s == Wake(i) ==> was == Asleep && now == Idle)
      && (s == Finish(i) ==> was.Running? && now == Idle)
      && (s == Exit(i) ==> was == Idle && now == Exited)
      && (s.Enqueue? && SomeAsleep(p) && s.woken == i ==> was == Asleep && now == Idle)
      && (was != now ==> s in {Take(i), Sleep(i), Wake(i), Finish(i), Exit(i)} || (s.Enqueue? && s.woken == i))
  {
  }

  /** A pool that has been shut down goes on until all are notified and joined: from the start, every run
      with a shutdown that cannot go on without an enqueue has notified all, and all workers have exited;
      every job has been run if and only if none was enqueued after the last had, as when there are workers
      and nothing was enqueued after the shutdown. */
  lemma ShutdownJoinsAll<Job>(n: nat, steps: seq<Step<Job>>)
    requires IsRun(Initial<Job>(n), steps) && Includes(steps, SetShutdown)
    ensures
      var p := Run(Initial(n), steps);
      && p.shutdown && (!p.notifiedAll ==> Enabled(p, NotifyAll))
      && ((forall s: Step<Job> :: !s.Enqueue? ==> !Enabled(p, s)) ==>
           && Includes(steps, NotifyAll) && AllExited(p)
           && (p.jobs == [] && multiset(p.finished) == multiset(p.enqueued) <==> !Orphans(Initial(n), steps))
           && (n > 0 && !Late(Initial(n), steps) ==> p.jobs == [] && multiset(p.finished) == multiset(p.enqueued)))
  {
    var start := Initial<Job>(n);
    InitialInv<Job>(n);
    FlagsTell(start, steps);
    RunKeepsInv(start, steps);
    PoolSafety<Job>(n, steps);
    var p := Run(start, steps);
    assert start.workers != [] <==> n > 0;
    if n > 0 && !Late(start, steps) {
      OnlyLateJobsAreOrphans(start, steps);
    }
    hide Inv, Run, Orphans, Late, IsRun, Includes;
    assert Enabled(p, NotifyAll) <==> p.shutdown && !p.notifiedAll;
    if forall s: Step<Job> :: !s.Enqueue? ==> !Enabled(p, s) {
      assert p.notifiedAll;
      StuckHaveExited(p);
    }
  }

  lemma StuckHaveExited<Job>(p: Pool<Job>)
    requires Inv(p) && p.notifiedAll
    requires forall s: Step<Job> :: !s.Enqueue? ==> !Enabled(p, s)
    ensures AllExited(p)
  {
    forall i | 0 <= i < |p.workers|
      ensures p.workers[i].Exited?
    {
      if !p.workers[i].Exited? {
        WorkerCanStep(p, i);
      }
    }
  }

  /** Shutting down is possible until it has been done. */
  lemma ShutdownIsPossible<Job>(n: nat, steps: seq<Step<Job>>)
    requires IsRun(Initial<Job>(n), steps)
    ensures Enabled(Run(Initial(n), steps), SetShutdown) <==> !Includes(steps, SetShutdown)
  {
    FlagsTell(Initial<Job>(n), steps);
  }
}
