/** How the local counts reach the shared one, at the grain of single reads and writes, with a
    reporter that may take the shared count and reset it.

    - `Atomic`: `addAndGet` and `getAndSet(0)` in StreamSumApp (Java and Scala)
    - `Mutex`:  `counter.value += n` under `get_lock()` in Python (no reporter reset), and
                `$send_counter += n`, `$send_counter = 0` under a mutex in the Ruby producer
    - `Unguarded`: the same reads and writes without the lock, for comparison
  */
module SharedCounter {
  import opened Totals
  import B = BatchedWorkers

  datatype Guard = Atomic | Mutex | Unguarded

  /** `stops`: the workers look at the counter before each record, as in Python; the others run on.
      `resets`: there is a reporter that takes the count away. */
  datatype Config = Config(guard: Guard, stops: bool, total: nat, batch: nat, resets: bool)

  predicate Sensible(c: Config) {
    c.total > 0 && c.batch > 0
  }

  datatype Pc = AtCheck | Working | Wants | Holding | HasRead | Wrote | Released | Exited

  datatype Worker = Worker(pc: Pc, sent: nat, local: nat, seen: nat)

  datatype ReporterPc = Sleeping | Inside | Copied | Zeroed | Reporting

  datatype Reporter = Reporter(pc: ReporterPc, count: nat, reported: nat)

  datatype Holder = Nobody | WorkerHolds(i: nat) | ReporterHolds

  datatype System = System(counter: nat, holder: Holder, workers: seq<Worker>, reporter: Reporter)

  const IdleReporter := Reporter(Sleeping, 0, 0)

  ghost predicate Initial(s: System) {
    && s.counter == 0 && s.holder.Nobody? && s.reporter == IdleReporter
    && forall i | 0 <= i < |s.workers| :: s.workers[i] == Worker(AtCheck, 0, 0, 0)
  }

  datatype WorkerAction = Check | NoRecord | Work | Enter | ReadCount | WriteSum | Leave | AtomicAdd | Reset

  predicate Enabled(c: Config, holder: Holder, w: Worker, a: WorkerAction) {
    match a
    case Check => w.pc.AtCheck?
    case NoRecord => w.pc.Working?
    case Work => w.pc.Working?
    case Enter => w.pc.Wants? && ((c.guard.Mutex? && holder.Nobody?) || c.guard.Unguarded?)
    case ReadCount => w.pc.Holding?
    case WriteSum => w.pc.HasRead?
    case Leave => w.pc.Wrote?
    case AtomicAdd => w.pc.Wants? && c.guard.Atomic?
    case Reset => w.pc.Released?
  }

  function Act(c: Config, counter: nat, w: Worker, a: WorkerAction): Worker {
    match a
    case Check => w.(pc := if c.stops && counter >= c.total then Exited else Working)
    case NoRecord => w.(pc := AtCheck)
    case Work => Worker(if w.local + 1 >= c.batch then Wants else AtCheck, w.sent + 1, w.local + 1, w.seen)
    case Enter => w.(pc := Holding)
    case ReadCount => w.(pc := HasRead, seen := counter)
    case WriteSum => w.(pc := Wrote)
    case Leave => w.(pc := Released)
    case AtomicAdd => w.(pc := Released)
    case Reset => w.(pc := AtCheck, local := 0)
  }

  function CounterAfter(counter: nat, w: Worker, a: WorkerAction): nat {
    match a
    case WriteSum => w.seen + w.local
    case AtomicAdd => counter + w.local
    case _ => counter
  }

  function HolderAfter(c: Config, holder: Holder, i: nat, a: WorkerAction): Holder {
    match a
    case Enter => if c.guard.Mutex? then WorkerHolds(i) else holder
    case Leave => if c.guard.Mutex? then Nobody else holder
    case _ => holder
  }

  ghost predicate WorkerStep(c: Config, s: System, s': System, i: nat, a: WorkerAction) {
    && i < |s.workers|
    && Enabled(c, s.holder, s.workers[i], a)
    && s' == System(CounterAfter(s.counter, s.workers[i], a), HolderAfter(c, s.holder, i, a),
                    s.workers[i := Act(c, s.counter, s.workers[i], a)], s.reporter)
  }

  ghost predicate ReporterStep(c: Config, s: System, s': System) {
    && c.resets
    && match s.reporter.pc
       case Sleeping =>
         if c.guard.Atomic? then
           s' == s.(counter := 0, reporter := s.reporter.(pc := Reporting, count := s.counter))
         else
           && (c.guard.Mutex? ==> s.holder.Nobody?)
           && s' == s.(holder := if c.guard.Mutex? then ReporterHolds else s.holder,
                       reporter := s.reporter.(pc := Inside))
       case Inside => s' == s.(reporter := s.reporter.(pc := Copied, count := s.counter))
       case Copied => s' == s.(counter := 0, reporter := s.reporter.(pc := Zeroed))
       case Zeroed =>
         s' == s.(holder := if c.guard.Mutex? then Nobody else s.holder, reporter := s.reporter.(pc := Reporting))
       case Reporting =>
         s' == s.(reporter := Reporter(Sleeping, 0, s.reporter.reported + s.reporter.count))
  }

  ghost predicate Next(c: Config, s: System, s': System) {
    ReporterStep(c, s, s') || exists i: nat, a :: WorkerStep(c, s, s', i, a)
  }

  ghost predicate IsRun(c: Config, run: seq<System>) {
    && run != [] && Initial(run[0])
    && forall k | 0 <= k < |run| - 1 :: Next(c, run[k], run[k + 1])
  }

  ghost predicate Reachable(c: Config, s: System) {
    exists run :: IsRun(c, run) && run[|run| - 1] == s
  }

  // ----- conservation -----

  function Sent(w: Worker): int {
    w.sent
  }

  /** What a worker has counted but not yet passed on. */
  function Outstanding(w: Worker): int {
    if w.pc.Wrote? || w.pc.Released? then 0 else w.local
  }

  /** What the reporter has taken but not yet reported. */
  function Taken(r: Reporter): nat {
    if r.pc.Zeroed? || r.pc.Reporting? then r.count else 0
  }

  /** Nothing is lost and nothing counted twice. */
  ghost predicate Conserved(s: System) {
    s.reporter.reported + Taken(s.reporter) + s.counter + Total(s.workers, Outstanding) == Total(s.workers, Sent)
  }

  predicate Critical(w: Worker) {
    w.pc.Holding? || w.pc.HasRead? || w.pc.Wrote?
  }

  predicate ReporterCritical(r: Reporter) {
    r.pc.Inside? || r.pc.Copied? || r.pc.Zeroed?
  }

  /** The lock is held by exactly who is between acquiring and releasing it, and a value read under
      it is still current. */
  ghost predicate Exclusive(c: Config, s: System) {
    && (forall i | 0 <= i < |s.workers| ::
          && (Critical(s.workers[i]) <==> s.holder == WorkerHolds(i))
          && (s.workers[i].pc.HasRead? ==> s.workers[i].seen == s.counter))
    && (s.holder.WorkerHolds? ==> s.holder.i < |s.workers|)
    && (ReporterCritical(s.reporter) <==> s.holder.ReporterHolds?)
    && (s.reporter.pc.Copied? ==> s.reporter.count == s.counter)
    && (c.guard.Atomic? ==> s.holder.Nobody?)
  }

  /** The local count is what has been sent since the last whole batch; an addition is under way
      exactly at a whole batch; and only workers that look at the counter ever leave. */
  predicate Batched(c: Config, w: Worker)
    requires Sensible(c)
  {
    match w.pc
    case AtCheck => w.local == w.sent % c.batch
    case Working => w.local == w.sent % c.batch
    case Exited => w.local == w.sent % c.batch && c.stops
    case _ => w.local == c.batch && w.sent % c.batch == 0
  }

  ghost predicate Inv(c: Config, s: System) {
    && Exclusive(c, s) && Conserved(s) && (!c.resets ==> s.reporter == IdleReporter)
    && (Sensible(c) ==> forall i | 0 <= i < |s.workers| :: Batched(c, s.workers[i]))
  }

  lemma StepBatched(c: Config, counter: nat, holder: Holder, w: Worker, a: WorkerAction)
    requires Sensible(c) && Batched(c, w) && Enabled(c, holder, w, a)
    ensures Batched(c, Act(c, counter, w, a))
  {
    B.HandleBatches(c.batch, w.sent);
  }

  lemma WorkerExclusive(c: Config, s: System, s': System, i: nat, a: WorkerAction)
    requires !c.guard.Unguarded? && Exclusive(c, s) && WorkerStep(c, s, s', i, a)
    ensures Exclusive(c, s')
    ensures a.WriteSum? ==> s'.counter == s.counter + s.workers[i].local
  {
    assert Critical(s.workers[i]) <==> s.holder == WorkerHolds(i);
    forall k | 0 <= k < |s'.workers|
      ensures Critical(s'.workers[k]) <==> s'.holder == WorkerHolds(k)
      ensures s'.workers[k].pc.HasRead? ==> s'.workers[k].seen == s'.counter
    {
      assert Critical(s.workers[k]) <==> s.holder == WorkerHolds(k);
      assert k != i ==> s'.workers[k] == s.workers[k];
    }
  }

  lemma WorkerConserves(c: Config, s: System, s': System, i: nat, a: WorkerAction)
    requires Conserved(s) && WorkerStep(c, s, s', i, a)
    requires a.WriteSum? ==> s'.counter == s.counter + s.workers[i].local
    ensures Conserved(s')
  {
    var w' := Act(c, s.counter, s.workers[i], a);
    TotalUpdate(s.workers, i, w', Outstanding);
    TotalUpdate(s.workers, i, w', Sent);
  }

  lemma NextInv(c: Config, s: System, s': System)
    requires !c.guard.Unguarded? && Inv(c, s) && Next(c, s, s')
    ensures Inv(c, s')
  {
    if ReporterStep(c, s, s') {
      ReporterInv(c, s, s');
    } else {
      var i: nat, a :| WorkerStep(c, s, s', i, a);
      WorkerExclusive(c, s, s', i, a);
      WorkerConserves(c, s, s', i, a);
      WorkersBatched(c, s, s', i, a);
    }
  }

  lemma WorkersBatched(c: Config, s: System, s': System, i: nat, a: WorkerAction)
    requires WorkerStep(c, s, s', i, a)
    requires Sensible(c) ==> forall k | 0 <= k < |s.workers| :: Batched(c, s.workers[k])
    ensures Sensible(c) ==> forall k | 0 <= k < |s'.workers| :: Batched(c, s'.workers[k])
  {
    if Sensible(c) {
      StepBatched(c, s.counter, s.holder, s.workers[i], a);
      forall k | 0 <= k < |s'.workers| ensures Batched(c, s'.workers[k]) {
        assert k != i ==> s'.workers[k] == s.workers[k];
      }
    }
  }

  lemma ReporterInv(c: Config, s: System, s': System)
    requires !c.guard.Unguarded? && Inv(c, s) && ReporterStep(c, s, s')
    ensures Inv(c, s')
  {
  }

  lemma ReachableInv(c: Config, s: System)
    requires !c.guard.Unguarded? && Reachable(c, s)
    ensures Inv(c, s)
  {
    var run :| IsRun(c, run) && run[|run| - 1] == s;
    RunInv(c, run);
  }

  lemma Shorter(c: Config, run: seq<System>)
    requires IsRun(c, run) && |run| > 1
    ensures IsRun(c, run[..|run| - 1]) && Next(c, run[|run| - 2], run[|run| - 1])
  {
    var init := run[..|run| - 1];
    forall k | 0 <= k < |init| - 1 ensures Next(c, init[k], init[k + 1]) {
      assert Next(c, run[k], run[k + 1]);
    }
    assert Next(c, run[|run| - 2], run[|run| - 2 + 1]);
  }

  lemma {:induction false} RunInv(c: Config, run: seq<System>)
    requires !c.guard.Unguarded? && IsRun(c, run)
    ensures Inv(c, run[|run| - 1])
    decreases |run|
  {
    if |run| == 1 {
      TotalAlike(run[0].workers, Outstanding, 0);
      TotalAlike(run[0].workers, Sent, 0);
    } else {
      Shorter(c, run);
      hide Next, Inv;
      RunInv(c, run[..|run| - 1]);
      NextInv(c, run[|run| - 2], run[|run| - 1]);
    }
  }

  /** What a worker holds back is exactly what it has sent since its last whole batch, or that batch
      while the addition is under way; and where the workers do not look at the counter, none leaves. */
  lemma HeldBack(c: Config, s: System, i: nat)
    requires Sensible(c) && !c.guard.Unguarded? && Reachable(c, s) && i < |s.workers|
    ensures var w := s.workers[i];
            && Outstanding(w) == (if w.pc.Wants? || w.pc.Holding? || w.pc.HasRead? then c.batch
                                  else w.sent % c.batch)
            && (w.pc.Exited? ==> c.stops)
  {
    hide Reachable;
    ReachableInv(c, s);
    assert Batched(c, s.workers[i]);
  }

  // ----- what the reporter reports -----

  /** A report from beginning to end, without a step of a worker in between. */
  ghost predicate IsReport(c: Config, run: seq<System>) {
    && |run| > 1
    && (forall k | 0 <= k < |run| - 1 :: ReporterStep(c, run[k], run[k + 1]))
    && (forall k | 0 <= k < |run| :: run[k].reporter.pc.Sleeping? <==> k == 0 || k == |run| - 1)
  }

  ghost predicate MidReport(start: System, s: System) {
    && s.workers == start.workers && s.reporter.reported == start.reporter.reported
    && match s.reporter.pc
       case Sleeping => true
       case Inside => s.counter == start.counter
       case Copied => s.counter == s.reporter.count == start.counter
       case Zeroed => s.counter == 0 && s.reporter.count == start.counter
       case Reporting => s.counter == 0 && s.reporter.count == start.counter
  }

  lemma {:induction false} ReportSoFar(c: Config, run: seq<System>, k: nat)
    requires IsReport(c, run) && 0 < k < |run| - 1
    ensures MidReport(run[0], run[k])
    decreases k
  {
    assert ReporterStep(c, run[k - 1], run[k - 1 + 1]);
    if k > 1 {
      ReportSoFar(c, run, k - 1);
    }
  }

  /** A report raises what was reported by exactly the shared count, and leaves that at 0. */
  lemma ReportTakes(c: Config, run: seq<System>)
    requires IsReport(c, run)
    ensures var start, end := run[0], run[|run| - 1];
            && end.reporter.reported == start.reporter.reported + start.counter
            && end.counter == 0 && end.workers == start.workers
  {
    var n := |run| - 1;
    assert ReporterStep(c, run[n - 1], run[n - 1 + 1]);
    if n > 1 {
      ReportSoFar(c, run, n - 1);
    }
  }

  /** ... so that then everything sent has been reported but what the workers still hold. */
  lemma ReportedExactly(c: Config, run: seq<System>)
    requires !c.guard.Unguarded? && IsReport(c, run) && Reachable(c, run[0])
    ensures var end := run[|run| - 1];
            end.reporter.reported == Total(end.workers, Sent) - Total(end.workers, Outstanding)
  {
    hide Reachable;
    ReachableInv(c, run[0]);
    ReportTakes(c, run);
  }

  /** The reporter can report whenever it is idle and the lock is free. */
  lemma CanReport(c: Config, s: System) returns (run: seq<System>)
    requires c.resets && s.reporter.pc.Sleeping? && (c.guard.Mutex? ==> s.holder.Nobody?)
    ensures IsReport(c, run) && run[0] == s
  {
    var r := s.reporter;
    var end := s.(counter := 0, reporter := Reporter(Sleeping, 0, r.reported + s.counter));
    var last := s.(counter := 0, reporter := r.(pc := Reporting, count := s.counter));
    if c.guard.Atomic? {
      run := [s, last, end];
    } else {
      var held := if c.guard.Mutex? then ReporterHolds else s.holder;
      run := [s,
              s.(holder := held, reporter := r.(pc := Inside)),
              s.(holder := held, reporter := r.(pc := Copied, count := s.counter)),
              s.(holder := held, counter := 0, reporter := r.(pc := Zeroed, count := s.counter)),
              last, end];
    }
  }

  // ----- the end of a run -----

  ghost predicate Follows(c: Config, run: seq<System>) {
    run != [] && forall k | 0 <= k < |run| - 1 :: Next(c, run[k], run[k + 1])
  }

  /** What a worker can still do once the target is reached: one record, one addition, one check. */
  function Left(c: Config): Worker -> int {
    (w: Worker) =>
      match w.pc
      case Exited => 0
      case AtCheck => 1
      case Released => 2
      case Wrote => 3
      case HasRead => 4
      case Holding => if c.guard.Atomic? then 4 else 5
      case Wants => if c.guard.Atomic? then 3 else 6
      case Working => if c.guard.Atomic? then 4 else 7
  }

  lemma LeftShrinks(c: Config, counter: nat, holder: Holder, w: Worker, a: WorkerAction)
    requires Enabled(c, holder, w, a) && c.stops && counter >= c.total && (c.guard.Atomic? ==> !Critical(w))
    ensures Left(c)(Act(c, counter, w, a)) < Left(c)(w)
  {
  }

  lemma LeftStep(c: Config, s: System, s': System)
    requires Inv(c, s) && Next(c, s, s') && !c.guard.Unguarded? && c.stops && !c.resets && s.counter >= c.total
    ensures Total(s'.workers, Left(c)) < Total(s.workers, Left(c))
    ensures s'.counter >= s.counter && Inv(c, s')
  {
    NextInv(c, s, s');
    var i: nat, a :| WorkerStep(c, s, s', i, a);
    WorkerExclusive(c, s, s', i, a);
    assert Critical(s.workers[i]) <==> s.holder == WorkerHolds(i);
    LeftShrinks(c, s.counter, s.holder, s.workers[i], a);
    hide Left, Inv;
    TotalUpdate(s.workers, i, s'.workers[i], Left(c));
  }

  lemma {:induction false} LeftRun(c: Config, run: seq<System>)
    requires Follows(c, run) && Inv(c, run[0]) && !c.guard.Unguarded? && c.stops && !c.resets
    requires run[0].counter >= c.total
    ensures |run| - 1 <= Total(run[0].workers, Left(c))
    decreases |run|
  {
    if |run| == 1 {
      LeftNonNegative(c, run[0].workers);
    } else {
      var tail := run[1..];
      assert Next(c, run[0], run[0 + 1]);
      forall k | 0 <= k < |tail| - 1 ensures Next(c, tail[k], tail[k + 1]) {
        assert Next(c, run[k + 1], run[k + 1 + 1]);
      }
      hide Next, Inv;
      LeftStep(c, run[0], run[1]);
      LeftRun(c, tail);
    }
  }

  lemma LeftNonNegative(c: Config, ws: seq<Worker>)
    ensures Total(ws, Left(c)) >= 0
  {
    TotalNonNegative(ws, Left(c));
  }

  /** The lock-level workers, too, are gone within a fixed number of steps each once the counter has
      reached the target. */
  lemma ShutdownBound(c: Config, run: seq<System>)
    requires Follows(c, run) && Reachable(c, run[0]) && !c.guard.Unguarded? && c.stops && !c.resets
    requires run[0].counter >= c.total
    ensures |run| - 1 <= |run[0].workers| * if c.guard.Atomic? then 4 else 7
  {
    hide Reachable;
    ReachableInv(c, run[0]);
    LeftRun(c, run);
    TotalBound(run[0].workers, Left(c), if c.guard.Atomic? then 4 else 7);
  }

  ghost predicate WithoutRecord(c: Config, s: System, s': System) {
    ReporterStep(c, s, s') || exists i: nat, a :: WorkerStep(c, s, s', i, a) && !a.Work?
  }

  lemma CanStep(c: Config, s: System, i: nat, a: WorkerAction)
    requires i < |s.workers| && Enabled(c, s.holder, s.workers[i], a) && !a.Work?
    ensures exists s' :: WithoutRecord(c, s, s')
  {
    var w := s.workers[i];
    var s' := System(CounterAfter(s.counter, w, a), HolderAfter(c, s.holder, i, a),
                     s.workers[i := Act(c, s.counter, w, a)], s.reporter);
    assert WorkerStep(c, s, s', i, a);
    assert WithoutRecord(c, s, s');
  }

  /** Whoever holds the lock can go on. */
  lemma HolderSteps(c: Config, s: System)
    requires Exclusive(c, s) && c.guard.Mutex? && !s.holder.Nobody? && (!c.resets ==> s.reporter == IdleReporter)
    ensures exists s' :: WithoutRecord(c, s, s')
  {
    if s.holder.WorkerHolds? {
      var i := s.holder.i;
      assert Critical(s.workers[i]);
      var pc := s.workers[i].pc;
      CanStep(c, s, i, if pc.Holding? then ReadCount else if pc.HasRead? then WriteSum else Leave);
    } else {
      ReporterGoesOn(c, s);
    }
  }

  lemma ReporterGoesOn(c: Config, s: System)
    requires c.resets && (!s.reporter.pc.Sleeping? || s.holder.Nobody?)
    ensures exists s' :: WithoutRecord(c, s, s')
  {
    var r := s.reporter;
    var s' :=
      match r.pc
      case Sleeping =>
        if c.guard.Atomic? then s.(counter := 0, reporter := r.(pc := Reporting, count := s.counter))
        else s.(holder := if c.guard.Mutex? then ReporterHolds else s.holder, reporter := r.(pc := Inside))
      case Inside => s.(reporter := r.(pc := Copied, count := s.counter))
      case Copied => s.(counter := 0, reporter := r.(pc := Zeroed))
      case Zeroed => s.(holder := if c.guard.Mutex? then Nobody else s.holder, reporter := r.(pc := Reporting))
      case Reporting => s.(reporter := Reporter(Sleeping, 0, r.reported + r.count));
    assert ReporterStep(c, s, s');
    assert WithoutRecord(c, s, s');
  }

  /** No deadlock, with or without a lock: somebody can go on, even if no record arrives, if and only
      if there is a reporter or some worker has not left. */
  lemma Progress(c: Config, s: System)
    requires Reachable(c, s) && !c.guard.Unguarded?
    ensures (exists s' :: WithoutRecord(c, s, s'))
       <==> c.resets || exists i | 0 <= i < |s.workers| :: !s.workers[i].pc.Exited?
  {
    hide Reachable;
    ReachableInv(c, s);
    hide WithoutRecord, Conserved;
    if c.guard.Mutex? && !s.holder.Nobody? {
      HolderSteps(c, s);
      HolderStays(c, s);
    } else if i :| 0 <= i < |s.workers| && !s.workers[i].pc.Exited? {
      assert !Critical(s.workers[i]);
      var pc := s.workers[i].pc;
      CanStep(c, s, i, if pc.AtCheck? then Check else if pc.Working? then NoRecord else if pc.Released? then Reset
                       else if c.guard.Atomic? then AtomicAdd else Enter);
    } else if c.resets {
      ReporterGoesOn(c, s);
    } else {
      AllExited(c, s);
    }
  }

  lemma HolderStays(c: Config, s: System)
    requires Exclusive(c, s) && !s.holder.Nobody? && (!c.resets ==> s.reporter == IdleReporter)
    ensures c.resets || exists i | 0 <= i < |s.workers| :: !s.workers[i].pc.Exited?
  {
    if s.holder.WorkerHolds? {
      assert Critical(s.workers[s.holder.i]);
    }
  }

  lemma AllExited(c: Config, s: System)
    requires !c.resets && forall i | 0 <= i < |s.workers| :: s.workers[i].pc.Exited?
    ensures !(exists s' :: WithoutRecord(c, s, s'))
  {
  }

  // ----- without the lock -----

  lemma ReachStep(c: Config, s: System, i: nat, a: WorkerAction) returns (s': System)
    requires Reachable(c, s) && i < |s.workers| && Enabled(c, s.holder, s.workers[i], a)
    ensures Reachable(c, s') && WorkerStep(c, s, s', i, a)
  {
    s' := System(CounterAfter(s.counter, s.workers[i], a), HolderAfter(c, s.holder, i, a),
                 s.workers[i := Act(c, s.counter, s.workers[i], a)], s.reporter);
    var run :| IsRun(c, run) && run[|run| - 1] == s;
    var longer := run + [s'];
    forall k | 0 <= k < |longer| - 1 ensures Next(c, longer[k], longer[k + 1]) {
      if k == |run| - 1 {
        assert WorkerStep(c, s, s', i, a);
      } else {
        assert Next(c, run[k], run[k + 1]);
      }
    }
    assert IsRun(c, longer);
  }

  /** A worker that has counted n records and not yet touched the shared counter. */
  function Loaded(c: Config, n: nat): Worker {
    Worker(if n >= c.batch then Wants else AtCheck, n, n, 0)
  }

  function LoadedPair(c: Config, m: nat, n: nat): System {
    System(0, Nobody, [Loaded(c, m), Loaded(c, n)], IdleReporter)
  }

  lemma {:induction false} ReachLoaded(c: Config, m: nat, n: nat)
    requires Sensible(c) && m <= c.batch && n <= c.batch
    ensures Reachable(c, LoadedPair(c, m, n))
    decreases m + n
  {
    if m == n == 0 {
      assert IsRun(c, [LoadedPair(c, 0, 0)]);
    } else {
      var i := if m > 0 then 0 else 1;
      var before := if m > 0 then LoadedPair(c, m - 1, n) else LoadedPair(c, m, n - 1);
      hide Reachable;
      ReachLoaded(c, if m > 0 then m - 1 else m, if m > 0 then n else n - 1);
      var s' := LoadOne(c, before, i, if m > 0 then m - 1 else n - 1);
      assert s'.workers == LoadedPair(c, m, n).workers;
    }
  }

  lemma LoadOne(c: Config, s: System, i: nat, k: nat) returns (s': System)
    requires Sensible(c) && Reachable(c, s) && s.counter == 0
    requires i < |s.workers| && k < c.batch && s.workers[i] == Loaded(c, k)
    ensures Reachable(c, s') && s' == s.(workers := s.workers[i := Loaded(c, k + 1)])
  {
    hide Reachable;
    var s1 := ReachStep(c, s, i, Check);
    s' := ReachStep(c, s1, i, Work);
  }

  lemma BothRead(c: Config) returns (s: System)
    requires Sensible(c) && c.guard.Unguarded?
    ensures var w := Worker(HasRead, c.batch, c.batch, 0);
            Reachable(c, s) && s == System(0, Nobody, [w, w], IdleReporter)
  {
    ReachLoaded(c, c.batch, c.batch);
    hide Reachable;
    var w, v := Worker(HasRead, c.batch, c.batch, 0), Loaded(c, c.batch);
    s := ReachStep(c, LoadedPair(c, c.batch, c.batch), 0, Enter);
    s := ReachStep(c, s, 0, ReadCount);
    assert s == System(0, Nobody, [w, v], IdleReporter);
    s := ReachStep(c, s, 1, Enter);
    s := ReachStep(c, s, 1, ReadCount);
    assert s.workers == [w, w];
  }

  /** Both workers read 0 and both write their own batch: one of them is lost. */
  lemma LostUpdate(c: Config) returns (s: System)
    requires Sensible(c) && c.guard.Unguarded?
    ensures Reachable(c, s) && !Conserved(s)
  {
    s := BothRead(c);
    hide Reachable;
    s := ReachStep(c, s, 0, WriteSum);
    s := ReachStep(c, s, 1, WriteSum);
    var w := Worker(Wrote, c.batch, c.batch, 0);
    assert s.workers == [w, w];
    TotalAlike(s.workers, Outstanding, 0);
    TotalAlike(s.workers, Sent, c.batch);
  }

  /** Reported, taken, shared and local counts add up to the records sent in every reachable state
      if and only if the updates are atomic or under the lock. */
  lemma ConservedExactly(c: Config)
    requires Sensible(c)
    ensures (forall s | Reachable(c, s) :: Conserved(s)) <==> !c.guard.Unguarded?
  {
    hide Conserved;
    if c.guard.Unguarded? {
      var s := LostUpdate(c);
    } else {
      forall s | Reachable(c, s) ensures Conserved(s) {
        ReachableInv(c, s);
      }
    }
  }

  // ----- the lock makes the addition atomic -----

  /** What the batched protocol sees of a worker: from asking for the lock to writing the sum it is
      about to add, and afterwards it has added. */
  function AbsWorker(w: Worker): B.Worker {
    match w.pc
    case Working => B.Worker(B.Working, w.sent, w.local)
    case Exited => B.Worker(B.Exited, w.sent, w.local)
    case AtCheck => B.Worker(B.AtCheck, w.sent, w.local)
    case Wrote => B.Worker(B.AtCheck, w.sent, 0)
    case Released => B.Worker(B.AtCheck, w.sent, 0)
    case _ => B.Worker(B.Adding, w.sent, w.local)
  }

  function AbsWorkers(ws: seq<Worker>): seq<B.Worker> {
    seq(|ws|, i requires 0 <= i < |ws| => AbsWorker(ws[i]))
  }

  function Abs(s: System): B.System {
    B.System(s.counter, AbsWorkers(s.workers))
  }

  function AbsConfig(c: Config): B.Config {
    B.Config(B.HeadCheck, c.total, c.batch)
  }

  /** The action of the batched protocol that a fine step amounts to, if any. */
  function AbsAction(a: WorkerAction): seq<B.Action> {
    match a
    case Check => [B.Check]
    case NoRecord => [B.NoRecord]
    case Work => [B.Handle]
    case WriteSum => [B.Add]
    case AtomicAdd => [B.Add]
    case _ => []
  }

  lemma StepRefines(c: Config, s: System, s': System, i: nat, a: WorkerAction)
    requires !c.guard.Unguarded? && c.stops && Inv(c, s) && WorkerStep(c, s, s', i, a)
    ensures if AbsAction(a) == [] then Abs(s') == Abs(s)
            else B.Step(AbsConfig(c), Abs(s), Abs(s'), i, AbsAction(a)[0])
  {
    WorkerExclusive(c, s, s', i, a);
    hide Conserved;
    assert forall k | 0 <= k < |s.workers| && k != i :: s'.workers[k] == s.workers[k];
    assert AbsWorkers(s'.workers) == AbsWorkers(s.workers)[i := AbsWorker(s'.workers[i])];
  }

  /** Python's lock, read, write, unlock refines the single atomic addition: every state its workers
      reach is, seen from outside, a state the batched protocol reaches, so all its bounds hold. */
  lemma RefinesBatched(c: Config, s: System)
    requires !c.guard.Unguarded? && c.stops && !c.resets && Reachable(c, s)
    ensures B.Reachable(AbsConfig(c), Abs(s))
  {
    var run :| IsRun(c, run) && run[|run| - 1] == s;
    RunRefines(c, run);
  }

  lemma {:induction false} RunRefines(c: Config, run: seq<System>)
    requires !c.guard.Unguarded? && c.stops && !c.resets && IsRun(c, run)
    ensures B.Reachable(AbsConfig(c), Abs(run[|run| - 1]))
    decreases |run|
  {
    if |run| == 1 {
      var start := Abs(run[0]);
      assert B.IsRun(AbsConfig(c), [start]) && B.Initial(AbsConfig(c), [start][0]);
    } else {
      var init, s, s' := run[..|run| - 1], run[|run| - 2], run[|run| - 1];
      Shorter(c, run);
      RunRefines(c, init);
      RunInv(c, init);
      hide B.Reachable, Inv;
      var i: nat, a :| WorkerStep(c, s, s', i, a);
      StepRefines(c, s, s', i, a);
      if AbsAction(a) != [] {
        var t := B.ReachStep(AbsConfig(c), Abs(s), i, AbsAction(a)[0]);
        assert t == Abs(s');
      }
    }
  }
}
