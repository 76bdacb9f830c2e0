/** The simpler worker protocols: each worker handles records, counts them locally and adds the local
    count to one shared counter when it reaches the batch size.

    - `HeadCheck`: C (batch 1), Go and Python (batch 1000) look at the counter before every poll.
    - `AddThenCheck`: Rust on rdkafka (batch 1000) polls first, looks at the counter after every
      poll, and also leaves on the value its own addition produced.

    All interleavings of the workers' steps are considered; atomic operations are taken to be
    sequentially consistent.
  */
module BatchedWorkers {
  import opened Totals
  import Bits

  datatype Protocol = HeadCheck | AddThenCheck

  datatype Config = Config(protocol: Protocol, total: nat, batch: nat)

  predicate Sensible(c: Config) {
    c.total > 0 && c.batch > 0
  }

  datatype Pc = AtCheck | Working | Adding | Exited

  datatype Worker = Worker(pc: Pc, handled: nat, local: nat)

  datatype System = System(counter: nat, workers: seq<Worker>)

  datatype Action =
    | Check          // compare the counter with the target
    | NoRecord       // a poll without a record, or with an error
    | Handle         // decode, encode, produce, count locally
    | Add            // the atomic addition of the local count

  function Start(c: Config): Worker {
    Worker(if c.protocol.HeadCheck? then AtCheck else Working, 0, 0)
  }

  ghost predicate Initial(c: Config, s: System) {
    s.counter == 0 && forall i | 0 <= i < |s.workers| :: s.workers[i] == Start(c)
  }

  predicate Enabled(w: Worker, a: Action) {
    match a
    case Check => w.pc.AtCheck?
    case NoRecord => w.pc.Working?
    case Handle => w.pc.Working?
    case Add => w.pc.Adding?
  }

  function Act(c: Config, counter: nat, w: Worker, a: Action): Worker {
    match a
    case Check => w.(pc := if counter >= c.total then Exited else Working)
    case NoRecord => w.(pc := AtCheck)
    case Handle => Worker(if w.local + 1 >= c.batch then Adding else AtCheck, w.handled + 1, w.local + 1)
    case Add =>
      w.(local := 0,
         pc := if c.protocol.AddThenCheck? && counter + w.local >= c.total then Exited else AtCheck)
  }

  ghost predicate Step(c: Config, s: System, s': System, i: nat, a: Action) {
    && i < |s.workers|
    && Enabled(s.workers[i], a)
    && s'.workers == s.workers[i := Act(c, s.counter, s.workers[i], a)]
    && s'.counter == s.counter + if a.Add? then s.workers[i].local else 0
  }

  ghost predicate Next(c: Config, s: System, s': System) {
    exists i: nat, a :: Step(c, s, s', i, a)
  }

  ghost predicate IsRun(c: Config, run: seq<System>) {
    && run != []
    && forall k | 0 <= k < |run| - 1 :: Next(c, run[k], run[k + 1])
  }

  ghost predicate Reachable(c: Config, s: System) {
    exists run :: IsRun(c, run) && Initial(c, run[0]) && run[|run| - 1] == s
  }

  // ----- the invariant -----

  function Handled(w: Worker): int {
    w.handled
  }

  /** The whole batches among the records a worker handled. */
  function WholeBatches(c: Config): Worker -> int {
    (w: Worker) => if c.batch == 0 then 0 else c.batch * (w.handled / c.batch)
  }

  /** A batch that is complete but not yet added. */
  function InTransit(c: Config): Worker -> int {
    (w: Worker) => if w.pc.Adding? then c.batch else 0
  }

  /** A batch the worker may still add before it looks at the counter again. */
  function Armed(c: Config): Worker -> int {
    (w: Worker) => if w.pc.Working? || w.pc.Adding? then c.batch else 0
  }

  /** The first multiple of the batch size that reaches the target. */
  function Target(c: Config): nat
    requires c.batch > 0
  {
    c.total + c.batch - 1 - (c.total + c.batch - 1) % c.batch
  }

  ghost predicate WorkerInv(c: Config, counter: nat, w: Worker)
    requires Sensible(c)
  {
    && w.local == (if w.pc.Adding? then c.batch else w.handled % c.batch)
    && (w.pc.Adding? ==> w.handled % c.batch == 0)
    && (w.pc.Exited? ==> counter >= c.total)
  }

  ghost predicate Inv(c: Config, s: System)
    requires Sensible(c)
  {
    && (forall i | 0 <= i < |s.workers| :: WorkerInv(c, s.counter, s.workers[i]))
    && s.counter % c.batch == 0
    && s.counter + Total(s.workers, InTransit(c)) == Total(s.workers, WholeBatches(c))
    && (s.counter < c.total
        || s.counter + Total(s.workers, Armed(c)) <= Target(c) + c.batch * (|s.workers| - 1))
  }

  lemma InitialInv(c: Config, s: System)
    requires Sensible(c) && Initial(c, s)
    ensures Inv(c, s)
  {
    TotalAlike(s.workers, InTransit(c), 0);
    TotalAlike(s.workers, WholeBatches(c), 0);
  }

  lemma TargetFacts(c: Config, counter: nat)
    requires Sensible(c) && counter % c.batch == 0
    ensures c.total <= Target(c) < c.total + c.batch && Target(c) % c.batch == 0
    ensures c.total % c.batch == 0 ==> Target(c) == c.total
    ensures counter < c.total ==> counter + c.batch <= Target(c)
    ensures (counter + c.batch) % c.batch == 0
  {
    var b, target := c.batch, Target(c);
    Bits.RoundDown(c.total + b - 1, b);
    hide Target;
    OneMore(counter, b);
    Bits.MultiplesApart(b, counter + b, target);
    if c.total % b == 0 {
      Bits.MultiplesApart(b, target, c.total);
    }
  }

  lemma OneMore(n: nat, b: nat)
    requires b > 0 && n % b == 0
    ensures (n + b) % b == 0
  {
    assert n + b == b * (n / b + 1) + 0;
    Bits.ModUnique(n + b, b, n / b + 1, 0);
  }

  // ----- one step -----

  /** Handling a record completes a batch exactly when the local count reaches the batch size. */
  lemma HandleBatches(b: nat, handled: nat)
    requires b > 0
    ensures handled % b + 1 == b ==> (handled + 1) % b == 0 && (handled + 1) / b == handled / b + 1
    ensures handled % b + 1 != b ==> (handled + 1) % b == handled % b + 1 && (handled + 1) / b == handled / b
  {
    var q, r := handled / b, handled % b;
    if r + 1 == b {
      assert handled + 1 == b * (q + 1) + 0;
      Bits.ModUnique(handled + 1, b, q + 1, 0);
    } else {
      assert handled + 1 == b * q + (r + 1);
      Bits.ModUnique(handled + 1, b, q, r + 1);
    }
  }

  lemma WorkerStep(c: Config, counter: nat, w: Worker, a: Action)
    requires Sensible(c) && WorkerInv(c, counter, w) && Enabled(w, a)
    ensures var w' := Act(c, counter, w, a);
            && WorkerInv(c, counter + (if a.Add? then w.local else 0), w')
            && (a.Add? ==> w.local == c.batch)
            && WholeBatches(c)(w') - WholeBatches(c)(w)
               == InTransit(c)(w') - InTransit(c)(w) + if a.Add? then c.batch else 0
  {
    if a.Handle? {
      HandleBatches(c.batch, w.handled);
      var q := w.handled / c.batch;
      assert c.batch * (q + 1) == c.batch * q + c.batch;
    }
  }

  lemma ArmedStep(c: Config, counter: nat, w: Worker, a: Action)
    requires Sensible(c) && WorkerInv(c, counter, w) && Enabled(w, a)
    requires a.Check? ==> counter >= c.total
    ensures Armed(c)(Act(c, counter, w, a)) <= Armed(c)(w) - if a.Add? then c.batch else 0
  {
  }

  lemma ArmedBound(c: Config, ws: seq<Worker>, i: nat)
    requires i < |ws| && !ws[i].pc.Working? && !ws[i].pc.Adding?
    ensures Total(ws, Armed(c)) <= c.batch * (|ws| - 1)
  {
    var spare := (w: Worker) => c.batch - Armed(c)(w);
    var all := (w: Worker) => c.batch;
    forall k | 0 <= k < |ws| ensures spare(ws[k]) >= 0 {
      assert Armed(c)(ws[k]) <= c.batch;
    }
    TotalNonNegative(ws, spare);
    assert Armed(c)(ws[i]) == 0;
    assert spare(ws[i]) == c.batch;
    TotalAlike(ws, all, c.batch);
    TotalAdd(ws, Armed(c), spare, all);
    assert c.batch * (|ws| - 1) == |ws| * c.batch - c.batch;
  }

  lemma StepInv(c: Config, s: System, s': System, i: nat, a: Action)
    requires Sensible(c) && Inv(c, s) && Step(c, s, s', i, a)
    ensures Inv(c, s') && s'.counter >= s.counter
  {
    var w := s.workers[i];
    var w' := Act(c, s.counter, w, a);
    WorkerStep(c, s.counter, w, a);
    TargetFacts(c, s.counter);
    OthersKept(c, s, s', i);
    hide Act, Armed, InTransit, WholeBatches, Target, WorkerInv;
    TotalUpdate(s.workers, i, w', InTransit(c));
    TotalUpdate(s.workers, i, w', WholeBatches(c));
    StillArmed(c, s, s', i, a);
  }

  lemma StillArmed(c: Config, s: System, s': System, i: nat, a: Action)
    requires Sensible(c) && Inv(c, s) && Step(c, s, s', i, a) && (a.Add? ==> s.workers[i].local == c.batch)
    ensures s'.counter < c.total
         || s'.counter + Total(s'.workers, Armed(c)) <= Target(c) + c.batch * (|s'.workers| - 1)
  {
    var w := s.workers[i];
    TargetFacts(c, s.counter);
    if s'.counter >= c.total {
      if s.counter >= c.total {
        ArmedStep(c, s.counter, w, a);
        hide Act, Armed, InTransit, WholeBatches, Target, WorkerInv;
        TotalUpdate(s.workers, i, s'.workers[i], Armed(c));
      } else {
        AddArrives(c, s.counter, w, a);
        hide Act, Armed, InTransit, WholeBatches, Target, WorkerInv;
        ArmedBound(c, s'.workers, i);
      }
    }
  }

  lemma OthersKept(c: Config, s: System, s': System, i: nat)
    requires Sensible(c) && i < |s.workers| && s'.counter >= s.counter && |s'.workers| == |s.workers|
    requires s'.workers == s.workers[i := s'.workers[i]]
    requires forall k | 0 <= k < |s.workers| :: WorkerInv(c, s.counter, s.workers[k])
    requires WorkerInv(c, s'.counter, s'.workers[i])
    ensures forall k | 0 <= k < |s'.workers| :: WorkerInv(c, s'.counter, s'.workers[k])
  {
    forall k | 0 <= k < |s'.workers| ensures WorkerInv(c, s'.counter, s'.workers[k]) {
      assert s'.workers[k] == if k == i then s'.workers[i] else s.workers[k];
      assert WorkerInv(c, s.counter, s.workers[k]);
    }
  }

  lemma AddArrives(c: Config, counter: nat, w: Worker, a: Action)
    requires Enabled(w, a) && counter < c.total <= counter + if a.Add? then w.local else 0
    ensures a.Add? && !Act(c, counter, w, a).pc.Working? && !Act(c, counter, w, a).pc.Adding?
  {
  }

  lemma ReachableInv(c: Config, s: System)
    requires Sensible(c) && Reachable(c, s)
    ensures Inv(c, s)
  {
    var run :| IsRun(c, run) && Initial(c, run[0]) && run[|run| - 1] == s;
    RunInv(c, run);
  }

  lemma {:induction false} RunInv(c: Config, run: seq<System>)
    requires Sensible(c) && IsRun(c, run) && Initial(c, run[0])
    ensures Inv(c, run[|run| - 1])
    decreases |run|
  {
    if |run| == 1 {
      InitialInv(c, run[0]);
    } else {
      var init := run[..|run| - 1];
      forall k | 0 <= k < |init| - 1 ensures Next(c, init[k], init[k + 1]) {
        assert Next(c, run[k], run[k + 1]);
      }
      RunInv(c, init);
      assert Next(c, run[|run| - 2], run[|run| - 2 + 1]);
      var i: nat, a :| Step(c, run[|run| - 2], run[|run| - 1], i, a);
      hide Inv;
      StepInv(c, run[|run| - 2], run[|run| - 1], i, a);
    }
  }

  // ----- theorems on every reachable state -----

  ghost predicate Quiet(s: System) {
    forall i | 0 <= i < |s.workers| :: !s.workers[i].pc.Adding?
  }

  /** The counter is the whole batches of every worker, less those on their way; remainders are
      never published. */
  lemma CountsWholeBatches(c: Config, s: System)
    requires Sensible(c) && Reachable(c, s)
    ensures s.counter == Total(s.workers, WholeBatches(c)) - Total(s.workers, InTransit(c))
    ensures Quiet(s) ==> s.counter == Total(s.workers, WholeBatches(c))
  {
    hide Reachable;
    ReachableInv(c, s);
    if Quiet(s) {
      TotalAlike(s.workers, InTransit(c), 0);
    }
  }

  /** So it never runs ahead of the records handled, and lags by at most a batch per worker, less
      than that while no addition is pending. */
  lemma CounterLag(c: Config, s: System)
    requires Sensible(c) && Reachable(c, s)
    ensures s.counter <= Total(s.workers, Handled) <= s.counter + |s.workers| * c.batch
    ensures Quiet(s) && s.workers != [] ==> Total(s.workers, Handled) < s.counter + |s.workers| * c.batch
  {
    hide Reachable, InTransit, WholeBatches;
    CountsWholeBatches(c, s);
    var lag := (w: Worker) => Handled(w) - WholeBatches(c)(w) + InTransit(c)(w);
    var published := (w: Worker) => WholeBatches(c)(w) - InTransit(c)(w);
    EveryLag(c, s);
    TotalNonNegative(s.workers, lag);
    TotalBound(s.workers, lag, c.batch);
    TotalAdd(s.workers, published, InTransit(c), WholeBatches(c));
    TotalAdd(s.workers, published, lag, Handled);
    if Quiet(s) {
      TotalBound(s.workers, lag, c.batch - 1);
      assert |s.workers| * (c.batch - 1) == |s.workers| * c.batch - |s.workers|;
    }
  }

  lemma EveryLag(c: Config, s: System)
    requires Sensible(c) && Reachable(c, s)
    ensures forall i | 0 <= i < |s.workers| ::
              var lag := Handled(s.workers[i]) - WholeBatches(c)(s.workers[i]) + InTransit(c)(s.workers[i]);
              0 <= lag <= c.batch && (Quiet(s) ==> lag <= c.batch - 1)
  {
    hide Reachable;
    ReachableInv(c, s);
    forall i | 0 <= i < |s.workers|
      ensures var lag := Handled(s.workers[i]) - WholeBatches(c)(s.workers[i]) + InTransit(c)(s.workers[i]);
              0 <= lag <= c.batch && (Quiet(s) ==> lag <= c.batch - 1)
    {
      LagBound(c, s.counter, s.workers[i]);
    }
  }

  lemma LagBound(c: Config, counter: nat, w: Worker)
    requires Sensible(c) && WorkerInv(c, counter, w)
    ensures var lag := Handled(w) - WholeBatches(c)(w) + InTransit(c)(w);
            0 <= lag <= c.batch && (!w.pc.Adding? ==> lag <= c.batch - 1)
  {
    assert w.handled == c.batch * (w.handled / c.batch) + w.handled % c.batch;
  }

  /** The overshoot: past the target, rounded up to a batch, by less than one batch per worker. */
  lemma OvershootBound(c: Config, s: System)
    requires Sensible(c) && Reachable(c, s) && s.workers != []
    ensures s.counter <= Target(c) + c.batch * (|s.workers| - 1)
    ensures c.total % c.batch == 0 ==> s.counter <= c.total + c.batch * (|s.workers| - 1)
  {
    hide Reachable;
    ReachableInv(c, s);
    assert s.counter % c.batch == 0;
    TotalNonNegative(s.workers, Armed(c));
    hide Inv, Target, Armed, Total;
    TargetFacts(c, s.counter);
    MulNonNegative(c.batch, |s.workers| - 1);
  }

  lemma MulNonNegative(a: nat, b: nat)
    ensures a * b >= 0
  {
  }

  /** C, which adds every record on its own, stops within [TOTAL, TOTAL + W - 1]. */
  lemma PerRecordFinish(c: Config, s: System)
    requires Sensible(c) && c.batch == 1 && Reachable(c, s) && s.workers != []
    requires forall i | 0 <= i < |s.workers| :: s.workers[i].pc.Exited?
    ensures c.total <= s.counter <= c.total + |s.workers| - 1
  {
    hide Reachable;
    ReachableInv(c, s);
    OvershootBound(c, s);
    assert WorkerInv(c, s.counter, s.workers[0]);
  }

  ghost predicate NobodyExited(s: System) {
    forall i | 0 <= i < |s.workers| :: !s.workers[i].pc.Exited?
  }

  /** As many records as the target have been handled in every state of the run, and no more. */
  ghost predicate NoMoreRecords(c: Config, run: seq<System>) {
    forall k | 0 <= k < |run| :: Total(run[k].workers, Handled) == c.total
  }

  ghost predicate StillPolling(s: System, counter: nat) {
    NobodyExited(s) && Quiet(s) && s.counter == counter
  }

  /** However the workers go on without another record, nobody leaves and the counter stays. */
  ghost predicate Hangs(c: Config, s: System) {
    forall run | IsRun(c, run) && run[0] == s && NoMoreRecords(c, run) :: StillPolling(run[|run| - 1], s.counter)
  }

  lemma StillStep(c: Config, counter: nat, s: System, s': System)
    requires StillPolling(s, counter) && counter < c.total && Next(c, s, s')
    requires Total(s'.workers, Handled) == Total(s.workers, Handled)
    ensures StillPolling(s', counter)
  {
    var i: nat, a :| Step(c, s, s', i, a);
    TotalUpdate(s.workers, i, s'.workers[i], Handled);
    assert !a.Handle?;
    forall k | 0 <= k < |s'.workers| ensures !s'.workers[k].pc.Exited? && !s'.workers[k].pc.Adding? {
      assert !s.workers[i].pc.Adding? && !s.workers[k].pc.Adding? && !s.workers[k].pc.Exited?;
    }
  }

  lemma {:induction false} StillRun(c: Config, run: seq<System>)
    requires IsRun(c, run) && NoMoreRecords(c, run) && StillPolling(run[0], run[0].counter)
    requires run[0].counter < c.total
    ensures StillPolling(run[|run| - 1], run[0].counter)
    decreases |run|
  {
    if |run| > 1 {
      var init := run[..|run| - 1];
      forall k | 0 <= k < |init| - 1 ensures Next(c, init[k], init[k + 1]) {
        assert Next(c, run[k], run[k + 1]);
      }
      forall k | 0 <= k < |init| ensures Total(init[k].workers, Handled) == c.total {
        assert Total(run[k].workers, Handled) == c.total;
      }
      assert Next(c, run[|run| - 2], run[|run| - 2 + 1]);
      hide StillPolling, Next;
      StillRun(c, init);
      StillStep(c, run[0].counter, run[|run| - 2], run[|run| - 1]);
    }
  }

  /** When exactly the target number of records has been handled, the counter says so if and only if
      every worker's share is a whole number of batches.  Otherwise it stays below the target, no
      worker has left its loop, and none ever will while no further record arrives. */
  lemma TargetSeen(c: Config, s: System)
    requires Sensible(c) && Reachable(c, s) && Total(s.workers, Handled) == c.total && Quiet(s)
    ensures s.counter == c.total <==> forall i | 0 <= i < |s.workers| :: s.workers[i].handled % c.batch == 0
    ensures s.counter != c.total ==> s.counter < c.total && NobodyExited(s) && Hangs(c, s)
  {
    hide Reachable;
    ReachableInv(c, s);
    CountsWholeBatches(c, s);
    Remainders(c, s.workers);
    if s.counter != c.total {
      assert s.counter < c.total && NobodyExited(s);
      hide Inv, IsRun, NoMoreRecords;
      forall run | IsRun(c, run) && run[0] == s && NoMoreRecords(c, run)
        ensures StillPolling(run[|run| - 1], s.counter)
      {
        StillRun(c, run);
      }
    }
  }

  lemma WholeOf(c: Config, w: Worker)
    requires c.batch > 0
    ensures WholeBatches(c)(w) == c.batch * (w.handled / c.batch)
  {
  }

  lemma Remainder(c: Config, w: Worker)
    requires c.batch > 0
    ensures Handled(w) - WholeBatches(c)(w) == w.handled % c.batch
  {
    WholeOf(c, w);
    hide WholeBatches;
    assert w.handled == c.batch * (w.handled / c.batch) + w.handled % c.batch;
  }

  /** What is handled exceeds the whole batches unless there are no remainders. */
  lemma Remainders(c: Config, ws: seq<Worker>)
    requires Sensible(c)
    ensures Total(ws, Handled) >= Total(ws, WholeBatches(c))
    ensures Total(ws, Handled) == Total(ws, WholeBatches(c))
       <==> forall i | 0 <= i < |ws| :: ws[i].handled % c.batch == 0
  {
    hide WholeBatches;
    var over := (w: Worker) => Handled(w) - WholeBatches(c)(w);
    forall i | 0 <= i < |ws| ensures over(ws[i]) >= 0 && over(ws[i]) == ws[i].handled % c.batch {
      Remainder(c, ws[i]);
    }
    TotalNonNegative(ws, over);
    TotalAdd(ws, WholeBatches(c), over, Handled);
    if forall i | 0 <= i < |ws| :: ws[i].handled % c.batch == 0 {
      TotalAlike(ws, over, 0);
    } else {
      var i :| 0 <= i < |ws| && ws[i].handled % c.batch != 0;
      assert over(ws[i]) > 0;
    }
  }

  // ----- the end of a run -----

  /** A worker leaves at a check that finds the target reached, or, where the protocol says so, by the
      addition that reaches it; and in no other way. */
  lemma LeavesExactly(c: Config, s: System, s': System, i: nat, a: Action)
    requires Step(c, s, s', i, a) && !s.workers[i].pc.Exited?
    ensures s'.workers[i].pc.Exited?
       <==> s'.counter >= c.total && (a.Check? || (a.Add? && c.protocol.AddThenCheck?))
  {
  }

  /** What a worker can still do once the target is reached: one record at most, and the check. */
  function Left(c: Config): Worker -> int {
    (w: Worker) =>
      match w.pc
      case Exited => 0
      case AtCheck => 1
      case Adding => if c.protocol.HeadCheck? then 2 else 1
      case Working => if c.protocol.HeadCheck? then 3 else 2
  }

  lemma LeftShrinks(c: Config, counter: nat, w: Worker, a: Action)
    requires Enabled(w, a) && counter >= c.total
    ensures Left(c)(Act(c, counter, w, a)) < Left(c)(w)
  {
  }

  lemma {:induction false} LeftRun(c: Config, run: seq<System>)
    requires IsRun(c, run) && run[0].counter >= c.total
    ensures |run| - 1 <= Total(run[0].workers, Left(c))
    decreases |run|
  {
    var ws := run[0].workers;
    if |run| == 1 {
      TotalNonNegative(ws, Left(c));
    } else {
      var tail := run[1..];
      assert Next(c, run[0], run[0 + 1]);
      forall k | 0 <= k < |tail| - 1 ensures Next(c, tail[k], tail[k + 1]) {
        assert Next(c, run[k + 1], run[k + 1 + 1]);
      }
      var i: nat, a :| Step(c, run[0], run[1], i, a);
      LeftShrinks(c, run[0].counter, ws[i], a);
      hide Left, Act;
      TotalUpdate(ws, i, run[1].workers[i], Left(c));
      LeftRun(c, tail);
    }
  }

  /** Once the counter has reached the target, no schedule lasts longer than three steps for every
      worker, or two where additions end a worker too. */
  lemma ShutdownBound(c: Config, run: seq<System>)
    requires IsRun(c, run) && run[0].counter >= c.total
    ensures |run| - 1 <= |run[0].workers| * if c.protocol.HeadCheck? then 3 else 2
  {
    LeftRun(c, run);
    TotalBound(run[0].workers, Left(c), if c.protocol.HeadCheck? then 3 else 2);
  }

  /** ... and it can stop only where all workers have left: in any state some worker can go on, even
      if no record arrives, if and only if some worker has not left. */
  lemma Progress(c: Config, s: System)
    ensures (exists s', i: nat, a :: Step(c, s, s', i, a) && !a.Handle?)
       <==> exists i | 0 <= i < |s.workers| :: !s.workers[i].pc.Exited?
  {
    if i :| 0 <= i < |s.workers| && !s.workers[i].pc.Exited? {
      var w := s.workers[i];
      var a := if w.pc.AtCheck? then Check else if w.pc.Working? then NoRecord else Add;
      var s' := System(s.counter + if a.Add? then w.local else 0, s.workers[i := Act(c, s.counter, w, a)]);
      assert Step(c, s, s', i, a);
    }
  }

  // ----- a run that never ends -----

  lemma ReachStep(c: Config, s: System, i: nat, a: Action) returns (s': System)
    requires Reachable(c, s) && i < |s.workers| && Enabled(s.workers[i], a)
    ensures Reachable(c, s') && Step(c, s, s', i, a)
  {
    s' := System(s.counter + if a.Add? then s.workers[i].local else 0,
                 s.workers[i := Act(c, s.counter, s.workers[i], a)]);
    var run :| IsRun(c, run) && Initial(c, run[0]) && run[|run| - 1] == s;
    var longer := run + [s'];
    forall k | 0 <= k < |longer| - 1 ensures Next(c, longer[k], longer[k + 1]) {
      if k == |run| - 1 {
        assert Step(c, s, s', i, a);
      } else {
        assert Next(c, run[k], run[k + 1]);
      }
    }
    assert IsRun(c, longer);
  }

  /** A worker at its check can handle one more record and come back to it, as long as somebody
      else's remainder, or its own, keeps the counter from the target. */
  lemma HandleOne(c: Config, s: System, i: nat, other: nat) returns (s': System)
    requires Sensible(c) && Reachable(c, s) && Quiet(s)
    requires i < |s.workers| && s.workers[i].pc.AtCheck? && Total(s.workers, Handled) < c.total
    requires other < |s.workers| && other != i
    requires s.workers[i].local + 1 < c.batch || s.workers[other].handled % c.batch != 0
    ensures Reachable(c, s') && Quiet(s')
    ensures exists w :: s'.workers == s.workers[i := w] && w.pc.AtCheck? && w.handled == s.workers[i].handled + 1
    ensures Total(s'.workers, Handled) == Total(s.workers, Handled) + 1
  {
    hide Reachable;
    CounterLag(c, s);
    var s1 := ReachStep(c, s, i, Check);
    var s2 := ReachStep(c, s1, i, Handle);
    s' := s2;
    if s2.workers[i].pc.Adding? {
      s' := ReachStep(c, s2, i, Add);
    }
    var w := s'.workers[i];
    assert s'.workers == s.workers[i := w];
    TotalUpdate(s.workers, i, w, Handled);
    if w.pc.Exited? {
      StillBelow(c, s', i, other);
    }
  }

  lemma StillBelow(c: Config, s: System, i: nat, other: nat)
    requires Sensible(c) && Reachable(c, s) && Quiet(s) && Total(s.workers, Handled) <= c.total
    requires i < |s.workers| && other < |s.workers| && s.workers[other].handled % c.batch != 0
    ensures !s.workers[i].pc.Exited?
  {
    hide Reachable;
    ReachableInv(c, s);
    CounterLag(c, s);
    assert WorkerInv(c, s.counter, s.workers[i]);
    if s.counter >= c.total {
      TargetSeen(c, s);
    }
  }

  lemma {:induction false} HandleMany(c: Config, s: System, n: nat) returns (s': System)
    requires Sensible(c) && Reachable(c, s) && Quiet(s) && |s.workers| == 2
    requires s.workers[0].handled % c.batch != 0 && s.workers[1].pc.AtCheck?
    requires Total(s.workers, Handled) + n <= c.total
    ensures Reachable(c, s') && Quiet(s') && |s'.workers| == 2
    ensures s'.workers[0] == s.workers[0] && s'.workers[1].handled == s.workers[1].handled + n
    ensures Total(s'.workers, Handled) == Total(s.workers, Handled) + n
    decreases n
  {
    hide Reachable;
    s' := s;
    if n > 0 {
      var s1 := HandleOne(c, s, 1, 0);
      s' := HandleMany(c, s1, n - 1);
    }
  }

  lemma BothAtCheck(c: Config) returns (s: System)
    ensures Reachable(c, s) && s.workers == [Worker(AtCheck, 0, 0), Worker(AtCheck, 0, 0)]
  {
    var start := System(0, [Start(c), Start(c)]);
    assert IsRun(c, [start]) && Initial(c, [start][0]);
    assert Reachable(c, start);
    hide Reachable;
    s := start;
    if c.protocol.AddThenCheck? {
      var s1 := ReachStep(c, start, 0, NoRecord);
      s := ReachStep(c, s1, 1, NoRecord);
    }
  }

  /** With any batch of two or more - the code's is 1000 - two workers can handle exactly the target
      number of records and both keep polling: one share of 1 and one of TOTAL - 1 leave remainders
      that are never published, and the stop test never fires again. */
  lemma RemaindersHang(c: Config) returns (s: System)
    requires c.total > 0 && c.batch >= 2
    ensures Reachable(c, s) && Total(s.workers, Handled) == c.total
    ensures s.counter < c.total && NobodyExited(s) && Hangs(c, s)
    ensures |s.workers| == 2 && s.workers[0].handled == 1 && s.workers[1].handled == c.total - 1
  {
    hide Reachable;
    var s0 := BothAtCheck(c);
    TotalAlike(s0.workers, Handled, 0);
    var s1 := HandleOne(c, s0, 0, 1);
    s := HandleMany(c, s1, c.total - 1);
    TargetSeen(c, s);
    CounterLag(c, s);
    hide Hangs;
  }
}
