/** StreamSumBenchmark: every record is counted with `incrementAndGet`, a worker returns when its own
    increment reaches the target, and otherwise looks at the counter only after an empty poll. */
module BenchmarkWorkers {
  import opened Totals

  /** `left` records of the current poll remain; `returned` marks the exit by own increment. */
  datatype Pc = Polling | InBatch(left: nat) | Exited(returned: bool) | Failed

  datatype Worker = Worker(pc: Pc, polled: nat, skipped: nat, counted: nat)

  datatype System = System(counter: nat, workers: seq<Worker>)

  datatype Action =
    | Poll(n: nat)    // the poll returns n records; with none, look at the counter
    | SkipNull        // a record without a payload
    | Count           // decode, send, incrementAndGet
    | EndBatch
    | Throw           // an exception ends the thread

  ghost predicate Initial(s: System) {
    s.counter == 0 && forall i | 0 <= i < |s.workers| :: s.workers[i] == Worker(Polling, 0, 0, 0)
  }

  predicate Enabled(w: Worker, a: Action) {
    match a
    case Poll(n) => w.pc.Polling?
    case SkipNull => w.pc.InBatch? && w.pc.left > 0
    case Count => w.pc.InBatch? && w.pc.left > 0
    case EndBatch => w.pc.InBatch? && w.pc.left == 0
    case Throw => w.pc.Polling? || w.pc.InBatch?
  }

  function Act(total: nat, counter: nat, w: Worker, a: Action): Worker
    requires Enabled(w, a)
  {
    match a
    case Poll(n) =>
      w.(pc := if n == 0 && counter >= total then Exited(false) else InBatch(n), polled := w.polled + n)
    case SkipNull => w.(pc := InBatch(w.pc.left - 1), skipped := w.skipped + 1)
    case Count =>
      w.(pc := if counter + 1 >= total then Exited(true) else InBatch(w.pc.left - 1), counted := w.counted + 1)
    case EndBatch => w.(pc := Polling)
    case Throw => w.(pc := Failed)
  }

  ghost predicate Step(total: nat, s: System, s': System, i: nat, a: Action) {
    && i < |s.workers|
    && Enabled(s.workers[i], a)
    && s'.workers == s.workers[i := Act(total, s.counter, s.workers[i], a)]
    && s'.counter == s.counter + if a.Count? then 1 else 0
  }

  ghost predicate Next(total: nat, s: System, s': System) {
    exists i: nat, a :: Step(total, s, s', i, a)
  }

  ghost predicate Reachable(total: nat, s: System) {
    exists run: seq<System> ::
      && run != [] && Initial(run[0]) && run[|run| - 1] == s
      && forall k | 0 <= k < |run| - 1 :: Next(total, run[k], run[k + 1])
  }

  // ----- the invariant -----

  function Counted(w: Worker): int {
    w.counted
  }

  /** An increment that met the target was its worker's last. */
  function Returned(w: Worker): int {
    if w.pc.Exited? && w.pc.returned then 1 else 0
  }

  /** What a worker has polled is counted, skipped or still held. */
  predicate Accounted(w: Worker) {
    match w.pc
    case Polling => w.polled == w.counted + w.skipped
    case InBatch(left) => w.polled == w.counted + w.skipped + left
    case Exited(returned) => if returned then w.polled >= w.counted + w.skipped else w.polled == w.counted + w.skipped
    case Failed => w.polled >= w.counted + w.skipped
  }

  ghost predicate Inv(total: nat, s: System) {
    && (forall i | 0 <= i < |s.workers| :: Accounted(s.workers[i]))
    && (forall i | 0 <= i < |s.workers| :: s.workers[i].pc.Exited? ==> s.counter >= total)
    && s.counter == Total(s.workers, Counted)
    && (s.counter < total || s.counter <= total - 1 + Total(s.workers, Returned))
  }

  lemma NextInv(total: nat, s: System, s': System)
    requires total > 0 && Inv(total, s) && Next(total, s, s')
    ensures Inv(total, s')
  {
    var i: nat, a :| Step(total, s, s', i, a);
    StepInv(total, s, s', i, a);
  }

  lemma StepInv(total: nat, s: System, s': System, i: nat, a: Action)
    requires total > 0 && Inv(total, s) && Step(total, s, s', i, a)
    ensures Inv(total, s')
  {
    var w' := Act(total, s.counter, s.workers[i], a);
    TotalUpdate(s.workers, i, w', Counted);
    TotalUpdate(s.workers, i, w', Returned);
    TotalNonNegative(s.workers, Returned);
    forall k | 0 <= k < |s'.workers|
      ensures Accounted(s'.workers[k]) && (s'.workers[k].pc.Exited? ==> s'.counter >= total)
    {
      assert s'.workers[k] == if k == i then w' else s.workers[k];
    }
  }

  lemma ReachableInv(total: nat, s: System)
    requires total > 0 && Reachable(total, s)
    ensures Inv(total, s)
  {
    var run: seq<System> :|
      && run != [] && Initial(run[0]) && run[|run| - 1] == s
      && forall k | 0 <= k < |run| - 1 :: Next(total, run[k], run[k + 1]);
    RunInv(total, run);
  }

  lemma {:induction false} RunInv(total: nat, run: seq<System>)
    requires total > 0 && run != [] && Initial(run[0])
    requires forall k | 0 <= k < |run| - 1 :: Next(total, run[k], run[k + 1])
    ensures Inv(total, run[|run| - 1])
    decreases |run|
  {
    if |run| == 1 {
      TotalAlike(run[0].workers, Counted, 0);
    } else {
      var init := run[..|run| - 1];
      forall k | 0 <= k < |init| - 1 ensures Next(total, init[k], init[k + 1]) {
        assert Next(total, run[k], run[k + 1]);
      }
      RunInv(total, init);
      assert Next(total, run[|run| - 2], run[|run| - 2 + 1]);
      hide Inv, Next;
      NextInv(total, run[|run| - 2], run[|run| - 1]);
    }
  }

  // ----- theorems on every reachable state -----

  /** Every record counted is counted once, and the counter overshoots by less than one per worker,
      however large the polls are. */
  lemma OvershootBound(total: nat, s: System)
    requires total > 0 && Reachable(total, s) && s.workers != []
    ensures s.counter == Total(s.workers, Counted) <= total + |s.workers| - 1
  {
    hide Reachable;
    ReachableInv(total, s);
    TotalBound(s.workers, Returned, 1);
  }

  /** Once all workers have left without an exception the counter is in [TOTAL, TOTAL + W - 1]. */
  lemma Finish(total: nat, s: System)
    requires total > 0 && Reachable(total, s) && s.workers != []
    requires forall i | 0 <= i < |s.workers| :: s.workers[i].pc.Exited?
    ensures total <= s.counter <= total + |s.workers| - 1
  {
    hide Reachable;
    ReachableInv(total, s);
    OvershootBound(total, s);
    assert s.workers[0].pc.Exited?;
  }

  /** No record of a poll is lost by a worker that is still there or has left on an empty poll: each is
      counted, skipped or, inside a batch, one of the `left`. Only the increment that meets the target
      and an exception drop the rest of a poll. */
  lemma PolledExactly(total: nat, s: System, i: nat)
    requires total > 0 && Reachable(total, s) && i < |s.workers|
    ensures var w := s.workers[i];
            && w.polled >= w.counted + w.skipped + RecordsHeld(w)
            && (w.polled == w.counted + w.skipped + RecordsHeld(w) || w.pc.Failed? || w.pc == Exited(true))
  {
    hide Reachable;
    ReachableInv(total, s);
  }

  /** An exception may cost any number of workers all they have polled, so that `Finish` cannot do
      without its premise: the latch reaches zero with nothing counted. */
  lemma AllThrown(total: nat, workers: nat, n: nat) returns (s: System)
    ensures Reachable(total, s) && |s.workers| == workers && s.counter == 0
    ensures forall i | 0 <= i < workers :: s.workers[i] == Worker(Failed, n, 0, 0)
  {
    var s0 := Begin(total, workers);
    s := ThrowAll(total, s0, n, 0);
  }

  lemma {:induction false} ThrowAll(total: nat, s: System, n: nat, i: nat) returns (s': System)
    requires Reachable(total, s) && i <= |s.workers| && s.counter == 0
    requires forall j | 0 <= j < i :: s.workers[j] == Worker(Failed, n, 0, 0)
    requires forall j | i <= j < |s.workers| :: s.workers[j] == Worker(Polling, 0, 0, 0)
    ensures Reachable(total, s') && |s'.workers| == |s.workers| && s'.counter == 0
    ensures forall j | 0 <= j < |s.workers| :: s'.workers[j] == Worker(Failed, n, 0, 0)
    decreases |s.workers| - i
  {
    hide Reachable;
    s' := s;
    if i < |s.workers| {
      var s1 := s;
      if n > 0 {
        s1 := ReachStep(total, s, i, Poll(n));
      }
      s1 := ReachStep(total, s1, i, Throw);
      s' := ThrowAll(total, s1, n, i + 1);
    }
  }

  // ----- the end of a run -----

  /** An empty poll is a worker's last step if and only if the target is reached; a poll that brings
      records never is. */
  lemma EmptyPollLeaves(total: nat, s: System, s': System, i: nat, n: nat)
    requires Step(total, s, s', i, Poll(n))
    ensures s'.workers[i].pc.Exited? <==> n == 0 && s.counter >= total
    ensures s'.counter == s.counter && s'.workers[i].counted == s.workers[i].counted
    ensures s'.workers[i].polled == s.workers[i].polled + n
  {
  }

  /** A step of a worker that does not fail and gets no more records. */
  ghost predicate QuietStep(total: nat, s: System, s': System) {
    exists i: nat, a :: Step(total, s, s', i, a) && !a.Throw? && (a.Poll? ==> a.n == 0)
  }

  ghost predicate IsQuiet(total: nat, run: seq<System>) {
    && run != []
    && forall k | 0 <= k < |run| - 1 :: QuietStep(total, run[k], run[k + 1])
  }

  /** What a worker can still do: the records it holds, the end of the poll, and an empty poll. */
  function Left(w: Worker): int {
    match w.pc
    case Polling => 1
    case InBatch(left) => left + 2
    case Exited(_) => 0
    case Failed => 0
  }

  lemma QuietShrinks(total: nat, s: System, s': System)
    requires QuietStep(total, s, s') && s.counter >= total
    ensures Total(s'.workers, Left) < Total(s.workers, Left) && s'.counter >= total
    ensures |s'.workers| == |s.workers|
    ensures forall i | 0 <= i < |s.workers| :: s'.workers[i].pc.Failed? ==> s.workers[i].pc.Failed?
  {
    var i: nat, a :| Step(total, s, s', i, a) && !a.Throw? && (a.Poll? ==> a.n == 0);
    TotalUpdate(s.workers, i, s'.workers[i], Left);
  }

  lemma {:induction false} QuietRun(total: nat, run: seq<System>)
    requires IsQuiet(total, run) && run[0].counter >= total
    ensures |run| - 1 <= Total(run[0].workers, Left)
    ensures |run[|run| - 1].workers| == |run[0].workers|
    ensures forall i | 0 <= i < |run[0].workers| ::
              run[|run| - 1].workers[i].pc.Failed? ==> run[0].workers[i].pc.Failed?
    decreases |run|
  {
    if |run| == 1 {
      TotalNonNegative(run[0].workers, Left);
    } else {
      var tail := run[1..];
      assert QuietStep(total, run[0], run[0 + 1]);
      forall k | 0 <= k < |tail| - 1 ensures QuietStep(total, tail[k], tail[k + 1]) {
        assert QuietStep(total, run[k + 1], run[k + 1 + 1]);
      }
      QuietShrinks(total, run[0], run[1]);
      hide QuietStep;
      QuietRun(total, tail);
    }
  }

  lemma CanGoOn(total: nat, s: System, i: nat)
    requires i < |s.workers| && (s.workers[i].pc.Polling? || s.workers[i].pc.InBatch?)
    ensures exists s' :: QuietStep(total, s, s')
  {
    var w := s.workers[i];
    var a := if w.pc.Polling? then Poll(0) else if w.pc.left > 0 then Count else EndBatch;
    var s' := System(s.counter + if a.Count? then 1 else 0, s.workers[i := Act(total, s.counter, w, a)]);
    assert Step(total, s, s', i, a);
    assert QuietStep(total, s, s');
  }

  /** Once the counter has reached the target, and if no poll brings records and no worker throws, no
      schedule lasts longer than the records still held and two steps for every worker; and one that
      cannot go on has all workers gone. */
  lemma ShutdownBound(total: nat, run: seq<System>)
    requires IsQuiet(total, run) && run[0].counter >= total
    requires forall i | 0 <= i < |run[0].workers| :: !run[0].workers[i].pc.Failed?
    ensures |run| - 1 <= Total(run[0].workers, RecordsHeld) + 2 * |run[0].workers|
    ensures var end := run[|run| - 1];
            !(exists s' :: QuietStep(total, end, s')) ==>
              forall i | 0 <= i < |end.workers| :: end.workers[i].pc.Exited?
  {
    var ws, end := run[0].workers, run[|run| - 1];
    QuietRun(total, run);
    var spare := (w: Worker) => Left(w) - RecordsHeld(w);
    TotalBound(ws, spare, 2);
    TotalAdd(ws, RecordsHeld, spare, Left);
    hide QuietStep;
    if !(exists s' :: QuietStep(total, end, s')) {
      forall i | 0 <= i < |end.workers| ensures end.workers[i].pc.Exited? {
        assert !run[0].workers[i].pc.Failed? && !end.workers[i].pc.Failed?;
        if end.workers[i].pc.Polling? || end.workers[i].pc.InBatch? {
          CanGoOn(total, end, i);
        }
      }
    }
  }

  function RecordsHeld(w: Worker): int {
    if w.pc.InBatch? then w.pc.left else 0
  }

  // ----- and the bound is met -----

  lemma ReachStep(total: nat, s: System, i: nat, a: Action) returns (s': System)
    requires Reachable(total, s) && i < |s.workers| && Enabled(s.workers[i], a)
    ensures Reachable(total, s') && Step(total, s, s', i, a)
  {
    s' := System(s.counter + if a.Count? then 1 else 0,
                 s.workers[i := Act(total, s.counter, s.workers[i], a)]);
    var run: seq<System> :|
      && run != [] && Initial(run[0]) && run[|run| - 1] == s
      && forall k | 0 <= k < |run| - 1 :: Next(total, run[k], run[k + 1]);
    assert Step(total, s, s', i, a);
    hide Step, Act, Enabled;
    var longer := run + [s'];
    forall k | 0 <= k < |longer| - 1 ensures Next(total, longer[k], longer[k + 1]) {
      if k < |run| - 1 {
        assert Next(total, run[k], run[k + 1]);
      }
    }
    assert longer[0] == run[0] && longer[|longer| - 1] == s';
  }

  ghost predicate InBatchFrom(s: System, i: nat, left: nat) {
    forall j | i <= j < |s.workers| :: s.workers[j].pc.InBatch? && s.workers[j].pc.left >= left
  }

  /** All workers poll before anything is counted. */
  lemma {:induction false} PollAll(total: nat, s: System, i: nat) returns (s': System)
    requires total > 0 && Reachable(total, s) && i <= |s.workers| && s.counter == 0
    requires forall j | 0 <= j < i :: s.workers[j].pc == InBatch(total)
    requires forall j | i <= j < |s.workers| :: s.workers[j].pc.Polling?
    ensures Reachable(total, s') && |s'.workers| == |s.workers| && s'.counter == 0 && InBatchFrom(s', 0, total)
    decreases |s.workers| - i
  {
    hide Reachable;
    s' := s;
    if i < |s.workers| {
      var s1 := ReachStep(total, s, i, Poll(total));
      s' := PollAll(total, s1, i + 1);
    }
  }

  /** The first worker counts up to one below the target ... */
  lemma {:induction false} CountUp(total: nat, s: System) returns (s': System)
    requires Reachable(total, s) && s.workers != [] && s.counter < total
    requires InBatchFrom(s, 0, total - s.counter)
    ensures Reachable(total, s') && |s'.workers| == |s.workers|
    ensures s'.counter == total - 1 && InBatchFrom(s', 0, 1)
    decreases total - s.counter
  {
    hide Reachable;
    s' := s;
    if s.counter + 1 < total {
      var s1 := ReachStep(total, s, 0, Count);
      s' := CountUp(total, s1);
    }
  }

  /** ... and then everyone counts one more. */
  lemma {:induction false} CountAll(total: nat, s: System, i: nat) returns (s': System)
    requires Reachable(total, s) && i <= |s.workers| && InBatchFrom(s, i, 1)
    ensures Reachable(total, s') && |s'.workers| == |s.workers| && s'.counter == s.counter + |s.workers| - i
    decreases |s.workers| - i
  {
    hide Reachable;
    s' := s;
    if i < |s.workers| {
      var s1 := ReachStep(total, s, i, Count);
      s' := CountAll(total, s1, i + 1);
    }
  }

  lemma Begin(total: nat, workers: nat) returns (s: System)
    ensures Reachable(total, s) && Initial(s) && |s.workers| == workers
  {
    s := System(0, seq(workers, _ => Worker(Polling, 0, 0, 0)));
    assert [s][|[s]| - 1] == s;
  }

  /** The overshoot of the Java benchmark, exactly: no reachable state exceeds TOTAL + W - 1, and some
      reachable state meets it. */
  lemma OvershootExactly(total: nat, workers: nat)
    requires total > 0 && workers > 0
    ensures forall s | Reachable(total, s) && |s.workers| == workers :: s.counter <= total + workers - 1
    ensures exists s :: Reachable(total, s) && |s.workers| == workers && s.counter == total + workers - 1
  {
    hide Reachable;
    forall s | Reachable(total, s) && |s.workers| == workers ensures s.counter <= total + workers - 1 {
      OvershootBound(total, s);
    }
    var s0 := Begin(total, workers);
    var s1 := PollAll(total, s0, 0);
    var s2 := CountUp(total, s1);
    var s3 := CountAll(total, s2, 0);
  }
}
