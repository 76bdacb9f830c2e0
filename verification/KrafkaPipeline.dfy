/** Phase 2 of the krafka processor: W workers, each a consume loop and a produce task joined by a
    bounded channel, and one shared counter.

    The system is a state machine whose steps are the workers' atomic actions in any interleaving.
    Polls and sends belong to the network: a poll returns an error, nothing, or the next records of
    the worker's partition; a send in flight completes at some later step, whatever its result.
    Atomic operations on the counter are taken to be sequentially consistent.
  */
module KrafkaPipeline {
  import opened Bits
  import opened Totals
  import E = EndToEnd

  /** The code's constants are in `CodeConfig`; the theorems hold for all values. */
  datatype Config = Config(total: nat, window: nat, maxPoll: nat, batch: nat)

  const EMPTY_LIMIT := 3

  function CodeConfig(): Config {
    Config(50_000_000, 10_000, 50_000, 1000)
  }

  /** A record's value; a record without one is skipped. */
  datatype Record = Null | Value(bytes: seq<byte>)

  /** The consume loop: at its head, waiting for a poll, working through a batch, waiting for the
      produce task after `drop(tx)`, finished, or dead of a malformed record. */
  datatype Stage = Checking | Polling | Handing | Awaiting | Joined | Panicked

  datatype Worker = Worker(
    input: seq<Record>, fetched: nat,                          // the partition, and how much was polled
    stage: Stage, empties: nat, rest: seq<Record>,             // the consume loop
    channel: seq<seq<byte>>,                                   // between the two
    channelOpen: bool, inFlight: set<nat>, local: nat, done: bool, // the produce task
    consumed: seq<Record>, initiated: seq<seq<byte>>, completed: nat, published: nat // their history
  )

  datatype System = System(counter: nat, workers: seq<Worker>)

  function Start(input: seq<Record>): Worker {
    Worker(input, 0, Checking, 0, [], [], true, {}, 0, false, [], [], 0, 0)
  }

  ghost predicate Initial(s: System) {
    s.counter == 0 && forall i | 0 <= i < |s.workers| :: s.workers[i] == Start(s.workers[i].input)
  }

  /** The sender half of the channel lives as long as the consume loop runs. */
  predicate TxOpen(w: Worker) {
    w.stage.Checking? || w.stage.Polling? || w.stage.Handing?
  }

  datatype Action =
    | Check                     // compare the counter with TOTAL_RECORDS at the loop head
    | PollError | PollEmpty | PollRecords(n: nat)
    | Hand                      // next record of the batch: skip, decode and send, or panic
    | EndBatch
    | SendError                 // `tx.send` fails because the receiver is gone
    | Join                      // `produce_task.await` returns
    | Receive                   // `rx.recv()` arm of the select
    | Complete(id: nat)         // `in_flight.next()` arm
    | Exit                      // leave the produce loop, publish the remainder
    | Abort                     // the runtime of a panicked thread drops the produce task

  /** The `while` condition of the produce task. */
  predicate LoopGuard(w: Worker) {
    w.channelOpen || w.inFlight != {}
  }

  /** The preconditions of the two arms of its `select!`. */
  predicate ReceiveArm(c: Config, w: Worker) {
    w.channelOpen && |w.inFlight| < c.window
  }

  predicate NextArm(w: Worker) {
    w.inFlight != {}
  }

  predicate Sendable(w: Worker) {
    w.stage.Handing? && w.rest != [] && w.rest[0].Value? && E.KrafkaResult(w.rest[0].bytes).Return?
  }

  predicate Enabled(c: Config, w: Worker, a: Action) {
    match a
    case Check => w.stage.Checking?
    case PollError => w.stage.Polling?
    case PollEmpty => w.stage.Polling?
    case PollRecords(n) => w.stage.Polling? && 0 < n <= c.maxPoll && w.fetched + n <= |w.input|
    case Hand => w.stage.Handing? && w.rest != [] && (Sendable(w) ==> !w.done && |w.channel| < c.window)
    case EndBatch => w.stage.Handing? && w.rest == []
    case SendError => Sendable(w) && w.done
    case Join => w.stage.Awaiting? && w.done
    case Receive => !w.done && ReceiveArm(c, w) && (w.channel != [] || !TxOpen(w))
    case Complete(id) => !w.done && id in w.inFlight
    case Exit => !w.done && !LoopGuard(w)
    case Abort => !w.done && w.stage.Panicked?
  }

  /** `drop(tx)` happens on the way to waiting for the produce task. */
  function Leave(w: Worker): Worker {
    w.(stage := Awaiting, rest := [])
  }

  function HandRecord(w: Worker): Worker
    requires w.rest != []
  {
    var r, w' := w.rest[0], w.(rest := w.rest[1..], consumed := w.consumed + [w.rest[0]]);
    if r.Null? then w'
    else match E.KrafkaResult(r.bytes)
      case Return(buf) => w'.(channel := w.channel + [buf])
      case _ => w.(stage := Panicked, rest := [])
  }

  function ReceiveBuffer(w: Worker): Worker {
    if w.channel == [] then w.(channelOpen := false)
    else w.(channel := w.channel[1..], inFlight := w.inFlight + {|w.initiated|},
            initiated := w.initiated + [w.channel[0]])
  }

  function CompleteSend(c: Config, w: Worker, id: nat): Worker {
    var w' := w.(inFlight := w.inFlight - {id}, completed := w.completed + 1);
    if w.local + 1 >= c.batch then w'.(local := 0, published := w.published + w.local + 1)
    else w'.(local := w.local + 1)
  }

  /** The worker after an action; what it adds to `published` goes to the shared counter. */
  function Act(c: Config, counter: nat, w: Worker, a: Action): Worker
    requires Enabled(c, w, a)
  {
    match a
    case Check => if counter >= c.total then Leave(w) else w.(stage := Polling)
    case PollError => w.(stage := Checking)
    case PollEmpty =>
      if w.empties + 1 >= EMPTY_LIMIT then Leave(w.(empties := w.empties + 1))
      else w.(stage := Checking, empties := w.empties + 1)
    case PollRecords(n) =>
      w.(stage := Handing, empties := 0, rest := w.input[w.fetched..w.fetched + n], fetched := w.fetched + n)
    case Hand => HandRecord(w)
    case EndBatch => w.(stage := Checking)
    case SendError => Leave(w)
    case Join => w.(stage := Joined)
    case Receive => ReceiveBuffer(w)
    case Complete(id) => CompleteSend(c, w, id)
    case Exit => w.(done := true, published := w.published + w.local, local := 0)
    case Abort => w.(done := true)
  }

  function Published(w: Worker): int {
    w.published
  }

  ghost predicate Step(c: Config, s: System, s': System, i: nat, a: Action) {
    && i < |s.workers|
    && Enabled(c, s.workers[i], a)
    && var w' := Act(c, s.counter, s.workers[i], a);
       && s'.workers == s.workers[i := w']
       && s'.counter == s.counter + w'.published - s.workers[i].published
  }

  ghost predicate Next(c: Config, s: System, s': System) {
    exists i: nat, a :: Step(c, s, s', i, a)
  }

  /** A run: every state follows from the one before by one action of one worker. */
  ghost predicate IsRun(c: Config, run: seq<System>) {
    && run != []
    && forall k | 0 <= k < |run| - 1 :: Next(c, run[k], run[k + 1])
  }

  ghost predicate Reachable(c: Config, s: System) {
    exists run :: IsRun(c, run) && Initial(run[0]) && run[|run| - 1] == s
  }

  // ----- the invariant of one worker -----

  /** The encoded sums of the records that have a value, in order. */
  function Results(rs: seq<Record>): seq<seq<byte>> {
    if rs == [] then []
    else
      var init, last := rs[..|rs| - 1], rs[|rs| - 1];
      if last.Value? && E.KrafkaResult(last.bytes).Return?
      then Results(init) + [E.KrafkaResult(last.bytes).value]
      else Results(init)
  }

  ghost predicate WorkerInv(c: Config, w: Worker) {
    // the bounds that keep the process from running out of memory
    && |w.channel| <= c.window && |w.inFlight| <= c.window && |w.rest| <= c.maxPoll
    && w.local < c.batch
    // nothing is lost, duplicated or reordered between the partition and the sends
    && w.fetched <= |w.input|
    && (!w.stage.Panicked? ==> w.consumed + w.rest == w.input[..w.fetched])
    && w.consumed <= w.input
    && Results(w.consumed) == w.initiated + w.channel
    // and every send is accounted for
    && (forall id <- w.inFlight :: id < |w.initiated|)
    && |w.initiated| == |w.inFlight| + w.completed
    && w.completed == w.published + w.local
    // how the two halves hang together
    && (w.rest != [] ==> w.stage.Handing?)
    && (TxOpen(w) ==> w.empties < EMPTY_LIMIT)
    && (!w.channelOpen ==> !TxOpen(w) && w.channel == [])
    && (w.done && !w.stage.Panicked? ==> !LoopGuard(w) && w.local == 0)
    && (w.stage.Joined? ==> w.done)
    // only whole batches are published before the end
    && (Whole(c, w.published) || Settled(w))
  }

  predicate Whole(c: Config, n: nat) {
    c.batch > 0 && n % c.batch == 0
  }

  /** The produce task has ended with everything counted. */
  predicate Settled(w: Worker) {
    w.done && w.channel == [] && |w.initiated| == w.published
  }

  predicate Sensible(c: Config) {
    c.total > 0 && c.window > 0 && c.batch > 0
  }

  lemma StartInv(c: Config, input: seq<Record>)
    requires Sensible(c)
    ensures WorkerInv(c, Start(input))
  {
  }

  /** Handing on one record appends its result, if it has one, to the channel. */
  lemma HandInv(c: Config, w: Worker)
    requires WorkerInv(c, w) && Enabled(c, w, Hand)
    ensures WorkerInv(c, HandRecord(w))
  {
    hide E.KrafkaResult, Results, Whole;
    HandConsumes(w.consumed, w.rest, w.input, w.fetched);
    HandResult(w);
    hide Settled;
  }

  lemma HandConsumes(consumed: seq<Record>, rest: seq<Record>, input: seq<Record>, fetched: nat)
    requires rest != [] && fetched <= |input| && consumed + rest == input[..fetched]
    ensures (consumed + [rest[0]]) + rest[1..] == input[..fetched]
    ensures consumed + [rest[0]] <= input
  {
    assert (consumed + [rest[0]]) + rest[1..] == consumed + rest;
  }

  lemma HandResult(w: Worker)
    requires w.rest != [] && Results(w.consumed) == w.initiated + w.channel
    ensures var w' := HandRecord(w); Results(w'.consumed) == w'.initiated + w'.channel
  {
    hide E.KrafkaResult, Results;
    ResultsAppend(w.consumed, w.rest[0]);
  }

  lemma ResultsAppend(rs: seq<Record>, r: Record)
    ensures Results(rs + [r]) == Results(rs)
              + if r.Value? && E.KrafkaResult(r.bytes).Return? then [E.KrafkaResult(r.bytes).value] else []
  {
    hide E.KrafkaResult;
    assert (rs + [r])[..|rs|] == rs;
  }

  lemma ReceiveInv(c: Config, w: Worker)
    requires WorkerInv(c, w) && Enabled(c, w, Receive)
    ensures WorkerInv(c, ReceiveBuffer(w))
  {
    hide E.KrafkaResult, Results;
    var w' := ReceiveBuffer(w);
    if w.channel != [] {
      assert w.initiated + w.channel == w'.initiated + w'.channel;
    }
  }

  lemma CompleteInv(c: Config, w: Worker, id: nat)
    requires WorkerInv(c, w) && Enabled(c, w, Complete(id)) && Sensible(c)
    ensures WorkerInv(c, CompleteSend(c, w, id))
  {
    WholePlus(c, w.published);
    hide Whole, E.KrafkaResult, Results;
  }

  lemma WholePlus(c: Config, n: nat)
    requires Whole(c, n)
    ensures Whole(c, n + c.batch)
  {
    ModUnique(n + c.batch, c.batch, n / c.batch + 1, 0);
  }

  lemma WorkerStep(c: Config, counter: nat, w: Worker, a: Action)
    requires WorkerInv(c, w) && Enabled(c, w, a) && Sensible(c)
    ensures WorkerInv(c, Act(c, counter, w, a))
  {
    match a
    case Hand => HandInv(c, w);
    case Receive => ReceiveInv(c, w);
    case Complete(id) => CompleteInv(c, w, id);
    case PollRecords(n) => PollInv(c, counter, w, n);
    case _ => QuietInv(c, counter, w, a);
  }

  lemma PollInv(c: Config, counter: nat, w: Worker, n: nat)
    requires WorkerInv(c, w) && Enabled(c, w, PollRecords(n))
    ensures WorkerInv(c, Act(c, counter, w, PollRecords(n)))
  {
    hide E.KrafkaResult, Results;
    assert w.rest == [] && w.consumed == w.input[..w.fetched];
    assert w.input[..w.fetched + n] == w.input[..w.fetched] + w.input[w.fetched..w.fetched + n];
  }

  lemma QuietInv(c: Config, counter: nat, w: Worker, a: Action)
    requires WorkerInv(c, w) && Enabled(c, w, a) && Sensible(c)
    requires !a.Hand? && !a.Receive? && !a.Complete? && !a.PollRecords?
    ensures WorkerInv(c, Act(c, counter, w, a))
  {
    hide E.KrafkaResult, Results;
  }

  // ----- the invariant of the system -----

  /** Results handed to the channel so far. */
  function Handed(w: Worker): int {
    |w.initiated| + |w.channel|
  }

  /** ... and those the worker may still hand over before it next looks at the counter. */
  function Reserved(c: Config): Worker -> int {
    (w: Worker) => Handed(w) + if w.stage.Polling? then c.maxPoll else |w.rest|
  }

  /** What a worker holds back from the counter, at most. */
  function Slack(c: Config): int {
    c.maxPoll + 2 * c.window + c.batch - 1
  }

  /** The last count of whole batches below the target. */
  function LastWhole(c: Config): int {
    if c.batch == 0 then 0 else c.total - 1 - (c.total - 1) % c.batch
  }

  function Overshoot(c: Config, workers: nat): int {
    LastWhole(c) + workers * Slack(c)
  }

  /** A consume loop ends because the counter has reached the target or its partition ran dry. */
  predicate HasReason(c: Config, counter: nat, w: Worker) {
    w.stage.Awaiting? || w.stage.Joined? ==> counter >= c.total || w.empties >= EMPTY_LIMIT
  }

  ghost predicate Inv(c: Config, s: System) {
    && (forall i | 0 <= i < |s.workers| :: WorkerInv(c, s.workers[i]))
    && (forall i | 0 <= i < |s.workers| :: HasReason(c, s.counter, s.workers[i]))
    && s.counter == Total(s.workers, Published)
    && Total(s.workers, Reserved(c)) <= Overshoot(c, |s.workers|)
  }

  lemma InitialInv(c: Config, s: System)
    requires Initial(s) && Sensible(c)
    ensures Inv(c, s)
  {
    forall i | 0 <= i < |s.workers| ensures WorkerInv(c, s.workers[i]) {
      StartInv(c, s.workers[i].input);
    }
    TotalAlike(s.workers, Published, 0);
    TotalAlike(s.workers, Reserved(c), 0);
    LastWholeFacts(c, 0);
    assert |s.workers| * Slack(c) >= 0;
  }

  function Held(c: Config): Worker -> int {
    (w: Worker) => Reserved(c)(w) - Published(w)
  }

  /** A worker's reservation exceeds what it published by at most the slack, and not at all once it
      has published a remainder. */
  lemma HeldBound(c: Config, w: Worker)
    requires WorkerInv(c, w)
    ensures Held(c)(w) <= Slack(c)
    ensures !Whole(c, w.published) ==> Held(c)(w) <= 0
  {
    hide Results, Whole, E.KrafkaResult;
    assert Held(c)(w) == Reserved(c)(w) - w.published;
  }

  lemma {:induction false} PublishedWhole(c: Config, ws: seq<Worker>)
    requires Sensible(c) && forall i | 0 <= i < |ws| :: Whole(c, ws[i].published)
    ensures Total(ws, Published) >= 0 && Whole(c, Total(ws, Published))
  {
    if ws != [] {
      PublishedWhole(c, ws[1..]);
      var b, p, q := c.batch, ws[0].published, Total(ws[1..], Published);
      assert p + q == b * (p / b + q / b) + 0;
      ModUnique(p + q, b, p / b + q / b, 0);
    }
  }

  lemma LastWholeFacts(c: Config, n: nat)
    requires Sensible(c) && n < c.total
    ensures 0 <= LastWhole(c) < c.total <= LastWhole(c) + c.batch && Whole(c, LastWhole(c))
    ensures Whole(c, n) ==> n <= LastWhole(c)
  {
    RoundDown(c.total - 1, c.batch);
    if Whole(c, n) {
      MultiplesApart(c.batch, n, LastWhole(c));
    }
  }

  /** Whenever somebody finds the counter below the target, the reservations are within the bound:
      either only whole batches are published, or some worker is settled and holds nothing back. */
  lemma ReservationBound(c: Config, ws: seq<Worker>)
    requires Sensible(c) && Total(ws, Published) < c.total
    requires forall i | 0 <= i < |ws| :: WorkerInv(c, ws[i])
    ensures Total(ws, Reserved(c)) <= Overshoot(c, |ws|)
  {
    hide WorkerInv;
    var spare, all := (w: Worker) => Slack(c) - Held(c)(w), (w: Worker) => Slack(c);
    forall i | 0 <= i < |ws| ensures spare(ws[i]) >= 0 && (!Whole(c, ws[i].published) ==> spare(ws[i]) >= Slack(c)) {
      HeldBound(c, ws[i]);
    }
    TotalNonNegative(ws, spare);
    TotalAlike(ws, all, Slack(c));
    TotalAdd(ws, Held(c), spare, all);
    TotalAdd(ws, Published, Held(c), Reserved(c));
    LastWholeFacts(c, 0);
    if i :| 0 <= i < |ws| && !Whole(c, ws[i].published) {
      assert Total(ws, spare) >= spare(ws[i]) >= Slack(c);
    } else {
      PublishedWhole(c, ws);
      LastWholeFacts(c, Total(ws, Published));
    }
  }

  /** Only passing the check at the loop head makes a reservation; everything else uses it up. */
  lemma ReservationShrinks(c: Config, counter: nat, w: Worker, a: Action)
    requires WorkerInv(c, w) && Enabled(c, w, a)
    requires a.Check? ==> counter >= c.total
    ensures Reserved(c)(Act(c, counter, w, a)) <= Reserved(c)(w)
  {
    hide Results, E.KrafkaResult;
  }

  lemma NextInv(c: Config, s: System, s': System)
    requires Inv(c, s) && Next(c, s, s') && Sensible(c)
    ensures Inv(c, s')
  {
    var i: nat, a :| Step(c, s, s', i, a);
    StepInv(c, s, s', i, a);
  }

  lemma StepInv(c: Config, s: System, s': System, i: nat, a: Action)
    requires Inv(c, s) && Step(c, s, s', i, a) && Sensible(c)
    ensures Inv(c, s')
  {
    hide WorkerInv, Act, Enabled, Reserved, HasReason;
    var w := s.workers[i];
    var w' := Act(c, s.counter, w, a);
    WorkerStep(c, s.counter, w, a);
    PublishedGrows(c, s.counter, w, a);
    forall k | 0 <= k < |s'.workers|
      ensures WorkerInv(c, s'.workers[k]) && HasReason(c, s'.counter, s'.workers[k])
    {
      assert s'.workers[k] == if k == i then w' else s.workers[k];
      ReasonKept(c, s.counter, s'.counter, s.workers[k]);
    }
    TotalUpdate(s.workers, i, w', Published);
    if a == Check && s.counter < c.total {
      CheckPublishes(c, s.counter, w);
      ReservationBound(c, s'.workers);
    } else {
      ReservationShrinks(c, s.counter, w, a);
      TotalUpdate(s.workers, i, w', Reserved(c));
    }
  }

  /** The counter never goes back, and loops keep or gain a reason to end. */
  lemma PublishedGrows(c: Config, counter: nat, w: Worker, a: Action)
    requires WorkerInv(c, w) && Enabled(c, w, a) && HasReason(c, counter, w)
    ensures var w' := Act(c, counter, w, a);
            && w'.published >= w.published
            && HasReason(c, counter + w'.published - w.published, w')
  {
    hide Results, E.KrafkaResult;
  }

  lemma ReasonKept(c: Config, counter: nat, later: nat, w: Worker)
    requires counter <= later && HasReason(c, counter, w)
    ensures HasReason(c, later, w)
  {
  }

  lemma CheckPublishes(c: Config, counter: nat, w: Worker)
    requires Enabled(c, w, Check)
    ensures Act(c, counter, w, Check).published == w.published
  {
  }

  /** Every reachable state satisfies the invariant: the basis of the theorems below. */
  lemma ReachableInv(c: Config, s: System)
    requires Reachable(c, s) && Sensible(c)
    ensures Inv(c, s)
  {
    var run :| IsRun(c, run) && Initial(run[0]) && run[|run| - 1] == s;
    RunInv(c, run);
  }

  lemma {:induction false} RunInv(c: Config, run: seq<System>)
    requires IsRun(c, run) && Initial(run[0]) && Sensible(c)
    ensures Inv(c, run[|run| - 1])
    decreases |run|
  {
    if |run| == 1 {
      InitialInv(c, run[0]);
    } else {
      var init := run[..|run| - 1];
      forall k | 0 <= k < |init| - 1 ensures Next(c, init[k], init[k + 1]) {
        assert Next(c, run[k], run[k + 1]);
      }
      RunInv(c, init);
      assert Next(c, run[|run| - 2], run[|run| - 2 + 1]);
      NextInv(c, run[|run| - 2], run[|run| - 1]);
    }
  }

  // ----- theorems on every reachable state -----

  function ResultCount(w: Worker): int {
    |Results(w.consumed)|
  }

  /** However the workers interleave, and although published counts lag behind, the results ever
      handed to the channels exceed the last whole batch below the target by at most one slack per
      worker.  `KrafkaOvershoot` shows that no smaller bound holds. */
  lemma OvershootBound(c: Config, s: System)
    requires Reachable(c, s) && Sensible(c)
    ensures Total(s.workers, ResultCount) <= Overshoot(c, |s.workers|)
    ensures Overshoot(c, |s.workers|) <= c.total - 1 + |s.workers| * (c.maxPoll + 2 * c.window + c.batch - 1)
  {
    hide Reachable;
    ReachableInv(c, s);
    LastWholeFacts(c, 0);
    var mayStill := (w: Worker) => Reserved(c)(w) - ResultCount(w);
    forall i | 0 <= i < |s.workers| ensures mayStill(s.workers[i]) >= 0 {
      HandedIsResults(c, s.workers[i]);
    }
    TotalNonNegative(s.workers, mayStill);
    TotalAdd(s.workers, ResultCount, mayStill, Reserved(c));
  }

  lemma HandedIsResults(c: Config, w: Worker)
    requires WorkerInv(c, w)
    ensures ResultCount(w) == Handed(w) <= Reserved(c)(w)
  {
    hide Results, E.KrafkaResult;
  }

  /** With the constants of the code and its default of eight workers. */
  lemma CodeOvershoot(s: System)
    requires Reachable(CodeConfig(), s) && |s.workers| == 8
    ensures Total(s.workers, ResultCount) <= 50_566_992
  {
    hide Reachable, Total, ResultCount;
    OvershootBound(CodeConfig(), s);
    hide Overshoot;
    CodeBound();
  }

  lemma CodeBound()
    ensures Overshoot(CodeConfig(), 8) == 50_566_992
  {
  }

  /** What the constants are in a worker's steps: where the loop leaves, how much a poll returns, how
      full channel and window get, and when a completion publishes. */
  lemma CodeSteps(counter: nat, w: Worker)
    ensures w.stage.Checking? ==>
              Act(CodeConfig(), counter, w, Check).stage == if counter < 50_000_000 then Polling else Awaiting
    ensures w.stage.Polling? ==>
              Act(CodeConfig(), counter, w, PollEmpty).stage == if w.empties < 2 then Checking else Awaiting
    ensures forall n :: Enabled(CodeConfig(), w, PollRecords(n))
                   <==> w.stage.Polling? && 1 <= n <= 50_000 && w.fetched + n <= |w.input|
    ensures Sendable(w) && !w.done ==> (Enabled(CodeConfig(), w, Hand) <==> |w.channel| < 10_000)
    ensures !w.done && w.channelOpen && w.channel != [] ==>
              (Enabled(CodeConfig(), w, Receive) <==> |w.inFlight| < 10_000)
    ensures forall id <- w.inFlight ::
              CompleteSend(CodeConfig(), w, id).published == w.published + if w.local < 999 then 0 else w.local + 1
  {
    hide E.KrafkaResult;
  }

  /** ... and in every state the code can reach. */
  lemma CodeStates(s: System, i: nat)
    requires Reachable(CodeConfig(), s) && i < |s.workers|
    ensures var w := s.workers[i];
            && |w.rest| <= 50_000 && |w.channel| <= 10_000 && |w.inFlight| <= 10_000 && w.local <= 999
            && (!w.done ==> w.published % 1000 == 0)
            && (w.stage.Awaiting? || w.stage.Joined? ==> s.counter >= 50_000_000 || w.empties >= 3)
  {
    hide Reachable;
    ReachableInv(CodeConfig(), s);
    hide Results;
    assert WorkerInv(CodeConfig(), s.workers[i]) && HasReason(CodeConfig(), s.counter, s.workers[i]);
  }

  /** The bounded backlog: a worker never holds more than one poll, one channel and one window. */
  lemma BoundedBacklog(c: Config, s: System, i: nat)
    requires Reachable(c, s) && Sensible(c) && i < |s.workers|
    ensures var w := s.workers[i];
            && |w.rest| + |w.channel| + |w.inFlight| <= c.maxPoll + 2 * c.window
            && |Results(w.consumed)| - w.published <= 2 * c.window + c.batch - 1
  {
    hide Reachable;
    ReachableInv(c, s);
    hide Results;
  }

  /** Order and conservation in every state: the results of the records consumed so far are, in
      order, the sends initiated followed by the channel; a send is in flight or completed; a
      completed send is published or in the local counter; the shared counter is the sum of what
      was published. */
  lemma Ledger(c: Config, s: System, i: nat)
    requires Reachable(c, s) && Sensible(c) && i < |s.workers|
    ensures var w := s.workers[i];
            && w.consumed <= w.input
            && Results(w.consumed) == w.initiated + w.channel
            && |w.initiated| == |w.inFlight| + w.completed
            && w.completed == w.published + w.local
            && s.counter == Total(s.workers, Published)
  {
    hide Reachable;
    ReachableInv(c, s);
    hide Results;
  }

  /** The `select!`, which has no else branch, finds an arm enabled whenever the loop goes on, if and
      only if the window is not empty. */
  lemma SelectNeverStuck(c: Config)
    ensures (forall w | LoopGuard(w) :: ReceiveArm(c, w) || NextArm(w)) <==> c.window > 0
  {
    assert LoopGuard(Start([])) && !NextArm(Start([]));
  }

  /** `tx.send` never fails, because the receiver outlives the consume loop. */
  lemma SendNeverFails(c: Config, s: System, i: nat)
    requires Reachable(c, s) && Sensible(c) && i < |s.workers|
    ensures !Enabled(c, s.workers[i], SendError)
  {
    hide Reachable;
    ReachableInv(c, s);
    hide Results, E.KrafkaResult;
    assert WorkerInv(c, s.workers[i]);
  }

  predicate Finished(w: Worker) {
    w.done && (w.stage.Joined? || w.stage.Panicked?)
  }

  /** No deadlock, and no work left over: some worker can act, if need be on a poll returning or a
      send completing, if and only if some worker is not finished. */
  lemma Progress(c: Config, s: System)
    requires Reachable(c, s) && Sensible(c)
    ensures (exists s' :: Next(c, s, s')) <==> exists i | 0 <= i < |s.workers| :: !Finished(s.workers[i])
  {
    hide Reachable, Next, Finished;
    if i :| 0 <= i < |s.workers| && !Finished(s.workers[i]) {
      ReachableInv(c, s);
      UnfinishedMoves(c, s, i);
    }
    if s' :| Next(c, s, s') {
      MoverUnfinished(c, s, s');
    }
  }

  lemma MoverUnfinished(c: Config, s: System, s': System)
    requires Next(c, s, s')
    ensures exists i | 0 <= i < |s.workers| :: !Finished(s.workers[i])
  {
    hide Act;
    var i: nat, a :| Step(c, s, s', i, a);
    assert !Finished(s.workers[i]);
  }

  lemma UnfinishedMoves(c: Config, s: System, i: nat)
    requires Inv(c, s) && Sensible(c) && i < |s.workers| && !Finished(s.workers[i])
    ensures exists s' :: Next(c, s, s')
  {
    assert WorkerInv(c, s.workers[i]);
    hide Inv, WorkerInv, Enabled, Next;
    WorkerProgress(c, s.workers[i]);
    var a :| Enabled(c, s.workers[i], a);
    CanStep(c, s, i, a);
  }

  lemma CanStep(c: Config, s: System, i: nat, a: Action)
    requires Inv(c, s) && i < |s.workers| && Enabled(c, s.workers[i], a)
    ensures exists s' :: Next(c, s, s')
  {
    PublishedGrows(c, s.counter, s.workers[i], a);
    hide Act, Enabled, Inv;
    var w' := Act(c, s.counter, s.workers[i], a);
    var s' := System(s.counter + w'.published - s.workers[i].published, s.workers[i := w']);
    assert Step(c, s, s', i, a);
    assert Next(c, s, s');
  }

  lemma WorkerProgress(c: Config, w: Worker)
    requires WorkerInv(c, w) && Sensible(c) && !Finished(w)
    ensures exists a :: Enabled(c, w, a)
  {
    hide Results, E.KrafkaResult;
    if w.stage.Checking? {
      assert Enabled(c, w, Check);
    } else if w.stage.Polling? {
      assert Enabled(c, w, PollError);
    } else if w.stage.Handing? && w.rest == [] {
      assert Enabled(c, w, EndBatch);
    } else if w.stage.Handing? && (Sendable(w) ==> |w.channel| < c.window) {
      assert Enabled(c, w, Hand);
    } else if w.done {
      assert Enabled(c, w, Join);
    } else if w.inFlight != {} {
      var id :| id in w.inFlight;
      assert Enabled(c, w, Complete(id));
    } else if w.channelOpen && (w.channel != [] || !TxOpen(w)) {
      assert Enabled(c, w, Receive);
    } else {
      assert Enabled(c, w, Exit);
    }
  }

  /** The shutdown measure of the produce task. */
  function Undrained(w: Worker): nat {
    2 * |w.channel| + |w.inFlight| + if w.channelOpen then 1 else 0
  }

  /** After `drop(tx)` every round of the produce loop brings the measure down; at zero, and only
      there, the loop is over. */
  lemma DrainTerminates(c: Config, counter: nat, w: Worker, a: Action)
    requires WorkerInv(c, w) && !TxOpen(w) && Enabled(c, w, a) && (a.Receive? || a.Complete?)
    ensures Undrained(Act(c, counter, w, a)) < Undrained(w)
    ensures LoopGuard(w) <==> Undrained(w) > 0
  {
    hide Results, E.KrafkaResult;
  }

  // ----- termination -----

  /** The steps a worker can still take once the target is reached. */
  function Remaining(c: Config): Worker -> int {
    (w: Worker) =>
      Undrained(w) + (if w.done then 0 else 1)
      + match w.stage
        case Joined => 0
        case Panicked => 0
        case Awaiting => 1
        case Checking => 2
        case Handing => 3 + 3 * |w.rest|
        case Polling => 4 + 3 * c.maxPoll
  }

  lemma RemainingShrinks(c: Config, counter: nat, w: Worker, a: Action)
    requires WorkerInv(c, w) && Enabled(c, w, a) && counter >= c.total
    ensures Remaining(c)(Act(c, counter, w, a)) < Remaining(c)(w)
  {
    hide WorkerInv, Act, Enabled, Undrained;
    if a.Receive? || a.Complete? || a.Hand? {
      DrainStep(c, counter, w, a);
      DrainStage(c, counter, w, a);
    } else {
      QuietShrinks(c, counter, w, a);
    }
  }

  lemma QuietShrinks(c: Config, counter: nat, w: Worker, a: Action)
    requires Enabled(c, w, a) && counter >= c.total && !a.Receive? && !a.Complete? && !a.Hand?
    ensures Remaining(c)(Act(c, counter, w, a)) < Remaining(c)(w)
  {
    assert Undrained(Act(c, counter, w, a)) == Undrained(w);
    hide Undrained, E.KrafkaResult;
  }

  lemma DrainStage(c: Config, counter: nat, w: Worker, a: Action)
    requires Enabled(c, w, a) && (a.Receive? || a.Complete? || a.Hand?)
    ensures var w' := Act(c, counter, w, a);
            && w'.done == w.done
            && (a.Hand? ==> w.stage.Handing? && (w'.stage == w.stage || w'.stage.Panicked?))
            && (!a.Hand? ==> w'.stage == w.stage)
  {
    hide E.KrafkaResult;
  }

  /** Every buffer received, and every send completed, brings the measure down. */
  lemma DrainStep(c: Config, counter: nat, w: Worker, a: Action)
    requires WorkerInv(c, w) && Enabled(c, w, a) && (a.Receive? || a.Complete? || a.Hand?)
    ensures var w' := Act(c, counter, w, a);
            && (!a.Hand? ==> Undrained(w') < Undrained(w) && w'.rest == w.rest)
            && (a.Hand? ==> Undrained(w') <= Undrained(w) + 2 && |w'.rest| < |w.rest|)
  {
    hide Results, E.KrafkaResult, Settled, Whole;
  }

  lemma RemainingBound(c: Config, w: Worker)
    requires WorkerInv(c, w)
    ensures 0 <= Remaining(c)(w) <= 6 + 3 * c.maxPoll + 3 * c.window
  {
    hide Results, E.KrafkaResult;
  }

  lemma ShrinkingStep(c: Config, s: System, s': System)
    requires Inv(c, s) && Next(c, s, s') && s.counter >= c.total
    ensures Total(s'.workers, Remaining(c)) < Total(s.workers, Remaining(c))
    ensures s'.counter >= s.counter && |s'.workers| == |s.workers|
  {
    var i: nat, a :| Step(c, s, s', i, a);
    ShrinkingAct(c, s, s', i, a);
  }

  lemma ShrinkingAct(c: Config, s: System, s': System, i: nat, a: Action)
    requires Inv(c, s) && Step(c, s, s', i, a) && s.counter >= c.total
    ensures Total(s'.workers, Remaining(c)) < Total(s.workers, Remaining(c))
    ensures s'.counter >= s.counter && |s'.workers| == |s.workers|
  {
    hide WorkerInv, Act, Enabled, Remaining, HasReason;
    var w := s.workers[i];
    RemainingShrinks(c, s.counter, w, a);
    PublishedGrows(c, s.counter, w, a);
    TotalUpdate(s.workers, i, Act(c, s.counter, w, a), Remaining(c));
  }

  /** The steps a worker can still take at all, whatever the counter, while no poll fails: it stops
      at the target, or when its partition is read and three polls were empty. */
  function Todo(): Worker -> int {
    (w: Worker) =>
      Undrained(w) + (if w.done then 0 else 1) + 10 * (|w.input| - w.fetched)
      + match w.stage
        case Joined => 0
        case Panicked => 0
        case Awaiting => 1
        case Checking => 2 + 2 * (EMPTY_LIMIT - w.empties)
        case Handing => 3 + 2 * (EMPTY_LIMIT - w.empties) + 3 * |w.rest|
        case Polling => 1 + 2 * (EMPTY_LIMIT - w.empties)
  }

  /** Every action uses some of it up, but a failed poll gives one back. */
  lemma TodoShrinks(c: Config, counter: nat, w: Worker, a: Action)
    requires WorkerInv(c, w) && Enabled(c, w, a)
    ensures Todo()(Act(c, counter, w, a)) < Todo()(w) + if a.PollError? then 2 else 0
  {
    hide WorkerInv, Act, Enabled, Undrained;
    FewEmpties(c, w);
    if a.Receive? || a.Complete? || a.Hand? {
      DrainStep(c, counter, w, a);
      DrainStage(c, counter, w, a);
      DrainInput(c, counter, w, a);
    } else {
      QuietTodo(c, counter, w, a);
    }
  }

  lemma FewEmpties(c: Config, w: Worker)
    requires WorkerInv(c, w)
    ensures TxOpen(w) ==> w.empties < EMPTY_LIMIT
  {
    hide Results, E.KrafkaResult;
  }

  lemma QuietTodo(c: Config, counter: nat, w: Worker, a: Action)
    requires Enabled(c, w, a) && !a.Receive? && !a.Complete? && !a.Hand? && (TxOpen(w) ==> w.empties < EMPTY_LIMIT)
    ensures Todo()(Act(c, counter, w, a)) < Todo()(w) + if a.PollError? then 2 else 0
  {
    assert Undrained(Act(c, counter, w, a)) == Undrained(w);
    hide Undrained, E.KrafkaResult;
  }

  lemma DrainInput(c: Config, counter: nat, w: Worker, a: Action)
    requires Enabled(c, w, a) && (a.Receive? || a.Complete? || a.Hand?)
    ensures var w' := Act(c, counter, w, a);
            w'.input == w.input && w'.fetched == w.fetched && w'.empties == w.empties
  {
    hide E.KrafkaResult;
  }

  lemma TodoNonNegative(c: Config, w: Worker)
    requires WorkerInv(c, w)
    ensures Todo()(w) >= 0
  {
    hide Results, E.KrafkaResult, Settled, Whole;
  }

  ghost predicate FailedPoll(c: Config, s: System, s': System) {
    exists i: nat :: Step(c, s, s', i, PollError)
  }

  ghost function FailedPolls(c: Config, run: seq<System>): nat {
    if |run| <= 1 then 0 else (if FailedPoll(c, run[0], run[1]) then 1 else 0) + FailedPolls(c, run[1..])
  }

  lemma TodoStep(c: Config, s: System, s': System)
    requires Inv(c, s) && Next(c, s, s')
    ensures Total(s'.workers, Todo()) < Total(s.workers, Todo()) + if FailedPoll(c, s, s') then 2 else 0
  {
    var i: nat, a :| Step(c, s, s', i, a);
    hide WorkerInv, Act, Enabled, Todo, HasReason;
    assert a == PollError ==> FailedPoll(c, s, s');
    TodoShrinks(c, s.counter, s.workers[i], a);
    TotalUpdate(s.workers, i, Act(c, s.counter, s.workers[i], a), Todo());
  }

  lemma {:induction false} TodoRun(c: Config, run: seq<System>)
    requires IsRun(c, run) && Inv(c, run[0]) && Sensible(c)
    ensures |run| - 1 <= Total(run[0].workers, Todo()) + 2 * FailedPolls(c, run)
    decreases |run|
  {
    var ws := run[0].workers;
    if |run| == 1 {
      forall i | 0 <= i < |ws| ensures Todo()(ws[i]) >= 0 {
        TodoNonNegative(c, ws[i]);
      }
      hide Todo;
      TotalNonNegative(ws, Todo());
    } else {
      RunTail(c, run);
      hide Next, IsRun, FailedPoll, Todo;
      NextInv(c, run[0], run[1]);
      TodoStep(c, run[0], run[1]);
      hide Inv;
      TodoRun(c, run[1..]);
    }
  }

  lemma RunTail(c: Config, run: seq<System>)
    requires IsRun(c, run) && |run| > 1
    ensures IsRun(c, run[1..]) && Next(c, run[0], run[1])
  {
    var tail := run[1..];
    assert Next(c, run[0], run[0 + 1]);
    forall k | 0 <= k < |tail| - 1 ensures Next(c, tail[k], tail[k + 1]) {
      assert Next(c, run[k + 1], run[k + 1 + 1]);
    }
  }

  /** Every schedule ends: from any reachable state it has no more steps than the workers have to do,
      and two for every failed poll.  Once the counter has reached the target not even failed polls
      and unread partitions prolong it. */
  lemma ShutdownBound(c: Config, run: seq<System>)
    requires IsRun(c, run) && Reachable(c, run[0]) && Sensible(c)
    ensures |run| - 1 <= Total(run[0].workers, Todo()) + 2 * FailedPolls(c, run)
    ensures run[0].counter >= c.total ==> |run| - 1 <= |run[0].workers| * (6 + 3 * c.maxPoll + 3 * c.window)
  {
    hide Reachable;
    ReachableInv(c, run[0]);
    TodoRun(c, run);
    hide Todo;
    if run[0].counter >= c.total {
      TargetBound(c, run);
    }
  }

  /** From the start that is at most ten steps for every record and worker. */
  lemma WholeRun(c: Config, run: seq<System>)
    requires IsRun(c, run) && Initial(run[0]) && Sensible(c)
    ensures |run| - 1 <= 10 * Total(run[0].workers, InputSize) + 10 * |run[0].workers| + 2 * FailedPolls(c, run)
  {
    InitialInv(c, run[0]);
    TodoRun(c, run);
    StartTodo(run[0].workers);
  }

  function InputSize(w: Worker): int {
    |w.input|
  }

  lemma {:induction false} StartTodo(ws: seq<Worker>)
    requires forall i | 0 <= i < |ws| :: ws[i] == Start(ws[i].input)
    ensures Total(ws, Todo()) == 10 * Total(ws, InputSize) + 10 * |ws|
  {
    if ws != [] {
      assert Todo()(ws[0]) == 10 * |ws[0].input| + 10;
      hide Todo;
      StartTodo(ws[1..]);
    }
  }

  lemma TargetBound(c: Config, run: seq<System>)
    requires IsRun(c, run) && Inv(c, run[0]) && Sensible(c) && run[0].counter >= c.total
    ensures |run| - 1 <= |run[0].workers| * (6 + 3 * c.maxPoll + 3 * c.window)
  {
    TargetRun(c, run);
    var ws := run[0].workers;
    forall i | 0 <= i < |ws| ensures Remaining(c)(ws[i]) <= 6 + 3 * c.maxPoll + 3 * c.window {
      RemainingBound(c, ws[i]);
    }
    hide Inv, IsRun, Remaining;
    TotalBound(ws, Remaining(c), 6 + 3 * c.maxPoll + 3 * c.window);
  }

  lemma {:induction false} TargetRun(c: Config, run: seq<System>)
    requires IsRun(c, run) && Inv(c, run[0]) && Sensible(c) && run[0].counter >= c.total
    ensures |run| - 1 <= Total(run[0].workers, Remaining(c))
    decreases |run|
  {
    var ws := run[0].workers;
    if |run| == 1 {
      forall i | 0 <= i < |ws| ensures Remaining(c)(ws[i]) >= 0 {
        RemainingBound(c, ws[i]);
      }
      hide Remaining;
      TotalNonNegative(ws, Remaining(c));
    } else {
      RunTail(c, run);
      hide Next, IsRun;
      NextInv(c, run[0], run[1]);
      ShrinkingStep(c, run[0], run[1]);
      hide Inv;
      TargetRun(c, run[1..]);
    }
  }

  // ----- the end of a run -----

  ghost predicate JoinedWorker(c: Config, s: System, w: Worker) {
    && w.fetched <= |w.input| && w.consumed == w.input[..w.fetched]
    && Results(w.consumed) == w.initiated
    && |w.initiated| == w.completed == w.published
    && (s.counter >= c.total || w.empties >= EMPTY_LIMIT)
  }

  /** After all joins nothing is outstanding: every record polled was processed, every result sent,
      in order, every send completed and counted, and the counter is exactly their number.  It has
      reached the target unless partitions ran dry. */
  lemma JoinedExactly(c: Config, s: System)
    requires Reachable(c, s) && Sensible(c)
    requires forall i | 0 <= i < |s.workers| :: s.workers[i].stage.Joined?
    ensures s.counter == Total(s.workers, ResultCount)
    ensures forall i | 0 <= i < |s.workers| :: JoinedWorker(c, s, s.workers[i])
  {
    hide Reachable;
    ReachableInv(c, s);
    forall i | 0 <= i < |s.workers| ensures JoinedWorker(c, s, s.workers[i]) {
      WorkerJoined(c, s, s.workers[i]);
    }
    var none := (w: Worker) => ResultCount(w) - Published(w);
    forall i | 0 <= i < |s.workers| ensures none(s.workers[i]) == 0 {
      assert JoinedWorker(c, s, s.workers[i]);
    }
    TotalAlike(s.workers, none, 0);
    TotalAdd(s.workers, Published, none, ResultCount);
  }

  lemma WorkerJoined(c: Config, s: System, w: Worker)
    requires WorkerInv(c, w) && HasReason(c, s.counter, w) && w.stage.Joined?
    ensures JoinedWorker(c, s, w)
  {
    hide Results, E.KrafkaResult;
  }

  /** What a worker that panicked on a malformed record may have handed over without its being
      counted. */
  function PanicLoss(c: Config): Worker -> int {
    (w: Worker) => if w.stage.Panicked? then 2 * c.window + c.batch - 1 else 0
  }

  /** Panics lose no more than one channel, one window and one local counter each. */
  lemma PanicsLoseLittle(c: Config, s: System)
    requires Reachable(c, s) && Sensible(c)
    requires forall i | 0 <= i < |s.workers| :: Finished(s.workers[i])
    ensures s.counter <= Total(s.workers, ResultCount) <= s.counter + Total(s.workers, PanicLoss(c))
  {
    hide Reachable;
    ReachableInv(c, s);
    var lost := (w: Worker) => ResultCount(w) - Published(w);
    var spare := (w: Worker) => PanicLoss(c)(w) - lost(w);
    forall i | 0 <= i < |s.workers|
      ensures 0 <= lost(s.workers[i]) && 0 <= spare(s.workers[i])
    {
      LossBound(c, s.workers[i]);
    }
    TotalNonNegative(s.workers, lost);
    TotalNonNegative(s.workers, spare);
    TotalAdd(s.workers, Published, lost, ResultCount);
    TotalAdd(s.workers, lost, spare, PanicLoss(c));
  }

  lemma LossBound(c: Config, w: Worker)
    requires WorkerInv(c, w) && Finished(w)
    ensures 0 <= ResultCount(w) - Published(w) <= PanicLoss(c)(w)
  {
    hide Results, E.KrafkaResult;
  }
}
