/** The bound of `KrafkaPipeline.OvershootBound` is the best possible: for every configuration and
    every number of workers there is a schedule that reaches it. */
module KrafkaOvershoot {
  import opened Totals
  import opened KrafkaPipeline
  import Bits
  import V = Varint
  import B = Blocks
  import E = EndToEnd

  // ----- input of empty records, with a malformed one at the end -----

  function Easy(): Record {
    Value(E.Record([]))
  }

  function EasyInput(n: nat): seq<Record> {
    seq(n, _ => Easy()) + [Value([])]
  }

  lemma EasyResult()
    ensures E.KrafkaResult(E.Record([])).Return?
  {
    E.RecordDecodes(V.Krafka, []);
    hide E.Record;
  }

  lemma {:induction false} EasyResults(rs: seq<Record>, n: nat)
    requires rs <= EasyInput(n) && |rs| <= n
    ensures |Results(rs)| == |rs|
    decreases |rs|
  {
    if rs != [] {
      EasyResult();
      hide E.KrafkaResult, E.Record;
      EasyResults(rs[..|rs| - 1], n);
      assert rs[|rs| - 1] == EasyInput(n)[|rs| - 1];
    }
  }

  // ----- schedules of one worker -----

  /** Only worker i has taken steps. */
  ghost predicate Moved(s: System, s': System, i: nat) {
    && i < |s.workers| == |s'.workers|
    && (forall j | 0 <= j < |s.workers| && j != i :: s'.workers[j] == s.workers[j])
    && s'.counter - s'.workers[i].published == s.counter - s.workers[i].published
  }

  lemma InvOf(c: Config, s: System, i: nat)
    requires Reachable(c, s) && Sensible(c) && i < |s.workers|
    ensures WorkerInv(c, s.workers[i]) && HasReason(c, s.counter, s.workers[i])
  {
    ReachableInv(c, s);
  }

  /** A worker that takes a step publishes no less than before. */
  lemma Moves(c: Config, s: System, i: nat, a: Action)
    requires Reachable(c, s) && Sensible(c) && i < |s.workers| && Enabled(c, s.workers[i], a)
    ensures Act(c, s.counter, s.workers[i], a).published >= s.workers[i].published
  {
    InvOf(c, s, i);
    PublishedGrows(c, s.counter, s.workers[i], a);
  }

  lemma Move(c: Config, s: System, i: nat, a: Action) returns (s': System)
    requires Reachable(c, s) && Sensible(c) && i < |s.workers| && Enabled(c, s.workers[i], a)
    ensures Reachable(c, s') && Moved(s, s', i)
    ensures s'.workers[i] == Act(c, s.counter, s.workers[i], a)
  {
    var w' := Act(c, s.counter, s.workers[i], a);
    Moves(c, s, i, a);
    hide Act, Enabled, Reachable;
    s' := System(s.counter + w'.published - s.workers[i].published, s.workers[i := w']);
    assert Step(c, s, s', i, a);
    assert Next(c, s, s');
    Onward(c, s, s');
  }

  lemma Onward(c: Config, s: System, s': System)
    requires Reachable(c, s) && Next(c, s, s')
    ensures Reachable(c, s')
  {
    hide Next;
    var run :| IsRun(c, run) && Initial(run[0]) && run[|run| - 1] == s;
    var longer := run + [s'];
    forall k | 0 <= k < |longer| - 1 ensures Next(c, longer[k], longer[k + 1]) {
      if k < |run| - 1 {
        assert Next(c, run[k], run[k + 1]);
      }
    }
    assert IsRun(c, longer);
  }

  lemma Pull(c: Config, s: System, i: nat) returns (s': System)
    requires Reachable(c, s) && Sensible(c) && i < |s.workers|
    requires !s.workers[i].done && ReceiveArm(c, s.workers[i]) && s.workers[i].channel != []
    ensures Reachable(c, s') && Moved(s, s', i) && s'.workers[i] == ReceiveBuffer(s.workers[i])
  {
    hide Reachable;
    s' := Move(c, s, i, Receive);
  }

  lemma CompleteAny(c: Config, s: System, i: nat) returns (s': System, id: nat)
    requires Reachable(c, s) && Sensible(c) && i < |s.workers|
    requires !s.workers[i].done && s.workers[i].inFlight != {}
    ensures Reachable(c, s') && Moved(s, s', i)
    ensures id in s.workers[i].inFlight && s'.workers[i] == CompleteSend(c, s.workers[i], id)
  {
    hide Reachable;
    id :| id in s.workers[i].inFlight;
    s' := Move(c, s, i, Complete(id));
  }

  /** At the loop head after k records, with f sends in flight and h buffers in the channel. */
  ghost predicate Idle(w: Worker, n: nat, k: nat, f: nat, h: nat) {
    && w.input == EasyInput(n) && w.stage.Checking? && w.channelOpen && !w.done
    && |w.consumed| == w.fetched == k <= n && |w.inFlight| == f && |w.channel| == h
  }

  lemma Take(c: Config, s: System, i: nat, n: nat, k: nat, f: nat, h: nat) returns (s': System)
    requires Reachable(c, s) && Sensible(c) && c.maxPoll > 0 && i < |s.workers|
    requires Idle(s.workers[i], n, k, f, h) && s.counter < c.total && k < n && h < c.window
    ensures Reachable(c, s') && Moved(s, s', i) && s'.workers[i].published == s.workers[i].published
    ensures Idle(s'.workers[i], n, k + 1, f, h + 1)
  {
    hide Reachable;
    EasyResult();
    hide E.KrafkaResult, E.Record;
    var s1 := Move(c, s, i, Check);
    var s2 := Move(c, s1, i, PollRecords(1));
    assert s2.workers[i].rest == [EasyInput(n)[k]];
    var s3 := Move(c, s2, i, Hand);
    s' := Move(c, s3, i, EndBatch);
  }

  lemma NewSend(c: Config, w: Worker)
    requires WorkerInv(c, w)
    ensures |w.inFlight + {|w.initiated|}| == |w.inFlight| + 1 && |w.inFlight| <= c.window && |w.channel| <= c.window
  {
    assert |w.initiated| !in w.inFlight;
  }

  lemma Send(c: Config, s: System, i: nat, n: nat, k: nat, f: nat, h: nat) returns (s': System)
    requires Reachable(c, s) && Sensible(c) && i < |s.workers|
    requires Idle(s.workers[i], n, k, f, h) && h > 0 && f < c.window
    ensures Reachable(c, s') && Moved(s, s', i) && s'.workers[i].published == s.workers[i].published
    ensures Idle(s'.workers[i], n, k, f + 1, h - 1)
  {
    hide Reachable;
    InvOf(c, s, i);
    NewSend(c, s.workers[i]);
    hide WorkerInv, HasReason;
    s' := Pull(c, s, i);
  }

  lemma Finish(c: Config, s: System, i: nat, n: nat, k: nat, f: nat, h: nat) returns (s': System)
    requires Reachable(c, s) && Sensible(c) && i < |s.workers|
    requires Idle(s.workers[i], n, k, f, h) && f > 0
    ensures Reachable(c, s') && Moved(s, s', i)
    ensures Idle(s'.workers[i], n, k, f - 1, h)
  {
    hide Reachable;
    var id;
    s', id := CompleteAny(c, s, i);
  }

  lemma Counts(c: Config, w: Worker, n: nat, k: nat, f: nat, h: nat)
    requires WorkerInv(c, w) && Idle(w, n, k, f, h)
    ensures k - f - h == w.published + w.local && w.local < c.batch && Whole(c, w.published)
  {
    EasyResults(w.consumed, n);
    hide Results;
  }

  /** How many of the k records have been published. */
  lemma PublishedOf(c: Config, s: System, i: nat, n: nat, k: nat, f: nat, h: nat, quota: nat)
    requires Reachable(c, s) && Sensible(c) && i < |s.workers| && Idle(s.workers[i], n, k, f, h)
    requires Whole(c, quota) && k - f - h < quota + c.batch
    ensures s.workers[i].published <= quota
    ensures quota <= k - f - h ==> s.workers[i].published == quota
  {
    InvOf(c, s, i);
    hide Reachable;
    var w, b := s.workers[i], c.batch;
    Counts(c, w, n, k, f, h);
    hide WorkerInv, HasReason, Idle;
    Bits.MultiplesApart(b, w.published, quota);
    Bits.MultiplesApart(b, quota, w.published);
  }

  /** Records taken, sent and completed one by one. */
  lemma {:induction false} Work(c: Config, s: System, i: nat, n: nat, k: nat, m: nat, quota: nat) returns (s': System)
    requires Reachable(c, s) && Sensible(c) && c.maxPoll > 0 && i < |s.workers|
    requires Idle(s.workers[i], n, k, 0, 0) && k + m <= n && k + m < quota + c.batch
    requires Whole(c, quota) && s.counter - s.workers[i].published + quota <= LastWhole(c)
    ensures Reachable(c, s') && Moved(s, s', i)
    ensures Idle(s'.workers[i], n, k + m, 0, 0)
    decreases m
  {
    hide Reachable, Idle;
    s' := s;
    if m > 0 {
      PublishedOf(c, s, i, n, k, 0, 0, quota);
      LastWholeFacts(c, 0);
      var s1 := Take(c, s, i, n, k, 0, 0);
      var s2 := Send(c, s1, i, n, k + 1, 0, 1);
      var s3 := Finish(c, s2, i, n, k + 1, 1, 0);
      s' := Work(c, s3, i, n, k + 1, m - 1, quota);
    }
  }

  /** Records taken and sent without a completion. */
  lemma {:induction false} FillWindow(c: Config, s: System, i: nat, n: nat, k: nat, f: nat) returns (s': System)
    requires Reachable(c, s) && Sensible(c) && c.maxPoll > 0 && i < |s.workers|
    requires Idle(s.workers[i], n, k, f, 0) && f <= c.window && k + c.window - f <= n && s.counter < c.total
    ensures Reachable(c, s') && Moved(s, s', i) && s'.workers[i].published == s.workers[i].published
    ensures Idle(s'.workers[i], n, k + c.window - f, c.window, 0)
    decreases c.window - f
  {
    hide Reachable, Idle;
    s' := s;
    if f < c.window {
      var s1 := Take(c, s, i, n, k, f, 0);
      var s2 := Send(c, s1, i, n, k + 1, f, 1);
      s' := FillWindow(c, s2, i, n, k + 1, f + 1);
    }
  }

  /** Records taken only. */
  lemma {:induction false} FillChannel(c: Config, s: System, i: nat, n: nat, k: nat, f: nat, h: nat)
    returns (s': System)
    requires Reachable(c, s) && Sensible(c) && c.maxPoll > 0 && i < |s.workers|
    requires Idle(s.workers[i], n, k, f, h) && h <= c.window && k + c.window - h <= n && s.counter < c.total
    ensures Reachable(c, s') && Moved(s, s', i) && s'.workers[i].published == s.workers[i].published
    ensures Idle(s'.workers[i], n, k + c.window - h, f, c.window)
    decreases c.window - h
  {
    hide Reachable, Idle;
    s' := s;
    if h < c.window {
      var s1 := Take(c, s, i, n, k, f, h);
      s' := FillChannel(c, s1, i, n, k + 1, f, h + 1);
    }
  }

  /** In the middle of a poll: x records handed over, r still to come. */
  ghost predicate Busy(w: Worker, n: nat, x: nat, r: nat) {
    && w.input == EasyInput(n) && w.stage.Handing? && w.channelOpen && !w.done
    && |w.consumed| == x && |w.rest| == r && x + r <= n
  }

  /** What a worker has consumed before its last poll. */
  function Before(c: Config, quota: int): int {
    quota + c.batch - 1 + 2 * c.window
  }

  /** A worker fills everything it has, and passes the check once more. */
  lemma Load(c: Config, s: System, i: nat, n: nat, quota: nat) returns (s': System)
    requires Reachable(c, s) && Sensible(c) && c.maxPoll > 0 && i < |s.workers|
    requires Idle(s.workers[i], n, 0, 0, 0) && s.workers[i].published == 0
    requires Before(c, quota) + c.maxPoll <= n && Whole(c, quota) && s.counter + quota <= LastWhole(c)
    ensures Reachable(c, s') && Moved(s, s', i) && s'.counter == s.counter + quota
    ensures Busy(s'.workers[i], n, Before(c, quota), c.maxPoll)
  {
    hide Reachable, Idle, Busy;
    var k := quota + c.batch - 1;
    LastWholeFacts(c, 0);
    var s1 := Work(c, s, i, n, 0, k, quota);
    PublishedOf(c, s1, i, n, k, 0, 0, quota);
    var s2 := FillWindow(c, s1, i, n, k, 0);
    var s3 := FillChannel(c, s2, i, n, k + c.window, c.window, 0);
    s' := PollFull(c, s3, i, n, Before(c, quota));
  }

  lemma PollFull(c: Config, s: System, i: nat, n: nat, k: nat) returns (s': System)
    requires Reachable(c, s) && Sensible(c) && c.maxPoll > 0 && i < |s.workers|
    requires Idle(s.workers[i], n, k, c.window, c.window) && k + c.maxPoll <= n && s.counter < c.total
    ensures Reachable(c, s') && Moved(s, s', i) && s'.workers[i].published == s.workers[i].published
    ensures Busy(s'.workers[i], n, k, c.maxPoll)
  {
    hide Reachable;
    var s1 := Move(c, s, i, Check);
    s' := Move(c, s1, i, PollRecords(c.maxPoll));
  }

  /** The rest of a poll is handed over whatever the counter says meanwhile. */
  lemma {:induction false} HandAll(c: Config, s: System, i: nat, n: nat, x: nat, r: nat) returns (s': System)
    requires Reachable(c, s) && Sensible(c) && i < |s.workers| && Busy(s.workers[i], n, x, r)
    ensures Reachable(c, s') && Moved(s, s', i) && Busy(s'.workers[i], n, x + r, 0)
    decreases r
  {
    hide Reachable, Busy;
    s' := s;
    if r > 0 {
      var s1 := MakeRoom(c, s, i, n, x, r);
      var s2 := HandOne(c, s1, i, n, x, r);
      s' := HandAll(c, s2, i, n, x + 1, r - 1);
    }
  }

  lemma MakeRoom(c: Config, s: System, i: nat, n: nat, x: nat, r: nat) returns (s': System)
    requires Reachable(c, s) && Sensible(c) && i < |s.workers| && Busy(s.workers[i], n, x, r)
    ensures Reachable(c, s') && Moved(s, s', i) && Busy(s'.workers[i], n, x, r)
    ensures |s'.workers[i].channel| < c.window
  {
    hide Reachable;
    InvOf(c, s, i);
    NewSend(c, s.workers[i]);
    hide WorkerInv, HasReason;
    s' := s;
    if |s.workers[i].channel| == c.window {
      if |s.workers[i].inFlight| == c.window {
        var id;
        s', id := CompleteAny(c, s, i);
      }
      s' := Pull(c, s', i);
    }
  }

  lemma NextEasy(c: Config, w: Worker, n: nat, x: nat, r: nat)
    requires WorkerInv(c, w) && Busy(w, n, x, r) && r > 0
    ensures w.rest[0] == Easy()
  {
    assert w.rest[0] == (w.consumed + w.rest)[x] == EasyInput(n)[x];
  }

  lemma HandOne(c: Config, s: System, i: nat, n: nat, x: nat, r: nat) returns (s': System)
    requires Reachable(c, s) && Sensible(c) && i < |s.workers| && Busy(s.workers[i], n, x, r)
    requires r > 0 && |s.workers[i].channel| < c.window
    ensures Reachable(c, s') && Moved(s, s', i) && Busy(s'.workers[i], n, x + 1, r - 1)
  {
    hide Reachable;
    InvOf(c, s, i);
    NextEasy(c, s.workers[i], n, x, r);
    EasyResult();
    hide WorkerInv, HasReason, EasyInput, E.KrafkaResult, E.Record;
    s' := Move(c, s, i, Hand);
  }

  // ----- all workers -----

  /** The first worker alone publishes, up to the last whole batch below the target. */
  function Quota(c: Config, i: nat): int {
    if i == 0 then LastWhole(c) else 0
  }

  function Needed(c: Config): int {
    Before(c, LastWhole(c)) + c.maxPoll
  }

  lemma QuotaFacts(c: Config, i: nat)
    requires Sensible(c)
    ensures 0 <= Quota(c, i) <= LastWhole(c) && Whole(c, Quota(c, i))
    ensures 0 <= Before(c, Quota(c, i)) <= Needed(c) - c.maxPoll
  {
    LastWholeFacts(c, 0);
  }

  /** The first i workers are loaded, the others have not started. */
  ghost predicate LoadedUpTo(c: Config, s: System, i: nat) {
    && Needed(c) >= 0 && i <= |s.workers|
    && s.counter == (if i == 0 then 0 else LastWhole(c))
    && (forall j | 0 <= j < i ::
          Before(c, Quota(c, j)) >= 0 && Busy(s.workers[j], Needed(c), Before(c, Quota(c, j)), c.maxPoll))
    && (forall j | i <= j < |s.workers| :: s.workers[j] == Start(EasyInput(Needed(c))))
  }

  lemma {:induction false} LoadAll(c: Config, s: System, i: nat) returns (s': System)
    requires Reachable(c, s) && Sensible(c) && c.maxPoll > 0 && LoadedUpTo(c, s, i)
    ensures Reachable(c, s') && LoadedUpTo(c, s', |s.workers|) && |s'.workers| == |s.workers|
    decreases |s.workers| - i
  {
    hide Reachable, Busy;
    s' := s;
    if i < |s.workers| {
      QuotaFacts(c, i);
      var s1 := Load(c, s, i, Needed(c), Quota(c, i));
      s' := LoadAll(c, s1, i + 1);
    }
  }

  /** The first i workers have handed over their last poll as well. */
  ghost predicate HandedUpTo(c: Config, s: System, i: nat) {
    && Needed(c) >= 0 && i <= |s.workers|
    && forall j | 0 <= j < |s.workers| ::
         && Before(c, Quota(c, j)) >= 0
         && if j < i then Busy(s.workers[j], Needed(c), Before(c, Quota(c, j)) + c.maxPoll, 0)
            else Busy(s.workers[j], Needed(c), Before(c, Quota(c, j)), c.maxPoll)
  }

  lemma {:induction false} HandAllWorkers(c: Config, s: System, i: nat) returns (s': System)
    requires Reachable(c, s) && Sensible(c) && HandedUpTo(c, s, i)
    ensures Reachable(c, s') && HandedUpTo(c, s', |s.workers|) && |s'.workers| == |s.workers|
    decreases |s.workers| - i
  {
    hide Reachable, Busy;
    s' := s;
    if i < |s.workers| {
      var s1 := HandAll(c, s, i, Needed(c), Before(c, Quota(c, i)), c.maxPoll);
      s' := HandAllWorkers(c, s1, i + 1);
    }
  }

  /** The sum over a first worker and others that are all alike. */
  lemma TotalFirst<T>(ws: seq<T>, f: T -> int, first: int, other: int)
    requires ws != [] && f(ws[0]) == first && forall i | 1 <= i < |ws| :: f(ws[i]) == other
    ensures Total(ws, f) == first + (|ws| - 1) * other
  {
    TotalAlike(ws[1..], f, other);
  }

  lemma BusyCount(c: Config, s: System, i: nat, n: nat, x: nat, r: nat)
    requires Reachable(c, s) && Sensible(c) && i < |s.workers| && Busy(s.workers[i], n, x, r)
    ensures ResultCount(s.workers[i]) == x
  {
    InvOf(c, s, i);
    EasyResults(s.workers[i].consumed, n);
  }

  lemma FinalTotal(c: Config, s: System)
    requires Reachable(c, s) && Sensible(c) && s.workers != [] && HandedUpTo(c, s, |s.workers|)
    ensures Total(s.workers, ResultCount) == Overshoot(c, |s.workers|)
  {
    hide Reachable, Busy, ResultCount, LastWhole;
    forall j | 0 <= j < |s.workers|
      ensures ResultCount(s.workers[j]) == Before(c, Quota(c, j)) + c.maxPoll
    {
      BusyCount(c, s, j, Needed(c), Before(c, Quota(c, j)) + c.maxPoll, 0);
    }
    var slack := Slack(c);
    TotalFirst(s.workers, ResultCount, LastWhole(c) + slack, slack);
    assert |s.workers| * slack == slack + (|s.workers| - 1) * slack;
  }

  lemma Begin(c: Config, workers: nat) returns (s: System)
    requires Sensible(c)
    ensures Reachable(c, s) && |s.workers| == workers && LoadedUpTo(c, s, 0)
  {
    QuotaFacts(c, 0);
    var w := Start(EasyInput(Needed(c)));
    s := System(0, seq(workers, _ => w));
    assert IsRun(c, [s]) && Initial([s][0]);
  }

  /** The overshoot of the krafka workers, exactly: with W workers no reachable state has handed over
      more than the last whole batch below the target plus W slacks, and some reachable state has
      handed over that many. */
  lemma OvershootExactly(c: Config, workers: nat)
    requires Sensible(c) && c.maxPoll > 0 && workers > 0
    ensures forall s | Reachable(c, s) && |s.workers| == workers ::
              Total(s.workers, ResultCount) <= Overshoot(c, workers)
    ensures exists s :: Reachable(c, s) && |s.workers| == workers
              && Total(s.workers, ResultCount) == Overshoot(c, workers)
  {
    hide Reachable, Busy;
    forall s | Reachable(c, s) && |s.workers| == workers
      ensures Total(s.workers, ResultCount) <= Overshoot(c, workers)
    {
      OvershootBound(c, s);
    }
    var s0 := Begin(c, workers);
    var s1 := LoadAll(c, s0, 0);
    assert HandedUpTo(c, s1, 0);
    var s2 := HandAllWorkers(c, s1, 0);
    FinalTotal(c, s2);
  }

  /** With the constants of the code and its default of eight workers, exactly. */
  lemma CodeOvershootExactly()
    ensures forall s | Reachable(CodeConfig(), s) && |s.workers| == 8 :: Total(s.workers, ResultCount) <= 50_566_992
    ensures exists s :: Reachable(CodeConfig(), s) && |s.workers| == 8 && Total(s.workers, ResultCount) == 50_566_992
  {
    CodeBound();
    hide Reachable, Overshoot;
    OvershootExactly(CodeConfig(), 8);
  }

  // ----- and what a panic loses -----

  lemma BadResult()
    ensures !E.KrafkaResult([]).Return?
  {
    B.NothingLeft(0, 0);
    hide B.Decode;
  }

  /** With everything full, the next record is malformed: the loop panics and the task is dropped. */
  lemma PanicNow(c: Config, s: System, i: nat, n: nat, f: nat, h: nat) returns (s': System)
    requires Reachable(c, s) && Sensible(c) && c.maxPoll > 0 && i < |s.workers|
    requires Idle(s.workers[i], n, n, f, h) && s.counter < c.total
    ensures Reachable(c, s') && Moved(s, s', i) && Finished(s'.workers[i]) && s'.workers[i].stage.Panicked?
    ensures s'.workers[i].published == s.workers[i].published && s'.workers[i].input == EasyInput(n)
    ensures s'.workers[i].consumed == s.workers[i].consumed
  {
    hide Reachable;
    BadResult();
    hide E.KrafkaResult, E.Record;
    var s1 := Move(c, s, i, Check);
    var s2 := Move(c, s1, i, PollRecords(1));
    assert s2.workers[i].rest == [EasyInput(n)[n]];
    var s3 := Move(c, s2, i, Hand);
    s' := Move(c, s3, i, Abort);
  }

  /** The loss that `KrafkaPipeline.PanicsLoseLittle` allows a panicked worker does occur. */
  lemma PanicLossReached(c: Config) returns (s: System)
    requires Sensible(c) && c.maxPoll > 0
    ensures Reachable(c, s) && |s.workers| == 1 && Finished(s.workers[0]) && s.workers[0].stage.Panicked?
    ensures Total(s.workers, ResultCount) == s.counter + 2 * c.window + c.batch - 1
  {
    hide Reachable, Idle;
    var n := Before(c, 0);
    var s0 := System(0, [Start(EasyInput(n))]);
    OneStarts(c, s0, n);
    LastWholeFacts(c, 0);
    var s1 := Work(c, s0, 0, n, 0, c.batch - 1, 0);
    PublishedOf(c, s1, 0, n, c.batch - 1, 0, 0, 0);
    var s2 := FillWindow(c, s1, 0, n, c.batch - 1, 0);
    var s3 := FillChannel(c, s2, 0, n, c.batch - 1 + c.window, c.window, 0);
    s := PanicNow(c, s3, 0, n, c.window, c.window);
    IdleConsumed(c, s3, 0, n);
    InvOf(c, s, 0);
    EasyResults(s.workers[0].consumed, n);
    hide Results;
    assert s.workers == [s.workers[0]];
    SingleTotal(s.workers[0]);
  }

  lemma OneStarts(c: Config, s: System, n: nat)
    requires Sensible(c) && s == System(0, [Start(EasyInput(n))])
    ensures Reachable(c, s) && Idle(s.workers[0], n, 0, 0, 0)
  {
    assert IsRun(c, [s]) && Initial([s][0]);
  }

  lemma IdleConsumed(c: Config, s: System, i: nat, n: nat)
    requires i < |s.workers| && Idle(s.workers[i], n, n, c.window, c.window)
    ensures |s.workers[i].consumed| == n
  {
  }

  lemma SingleTotal(w: Worker)
    ensures Total([w], ResultCount) == ResultCount(w)
  {
    assert Total([w][1..], ResultCount) == 0;
  }
}
