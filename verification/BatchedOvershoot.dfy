/** The bound of `BatchedWorkers.OvershootBound` is the best possible, for both protocols. */
module BatchedOvershoot {
  import opened BatchedWorkers
  import Bits

  /** At the check after k records. */
  ghost predicate Waiting(w: Worker, k: nat) {
    w.pc.AtCheck? && w.handled == k
  }

  /** Past the check, one record short of a batch. */
  ghost predicate Ready(c: Config, w: Worker) {
    w.pc.Working? && w.local + 1 == c.batch
  }

  ghost predicate Moved(s: System, s': System, i: nat) {
    && i < |s.workers| == |s'.workers|
    && forall j | 0 <= j < |s.workers| && j != i :: s'.workers[j] == s.workers[j]
  }

  /** The counter apart from the whole batches of worker i. */
  function Others(c: Config, s: System, i: nat): int
    requires i < |s.workers|
  {
    s.counter - WholeBatches(c)(s.workers[i])
  }

  lemma InvOf(c: Config, s: System, i: nat)
    requires Sensible(c) && Reachable(c, s) && i < |s.workers|
    ensures WorkerInv(c, s.counter, s.workers[i])
  {
    ReachableInv(c, s);
  }

  /** One record from check to check, as long as the counter stays below the target. */
  lemma HandleOnce(c: Config, s: System, i: nat, k: nat) returns (s': System)
    requires Sensible(c) && Reachable(c, s) && i < |s.workers| && Waiting(s.workers[i], k)
    requires s.counter < c.total && Others(c, s, i) + c.batch * ((k + 1) / c.batch) < c.total
    ensures Reachable(c, s') && Moved(s, s', i) && Waiting(s'.workers[i], k + 1)
    ensures Others(c, s', i) == Others(c, s, i)
  {
    InvOf(c, s, i);
    assert s.workers[i].local == k % c.batch;
    hide WorkerInv, Reachable;
    NextWhole(c, k);
    hide WholeBatches;
    var s1 := ReachStep(c, s, i, Check);
    s' := ReachStep(c, s1, i, Handle);
    if s'.workers[i].pc.Adding? {
      s' := ReachStep(c, s', i, Add);
    }
    WholeOf(c, s.workers[i]);
    WholeOf(c, s'.workers[i]);
  }

  lemma NextWhole(c: Config, k: nat)
    requires c.batch > 0
    ensures k % c.batch + 1 <= c.batch
    ensures k % c.batch + 1 == c.batch ==> c.batch * ((k + 1) / c.batch) == c.batch * (k / c.batch) + c.batch
    ensures k % c.batch + 1 < c.batch ==> c.batch * ((k + 1) / c.batch) == c.batch * (k / c.batch)
  {
    HandleBatches(c.batch, k);
  }

  /** Records up to one short of the batch after the quota. */
  lemma {:induction false} HandleUpTo(c: Config, s: System, i: nat, k: nat, quota: nat) returns (s': System)
    requires Sensible(c) && Reachable(c, s) && i < |s.workers| && Waiting(s.workers[i], k)
    requires k < quota + c.batch && quota % c.batch == 0 && Others(c, s, i) + quota < c.total
    ensures Reachable(c, s') && Moved(s, s', i) && Waiting(s'.workers[i], quota + c.batch - 1)
    ensures Others(c, s', i) == Others(c, s, i)
    decreases quota + c.batch - k
  {
    hide Reachable;
    s' := s;
    if k + 1 < quota + c.batch {
      BelowQuota(c.batch, k, quota);
      BelowQuota(c.batch, k + 1, quota);
      var s1 := HandleOnce(c, s, i, k);
      s' := HandleUpTo(c, s1, i, k + 1, quota);
    }
  }

  lemma BelowQuota(b: nat, k: nat, quota: nat)
    requires b > 0 && k < quota + b && quota % b == 0
    ensures b * (k / b) <= quota
    ensures k == quota + b - 1 ==> b * (k / b) == quota && k % b == b - 1
  {
    var q := quota / b;
    assert quota == b * q && k == b * (k / b) + k % b;
    if b * (k / b) > quota {
      assert b * (k / b - q) == b * (k / b) - b * q;
      Bits.DifferenceBelow(b, k / b - q);
    }
    if k == quota + b - 1 {
      Bits.ModUnique(k, b, q, b - 1);
    }
  }

  /** A worker from its start to where it is ready, having added its quota. */
  lemma GetReady(c: Config, s: System, i: nat, quota: nat) returns (s': System)
    requires Sensible(c) && Reachable(c, s) && i < |s.workers| && s.workers[i] == Start(c)
    requires quota % c.batch == 0 && s.counter + quota < c.total
    ensures Reachable(c, s') && Moved(s, s', i) && Ready(c, s'.workers[i]) && s'.counter == s.counter + quota
  {
    hide Reachable;
    var s1 := s;
    if c.protocol.AddThenCheck? {
      s1 := ReachStep(c, s, i, NoRecord);
    }
    var s2 := HandleUpTo(c, s1, i, 0, quota);
    BelowQuota(c.batch, quota + c.batch - 1, quota);
    InvOf(c, s2, i);
    s' := ReachStep(c, s2, i, Check);
  }

  /** A ready worker completes its batch and adds it, whatever the counter is. */
  lemma AddBatch(c: Config, s: System, i: nat) returns (s': System)
    requires Sensible(c) && Reachable(c, s) && i < |s.workers| && Ready(c, s.workers[i])
    ensures Reachable(c, s') && Moved(s, s', i) && s'.counter == s.counter + c.batch
  {
    hide Reachable;
    var s1 := ReachStep(c, s, i, Handle);
    s' := ReachStep(c, s1, i, Add);
  }

  /** The first worker alone adds, up to the last whole batch below the target. */
  function Quota(c: Config, i: nat): int
    requires c.batch > 0
  {
    if i == 0 then Target(c) - c.batch else 0
  }

  lemma QuotaFacts(c: Config, i: nat)
    requires Sensible(c)
    ensures 0 <= Quota(c, i) < c.total && Quota(c, i) % c.batch == 0
  {
    TargetFacts(c, 0);
    hide Target;
    OneLess(Target(c), c.batch);
  }

  lemma OneLess(n: nat, b: nat)
    requires 0 < b && 0 < n && n % b == 0
    ensures n >= b && (n - b) % b == 0
  {
    Bits.MultiplesApart(b, b, n);
    assert b % b == 0 by { Bits.ModUnique(b, b, 1, 0); }
    assert n - b == b * (n / b - 1) + 0;
    Bits.ModUnique(n - b, b, n / b - 1, 0);
  }

  /** The first i workers are ready, the others have not started. */
  ghost predicate ReadyUpTo(c: Config, s: System, i: nat)
    requires c.batch > 0
  {
    && i <= |s.workers|
    && s.counter == (if i == 0 then 0 else Quota(c, 0))
    && (forall j | 0 <= j < i :: Ready(c, s.workers[j]))
    && (forall j | i <= j < |s.workers| :: s.workers[j] == Start(c))
  }

  lemma {:induction false} GetAllReady(c: Config, s: System, i: nat) returns (s': System)
    requires Sensible(c) && Reachable(c, s) && ReadyUpTo(c, s, i)
    ensures Reachable(c, s') && ReadyUpTo(c, s', |s.workers|) && |s'.workers| == |s.workers|
    decreases |s.workers| - i
  {
    hide Reachable, Ready, Target;
    s' := s;
    if i < |s.workers| {
      QuotaFacts(c, 0);
      QuotaFacts(c, i);
      var s1 := GetReady(c, s, i, Quota(c, i));
      s' := GetAllReady(c, s1, i + 1);
    }
  }

  lemma {:induction false} AddAll(c: Config, s: System, i: nat) returns (s': System)
    requires Sensible(c) && Reachable(c, s) && i <= |s.workers|
    requires forall j | i <= j < |s.workers| :: Ready(c, s.workers[j])
    ensures Reachable(c, s') && |s'.workers| == |s.workers|
    ensures s'.counter == s.counter + c.batch * (|s.workers| - i)
    decreases |s.workers| - i
  {
    hide Reachable, Ready;
    s' := s;
    if i < |s.workers| {
      var s1 := AddBatch(c, s, i);
      s' := AddAll(c, s1, i + 1);
      assert c.batch * (|s.workers| - i) == c.batch + c.batch * (|s.workers| - i - 1);
    }
  }

  lemma Begin(c: Config, workers: nat) returns (s: System)
    requires Sensible(c)
    ensures Reachable(c, s) && |s.workers| == workers && ReadyUpTo(c, s, 0)
  {
    s := System(0, seq(workers, _ => Start(c)));
    assert IsRun(c, [s]) && Initial(c, [s][0]);
  }

  /** The overshoot of the batched counters, exactly: no reachable state exceeds it, and some
      reachable state meets it. */
  lemma OvershootExactly(c: Config, workers: nat)
    requires Sensible(c) && workers > 0
    ensures forall s | Reachable(c, s) && |s.workers| == workers ::
              s.counter <= Target(c) + c.batch * (workers - 1)
    ensures exists s :: Reachable(c, s) && |s.workers| == workers
              && s.counter == Target(c) + c.batch * (workers - 1)
  {
    hide Reachable, Target;
    forall s | Reachable(c, s) && |s.workers| == workers
      ensures s.counter <= Target(c) + c.batch * (workers - 1)
    {
      OvershootBound(c, s);
    }
    var s0 := Begin(c, workers);
    var s1 := GetAllReady(c, s0, 0);
    var s2 := AddAll(c, s1, 0);
    assert c.batch * workers == c.batch + c.batch * (workers - 1);
  }
}
