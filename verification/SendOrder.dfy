/** The order in which concurrent sends draw their sequence numbers.

    An idempotent producer numbers a send when its future first reaches `send()`, and the broker
    takes the sends of a partition in the order they were pushed, accepting only the next number
    (docs/krafka-idempotent-producer-concurrency-safety.md).  A `FuturesUnordered` polls the futures
    of one task from a FIFO ready queue; spawned tasks are polled in any order.
  */
module SendOrder {

  datatype Option<T> = None | Some(value: T)

  datatype Scheduler = ReadyQueue | SpawnedTasks

  /** `polls[f]` counts the polls of future f; a future draws its number on its poll number `delay`,
      where delay is the number of awaits before `send()`. */
  datatype Executor = Executor(ready: seq<nat>, polls: seq<nat>, numbered: seq<nat>, finished: set<nat>)

  datatype Step =
    | Push                             // a new future, ready to be polled
    | Poll(at: nat, finishes: bool)    // poll an entry of the ready queue
    | Wake(f: nat)                     // a pending future becomes ready again

  const Empty := Executor([], [], [], {})

  predicate Enabled(sched: Scheduler, delay: nat, x: Executor, s: Step) {
    match s
    case Push => true
    case Poll(at, finishes) =>
      && at < |x.ready| && x.ready[at] < |x.polls|
      && (sched.ReadyQueue? ==> at == 0)
      && (finishes ==> x.polls[x.ready[at]] >= delay)
    case Wake(f) => f < |x.polls| && x.polls[f] > 0 && f !in x.ready && f !in x.finished
  }

  function Apply(sched: Scheduler, delay: nat, x: Executor, s: Step): Executor
    requires Enabled(sched, delay, x, s)
  {
    match s
    case Push => x.(ready := x.ready + [|x.polls|], polls := x.polls + [0])
    case Poll(at, finishes) =>
      var f := x.ready[at];
      Executor(x.ready[..at] + x.ready[at + 1..],
               x.polls[f := x.polls[f] + 1],
               if x.polls[f] == delay then x.numbered + [f] else x.numbered,
               if finishes then x.finished + {f} else x.finished)
    case Wake(f) => x.(ready := x.ready + [f])
  }

  function Run(sched: Scheduler, delay: nat, steps: seq<Step>): Option<Executor> {
    if steps == [] then Some(Empty)
    else
      var before, s := Run(sched, delay, steps[..|steps| - 1]), steps[|steps| - 1];
      if before.Some? && Enabled(sched, delay, before.value, s)
      then Some(Apply(sched, delay, before.value, s))
      else None
  }

  ghost predicate Reachable(sched: Scheduler, delay: nat, x: Executor) {
    exists steps :: Run(sched, delay, steps) == Some(x)
  }

  // ----- numbers and the broker -----

  /** How many of the futures go to partition p. */
  function CountOn(fs: seq<nat>, part: nat -> nat, p: nat): nat {
    if fs == [] then 0 else CountOn(fs[..|fs| - 1], part, p) + if part(fs[|fs| - 1]) == p then 1 else 0
  }

  function FirstFutures(n: nat): seq<nat> {
    seq(n, i => i)
  }

  /** Send k draws as its number how many sends of its partition have drawn before it; the broker
      expects how many were pushed before it. */
  ghost predicate Expected(numbered: seq<nat>, part: nat -> nat, k: nat)
    requires k < |numbered|
  {
    var p := part(numbered[k]);
    CountOn(numbered[..k], part, p) == CountOn(FirstFutures(numbered[k]), part, p)
  }

  ghost predicate Accepted(numbered: seq<nat>, part: nat -> nat) {
    forall k | 0 <= k < |numbered| :: Expected(numbered, part, k)
  }

  /** The futures that go to partition p, in order. */
  function OnPartition(fs: seq<nat>, part: nat -> nat, p: nat): seq<nat> {
    if fs == [] then []
    else
      var last := fs[|fs| - 1];
      OnPartition(fs[..|fs| - 1], part, p) + if part(last) == p then [last] else []
  }

  lemma {:induction false} CountIsLength(fs: seq<nat>, part: nat -> nat, p: nat)
    ensures CountOn(fs, part, p) == |OnPartition(fs, part, p)|
    decreases |fs|
  {
    if fs != [] {
      CountIsLength(fs[..|fs| - 1], part, p);
    }
  }

  lemma OnOneMore(fs: seq<nat>, f: nat, part: nat -> nat, p: nat)
    ensures OnPartition(fs + [f], part, p) == OnPartition(fs, part, p) + if part(f) == p then [f] else []
  {
    assert (fs + [f])[..|fs|] == fs;
  }

  lemma {:induction false} OnPrefix(fs: seq<nat>, k: nat, part: nat -> nat, p: nat)
    requires k <= |fs|
    ensures OnPartition(fs[..k], part, p) <= OnPartition(fs, part, p)
    decreases |fs|
  {
    if k < |fs| {
      var init := fs[..|fs| - 1];
      OnPrefix(init, k, part, p);
      assert init[..k] == fs[..k];
    } else {
      assert fs[..k] == fs;
    }
  }

  /** The pushed futures of a partition are in increasing order. */
  lemma {:induction false} PushedIncrease(m: nat, part: nat -> nat, p: nat)
    ensures var fs := OnPartition(FirstFutures(m), part, p);
            && (forall i | 0 <= i < |fs| :: fs[i] < m)
            && forall i, j | 0 <= i < j < |fs| :: fs[i] < fs[j]
  {
    if m > 0 {
      PushedIncrease(m - 1, part, p);
      assert FirstFutures(m) == FirstFutures(m - 1) + [m - 1];
      OnOneMore(FirstFutures(m - 1), m - 1, part, p);
      hide OnPartition;
    }
  }

  /** Where a future stands among those pushed to its partition: after the earlier ones. */
  lemma PushedAt(f: nat, m: nat, part: nat -> nat)
    requires f < m
    ensures var fs, n := OnPartition(FirstFutures(m), part, part(f)), CountOn(FirstFutures(f), part, part(f));
            n < |fs| && fs[n] == f
  {
    var p := part(f);
    CountIsLength(FirstFutures(f), part, p);
    OnOneMore(FirstFutures(f), f, part, p);
    assert FirstFutures(f + 1) == FirstFutures(f) + [f];
    OnPrefix(FirstFutures(m), f + 1, part, p);
    assert FirstFutures(m)[..f + 1] == FirstFutures(f + 1);
    hide OnPartition, FirstFutures, CountOn;
  }

  lemma PushedOnce(f: nat, m: nat, part: nat -> nat, p: nat, i: nat, j: nat)
    requires var fs := OnPartition(FirstFutures(m), part, p);
             i < |fs| && j < |fs| && fs[i] == f && fs[j] == f
    ensures i == j
  {
    PushedIncrease(m, part, p);
    hide OnPartition, FirstFutures;
  }

  lemma PrefixGrows<T>(a: seq<T>, all: seq<T>, x: T)
    requires a <= all && |a| < |all| && all[|a|] == x
    ensures a + [x] <= all
  {
  }

  lemma AcceptedInit(numbered: seq<nat>, part: nat -> nat)
    requires Accepted(numbered, part) && numbered != []
    ensures var n := |numbered| - 1;
            && Accepted(numbered[..n], part)
            && Expected(numbered, part, n)
  {
    hide CountOn, FirstFutures;
    var n := |numbered| - 1;
    var init := numbered[..n];
    forall k | 0 <= k < n ensures Expected(init, part, k) {
      assert init[..k] == numbered[..k] && init[k] == numbered[k];
      assert Expected(numbered, part, k);
    }
  }

  lemma {:induction false} AcceptedIsPrefix(numbered: seq<nat>, part: nat -> nat, m: nat, p: nat)
    requires Accepted(numbered, part) && forall k | 0 <= k < |numbered| :: numbered[k] < m
    ensures OnPartition(numbered, part, p) <= OnPartition(FirstFutures(m), part, p)
    decreases |numbered|
  {
    if numbered != [] {
      var n := |numbered| - 1;
      AcceptedInit(numbered, part);
      hide *;
      AcceptedIsPrefix(numbered[..n], part, m, p);
      PrefixStep(numbered[..n], numbered[n], part, m, p);
      assert numbered == numbered[..n] + [numbered[n]];
    }
  }

  lemma PrefixStep(init: seq<nat>, f: nat, part: nat -> nat, m: nat, p: nat)
    requires f < m && CountOn(init, part, part(f)) == CountOn(FirstFutures(f), part, part(f))
    requires OnPartition(init, part, p) <= OnPartition(FirstFutures(m), part, p)
    ensures OnPartition(init + [f], part, p) <= OnPartition(FirstFutures(m), part, p)
  {
    hide *;
    OnOneMore(init, f, part, p);
    if part(f) == p {
      CountIsLength(init, part, p);
      PushedAt(f, m, part);
      PrefixGrows(OnPartition(init, part, p), OnPartition(FirstFutures(m), part, p), f);
    }
  }

  lemma PrefixIsAccepted(numbered: seq<nat>, part: nat -> nat, m: nat, k: nat)
    requires k < |numbered| && numbered[k] < m
    requires OnPartition(numbered, part, part(numbered[k])) <= OnPartition(FirstFutures(m), part, part(numbered[k]))
    ensures Expected(numbered, part, k)
  {
    var n := StandsAt(numbered, part, k);
    PushedStands(numbered[k], m, part, OnPartition(numbered, part, part(numbered[k])), n);
  }

  /** Where a numbered future stands among those of its partition: after the earlier ones. */
  lemma StandsAt(numbered: seq<nat>, part: nat -> nat, k: nat) returns (n: nat)
    requires k < |numbered|
    ensures var on := OnPartition(numbered, part, part(numbered[k]));
            n == CountOn(numbered[..k], part, part(numbered[k])) && n < |on| && on[n] == numbered[k]
  {
    var f, init := numbered[k], numbered[..k];
    var p := part(f);
    CountIsLength(init, part, p);
    OnOneMore(init, f, part, p);
    OnPrefix(numbered, k + 1, part, p);
    assert numbered[..k + 1] == init + [f];
    hide OnPartition, CountOn;
    n := CountOn(init, part, p);
    ExtendsTo(OnPartition(init, part, p), f, OnPartition(numbered, part, p));
  }

  lemma PushedStands(f: nat, m: nat, part: nat -> nat, on: seq<nat>, n: nat)
    requires f < m && on <= OnPartition(FirstFutures(m), part, part(f)) && n < |on| && on[n] == f
    ensures n == CountOn(FirstFutures(f), part, part(f))
  {
    PushedAt(f, m, part);
    hide OnPartition, CountOn, FirstFutures;
    PushedOnce(f, m, part, part(f), n, CountOn(FirstFutures(f), part, part(f)));
  }

  lemma ExtendsTo<T>(a: seq<T>, x: T, b: seq<T>)
    requires a + [x] <= b
    ensures |a| < |b| && b[|a|] == x
  {
    assert (a + [x])[|a|] == x;
  }

  /** The broker goes by partition: it accepts exactly if, on every partition, the futures numbered so
      far are the first ones pushed to it, in order. */
  lemma AcceptedExactly(numbered: seq<nat>, part: nat -> nat, m: nat)
    requires forall k | 0 <= k < |numbered| :: numbered[k] < m
    ensures Accepted(numbered, part)
       <==> forall p: nat :: OnPartition(numbered, part, p) <= OnPartition(FirstFutures(m), part, p)
  {
    if Accepted(numbered, part) {
      hide Accepted;
      forall p: nat ensures OnPartition(numbered, part, p) <= OnPartition(FirstFutures(m), part, p) {
        AcceptedIsPrefix(numbered, part, m, p);
      }
    } else {
      var k :| 0 <= k < |numbered| && !Expected(numbered, part, k);
      var p := part(numbered[k]);
      if OnPartition(numbered, part, p) <= OnPartition(FirstFutures(m), part, p) {
        PrefixIsAccepted(numbered, part, m, k);
      }
      assert !(OnPartition(numbered, part, p) <= OnPartition(FirstFutures(m), part, p));
    }
  }

  /** Overtaking is rejected on one partition, and accepted across partitions. */
  lemma OvertakingAcross(part: nat -> nat)
    ensures Accepted([1, 0], part) <==> part(0) != part(1)
  {
    var fs := [1, 0];
    assert fs[..0] == [] && fs[..1] == [1] && fs[..1][..0] == [];
    assert FirstFutures(0) == [] && FirstFutures(1) == [0] && FirstFutures(1)[..0] == [];
    assert CountOn(FirstFutures(1), part, part(1)) == if part(0) == part(1) then 1 else 0;
    assert CountOn([1], part, part(0)) == if part(0) == part(1) then 1 else 0;
    if part(0) == part(1) {
      assert !Expected(fs, part, 0);
    }
  }

  // ----- the ready queue keeps push order -----

  /** The entries of the queue that were never polled. */
  function Fresh(ready: seq<nat>, n: nat): seq<nat> {
    if ready == [] then []
    else (if ready[0] >= n then [ready[0]] else []) + Fresh(ready[1..], n)
  }

  ghost predicate InOrder(x: Executor) {
    var n := |x.numbered|;
    && n <= |x.polls|
    && x.numbered == FirstFutures(n)
    && (forall f | 0 <= f < |x.polls| :: x.polls[f] > 0 <==> f < n)
    && (forall i | 0 <= i < |x.ready| :: x.ready[i] < |x.polls|)
    && Fresh(x.ready, n) == seq(|x.polls| - n, i => n + i)
  }

  lemma {:induction false} FreshAppend(ready: seq<nat>, f: nat, n: nat)
    ensures Fresh(ready + [f], n) == Fresh(ready, n) + if f >= n then [f] else []
    decreases |ready|
  {
    if ready == [] {
      FreshOne(f, n);
      assert [] + [f] == [f];
    } else {
      hide Fresh;
      assert ready + [f] == [ready[0]] + (ready[1..] + [f]) && ready == [ready[0]] + ready[1..];
      FreshCons(ready[0], ready[1..] + [f], n);
      FreshCons(ready[0], ready[1..], n);
      FreshAppend(ready[1..], f, n);
    }
  }

  lemma FreshOne(f: nat, n: nat)
    ensures Fresh([f], n) == if f >= n then [f] else []
  {
  }

  lemma FreshCons(f: nat, ready: seq<nat>, n: nat)
    ensures Fresh([f] + ready, n) == (if f >= n then [f] else []) + Fresh(ready, n)
  {
    assert ([f] + ready)[1..] == ready;
  }

  /** Polling the future that is next in line for a number removes it from the fresh ones. */
  lemma FreshLater(ready: seq<nat>, n: nat, m: nat)
    requires Fresh(ready, n) == seq(m, i => n + i + 1)
    ensures Fresh(ready, n + 1) == seq(m, i => n + i + 1)
  {
    FreshAbove(ready, n);
    assert n !in Fresh(ready, n);
  }

  lemma {:induction false} FreshAbove(ready: seq<nat>, n: nat)
    ensures n !in Fresh(ready, n) ==> Fresh(ready, n + 1) == Fresh(ready, n)
    decreases |ready|
  {
    if ready != [] {
      FreshAbove(ready[1..], n);
    }
  }

  lemma PollInOrder(x: Executor, finishes: bool)
    requires InOrder(x) && Enabled(ReadyQueue, 0, x, Poll(0, finishes))
    ensures InOrder(Apply(ReadyQueue, 0, x, Poll(0, finishes)))
  {
    var n, m, f := |x.numbered|, |x.polls|, x.ready[0];
    var x' := Apply(ReadyQueue, 0, x, Poll(0, finishes));
    assert x'.ready == x.ready[1..];
    FreshCons(f, x.ready[1..], n);
    assert x.ready == [f] + x.ready[1..];
    hide Fresh;
    if f >= n {
      assert Fresh(x.ready, n)[0] == f;
      assert f == n;
      NextFresh(x.ready[1..], n, m);
      assert FirstFutures(n + 1) == FirstFutures(n) + [n];
    }
  }

  /** When the future next in line has been polled, the fresh ones start one later. */
  lemma NextFresh(ready: seq<nat>, n: nat, m: nat)
    requires n < m && [n] + Fresh(ready, n) == seq(m - n, i => n + i)
    ensures Fresh(ready, n + 1) == seq(m - (n + 1), i => (n + 1) + i)
  {
    hide Fresh;
    assert Fresh(ready, n) == ([n] + Fresh(ready, n))[1..] == seq(m - n - 1, i => n + i + 1);
    FreshLater(ready, n, m - n - 1);
    assert seq(m - n - 1, i => n + i + 1) == seq(m - (n + 1), i => (n + 1) + i);
  }

  lemma StepInOrder(x: Executor, s: Step)
    requires InOrder(x) && Enabled(ReadyQueue, 0, x, s)
    ensures InOrder(Apply(ReadyQueue, 0, x, s))
  {
    var n, m := |x.numbered|, |x.polls|;
    match s
    case Push =>
      FreshAppend(x.ready, m, n);
      assert seq(m + 1 - n, i => n + i) == seq(m - n, i => n + i) + [m];
    case Poll(at, finishes) => PollInOrder(x, finishes);
    case Wake(f) => FreshAppend(x.ready, f, n);
  }

  lemma {:induction false} RunInOrder(steps: seq<Step>)
    ensures var r := Run(ReadyQueue, 0, steps); r.Some? ==> InOrder(r.value)
    decreases |steps|
  {
    if steps != [] {
      var before := Run(ReadyQueue, 0, steps[..|steps| - 1]);
      RunInOrder(steps[..|steps| - 1]);
      var s := steps[|steps| - 1];
      if before.Some? && Enabled(ReadyQueue, 0, before.value, s) {
        StepInOrder(before.value, s);
      }
    }
  }

  lemma InOrderAccepted(x: Executor, part: nat -> nat)
    requires InOrder(x)
    ensures Accepted(x.numbered, part)
  {
    forall k | 0 <= k < |x.numbered| ensures x.numbered[..k] == FirstFutures(x.numbered[k]) {
    }
  }

  // ----- every other arrangement loses it -----

  /** Two futures; the second reaches its number first. */
  function Overtaking(sched: Scheduler, rounds: nat): seq<Step> {
    if rounds == 0 then
      if sched.ReadyQueue? then [Push, Push, Poll(0, false), Poll(0, false)] else [Push, Push, Poll(1, false)]
    else Overtaking(sched, rounds - 1) + [Wake(1), Poll(if sched.ReadyQueue? then 0 else 1, false)]
  }

  function Overtaken(sched: Scheduler, delay: nat, rounds: nat): Executor {
    Executor(if sched.ReadyQueue? then [] else [0],
             [if sched.ReadyQueue? then 1 else 0, rounds + 1],
             if rounds >= delay then [1] else [],
             {})
  }

  predicate Ordered(sched: Scheduler, delay: nat) {
    sched.ReadyQueue? && delay == 0
  }

  lemma {:induction false} OvertakingRuns(sched: Scheduler, delay: nat, rounds: nat)
    requires !Ordered(sched, delay) && rounds <= delay
    ensures Run(sched, delay, Overtaking(sched, rounds)) == Some(Overtaken(sched, delay, rounds))
  {
    hide Run, Overtaken, Ordered;
    if rounds == 0 {
      FirstPolls(sched, delay);
    } else {
      OvertakingRuns(sched, delay, rounds - 1);
      hide Overtaking;
      OvertakingOn(sched, delay, rounds);
    }
  }

  lemma OvertakingOn(sched: Scheduler, delay: nat, rounds: nat)
    requires !Ordered(sched, delay) && 0 < rounds <= delay
    requires Run(sched, delay, Overtaking(sched, rounds - 1)) == Some(Overtaken(sched, delay, rounds - 1))
    ensures Run(sched, delay, Overtaking(sched, rounds)) == Some(Overtaken(sched, delay, rounds))
  {
    var before, at := Overtaking(sched, rounds - 1), if sched.ReadyQueue? then 0 else 1;
    assert (before + [Wake(1)]) + [Poll(at, false)] == Overtaking(sched, rounds);
    hide *;
    OvertakingRound(sched, delay, rounds);
    var x := Overtaken(sched, delay, rounds - 1);
    RunStep(sched, delay, before, x, Wake(1));
    RunStep(sched, delay, before + [Wake(1)], Apply(sched, delay, x, Wake(1)), Poll(at, false));
  }

  lemma OvertakingRound(sched: Scheduler, delay: nat, rounds: nat)
    requires !Ordered(sched, delay) && 0 < rounds <= delay
    ensures var x, at := Overtaken(sched, delay, rounds - 1), if sched.ReadyQueue? then 0 else 1;
            && Enabled(sched, delay, x, Wake(1))
            && var awake := Apply(sched, delay, x, Wake(1));
               && Enabled(sched, delay, awake, Poll(at, false))
               && Apply(sched, delay, awake, Poll(at, false)) == Overtaken(sched, delay, rounds)
  {
    var x := Overtaken(sched, delay, rounds - 1);
    if sched.ReadyQueue? {
      assert x == Executor([], [1, rounds], [], {});
      hide Overtaken;
      assert Apply(sched, delay, x, Wake(1)) == Executor([1], [1, rounds], [], {});
      PolledAlone(delay, rounds);
    } else {
      assert x == Executor([0], [0, rounds], [], {});
      hide Overtaken;
      assert Apply(sched, delay, x, Wake(1)) == Executor([0, 1], [0, rounds], [], {});
      PolledSecond(delay, rounds);
    }
  }

  lemma PolledAlone(delay: nat, rounds: nat)
    requires 0 < rounds <= delay
    ensures var awake := Executor([1], [1, rounds], [], {});
            && Enabled(ReadyQueue, delay, awake, Poll(0, false))
            && Apply(ReadyQueue, delay, awake, Poll(0, false)) == Overtaken(ReadyQueue, delay, rounds)
  {
    assert [1, rounds][1 := rounds + 1] == [1, rounds + 1];
    assert [1][..0] + [1][1..] == [];
  }

  lemma PolledSecond(delay: nat, rounds: nat)
    requires 0 < rounds <= delay
    ensures var awake := Executor([0, 1], [0, rounds], [], {});
            && Enabled(SpawnedTasks, delay, awake, Poll(1, false))
            && Apply(SpawnedTasks, delay, awake, Poll(1, false)) == Overtaken(SpawnedTasks, delay, rounds)
  {
    assert [0, rounds][1 := rounds + 1] == [0, rounds + 1];
    assert [0, 1][..1] + [0, 1][2..] == [0];
  }

  lemma RunStep(sched: Scheduler, delay: nat, steps: seq<Step>, x: Executor, s: Step)
    requires Run(sched, delay, steps) == Some(x) && Enabled(sched, delay, x, s)
    ensures Run(sched, delay, steps + [s]) == Some(Apply(sched, delay, x, s))
  {
    assert (steps + [s])[..|steps + [s]| - 1] == steps;
  }

  lemma FirstPolls(sched: Scheduler, delay: nat)
    requires !Ordered(sched, delay)
    ensures Run(sched, delay, Overtaking(sched, 0)) == Some(Overtaken(sched, delay, 0))
  {
    TwoPushed(sched, delay);
    hide Run;
    var two := Executor([0, 1], [0, 0], [], {});
    if sched.ReadyQueue? {
      var three := Executor([1], [1, 0], [], {});
      assert Apply(sched, delay, two, Poll(0, false)) == three;
      assert Apply(sched, delay, three, Poll(0, false)) == Executor([], [1, 1], [], {});
      assert [Push, Push] + [Poll(0, false)] == [Push, Push, Poll(0, false)];
      assert [Push, Push, Poll(0, false)] + [Poll(0, false)] == Overtaking(sched, 0);
      hide Apply;
      RunStep(sched, delay, [Push, Push], two, Poll(0, false));
      RunStep(sched, delay, [Push, Push, Poll(0, false)], three, Poll(0, false));
    } else {
      RunStep(sched, delay, [Push, Push], two, Poll(1, false));
      assert [Push, Push] + [Poll(1, false)] == Overtaking(sched, 0);
      assert Apply(sched, delay, two, Poll(1, false)) == Overtaken(sched, delay, 0);
    }
  }

  lemma TwoPushed(sched: Scheduler, delay: nat)
    ensures Run(sched, delay, [Push, Push]) == Some(Executor([0, 1], [0, 0], [], {}))
  {
    var one := Executor([0], [0], [], {});
    assert Apply(sched, delay, Empty, Push) == one;
    assert Apply(sched, delay, one, Push) == Executor([0, 1], [0, 0], [], {});
    assert [] + [Push] == [Push] && [Push] + [Push] == [Push, Push];
    RunStep(sched, delay, [], Empty, Push);
    RunStep(sched, delay, [Push], one, Push);
  }

  lemma OvertakenRejected()
    ensures !Accepted([1], f => 0)
  {
    var part := (f: nat) => 0;
    assert [1][..0] == [];
    assert FirstFutures(1)[..0] == [];
    assert CountOn(FirstFutures(1), part, 0) == 1;
    assert !Expected([1], part, 0);
  }

  /** The safety of concurrent idempotent sends, exactly: no run is ever rejected, whatever the
      partitions, if and only if the futures share one ready queue and `send()` is the first thing
      each of them awaits. */
  lemma OrderedExactly(sched: Scheduler, delay: nat)
    ensures (forall x, part | Reachable(sched, delay, x) :: Accepted(x.numbered, part))
       <==> Ordered(sched, delay)
  {
    if Ordered(sched, delay) {
      forall x, part | Reachable(sched, delay, x) ensures Accepted(x.numbered, part) {
        var steps :| Run(sched, delay, steps) == Some(x);
        RunInOrder(steps);
        InOrderAccepted(x, part);
      }
    } else {
      OvertakingRuns(sched, delay, delay);
      var x := Overtaken(sched, delay, delay);
      assert Reachable(sched, delay, x);
      OvertakenRejected();
      var part := (f: nat) => 0;
      assert !Accepted(x.numbered, part);
    }
  }

  /** In the ready queue, numbers are drawn in push order: future k is the k-th, always. */
  lemma PushOrder(x: Executor)
    requires Reachable(ReadyQueue, 0, x)
    ensures x.numbered == FirstFutures(|x.numbered|)
    ensures forall f | 0 <= f < |x.polls| :: x.polls[f] > 0 <==> f in x.numbered
  {
    var steps :| Run(ReadyQueue, 0, steps) == Some(x);
    RunInOrder(steps);
    forall f | 0 <= f < |x.polls| ensures x.polls[f] > 0 <==> f in x.numbered {
      if f < |x.numbered| {
        assert x.numbered[f] == f;
      }
    }
  }

  /** ... and so on every partition: its futures draw 0, 1, 2, ... in the order they were pushed. */
  lemma PartitionOrder(x: Executor, part: nat -> nat, p: nat)
    requires Reachable(ReadyQueue, 0, x)
    ensures OnPartition(x.numbered, part, p) <= OnPartition(FirstFutures(|x.polls|), part, p)
    ensures forall k | 0 <= k < |x.numbered| && part(x.numbered[k]) == p ::
              |OnPartition(x.numbered[..k], part, p)| == |OnPartition(FirstFutures(x.numbered[k]), part, p)|
  {
    var steps :| Run(ReadyQueue, 0, steps) == Some(x);
    RunInOrder(steps);
    OnPrefix(FirstFutures(|x.polls|), |x.numbered|, part, p);
    assert FirstFutures(|x.polls|)[..|x.numbered|] == x.numbered;
    forall k | 0 <= k < |x.numbered| ensures x.numbered[..k] == FirstFutures(x.numbered[k]) {
    }
  }

  // ----- what holds in any executor -----

  /** An entry is in the queue once, and not after it has finished; a number is drawn once, on the
      poll that reaches `send()`, and before the future finishes. */
  ghost predicate WellQueued(delay: nat, x: Executor) {
    && (forall i | 0 <= i < |x.ready| :: x.ready[i] < |x.polls| && x.ready[i] !in x.finished)
    && (forall i, j | 0 <= i < j < |x.ready| :: x.ready[i] != x.ready[j])
    && (forall i, j | 0 <= i < j < |x.numbered| :: x.numbered[i] != x.numbered[j])
    && (forall f <- x.numbered :: f < |x.polls|)
    && (forall f | 0 <= f < |x.polls| :: f in x.numbered <==> x.polls[f] > delay)
    && (forall f <- x.finished :: f < |x.polls| && f in x.numbered)
  }

  lemma StepQueued(sched: Scheduler, delay: nat, x: Executor, s: Step)
    requires WellQueued(delay, x) && Enabled(sched, delay, x, s)
    ensures WellQueued(delay, Apply(sched, delay, x, s))
  {
    var x' := Apply(sched, delay, x, s);
    match s
    case Push =>
      forall f | 0 <= f < |x'.polls| ensures f in x'.numbered <==> x'.polls[f] > delay {
        if f == |x.polls| { assert x'.polls[f] == 0; }
      }
    case Poll(at, finishes) =>
      var f := x.ready[at];
      forall g | 0 <= g < |x'.polls| ensures g in x'.numbered <==> x'.polls[g] > delay {
        if g != f { assert x'.polls[g] == x.polls[g]; }
      }
    case Wake(f) =>
  }

  /** Whatever the scheduler does, no send draws two numbers or is polled after it has finished. */
  lemma {:induction false} NumberedOnce(sched: Scheduler, delay: nat, steps: seq<Step>)
    ensures var r := Run(sched, delay, steps); r.Some? ==> WellQueued(delay, r.value)
    decreases |steps|
  {
    if steps != [] {
      var before := Run(sched, delay, steps[..|steps| - 1]);
      NumberedOnce(sched, delay, steps[..|steps| - 1]);
      hide WellQueued;
      var s := steps[|steps| - 1];
      if before.Some? && Enabled(sched, delay, before.value, s) {
        StepQueued(sched, delay, before.value, s);
      }
    }
  }
}
