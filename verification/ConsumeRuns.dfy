/** The loop of module `ConsumeLoop` is played by steps of module `KrafkaPipeline`: however the loop
    ends on given counter readings and polls, a worker of the pipeline can take steps that read and
    poll the same and come to the same end, with the same results handed over. */
module ConsumeRuns {
  import opened Bits
  import opened ConsumeLoop
  import opened KrafkaPipeline
  import E = EndToEnd

  /** An action of the worker, and the counter as it stands then. */
  datatype Event = Event(counter: nat, action: Action)

  datatype Played = Stuck | At(w: Worker)

  function Play(c: Config, input: seq<Record>, events: seq<Event>): Played {
    if events == [] then At(Start(input))
    else
      var before, e := Play(c, input, events[..|events| - 1]), events[|events| - 1];
      if before.At? && Enabled(c, before.w, e.action) then At(Act(c, e.counter, before.w, e.action)) else Stuck
  }

  /** What the worker saw: the counter at its checks, and the polls. */
  function Readings(events: seq<Event>): seq<nat> {
    if events == [] then []
    else
      var e := events[|events| - 1];
      Readings(events[..|events| - 1]) + if e.action.Check? then [e.counter] else []
  }

  function Answer(w: Worker, a: Action): seq<Poll> {
    match a
    case PollError => [Failed]
    case PollEmpty => [Fetched([])]
    case PollRecords(n) => if w.fetched + n <= |w.input| then [Fetched(w.input[w.fetched..w.fetched + n])] else []
    case _ => []
  }

  function Answers(c: Config, input: seq<Record>, events: seq<Event>): seq<Poll> {
    if events == [] then []
    else
      var init, a := events[..|events| - 1], events[|events| - 1].action;
      var before := Play(c, input, init);
      Answers(c, input, init) + if before.At? then Answer(before.w, a) else []
  }

  function Counters(rounds: seq<Round>): seq<nat> {
    seq(|rounds|, i requires 0 <= i < |rounds| => rounds[i].counter)
  }

  function Polls(rounds: seq<Round>): seq<Poll> {
    seq(|rounds|, i requires 0 <= i < |rounds| => rounds[i].poll)
  }

  // ----- playing on -----

  /** The worker plays, and can go on; `r` and `p` are what it has seen. */
  ghost predicate Live(c: Config, input: seq<Record>, events: seq<Event>, w: Worker, r: seq<nat>, p: seq<Poll>) {
    && Play(c, input, events) == At(w) && Readings(events) == r && Answers(c, input, events) == p
    && WorkerInv(c, w) && w.input == input && !w.done && w.channelOpen
  }

  lemma Do(c: Config, input: seq<Record>, events: seq<Event>, w: Worker, r: seq<nat>, p: seq<Poll>, e: Event)
    requires Play(c, input, events) == At(w) && Readings(events) == r && Answers(c, input, events) == p
    requires Enabled(c, w, e.action)
    ensures Play(c, input, events + [e]) == At(Act(c, e.counter, w, e.action))
    ensures Readings(events + [e]) == r + if e.action.Check? then [e.counter] else []
    ensures Answers(c, input, events + [e]) == p + Answer(w, e.action)
  {
    hide Act, Enabled, Answer;
    assert (events + [e])[..|events|] == events;
  }

  lemma DoLive(c: Config, input: seq<Record>, events: seq<Event>, w: Worker, r: seq<nat>, p: seq<Poll>, e: Event)
    requires Live(c, input, events, w, r, p) && Sensible(c) && Enabled(c, w, e.action)
    requires !e.action.Exit? && !e.action.Abort? && (e.action.Receive? ==> w.channel != [])
    ensures Live(c, input, events + [e], Act(c, e.counter, w, e.action),
                 r + if e.action.Check? then [e.counter] else [], p + Answer(w, e.action))
  {
    Do(c, input, events, w, r, p, e);
    WorkerStep(c, e.counter, w, e.action);
    Keeps(c, w, e);
    hide Act, Enabled, WorkerInv, Answer, Play, Answers, Readings;
  }

  lemma Keeps(c: Config, w: Worker, e: Event)
    requires Enabled(c, w, e.action) && !e.action.Exit? && !e.action.Abort? && (e.action.Receive? ==> w.channel != [])
    ensures var w' := Act(c, e.counter, w, e.action);
            w'.input == w.input && w'.done == w.done && w'.channelOpen == w.channelOpen
  {
    hide E.KrafkaResult;
  }

  // ----- through a batch -----

  ghost predicate InBatch(w: Worker, fetched: nat, empties: nat, rest: seq<Record>) {
    w.stage.Handing? && w.fetched == fetched && w.empties == empties && w.rest == rest
  }

  lemma PullLive(c: Config, input: seq<Record>, events: seq<Event>, w: Worker, r: seq<nat>, p: seq<Poll>)
    returns (events': seq<Event>)
    requires Live(c, input, events, w, r, p) && Sensible(c) && ReceiveArm(c, w) && w.channel != []
    ensures Live(c, input, events', ReceiveBuffer(w), r, p)
  {
    hide WorkerInv, Play, Answers, Readings;
    DoLive(c, input, events, w, r, p, Event(0, Receive));
    events' := events + [Event(0, Receive)];
    assert r + [] == r && p + [] == p;
  }

  lemma CompleteLive(c: Config, input: seq<Record>, events: seq<Event>, w: Worker, r: seq<nat>, p: seq<Poll>)
    returns (events': seq<Event>, id: nat)
    requires Live(c, input, events, w, r, p) && Sensible(c) && w.inFlight != {}
    ensures id in w.inFlight && Live(c, input, events', CompleteSend(c, w, id), r, p)
  {
    hide WorkerInv, Play, Answers, Readings;
    id :| id in w.inFlight;
    DoLive(c, input, events, w, r, p, Event(0, Complete(id)));
    events' := events + [Event(0, Complete(id))];
    assert r + [] == r && p + [] == p;
  }

  /** The produce task makes room if there is none. */
  lemma Room(c: Config, input: seq<Record>, events: seq<Event>, w: Worker, r: seq<nat>, p: seq<Poll>)
    returns (events': seq<Event>, w': Worker)
    requires Live(c, input, events, w, r, p) && Sensible(c) && w.stage.Handing?
    ensures Live(c, input, events', w', r, p) && |w'.channel| < c.window
    ensures InBatch(w', w.fetched, w.empties, w.rest)
  {
    events', w' := events, w;
    assert |w.channel| <= c.window && |w.inFlight| <= c.window;
    assert w.channelOpen;
    if |w.channel| == c.window {
      if |w.inFlight| == c.window {
        var id;
        events', id := CompleteLive(c, input, events, w, r, p);
        w' := CompleteSend(c, w, id);
      }
      hide Live;
      events' := PullLive(c, input, events', w', r, p);
      w' := ReceiveBuffer(w');
    }
    hide WorkerInv, Play, Answers, Readings;
  }

  lemma HandNext(c: Config, input: seq<Record>, events: seq<Event>, w: Worker, r: seq<nat>, p: seq<Poll>)
    returns (events': seq<Event>, w': Worker)
    requires Live(c, input, events, w, r, p) && Sensible(c)
    requires w.stage.Handing? && w.rest != [] && !IsMalformed(w.rest[0])
    ensures Live(c, input, events', w', r, p)
    ensures InBatch(w', w.fetched, w.empties, w.rest[1..])
  {
    hide WorkerInv, Play, Answers, Readings, E.KrafkaResult;
    var events1, w1 := Room(c, input, events, w, r, p);
    DoLive(c, input, events1, w1, r, p, Event(0, Hand));
    events', w' := events1 + [Event(0, Hand)], HandRecord(w1);
    assert r + [] == r && p + [] == p;
  }

  lemma {:induction false} HandUpTo(c: Config, input: seq<Record>, events: seq<Event>, w: Worker,
                                    r: seq<nat>, p: seq<Poll>, k: nat)
    returns (events': seq<Event>, w': Worker)
    requires Live(c, input, events, w, r, p) && Sensible(c)
    requires w.stage.Handing? && k <= |w.rest| && NoneMalformed(w.rest[..k])
    ensures Live(c, input, events', w', r, p)
    ensures InBatch(w', w.fetched, w.empties, w.rest[k..])
    decreases k
  {
    hide Live, IsMalformed;
    events', w' := events, w;
    if k > 0 {
      assert w.rest[0] in w.rest[..k];
      var events1, w1 := HandNext(c, input, events, w, r, p);
      forall x <- w1.rest[..k - 1] ensures !IsMalformed(x) {
        assert x in w.rest[..k];
      }
      events', w' := HandUpTo(c, input, events1, w1, r, p, k - 1);
    }
  }

  // ----- from round to round -----

  /** At the loop head after n rounds. */
  ghost predicate AtHead(c: Config, input: seq<Record>, rounds: seq<Round>, n: nat, events: seq<Event>, w: Worker) {
    && n <= |rounds|
    && Live(c, input, events, w, Counters(rounds[..n]), Polls(rounds[..n]))
    && w.stage.Checking?
    && w.fetched == |AllRecords(rounds[..n])| && w.empties == TrailingEmpties(rounds[..n])
  }

  ghost predicate Fits(c: Config, input: seq<Record>, rounds: seq<Round>) {
    && AllRecords(rounds) <= input
    && forall r <- rounds :: |RecordsOf(r.poll)| <= c.maxPoll
  }

  lemma {:induction false} PrefixRecords(rounds: seq<Round>, n: nat)
    requires n <= |rounds|
    ensures AllRecords(rounds[..n]) <= AllRecords(rounds)
    decreases |rounds|
  {
    if n < |rounds| {
      var init := rounds[..|rounds| - 1];
      PrefixRecords(init, n);
      assert init[..n] == rounds[..n];
    } else {
      assert rounds[..n] == rounds;
    }
  }

  lemma FirstRecords(c: Config, input: seq<Record>, rounds: seq<Round>, n: nat)
    requires Fits(c, input, rounds) && n <= |rounds|
    ensures |AllRecords(rounds[..n])| <= |input|
    ensures input[..|AllRecords(rounds[..n])|] == AllRecords(rounds[..n])
  {
    PrefixRecords(rounds, n);
    hide AllRecords;
  }

  /** The records of round n follow those before them in the partition. */
  lemma NextRecords(c: Config, input: seq<Record>, rounds: seq<Round>, n: nat)
    requires Fits(c, input, rounds) && n < |rounds|
    ensures var k, records := |AllRecords(rounds[..n])|, RecordsOf(rounds[n].poll);
            && k + |records| <= |input| && input[k..k + |records|] == records && |records| <= c.maxPoll
            && |AllRecords(rounds[..n + 1])| == k + |records|
    ensures AllRecords(rounds[..n]) == input[..|AllRecords(rounds[..n])|]
  {
    NextRound(rounds, n);
    PrefixRecords(rounds, n);
    PrefixRecords(rounds, n + 1);
    hide AllRecords, TrailingEmpties;
    assert rounds[n] in rounds;
    var a, b := AllRecords(rounds[..n]), RecordsOf(rounds[n].poll);
    Inside(a, b, input);
  }

  lemma Extended(rounds: seq<Round>, n: nat)
    requires n < |rounds|
    ensures Counters(rounds[..n + 1]) == Counters(rounds[..n]) + [rounds[n].counter]
    ensures Polls(rounds[..n + 1]) == Polls(rounds[..n]) + [rounds[n].poll]
  {
  }

  /** The check passes. */
  lemma CheckLive(c: Config, input: seq<Record>, events: seq<Event>, w: Worker, r: seq<nat>, p: seq<Poll>, counter: nat)
    returns (events': seq<Event>)
    requires Live(c, input, events, w, r, p) && Sensible(c) && w.stage.Checking? && counter < c.total
    ensures Live(c, input, events', w.(stage := Polling), r + [counter], p)
  {
    hide WorkerInv, Play, Answers, Readings;
    DoLive(c, input, events, w, r, p, Event(counter, Check));
    events' := events + [Event(counter, Check)];
    assert p + [] == p;
  }

  /** The poll answers. */
  lemma PollLive(c: Config, input: seq<Record>, events: seq<Event>, w: Worker, r: seq<nat>, p: seq<Poll>, poll: Poll)
    returns (events': seq<Event>, w': Worker)
    requires Live(c, input, events, w, r, p) && Sensible(c) && w.stage.Polling?
    requires var n := |RecordsOf(poll)|;
             n <= c.maxPoll && w.fetched + n <= |input| && input[w.fetched..w.fetched + n] == RecordsOf(poll)
    ensures Live(c, input, events', w', r, p + [poll])
    ensures w'.fetched == w.fetched + |RecordsOf(poll)|
    ensures poll.Failed? ==> w'.empties == w.empties && w'.stage.Checking?
    ensures IsEmpty(poll) ==>
              w'.empties == w.empties + 1 && w'.stage == if w'.empties >= EMPTY_LIMIT then Awaiting else Checking
    ensures RecordsOf(poll) != [] ==> InBatch(w', w'.fetched, 0, RecordsOf(poll))
  {
    hide WorkerInv, Play, Answers, Readings;
    var a := if poll.Failed? then PollError else if poll.records == [] then PollEmpty else PollRecords(|poll.records|);
    DoLive(c, input, events, w, r, p, Event(0, a));
    events', w' := events + [Event(0, a)], Act(c, 0, w, a);
    assert r + [] == r;
    assert Answer(w, a) == [poll];
  }

  lemma CheckAndPoll(c: Config, input: seq<Record>, rounds: seq<Round>, n: nat, events: seq<Event>, w: Worker)
    returns (events': seq<Event>, w': Worker)
    requires Sensible(c) && Fits(c, input, rounds) && AtHead(c, input, rounds, n, events, w)
    requires n < |rounds| && rounds[n].counter < c.total
    ensures Live(c, input, events', w', Counters(rounds[..n + 1]), Polls(rounds[..n + 1]))
    ensures w'.fetched == |AllRecords(rounds[..n + 1])|
    ensures w'.empties == TrailingEmpties(rounds[..n + 1])
    ensures RecordsOf(rounds[n].poll) == [] ==>
              w'.stage == if !rounds[n].poll.Failed? && w'.empties >= EMPTY_LIMIT then Awaiting else Checking
    ensures RecordsOf(rounds[n].poll) != [] ==> InBatch(w', w'.fetched, 0, RecordsOf(rounds[n].poll))
  {
    NextRound(rounds, n);
    NextRecords(c, input, rounds, n);
    Extended(rounds, n);
    hide AllRecords, TrailingEmpties, Live, Counters, Polls, Fits;
    var r, p := Counters(rounds[..n]), Polls(rounds[..n]);
    events' := CheckLive(c, input, events, w, r, p, rounds[n].counter);
    events', w' := PollLive(c, input, events', w.(stage := Polling), r + [rounds[n].counter], p, rounds[n].poll);
  }

  lemma EndBatchHead(c: Config, input: seq<Record>, events: seq<Event>, w: Worker, r: seq<nat>, p: seq<Poll>)
    returns (events': seq<Event>, w': Worker)
    requires Live(c, input, events, w, r, p) && Sensible(c) && w.stage.Handing? && w.rest == []
    ensures Live(c, input, events', w', r, p) && w' == w.(stage := Checking)
  {
    DoLive(c, input, events, w, r, p, Event(0, EndBatch));
    events', w' := events + [Event(0, EndBatch)], w.(stage := Checking);
    assert r + [] == r && p + [] == p;
    hide WorkerInv, Play, Answers, Readings, E.KrafkaResult;
  }

  lemma PassRound(c: Config, input: seq<Record>, rounds: seq<Round>, n: nat, events: seq<Event>, w: Worker)
    returns (events': seq<Event>, w': Worker)
    requires Sensible(c) && Fits(c, input, rounds) && AtHead(c, input, rounds, n, events, w)
    requires n < |rounds| && rounds[n].counter < c.total && TrailingEmpties(rounds[..n + 1]) < EMPTY_LIMIT
    requires NoneMalformed(RecordsOf(rounds[n].poll))
    ensures AtHead(c, input, rounds, n + 1, events', w')
  {
    hide AllRecords, TrailingEmpties, Live, Fits, NoneMalformed, Counters, Polls;
    var records := RecordsOf(rounds[n].poll);
    events', w' := CheckAndPoll(c, input, rounds, n, events, w);
    if records != [] {
      assert records[..|records|] == records;
      var r, p := Counters(rounds[..n + 1]), Polls(rounds[..n + 1]);
      events', w' := HandUpTo(c, input, events', w', r, p, |records|);
      events', w' := EndBatchHead(c, input, events', w', r, p);
    }
  }

  lemma StartHead(c: Config, input: seq<Record>, rounds: seq<Round>)
    requires Sensible(c)
    ensures AtHead(c, input, rounds, 0, [], Start(input))
  {
    StartInv(c, input);
    StartCount(rounds);
  }

  lemma {:induction false} PassRounds(c: Config, input: seq<Record>, rounds: seq<Round>, n: nat)
    returns (events: seq<Event>, w: Worker)
    requires Sensible(c) && Fits(c, input, rounds) && n <= |rounds|
    requires forall k | 0 <= k < n :: rounds[k].counter < c.total
    requires NoneMalformed(AllRecords(rounds[..n])) && !Dry(rounds[..n])
    ensures AtHead(c, input, rounds, n, events, w)
    decreases n
  {
    hide Dry, AllRecords, Fits, AtHead, TrailingEmpties, IsMalformed;
    if n == 0 {
      StartHead(c, input, rounds);
      return [], Start(input);
    }
    NextRound(rounds, n - 1);
    DryAfter(rounds, n);
    DryAfter(rounds, n - 1);
    events, w := PassRounds(c, input, rounds, n - 1);
    events, w := PassRound(c, input, rounds, n - 1, events, w);
  }

  // ----- the end of the loop -----

  predicate Ends(stop: Stop, w: Worker) {
    match stop
    case StillRunning => w.stage.Checking?
    case TargetReached => w.stage.Awaiting?
    case PartitionDry => w.stage.Awaiting? && w.empties >= EMPTY_LIMIT
    case Malformed => w.stage.Panicked?
  }

  /** The worker has seen what the loop has used of the rounds, and is where the loop is. */
  ghost predicate Matches(c: Config, input: seq<Record>, rounds: seq<Round>, events: seq<Event>,
                          sent: seq<seq<byte>>, used: nat, stop: Stop)
    requires used + (if stop.TargetReached? then 1 else 0) <= |rounds|
  {
    && Play(c, input, events).At?
    && Readings(events) == Counters(rounds[..used + if stop.TargetReached? then 1 else 0])
    && Answers(c, input, events) == Polls(rounds[..used])
    && var w := Play(c, input, events).w;
       w.initiated + w.channel == sent && Ends(stop, w)
  }

  lemma HandedFacts(c: Config, input: seq<Record>, events: seq<Event>, w: Worker, r: seq<nat>, p: seq<Poll>)
    requires Live(c, input, events, w, r, p) && !w.stage.Panicked?
    ensures w.fetched <= |input| && w.consumed + w.rest == input[..w.fetched]
    ensures w.initiated + w.channel == Results(w.consumed)
  {
    hide Results, Play, Answers, Readings;
  }

  /** What a live worker without a batch in hand has handed over. */
  lemma HandedOver(c: Config, input: seq<Record>, rounds: seq<Round>, n: nat, events: seq<Event>, w: Worker,
                   r: seq<nat>, p: seq<Poll>)
    requires Live(c, input, events, w, r, p) && Fits(c, input, rounds) && n <= |rounds|
    requires !w.stage.Panicked? && w.rest == [] && w.fetched == |AllRecords(rounds[..n])|
    ensures w.initiated + w.channel == Results(AllRecords(rounds[..n]))
  {
    hide AllRecords, Results, Live, Fits;
    FirstRecords(c, input, rounds, n);
    HandedFacts(c, input, events, w, r, p);
    assert w.consumed + [] == w.consumed;
  }

  lemma NoRest(c: Config, input: seq<Record>, events: seq<Event>, w: Worker, r: seq<nat>, p: seq<Poll>)
    requires Live(c, input, events, w, r, p) && !w.stage.Handing?
    ensures w.rest == []
  {
  }

  lemma RunsStill(c: Config, input: seq<Record>, rounds: seq<Round>, sent: seq<seq<byte>>, used: nat, stop: Stop)
    returns (events: seq<Event>)
    requires Sensible(c) && Fits(c, input, rounds) && Outcome(c.total, rounds, sent, used, stop)
    requires stop.StillRunning? || stop.TargetReached?
    ensures Matches(c, input, rounds, events, sent, used, stop)
  {
    hide Dry, AllRecords, Fits, Results, NoneMalformed, TrailingEmpties, Counters, Polls;
    var w;
    events, w := PassRounds(c, input, rounds, used);
    var r, p := Counters(rounds[..used]), Polls(rounds[..used]);
    NoRest(c, input, events, w, r, p);
    HandedOver(c, input, rounds, used, events, w, r, p);
    if stop.TargetReached? {
      Extended(rounds, used);
      var e := Event(rounds[used].counter, Check);
      hide WorkerInv, Play, Answers, Readings;
      DoLive(c, input, events, w, r, p, e);
      events := events + [e];
      assert p + [] == p;
    }
  }

  /** What ends the loop is an empty poll that completes the count. */
  lemma DryFacts(total: nat, rounds: seq<Round>, sent: seq<seq<byte>>, used: nat, stop: Stop)
    requires Outcome(total, rounds, sent, used, stop) && stop.PartitionDry?
    ensures 0 < used <= |rounds| && rounds[used - 1].poll == Fetched([])
    ensures TrailingEmpties(rounds[..used]) >= EMPTY_LIMIT
    ensures sent == Results(AllRecords(rounds[..used])) && NoneMalformed(AllRecords(rounds[..used - 1]))
    ensures !Dry(rounds[..used - 1]) && forall k | 0 <= k < used :: rounds[k].counter < total
  {
    hide Dry, AllRecords, Results, IsMalformed, TrailingEmpties;
    NextRound(rounds, used - 1);
    DryAfter(rounds, used);
    DryAfter(rounds, used - 1);
  }

  lemma RunsDry(c: Config, input: seq<Record>, rounds: seq<Round>, sent: seq<seq<byte>>, used: nat, stop: Stop)
    returns (events: seq<Event>)
    requires Sensible(c) && Fits(c, input, rounds) && Outcome(c.total, rounds, sent, used, stop)
    requires stop.PartitionDry?
    ensures Matches(c, input, rounds, events, sent, used, stop)
  {
    DryFacts(c.total, rounds, sent, used, stop);
    hide Outcome, Dry, AllRecords, Fits, Results, NoneMalformed, TrailingEmpties, Counters, Polls, AtHead, Live;
    var w;
    events, w := PassRounds(c, input, rounds, used - 1);
    events, w := CheckAndPoll(c, input, rounds, used - 1, events, w);
    var r, p := Counters(rounds[..used]), Polls(rounds[..used]);
    NoRest(c, input, events, w, r, p);
    HandedOver(c, input, rounds, used, events, w, r, p);
    DryMatch(c, input, rounds, events, w, sent, used, stop);
  }

  lemma DryMatch(c: Config, input: seq<Record>, rounds: seq<Round>, events: seq<Event>, w: Worker,
                 sent: seq<seq<byte>>, used: nat, stop: Stop)
    requires used <= |rounds| && Live(c, input, events, w, Counters(rounds[..used]), Polls(rounds[..used]))
    requires w.initiated + w.channel == sent && stop.PartitionDry? && Ends(stop, w)
    ensures Matches(c, input, rounds, events, sent, used, stop)
  {
    hide WorkerInv, Play, Readings, Answers, Counters, Polls;
  }

  /** The panic leaves everything handed over where it is. */
  lemma Panics(c: Config, input: seq<Record>, events: seq<Event>, w: Worker, r: seq<nat>, p: seq<Poll>)
    requires Live(c, input, events, w, r, p) && w.stage.Handing? && w.rest != [] && IsMalformed(w.rest[0])
    ensures var e := Event(0, Hand);
            && Play(c, input, events + [e]) == At(w.(stage := Panicked, rest := []))
            && Readings(events + [e]) == r && Answers(c, input, events + [e]) == p
  {
    hide WorkerInv, Play, Answers, Readings, E.KrafkaResult;
    Do(c, input, events, w, r, p, Event(0, Hand));
    assert r + [] == r && p + [] == p;
  }

  lemma RunsMalformed(c: Config, input: seq<Record>, rounds: seq<Round>, sent: seq<seq<byte>>, used: nat, stop: Stop)
    returns (events: seq<Event>)
    requires Sensible(c) && Fits(c, input, rounds) && Outcome(c.total, rounds, sent, used, stop)
    requires stop.Malformed?
    ensures Matches(c, input, rounds, events, sent, used, stop)
  {
    hide Dry, AllRecords, Results, IsMalformed, TrailingEmpties, Counters, Polls, Fits;
    var seen, last := AllRecords(rounds[..used - 1]), RecordsOf(rounds[used - 1].poll);
    var n :| 0 <= n < |last|
      && IsMalformed(last[n]) && NoneMalformed(seen + last[..n]) && sent == Results(seen + last[..n]);
    forall x <- seen ensures !IsMalformed(x) { assert x in seen + last[..n]; }
    forall x <- last[..n] ensures !IsMalformed(x) { assert x in seen + last[..n]; }
    var w;
    events, w := PassRounds(c, input, rounds, used - 1);
    events, w := CheckAndPoll(c, input, rounds, used - 1, events, w);
    var r, p := Counters(rounds[..used]), Polls(rounds[..used]);
    hide Live;
    events, w := HandUpTo(c, input, events, w, r, p, n);
    HandedSoFar(c, input, rounds, used, n, events, w, r, p);
    Panics(c, input, events, w, r, p);
    events := events + [Event(0, Hand)];
  }

  lemma WithoutTail<T>(x: seq<T>, a: seq<T>, b: seq<T>, n: nat)
    requires n <= |b| && x + b[n..] == a + b
    ensures x == a + b[..n]
  {
    assert a + b == (a + b[..n]) + b[n..];
    assert x == (x + b[n..])[..|x|];
  }

  lemma Inside<T>(a: seq<T>, b: seq<T>, all: seq<T>)
    requires a + b <= all
    ensures a == all[..|a|] && b == all[|a|..|a| + |b|]
  {
  }

  lemma HandedSoFar(c: Config, input: seq<Record>, rounds: seq<Round>, used: nat, n: nat, events: seq<Event>,
                    w: Worker, r: seq<nat>, p: seq<Poll>)
    requires Live(c, input, events, w, r, p) && Fits(c, input, rounds) && 0 < used <= |rounds|
    requires n < |RecordsOf(rounds[used - 1].poll)| && w.fetched == |AllRecords(rounds[..used])|
    requires w.stage.Handing? && w.rest == RecordsOf(rounds[used - 1].poll)[n..]
    ensures w.initiated + w.channel == Results(AllRecords(rounds[..used - 1]) + RecordsOf(rounds[used - 1].poll)[..n])
  {
    hide AllRecords, Results, TrailingEmpties, Live, Fits;
    NextRound(rounds, used - 1);
    FirstRecords(c, input, rounds, used);
    HandedFacts(c, input, events, w, r, p);
    WithoutTail(w.consumed, AllRecords(rounds[..used - 1]), RecordsOf(rounds[used - 1].poll), n);
  }

  /** Whatever `Consume` comes to, a worker of the pipeline can come to by its own steps. */
  lemma ConsumeIsRun(c: Config, input: seq<Record>, rounds: seq<Round>,
                     sent: seq<seq<byte>>, used: nat, stop: Stop) returns (events: seq<Event>)
    requires Sensible(c) && Fits(c, input, rounds) && Outcome(c.total, rounds, sent, used, stop)
    ensures Matches(c, input, rounds, events, sent, used, stop)
  {
    hide Matches, Fits;
    if stop.PartitionDry? {
      events := RunsDry(c, input, rounds, sent, used, stop);
    } else if stop.Malformed? {
      events := RunsMalformed(c, input, rounds, sent, used, stop);
    } else {
      events := RunsStill(c, input, rounds, sent, used, stop);
    }
  }
}
