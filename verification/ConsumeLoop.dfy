/** The consume loop of a krafka worker as it is written, on its own: what the counter and the polls
    answer is given, round by round; `tx.send` is an append (see `KrafkaPipeline.SendNeverFails`).
  */
module ConsumeLoop {
  import opened Bits
  import opened KrafkaPipeline
  import E = EndToEnd

  datatype Poll = Failed | Fetched(records: seq<Record>)

  /** What one round of the loop sees: the counter at its head, and the poll. */
  datatype Round = Round(counter: nat, poll: Poll)

  datatype Stop = TargetReached | PartitionDry | Malformed | StillRunning

  function RecordsOf(p: Poll): seq<Record> {
    if p.Failed? then [] else p.records
  }

  function AllRecords(rounds: seq<Round>): seq<Record> {
    if rounds == [] then []
    else AllRecords(rounds[..|rounds| - 1]) + RecordsOf(rounds[|rounds| - 1].poll)
  }

  predicate IsEmpty(p: Poll) {
    p == Fetched([])
  }

  ghost predicate OnlyFailures(rounds: seq<Round>, i: nat, j: nat)
    requires j <= |rounds|
  {
    forall m | i <= m < j :: rounds[m].poll.Failed?
  }

  ghost predicate ThreeEmpty(rounds: seq<Round>, i: nat, j: nat, k: nat) {
    && i < j < k < |rounds|
    && IsEmpty(rounds[i].poll) && IsEmpty(rounds[j].poll) && IsEmpty(rounds[k].poll)
    && OnlyFailures(rounds, i + 1, j) && OnlyFailures(rounds, j + 1, k)
  }

  /** Three empty polls with nothing but failed polls between them. */
  ghost predicate Dry(rounds: seq<Round>) {
    exists i: nat, j: nat, k: nat :: ThreeEmpty(rounds, i, j, k)
  }

  /** How many empty polls end the rounds, not counting failed ones. */
  function TrailingEmpties(rounds: seq<Round>): nat {
    if rounds == [] then 0
    else
      var init, p := rounds[..|rounds| - 1], rounds[|rounds| - 1].poll;
      if p.Failed? then TrailingEmpties(init)
      else if p.records == [] then 1 + TrailingEmpties(init)
      else 0
  }

  lemma {:induction false} LastEmpty(rounds: seq<Round>) returns (i: nat)
    requires TrailingEmpties(rounds) > 0
    ensures i < |rounds| && IsEmpty(rounds[i].poll) && OnlyFailures(rounds, i + 1, |rounds|)
    ensures TrailingEmpties(rounds[..i]) == TrailingEmpties(rounds) - 1
    decreases |rounds|
  {
    var init := rounds[..|rounds| - 1];
    if rounds[|init|].poll.Failed? {
      i := LastEmpty(init);
      assert init[..i] == rounds[..i];
    } else {
      i := |init|;
    }
  }

  lemma CountedDry(rounds: seq<Round>, n: nat)
    requires n <= |rounds| && TrailingEmpties(rounds[..n]) >= EMPTY_LIMIT
    ensures Dry(rounds)
  {
    hide TrailingEmpties;
    var k := LastEmpty(rounds[..n]);
    assert rounds[..n][..k] == rounds[..k];
    var j := LastEmpty(rounds[..k]);
    assert rounds[..k][..j] == rounds[..j];
    var i := LastEmpty(rounds[..j]);
    assert rounds[i] == rounds[..j][i] && rounds[j] == rounds[..k][j] && rounds[k] == rounds[..n][k];
    forall m | i + 1 <= m < j ensures rounds[m].poll.Failed? {
      assert rounds[..j][m].poll.Failed?;
    }
    forall m | j + 1 <= m < k ensures rounds[m].poll.Failed? {
      assert rounds[..k][m].poll.Failed?;
    }
    assert ThreeEmpty(rounds, i, j, k);
  }

  /** An empty poll, after failed ones, adds one. */
  lemma {:induction false} FailuresKeep(rounds: seq<Round>, i: nat, j: nat)
    requires i <= j <= |rounds| && OnlyFailures(rounds, i, j)
    ensures TrailingEmpties(rounds[..j]) == TrailingEmpties(rounds[..i])
    decreases j
  {
    if i < j {
      FailuresKeep(rounds, i, j - 1);
      assert rounds[..j][..j - 1] == rounds[..j - 1];
    }
  }

  lemma EmptyAdds(rounds: seq<Round>, i: nat)
    requires i < |rounds| && IsEmpty(rounds[i].poll)
    ensures TrailingEmpties(rounds[..i + 1]) == TrailingEmpties(rounds[..i]) + 1
  {
    assert rounds[..i + 1][..i] == rounds[..i];
  }

  /** The count of empty polls reaches three if and only if three empty polls have come in a row,
      failed polls aside. */
  lemma DryExactly(rounds: seq<Round>)
    ensures Dry(rounds) <==> exists n | 0 <= n <= |rounds| :: TrailingEmpties(rounds[..n]) >= EMPTY_LIMIT
  {
    hide TrailingEmpties;
    if Dry(rounds) {
      var i: nat, j: nat, k: nat :| ThreeEmpty(rounds, i, j, k);
      EmptyAdds(rounds, i);
      FailuresKeep(rounds, i + 1, j);
      EmptyAdds(rounds, j);
      FailuresKeep(rounds, j + 1, k);
      EmptyAdds(rounds, k);
      assert TrailingEmpties(rounds[..k + 1]) >= EMPTY_LIMIT;
    }
    if n :| 0 <= n <= |rounds| && TrailingEmpties(rounds[..n]) >= EMPTY_LIMIT {
      CountedDry(rounds, n);
    }
  }

  lemma DryAfter(rounds: seq<Round>, n: nat)
    requires n <= |rounds|
    ensures Dry(rounds[..n]) <==> exists m | 0 <= m <= n :: TrailingEmpties(rounds[..m]) >= EMPTY_LIMIT
  {
    DryExactly(rounds[..n]);
    assert forall m | 0 <= m <= n :: rounds[..n][..m] == rounds[..m];
  }

  predicate IsMalformed(r: Record) {
    r.Value? && !E.KrafkaResult(r.bytes).Return?
  }

  lemma NextRound(rounds: seq<Round>, n: nat)
    requires n < |rounds|
    ensures rounds[..n + 1] == rounds[..n] + [rounds[n]]
    ensures AllRecords(rounds[..n + 1]) == AllRecords(rounds[..n]) + RecordsOf(rounds[n].poll)
    ensures RecordsOf(rounds[n].poll) == [] ==> AllRecords(rounds[..n + 1]) == AllRecords(rounds[..n])
    ensures var p := rounds[n].poll;
            TrailingEmpties(rounds[..n + 1])
            == if p.Failed? then TrailingEmpties(rounds[..n])
               else if p.records == [] then 1 + TrailingEmpties(rounds[..n])
               else 0
  {
    assert rounds[..n + 1][..n] == rounds[..n];
  }

  ghost predicate NoneMalformed(rs: seq<Record>) {
    forall r <- rs :: !IsMalformed(r)
  }

  /** How the loop ends.  It leaves at the first head where the counter has reached the target, or in
      the round of the third empty poll in a row, failed polls aside; and it has sent the results of
      exactly the records polled until then, in order.  Only a malformed record ends it in mid-batch. */
  ghost predicate Outcome(total: nat, rounds: seq<Round>, sent: seq<seq<byte>>, used: nat, stop: Stop) {
    && used <= |rounds|
    && (forall n | 0 <= n < used :: rounds[n].counter < total)
    && (stop.StillRunning? ==> used == |rounds| && !Dry(rounds[..used]))
    && (stop.TargetReached? ==> used < |rounds| && rounds[used].counter >= total && !Dry(rounds[..used]))
    && (stop.PartitionDry? ==> used > 0 && Dry(rounds[..used]) && !Dry(rounds[..used - 1]))
    && (!stop.Malformed? ==>
          var seen := AllRecords(rounds[..used]);
          sent == Results(seen) && NoneMalformed(seen))
    && (stop.Malformed? ==>
          && used > 0 && !Dry(rounds[..used - 1])
          && var seen, last := AllRecords(rounds[..used - 1]), RecordsOf(rounds[used - 1].poll);
             exists n | 0 <= n < |last| ::
               IsMalformed(last[n]) && NoneMalformed(seen + last[..n]) && sent == Results(seen + last[..n]))
  }

  method Consume(total: nat, rounds: seq<Round>) returns (sent: seq<seq<byte>>, used: nat, stop: Stop)
    ensures Outcome(total, rounds, sent, used, stop)
  {
    hide TrailingEmpties, AllRecords, Results, Dry, E.KrafkaResult;
    var consecutiveEmpty := 0;
    sent, used := [], 0;
    StartCount(rounds);
    while used < |rounds|
      invariant used <= |rounds| && forall n | 0 <= n < used :: rounds[n].counter < total
      invariant forall n | 0 <= n <= used :: TrailingEmpties(rounds[..n]) < EMPTY_LIMIT
      invariant consecutiveEmpty == TrailingEmpties(rounds[..used])
      invariant sent == Results(AllRecords(rounds[..used])) && NoneMalformed(AllRecords(rounds[..used]))
    {
      DryAfter(rounds, used);
      NextRound(rounds, used);
      var round := rounds[used];
      if round.counter >= total {
        return sent, used, TargetReached;
      }
      used := used + 1;
      if round.poll.Failed? {
        continue;
      }
      if round.poll.records == [] {
        consecutiveEmpty := consecutiveEmpty + 1;
        if consecutiveEmpty >= EMPTY_LIMIT {
          DryAfter(rounds, used);
          return sent, used, PartitionDry;
        }
        continue;
      }
      consecutiveEmpty := 0;
      var batch := round.poll.records;
      ghost var seen := AllRecords(rounds[..used - 1]);
      assert seen + batch[..0] == seen;
      for j := 0 to |batch|
        invariant sent == Results(seen + batch[..j]) && NoneMalformed(seen + batch[..j])
      {
        assert seen + batch[..j + 1] == (seen + batch[..j]) + [batch[j]];
        ResultsAppend(seen + batch[..j], batch[j]);
        if batch[j].Value? {
          var out := E.ProcessKrafka(batch[j].bytes);
          if !out.Return? {
            return sent, used, Malformed;
          }
          sent := sent + [out.value];
        }
      }
      assert batch[..|batch|] == batch;
    }
    DryAfter(rounds, used);
    return sent, used, StillRunning;
  }

  lemma StartCount(rounds: seq<Round>)
    ensures TrailingEmpties(rounds[..0]) == 0 && AllRecords(rounds[..0]) == [] && Results([]) == []
  {
  }
}
