/** The two loops of processor.rs that drive a pool of sends: the Phase 1 loader and the produce
    task of a worker once its channel has lost its sender. */
module SendLoops {
  import opened Bits
  import opened Codec
  import E = EndToEnd

  /** `FuturesUnordered` as the loops see it: sends are numbered in push order, and `Next` yields
      some send of the pool, in an order the network decides. */
  class Pool {
    var inFlight: set<nat>
    var pushed: seq<seq<byte>>
    var completed: nat
    ghost var peak: nat // the largest the pool has ever been

    constructor ()
      ensures inFlight == {} && pushed == [] && completed == peak == 0
    {
      inFlight, pushed, completed, peak := {}, [], 0, 0;
    }

    /** Every send pushed is in flight or has completed. */
    ghost predicate Valid()
      reads this
    {
      && (forall id <- inFlight :: id < |pushed|)
      && |pushed| == |inFlight| + completed
      && |inFlight| <= peak
    }

    method Push(data: seq<byte>)
      requires Valid()
      modifies this
      ensures Valid() && pushed == old(pushed) + [data] && completed == old(completed)
      ensures inFlight == old(inFlight) + {|old(pushed)|} && |inFlight| == |old(inFlight)| + 1
      ensures peak == if |inFlight| > old(peak) then |inFlight| else old(peak)
    {
      inFlight := inFlight + {|pushed|};
      peak := if |inFlight| > peak then |inFlight| else peak;
      pushed := pushed + [data];
    }

    /** `next().await`: None exactly if the pool is empty. */
    method Next() returns (some: bool)
      requires Valid()
      modifies this
      ensures Valid() && pushed == old(pushed) && peak == old(peak)
      ensures some <==> old(inFlight) != {}
      ensures some ==> inFlight < old(inFlight) && |inFlight| == |old(inFlight)| - 1
                       && completed == old(completed) + 1
      ensures !some ==> inFlight == {} && completed == old(completed)
    {
      some := inFlight != {};
      if some {
        var id :| id in inFlight;
        inFlight := inFlight - {id};
        completed := completed + 1;
      }
    }
  }

  /** The records of the lists, in order. */
  function Records(lists: seq<seq<i64>>): seq<seq<byte>> {
    seq(|lists|, i requires 0 <= i < |lists| => E.Record(lists[i]))
  }

  /** Phase 1: one record per list through a window of sends.  On return, which is where the program
      flushes, every record has been sent, in order, and every send has completed. */
  method Load(lists: seq<seq<i64>>, window: nat) returns (pool: Pool)
    requires window > 0 && forall xs <- lists :: |xs| < TWO63
    ensures pool.pushed == Records(lists)
    ensures pool.completed == |lists| && pool.inFlight == {}
    ensures pool.peak == if |lists| < window then |lists| else window
  {
    hide E.Record;
    var buf := new Buffer();
    pool := new Pool();
    for i := 0 to |lists|
      invariant pool.Valid() && fresh(pool) && fresh(buf)
      invariant |pool.inFlight| == (if i < window then i else window - 1)
      invariant pool.peak == if i < window then i else window
      invariant pool.pushed == Records(lists[..i])
    {
      E.WriteRecord(buf, lists[i]);
      pool.Push(buf.bytes);
      assert Records(lists[..i + 1]) == Records(lists[..i]) + [E.Record(lists[i])];
      if |pool.inFlight| >= window {
        var _ := pool.Next();
      }
    }
    assert lists[..|lists|] == lists;
    var some := true;
    while some
      invariant pool.Valid() && fresh(pool) && pool.pushed == Records(lists)
      invariant pool.peak == if |lists| < window then |lists| else window
      invariant !some ==> pool.inFlight == {}
      decreases |pool.inFlight| + if some then 1 else 0
    {
      some := pool.Next();
    }
  }

  /** The shared atomic counter. */
  class Counter {
    var value: nat

    method FetchAdd(n: nat) returns (before: nat)
      modifies this
      ensures before == old(value) && value == old(value) + n
    {
      before := value;
      value := value + n;
    }
  }

  /** The produce task from `drop(tx)` on.  `Receive` takes from what the channel still holds and
      then reports the end; `select!` picks any arm that is ready. */
  class ProduceTask {
    var rx: seq<seq<byte>>
    const pool: Pool
    var localCounter: nat
    var channelOpen: bool
    const window: nat
    const batch: nat

    constructor (rx: seq<seq<byte>>, pool: Pool, localCounter: nat, window: nat, batch: nat)
      ensures this.rx == rx && this.pool == pool && this.localCounter == localCounter && channelOpen
      ensures this.window == window && this.batch == batch
    {
      this.rx, this.pool, this.localCounter, channelOpen := rx, pool, localCounter, true;
      this.window, this.batch := window, batch;
    }

    /** The body of the `in_flight.next()` arm, whatever the send's result was. */
    method CountCompleted(counter: Counter)
      requires localCounter < batch
      modifies this`localCounter, counter
      ensures localCounter < batch
      ensures if old(localCounter) + 1 == batch then counter.value == old(counter.value) + batch && localCounter == 0
              else counter.value == old(counter.value) && localCounter == old(localCounter) + 1
    {
      localCounter := localCounter + 1;
      if localCounter >= batch {
        var _ := counter.FetchAdd(localCounter);
        localCounter := 0;
      }
    }

    /** The body of the `rx.recv()` arm. */
    method Receive()
      requires pool.Valid() && channelOpen
      modifies this`rx, this`channelOpen, pool
      ensures pool.Valid() && pool.completed == old(pool.completed)
      ensures if old(rx) == [] then
                !channelOpen && rx == [] && pool.pushed == old(pool.pushed) && pool.inFlight == old(pool.inFlight)
              else
                channelOpen && rx == old(rx[1..]) && pool.pushed == old(pool.pushed) + [old(rx[0])]
                && |pool.inFlight| == |old(pool.inFlight)| + 1
    {
      if rx == [] {
        channelOpen := false;
      } else {
        pool.Push(rx[0]);
        rx := rx[1..];
      }
    }

    /** All arms are taken until channel and pool are empty; every buffer left in the channel is
        sent, in order, every send completes, and the counter gains exactly the sends that were
        still to be counted. */
    method Drain(counter: Counter)
      requires pool.Valid() && |pool.inFlight| <= window && window > 0
      requires localCounter < batch && (channelOpen || rx == [])
      modifies this, pool, counter
      ensures pool.Valid() && rx == [] && pool.inFlight == {} && !channelOpen
      ensures pool.pushed == old(pool.pushed) + old(rx)
      ensures counter.value == old(counter.value) + old(localCounter) + |old(pool.inFlight)| + |old(rx)|
    {
      while channelOpen || pool.inFlight != {}
        invariant pool.Valid() && |pool.inFlight| <= window
        invariant localCounter < batch && (channelOpen || rx == [])
        invariant pool.pushed + rx == old(pool.pushed) + old(rx)
        invariant counter.value + localCounter + |pool.inFlight| + |rx|
               == old(counter.value) + old(localCounter) + |old(pool.inFlight)| + |old(rx)|
        decreases 2 * |rx| + |pool.inFlight| + if channelOpen then 1 else 0
      {
        var receive := channelOpen && |pool.inFlight| < window;
        var next := pool.inFlight != {};
        assert receive || next;
        if receive && next {
          receive := *;
        }
        if receive {
          Receive();
        } else {
          var _ := pool.Next();
          CountCompleted(counter);
        }
      }
      if localCounter > 0 {
        var _ := counter.FetchAdd(localCounter);
      }
    }
  }
}
