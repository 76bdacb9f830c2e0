/** The record loops of the programs: decode `[count][ints...]...[0]`, add up, encode the sum. */
module Decoders {
  import opened Bits
  import V = Varint
  import B = Blocks
  import opened Codec

  /** How a decoding method's result relates to the specification of its dialect. */
  ghost predicate Computes(goal: B.Decoded, out: Outcome<int>, rest: seq<byte>) {
    match goal
    case Done(total, left) => out == Return(total) && rest == left
    case Panicked => out.Crash?
    case Unspecified => out.Lost?
  }

  /** What remains to be computed is still the goal. */
  ghost predicate Toward(goal: B.Decoded, now: B.Decoded) {
    now == goal
  }

  /** The specification's continuation once a body has been read. */
  function AfterBody(d: V.Dialect, body: B.Decoded): B.Decoded {
    if body.Done? then B.Decode(d, body.rest, body.total) else body
  }

  /** Reading the first count. */
  lemma FirstCount(d: V.Dialect, bs: seq<byte>, acc: int, out: Outcome<int>, after: seq<byte>)
    requires Reads(d, bs, out, after)
    ensures out.Return? ==> Toward(B.Decode(d, bs, acc), B.DecodeFrom(d, after, out.value, acc))
    ensures !out.Return? ==> Computes(B.Decode(d, bs, acc), out, after)
  {
    hide V.ReadVarint;
  }

  /** Reading the count of the next block. */
  lemma NextCount(goal: B.Decoded, d: V.Dialect, bs: seq<byte>, acc: int, out: Outcome<int>, after: seq<byte>)
    requires Reads(d, bs, out, after)
    requires Toward(goal, AfterBody(d, B.ReadItems(d, bs, 0, acc)))
    ensures out.Return? ==> Toward(goal, B.DecodeFrom(d, after, out.value, acc))
    ensures !out.Return? ==> Computes(goal, out, after)
  {
    FirstCount(d, bs, acc, out, after);
    hide V.ReadVarint, B.Decode;
    assert B.ReadItems(d, bs, 0, acc) == B.Done(acc, bs);
  }

  /** Entering a block with a positive count, or in krafka with any. */
  lemma EnterBlock(goal: B.Decoded, d: V.Dialect, bs: seq<byte>, count: int, acc: int)
    requires Toward(goal, B.DecodeFrom(d, bs, count, acc)) && count != 0
    requires (count > 0 && B.IndexFits(d, count)) || d.Krafka?
    ensures Toward(goal, AfterBody(d, B.ReadItems(d, bs, B.Announced(d, count), acc)))
  {
    hide B.ReadItems, B.Decode;
  }

  /** Entering a block with a negative count: the byte size is skipped. */
  lemma EnterSizedBlock(goal: B.Decoded, d: V.Dialect, bs: seq<byte>, count: int, acc: int,
                        out: Outcome<int>, after: seq<byte>)
    requires Toward(goal, B.DecodeFrom(d, bs, count, acc)) && count < 0 && !d.Krafka? && B.IndexFits(d, count)
    requires Reads(d, bs, out, after)
    ensures out.Return? ==> Toward(goal, AfterBody(d, B.ReadItems(d, after, B.Announced(d, count), acc)))
    ensures !out.Return? ==> Computes(goal, out, after)
  {
    hide V.ReadVarint, B.ReadItems, B.Decode;
  }

  /** In a block whose count overflows the loop index there is no outcome any more. */
  lemma IndexLost(goal: B.Decoded, d: V.Dialect, bs: seq<byte>, count: int, acc: int)
    requires Toward(goal, B.DecodeFrom(d, bs, count, acc)) && count != 0 && !B.IndexFits(d, count)
    ensures goal.Unspecified?
  {
    hide B.ReadItems, B.Decode;
  }

  lemma NoOutcome(goal: B.Decoded, bs: seq<byte>)
    requires goal.Unspecified?
    ensures Computes(goal, Lost, bs)
  {
  }

  /** Reading one item. */
  lemma ItemTurn(goal: B.Decoded, d: V.Dialect, bs: seq<byte>, n: nat, acc: int, out: Outcome<int>, after: seq<byte>)
    requires Reads(d, bs, out, after) && n > 0
    requires Toward(goal, AfterBody(d, B.ReadItems(d, bs, n, acc)))
    ensures out.Return? ==> Toward(goal, AfterBody(d, B.ReadItems(d, after, n - 1, B.Wrap(d, acc + out.value))))
    ensures !out.Return? ==> Computes(goal, out, after)
  {
    hide V.ReadVarint, B.Decode;
  }

  lemma Finish(goal: B.Decoded, d: V.Dialect, bs: seq<byte>, acc: int)
    requires Toward(goal, B.DecodeFrom(d, bs, 0, acc))
    ensures Computes(goal, Return(acc), bs)
  {
  }

  /** `abs` as the program computes it: it wraps in the word languages, so that i64::MIN stays as it
      is.  (In C it is undefined there.) */
  function Abs(d: V.Dialect, count: int): int {
    if count >= 0 then count else if d.Unbounded? then -count else AsI64(-count)
  }

  lemma AnnouncedIs(d: V.Dialect, count: int)
    requires -TWO63 <= count < TWO63 || d.Unbounded?
    ensures d.Krafka? ==> B.Announced(d, count) == if count < 0 then 0 else count
    ensures !d.Krafka? ==> B.Announced(d, count) == if Abs(d, count) < 0 then 0 else Abs(d, count)
  {
  }

  /** krafka: no branch for negative counts; `0..count` is empty for them. */
  method DecodeKrafka(payload: Reader) returns (out: Outcome<int>)
    requires payload.Valid()
    modifies payload
    ensures payload.Valid() && old(payload.pos) <= payload.pos
    ensures out.Return? ==> -TWO63 <= out.value < TWO63
    ensures Computes(B.Decode(V.Krafka, old(payload.Remaining()), 0), out, payload.Remaining())
  {
    hide V.ReadVarint, B.Decode, B.DecodeFrom, B.ReadItems, B.Announced, Toward, AfterBody, Computes, Reads;
    ghost var goal := B.Decode(V.Krafka, payload.Remaining(), 0);
    var sum: int := 0;
    var c := ReadKrafka(payload);
    FirstCount(V.Krafka, old(payload.Remaining()), 0, c, payload.Remaining());
    if !c.Return? { return c; }
    var count := c.value;
    while count != 0
      invariant payload.Valid() && old(payload.pos) <= payload.pos && -TWO63 <= count < TWO63 && -TWO63 <= sum < TWO63
      invariant Toward(goal, B.DecodeFrom(V.Krafka, payload.Remaining(), count, sum))
      decreases |payload.data| - payload.pos + (if count == 0 then 0 else 1)
    {
      ghost var loopStart := payload.pos;
      var n := count;
      EnterBlock(goal, V.Krafka, payload.Remaining(), count, sum);
      AnnouncedIs(V.Krafka, count);
      ghost var m := B.Announced(V.Krafka, count);
      var j := 0;
      while j < n
        invariant payload.Valid() && loopStart <= payload.pos && 0 <= j <= m && -TWO63 <= sum < TWO63
        invariant Toward(goal, AfterBody(V.Krafka, B.ReadItems(V.Krafka, payload.Remaining(), m - j, sum)))
      {
        ghost var before := payload.Remaining();
        var v := ReadKrafka(payload);
        ItemTurn(goal, V.Krafka, before, m - j, sum, v, payload.Remaining());
        if !v.Return? { return v; }
        sum := AsI64(sum + v.value);
        j := j + 1;
      }
      ghost var before := payload.Remaining();
      c := ReadKrafka(payload);
      NextCount(goal, V.Krafka, before, sum, c, payload.Remaining());
      if !c.Return? { return c; }
      count := c.value;
    }
    Finish(goal, V.Krafka, payload.Remaining(), sum);
    return Return(sum);
  }

  // ----- the programs with a branch for negative counts -----

  datatype Program = Rdkafka | C | Benchmark | Scala | StreamApp

  function DialectOf(p: Program): V.Dialect {
    match p
    case Rdkafka => V.Checked
    case C => V.Bounded
    case StreamApp => V.Endless
    case _ => V.ZeroAtEnd
  }

  /** The program's own reader. */
  method ReadNumber(p: Program, r: Reader) returns (out: Outcome<int>)
    requires r.Valid()
    modifies r
    ensures r.Valid() && old(r.pos) <= r.pos
    ensures out.Return? ==> -TWO63 <= out.value < TWO63 && (out.value == 0 || old(r.pos) < r.pos)
    ensures out.Crash? ==> p.Rdkafka?
    ensures Reads(DialectOf(p), old(r.Remaining()), out, r.Remaining())
  {
    hide Reads;
    match p {
      case Rdkafka => out := ReadChecked(r);
      case C => out := ReadBounded(r);
      case Benchmark => out := ReadZeroAtEnd(r);
      case Scala => out := ReadAhead(r);
      case StreamApp => out := ReadStreamApp(r);
    }
  }

  const MAX_INT: int := 0x7FFF_FFFF

  /** C and the JVM programs count items in a 32-bit int, Rust in an i64. */
  predicate CountsInInt(p: Program) {
    !p.Rdkafka?
  }

  /** The counts that such an index can reach. */
  lemma IndexReaches(p: Program, count: i64)
    ensures B.IndexFits(DialectOf(p), count)
       <==> (CountsInInt(p) ==> Abs(DialectOf(p), count) <= MAX_INT) && !(p.C? && count == -TWO63)
  {
  }

  /** In the middle of a block: `left` items to go, or no outcome any more. */
  ghost predicate InBlock(fits: bool, goal: B.Decoded, d: V.Dialect, bs: seq<byte>, left: int, acc: int) {
    if fits then left >= 0 && Toward(goal, AfterBody(d, B.ReadItems(d, bs, left, acc))) else goal.Unspecified?
  }

  lemma EnterInt(goal: B.Decoded, d: V.Dialect, bs: seq<byte>, count: int, acc: int)
    requires Toward(goal, B.DecodeFrom(d, bs, count, acc)) && count > 0 && !d.Krafka?
    ensures InBlock(B.IndexFits(d, count), goal, d, bs, B.Announced(d, count), acc)
  {
    hide B.ReadItems, B.DecodeFrom, AfterBody, Toward, B.IndexFits, B.Announced;
    if B.IndexFits(d, count) {
      EnterBlock(goal, d, bs, count, acc);
    } else {
      IndexLost(goal, d, bs, count, acc);
    }
  }

  lemma EnterIntSized(goal: B.Decoded, d: V.Dialect, bs: seq<byte>, count: int, acc: int,
                      out: Outcome<int>, after: seq<byte>)
    requires Toward(goal, B.DecodeFrom(d, bs, count, acc)) && count < 0 && !d.Krafka? && Reads(d, bs, out, after)
    requires out.Crash? ==> B.IndexFits(d, count)
    ensures out.Return? ==> InBlock(B.IndexFits(d, count), goal, d, after, B.Announced(d, count), acc)
    ensures !out.Return? ==> Computes(goal, out, after)
  {
    hide B.ReadItems, B.DecodeFrom, AfterBody, Toward, B.IndexFits, B.Announced, Reads;
    if B.IndexFits(d, count) {
      EnterSizedBlock(goal, d, bs, count, acc, out, after);
    } else {
      IndexLost(goal, d, bs, count, acc);
    }
  }

  lemma IntItem(fits: bool, goal: B.Decoded, d: V.Dialect, bs: seq<byte>, left: int, acc: int,
                out: Outcome<int>, after: seq<byte>)
    requires InBlock(fits, goal, d, bs, left, acc) && (fits ==> left > 0) && Reads(d, bs, out, after)
    requires out.Crash? ==> fits
    ensures out.Return? ==> InBlock(fits, goal, d, after, left - 1, B.Wrap(d, acc + out.value))
    ensures !out.Return? ==> Computes(goal, out, after)
  {
    hide B.ReadItems, AfterBody, Toward, Reads;
    if fits {
      ItemTurn(goal, d, bs, left, acc, out, after);
    }
  }

  /** The loop that these programs share but for their readers and the width of the index.  Since a
      count other than 0 takes a byte, there are no more blocks than bytes.  Incrementing the largest
      int is undefined in C, and on the JVM it wraps, below a count that no int reaches, so that the
      loop never ends. */
  method DecodeLoop(p: Program, payload: Reader) returns (out: Outcome<int>, ghost blocks: nat)
    requires payload.Valid()
    modifies payload
    ensures payload.Valid() && old(payload.pos) <= payload.pos
    ensures out.Return? ==> -TWO63 <= out.value < TWO63
    ensures out.Crash? ==> p.Rdkafka?
    ensures blocks <= |old(payload.Remaining())|
    ensures Computes(B.Decode(DialectOf(p), old(payload.Remaining()), 0), out, payload.Remaining())
  {
    hide V.ReadVarint, B.Decode, B.DecodeFrom, B.ReadItems, B.Announced, Toward, AfterBody, Computes, Reads, Abs;
    hide B.IndexFits;
    ghost var d := DialectOf(p);
    ghost var goal := B.Decode(d, payload.Remaining(), 0);
    var sum: int := 0;
    blocks := 0;
    var c := ReadNumber(p, payload);
    FirstCount(d, old(payload.Remaining()), 0, c, payload.Remaining());
    if !c.Return? { return c, blocks; }
    var count := c.value;
    while count != 0
      invariant payload.Valid() && old(payload.pos) <= payload.pos && -TWO63 <= count < TWO63 && -TWO63 <= sum < TWO63
      invariant blocks + (if count == 0 then 0 else 1) <= payload.pos - old(payload.pos)
      invariant Toward(goal, B.DecodeFrom(d, payload.Remaining(), count, sum))
      decreases |payload.data| - payload.pos + (if count == 0 then 0 else 1)
    {
      ghost var loopStart, fits := payload.pos, B.IndexFits(d, count);
      IndexReaches(p, count);
      if p.C? && count == -TWO63 {
        IndexLost(goal, d, payload.Remaining(), count, sum);
        NoOutcome(goal, payload.Remaining());
        return Lost, blocks; // `-count` overflows
      }
      var n := Abs(DialectOf(p), count);
      if count < 0 {
        ghost var before := payload.Remaining();
        var s := ReadNumber(p, payload);
        EnterIntSized(goal, d, before, count, sum, s, payload.Remaining());
        if !s.Return? { return s, blocks; }
      } else {
        EnterInt(goal, d, payload.Remaining(), count, sum);
      }
      AnnouncedIs(d, count);
      ghost var m := B.Announced(d, count);
      var j := 0;
      while j < n
        invariant payload.Valid() && loopStart <= payload.pos && -TWO63 <= sum < TWO63
        invariant 0 <= j && (CountsInInt(p) ==> j <= MAX_INT) && (fits ==> j <= m)
        invariant InBlock(fits, goal, d, payload.Remaining(), m - j, sum)
      {
        ghost var before := payload.Remaining();
        var v := ReadNumber(p, payload);
        IntItem(fits, goal, d, before, m - j, sum, v, payload.Remaining());
        if !v.Return? { return v, blocks; }
        sum := AsI64(sum + v.value);
        if CountsInInt(p) && j == MAX_INT {
          NoOutcome(goal, payload.Remaining());
          return Lost, blocks; // `j++` overflows
        }
        j := j + 1;
      }
      ghost var before := payload.Remaining();
      c := ReadNumber(p, payload);
      NextCount(goal, d, before, sum, c, payload.Remaining());
      if !c.Return? { return c, blocks; }
      count := c.value;
      blocks := blocks + 1;
    }
    Finish(goal, d, payload.Remaining(), sum);
    return Return(sum), blocks;
  }

  /** Rust on rdkafka. */
  method DecodeRdkafka(payload: Reader) returns (out: Outcome<int>)
    requires payload.Valid()
    modifies payload
    ensures payload.Valid() && old(payload.pos) <= payload.pos && !out.Lost?
    ensures out.Return? ==> -TWO63 <= out.value < TWO63
    ensures Computes(B.Decode(V.Checked, old(payload.Remaining()), 0), out, payload.Remaining())
  {
    hide B.Decode;
    B.Specified(V.Checked, payload.Remaining(), 0);
    ghost var blocks;
    out, blocks := DecodeLoop(Rdkafka, payload);
  }

  method DecodeC(payload: Reader) returns (out: Outcome<int>, ghost blocks: nat)
    requires payload.Valid()
    modifies payload
    ensures payload.Valid() && old(payload.pos) <= payload.pos && !out.Crash?
    ensures out.Return? ==> -TWO63 <= out.value < TWO63
    ensures blocks <= |old(payload.Remaining())|
    ensures Computes(B.Decode(V.Bounded, old(payload.Remaining()), 0), out, payload.Remaining())
  {
    hide Computes, B.Decode;
    out, blocks := DecodeLoop(C, payload);
  }

  /** StreamSumBenchmark. */
  method DecodeBenchmark(payload: Reader) returns (out: Outcome<int>)
    requires payload.Valid()
    modifies payload
    ensures payload.Valid() && old(payload.pos) <= payload.pos && !out.Crash?
    ensures out.Return? ==> -TWO63 <= out.value < TWO63
    ensures Computes(B.Decode(V.ZeroAtEnd, old(payload.Remaining()), 0), out, payload.Remaining())
  {
    hide Computes, B.Decode;
    ghost var blocks;
    out, blocks := DecodeLoop(Benchmark, payload);
  }

  /** StreamSumApp in Scala. */
  method DecodeScala(payload: Reader) returns (out: Outcome<int>)
    requires payload.Valid()
    modifies payload
    ensures payload.Valid() && old(payload.pos) <= payload.pos && !out.Crash?
    ensures out.Return? ==> -TWO63 <= out.value < TWO63
    ensures Computes(B.Decode(V.ZeroAtEnd, old(payload.Remaining()), 0), out, payload.Remaining())
  {
    hide Computes, B.Decode;
    ghost var blocks;
    out, blocks := DecodeLoop(Scala, payload);
  }

  /** StreamSumApp in Java. */
  method DecodeStreamApp(payload: Reader) returns (out: Outcome<int>)
    requires payload.Valid()
    modifies payload
    ensures payload.Valid() && old(payload.pos) <= payload.pos && !out.Crash?
    ensures out.Return? ==> -TWO63 <= out.value < TWO63
    ensures Computes(B.Decode(V.Endless, old(payload.Remaining()), 0), out, payload.Remaining())
  {
    hide Computes, B.Decode;
    ghost var blocks;
    out, blocks := DecodeLoop(StreamApp, payload);
  }

  /** Python: positions instead of a cursor, and a sum without a word size. */
  method DecodePython(payload: seq<byte>) returns (out: Outcome<int>, pos: nat)
    ensures pos <= |payload|
    ensures Computes(B.Decode(V.Unbounded, payload, 0), out, payload[pos..])
  {
    hide V.ReadVarint, B.Decode, B.DecodeFrom, B.ReadItems, B.Announced, Toward, AfterBody, Computes, Reads;
    ghost var goal := B.Decode(V.Unbounded, payload, 0);
    var c;
    c, pos := ReadPython(payload, 0);
    assert payload[0..] == payload;
    FirstCount(V.Unbounded, payload, 0, c, payload[pos..]);
    if !c.Return? { return c, pos; }
    var count, totalSum := c.value, 0;
    while count != 0
      invariant pos <= |payload|
      invariant Toward(goal, B.DecodeFrom(V.Unbounded, payload[pos..], count, totalSum))
      decreases |payload| - pos
    {
      ghost var head := pos;
      var absCount := Abs(V.Unbounded, count);
      if count < 0 {
        ghost var before := pos;
        var s;
        s, pos := ReadPython(payload, pos);
        EnterSizedBlock(goal, V.Unbounded, payload[before..], count, totalSum, s, payload[pos..]);
        if !s.Return? { return s, pos; }
      } else {
        EnterBlock(goal, V.Unbounded, payload[pos..], count, totalSum);
      }
      AnnouncedIs(V.Unbounded, count);
      for j := 0 to absCount
        invariant head <= pos <= |payload|
        invariant Toward(goal, AfterBody(V.Unbounded, B.ReadItems(V.Unbounded, payload[pos..], absCount - j, totalSum)))
      {
        ghost var before := pos;
        var v;
        v, pos := ReadPython(payload, pos);
        ItemTurn(goal, V.Unbounded, payload[before..], absCount - j, totalSum, v, payload[pos..]);
        if !v.Return? { return v, pos; }
        totalSum := totalSum + v.value;
      }
      ghost var before := pos;
      c, pos := ReadPython(payload, pos);
      NextCount(goal, V.Unbounded, payload[before..], totalSum, c, payload[pos..]);
      if !c.Return? { return c, pos; }
      count := c.value;
    }
    Finish(goal, V.Unbounded, payload[pos..], totalSum);
    return Return(totalSum), pos;
  }

  // ----- the programs that repeat the loops in place -----

  /** The bytes a program produces for a sum. */
  function Encoding(d: V.Dialect, total: int): seq<byte> {
    if d.Unbounded? then UnboundedEncode(total) else V.Encode(AsI64(total))
  }

  /** What processing a whole record owes: the encoded sum, and the position after the record. */
  ghost predicate Emits(d: V.Dialect, goal: B.Decoded, out: Outcome<seq<byte>>, rest: seq<byte>) {
    match goal
    case Done(total, left) => out == Return(Encoding(d, total)) && rest == left
    case Panicked => out.Crash?
    case Unspecified => false
  }

  /** Go: `startWorker` repeats the reading loop in place for the first count, the byte size, each
      item and the next count, and the writing loop for the sum. */
  method SumGo(payload: seq<byte>) returns (out: Outcome<int>, pos: nat)
    ensures pos <= |payload|
    ensures out.Return? ==> -TWO63 <= out.value < TWO63
    ensures Computes(B.Decode(V.Go, payload, 0), out, payload[pos..])
  {
    hide Or, And, Shl, UnzigWord, UnzigInt, Scanning, V.UnZigZag, V.Low, V.ReadVarint, B.Decode, B.DecodeFrom;
    hide B.ReadItems, B.Announced, Toward, AfterBody, Computes, Reads;
    pos := 0;
    ghost var goal := B.Decode(V.Go, payload, 0);
    var sum: int := 0;
    ghost var start := pos;
    ScanStart(V.Go, payload, start);
    var v: int, s: nat := 0, 0;
    while true
      invariant start <= pos <= |payload| && Scanning(V.Go, payload, start, pos, s, v) && 0 <= v < TWO64
      decreases |payload| - pos
    {
      if pos == |payload| {
        ScanEnd(V.Go, payload, start, s, v);
        FirstCount(V.Go, payload[start..], 0, Crash, payload[pos..]);
        assert payload[0..] == payload;
        return Crash, pos;
      }
      var b := payload[pos];
      WordRound(V.Go, payload, start, pos, s, s, v);
      pos := pos + 1;
      v := AsU64(Or(v, AsU64(Shl(And(b, 0x7F), s))));
      if And(b, 0x80) == 0 { break; }
      s := s + 7;
    }
    UnzigMeans(v);
    FirstCount(V.Go, payload[start..], 0, Return(V.UnZigZag(v)), payload[pos..]);
    assert payload[0..] == payload;
    var count := UnzigWord(v);
    while count != 0
      invariant pos <= |payload| && -TWO63 <= count < TWO63 && -TWO63 <= sum < TWO63
      invariant Toward(goal, B.DecodeFrom(V.Go, payload[pos..], count, sum))
      decreases |payload| - pos
    {
      ghost var head := pos;
      var absCount := Abs(V.Go, count);
      if count < 0 {
        start := pos;
        ScanStart(V.Go, payload, start);
        var vS: int, sS: nat := 0, 0;
        while true
          invariant start <= pos <= |payload| && Scanning(V.Go, payload, start, pos, sS, vS) && 0 <= vS < TWO64
          decreases |payload| - pos
        {
          if pos == |payload| {
            ScanEnd(V.Go, payload, start, sS, vS);
            EnterSizedBlock(goal, V.Go, payload[start..], count, sum, Crash, payload[pos..]);
            return Crash, pos;
          }
          var b := payload[pos];
          WordRound(V.Go, payload, start, pos, sS, sS, vS);
          pos := pos + 1;
          vS := AsU64(Or(vS, AsU64(Shl(And(b, 0x7F), sS))));
          if And(b, 0x80) == 0 { break; }
          sS := sS + 7;
        }
        UnzigMeans(vS);
        EnterSizedBlock(goal, V.Go, payload[start..], count, sum, Return(V.UnZigZag(vS)), payload[pos..]);
      } else {
        EnterBlock(goal, V.Go, payload[pos..], count, sum);
      }
      AnnouncedIs(V.Go, count);
      ghost var m := B.Announced(V.Go, count);
      var j := 0;
      while j < absCount
        invariant head <= pos <= |payload| && 0 <= j <= m && -TWO63 <= sum < TWO63
        invariant Toward(goal, AfterBody(V.Go, B.ReadItems(V.Go, payload[pos..], m - j, sum)))
      {
        start := pos;
        ScanStart(V.Go, payload, start);
        var vE: int, sE: nat := 0, 0;
        while true
          invariant start <= pos <= |payload| && Scanning(V.Go, payload, start, pos, sE, vE) && 0 <= vE < TWO64
          decreases |payload| - pos
        {
          if pos == |payload| {
            ScanEnd(V.Go, payload, start, sE, vE);
            ItemTurn(goal, V.Go, payload[start..], m - j, sum, Crash, payload[pos..]);
            return Crash, pos;
          }
          var b := payload[pos];
          WordRound(V.Go, payload, start, pos, sE, sE, vE);
          pos := pos + 1;
          vE := AsU64(Or(vE, AsU64(Shl(And(b, 0x7F), sE))));
          if And(b, 0x80) == 0 { break; }
          sE := sE + 7;
        }
        UnzigMeans(vE);
        ItemTurn(goal, V.Go, payload[start..], m - j, sum, Return(V.UnZigZag(vE)), payload[pos..]);
        sum := AsI64(sum + UnzigWord(vE));
        j := j + 1;
      }
      start := pos;
      ScanStart(V.Go, payload, start);
      var vN: int, sN: nat := 0, 0;
      while true
        invariant start <= pos <= |payload| && Scanning(V.Go, payload, start, pos, sN, vN) && 0 <= vN < TWO64
        decreases |payload| - pos
      {
        if pos == |payload| {
          ScanEnd(V.Go, payload, start, sN, vN);
          NextCount(goal, V.Go, payload[start..], sum, Crash, payload[pos..]);
          return Crash, pos;
        }
        var b := payload[pos];
        WordRound(V.Go, payload, start, pos, sN, sN, vN);
        pos := pos + 1;
        vN := AsU64(Or(vN, AsU64(Shl(And(b, 0x7F), sN))));
        if And(b, 0x80) == 0 { break; }
        sN := sN + 7;
      }
      UnzigMeans(vN);
      NextCount(goal, V.Go, payload[start..], sum, Return(V.UnZigZag(vN)), payload[pos..]);
      count := UnzigWord(vN);
    }
    Finish(goal, V.Go, payload[pos..], sum);
    return Return(sum), pos;
  }

  /** The writing loop of the same program. */
  method WriteGo(sum: i64) returns (bytes: seq<byte>)
    ensures bytes == Encoding(V.Go, sum)
  {
    hide Or, And, Shr, AsU8, AsI64, V.Groups;
    var vEnc := ZigUnsigned(sum);
    bytes := [];
    ghost var encoding := V.Groups(vEnc);
    while vEnc >= 0x80
      invariant vEnc >= 0 && bytes + V.Groups(vEnc) == encoding
      decreases vEnc
    {
      CastThenSet(vEnc);
      NextGroup(vEnc);
      GroupStep(bytes, vEnc, Or(AsU8(vEnc), 0x80));
      bytes := bytes + [Or(AsU8(vEnc), 0x80)];
      vEnc := Shr(vEnc, 7);
    }
    LastGroup(bytes, vEnc);
    bytes := bytes + [AsU8(vEnc)];
    InWord(sum);
  }

  method ProcessGo(payload: seq<byte>) returns (out: Outcome<seq<byte>>, pos: nat)
    ensures pos <= |payload|
    ensures Emits(V.Go, B.Decode(V.Go, payload, 0), out, payload[pos..])
  {
    var sum: Outcome<int>;
    hide V.ReadVarint, B.Decode;
    B.Specified(V.Go, payload, 0);
    sum, pos := SumGo(payload);
    if !sum.Return? {
      return Crash, pos;
    }
    var bytes := WriteGo(sum.value);
    return Return(bytes), pos;
  }

  /** Ruby: the same four loops in place on unbounded integers, and a one-byte fast path on output. */
  method SumRuby(payload: seq<byte>) returns (out: Outcome<int>, pos: nat)
    ensures pos <= |payload|
    ensures Computes(B.Decode(V.Unbounded, payload, 0), out, payload[pos..])
  {
    hide Or, And, Shl, UnzigWord, UnzigInt, Scanning, V.UnZigZag, V.Low, V.ReadVarint, B.Decode, B.DecodeFrom;
    hide B.ReadItems, B.Announced, Toward, AfterBody, Computes, Reads;
    pos := 0;
    ghost var goal := B.Decode(V.Unbounded, payload, 0);
    var sum: int := 0;
    ghost var start := pos;
    ScanStart(V.Unbounded, payload, start);
    var vC: int, sC: nat := 0, 0;
    while true
      invariant start <= pos <= |payload| && Scanning(V.Unbounded, payload, start, pos, sC, vC) && 0 <= vC
      decreases |payload| - pos
    {
      if pos == |payload| {
        ScanEnd(V.Unbounded, payload, start, sC, vC);
        FirstCount(V.Unbounded, payload[start..], 0, Crash, payload[pos..]);
        assert payload[0..] == payload;
        return Crash, pos;
      }
      var b := payload[pos];
      UnboundedRound(payload, start, pos, sC, vC);
      pos := pos + 1;
      vC := Or(vC, Shl(And(b, 0x7F), sC));
      if And(b, 0x80) == 0 { break; }
      sC := sC + 7;
    }
    UnzigMeans(vC);
    FirstCount(V.Unbounded, payload[start..], 0, Return(V.UnZigZag(vC)), payload[pos..]);
    assert payload[0..] == payload;
    var count := UnzigInt(vC);
    while count != 0
      invariant pos <= |payload|
      invariant Toward(goal, B.DecodeFrom(V.Unbounded, payload[pos..], count, sum))
      decreases |payload| - pos
    {
      ghost var head := pos;
      var absCount := Abs(V.Unbounded, count);
      if count < 0 {
        start := pos;
        ScanStart(V.Unbounded, payload, start);
        var vS: int, sS: nat := 0, 0;
        while true
          invariant start <= pos <= |payload| && Scanning(V.Unbounded, payload, start, pos, sS, vS) && 0 <= vS
          decreases |payload| - pos
        {
          if pos == |payload| {
            ScanEnd(V.Unbounded, payload, start, sS, vS);
            EnterSizedBlock(goal, V.Unbounded, payload[start..], count, sum, Crash, payload[pos..]);
            return Crash, pos;
          }
          var b := payload[pos];
          UnboundedRound(payload, start, pos, sS, vS);
          pos := pos + 1;
          vS := Or(vS, Shl(And(b, 0x7F), sS));
          if And(b, 0x80) == 0 { break; }
          sS := sS + 7;
        }
        UnzigMeans(vS);
        EnterSizedBlock(goal, V.Unbounded, payload[start..], count, sum, Return(V.UnZigZag(vS)), payload[pos..]);
      } else {
        EnterBlock(goal, V.Unbounded, payload[pos..], count, sum);
      }
      AnnouncedIs(V.Unbounded, count);
      ghost var m := B.Announced(V.Unbounded, count);
      var j := 0;
      while j < absCount
        invariant head <= pos <= |payload| && 0 <= j <= m
        invariant Toward(goal, AfterBody(V.Unbounded, B.ReadItems(V.Unbounded, payload[pos..], m - j, sum)))
      {
        start := pos;
        ScanStart(V.Unbounded, payload, start);
        var vE: int, sE: nat := 0, 0;
        while true
          invariant start <= pos <= |payload| && Scanning(V.Unbounded, payload, start, pos, sE, vE) && 0 <= vE
          decreases |payload| - pos
        {
          if pos == |payload| {
            ScanEnd(V.Unbounded, payload, start, sE, vE);
            ItemTurn(goal, V.Unbounded, payload[start..], m - j, sum, Crash, payload[pos..]);
            return Crash, pos;
          }
          var b := payload[pos];
          UnboundedRound(payload, start, pos, sE, vE);
          pos := pos + 1;
          vE := Or(vE, Shl(And(b, 0x7F), sE));
          if And(b, 0x80) == 0 { break; }
          sE := sE + 7;
        }
        UnzigMeans(vE);
        ItemTurn(goal, V.Unbounded, payload[start..], m - j, sum, Return(V.UnZigZag(vE)), payload[pos..]);
        sum := sum + UnzigInt(vE);
        j := j + 1;
      }
      start := pos;
      ScanStart(V.Unbounded, payload, start);
      var vN: int, sN: nat := 0, 0;
      while true
        invariant start <= pos <= |payload| && Scanning(V.Unbounded, payload, start, pos, sN, vN) && 0 <= vN
        decreases |payload| - pos
      {
        if pos == |payload| {
          ScanEnd(V.Unbounded, payload, start, sN, vN);
          NextCount(goal, V.Unbounded, payload[start..], sum, Crash, payload[pos..]);
          return Crash, pos;
        }
        var b := payload[pos];
        UnboundedRound(payload, start, pos, sN, vN);
        pos := pos + 1;
        vN := Or(vN, Shl(And(b, 0x7F), sN));
        if And(b, 0x80) == 0 { break; }
        sN := sN + 7;
      }
      UnzigMeans(vN);
      NextCount(goal, V.Unbounded, payload[start..], sum, Return(V.UnZigZag(vN)), payload[pos..]);
      count := UnzigInt(vN);
    }
    Finish(goal, V.Unbounded, payload[pos..], sum);
    return Return(sum), pos;
  }

  /** The writing loop of the same program. */
  method WriteRuby(sum: int) returns (bytes: seq<byte>)
    ensures bytes == Encoding(V.Unbounded, sum)
  {
    hide Or, And, Shr;
    var vEnc := ZigInt(sum);
    ZigIntMeans(sum);
    ghost var encoding := V.Groups(vEnc);
    bytes := [];
    if vEnc < 0x80 {
      LastGroup(bytes, vEnc);
      assert [] + [vEnc] == [vEnc] && [] + encoding == encoding;
      bytes := [vEnc];
    } else {
      while vEnc >= 0x80
        invariant vEnc >= 0 && bytes + V.Groups(vEnc) == encoding
        decreases vEnc
      {
        MaskThenSet(vEnc);
        NextGroup(vEnc);
        GroupStep(bytes, vEnc, Or(And(vEnc, 0x7F), 0x80));
        bytes := bytes + [Or(And(vEnc, 0x7F), 0x80)];
        vEnc := Shr(vEnc, 7);
      }
      LastGroup(bytes, vEnc);
      bytes := bytes + [vEnc];
    }
  }

  method ProcessRuby(payload: seq<byte>) returns (out: Outcome<seq<byte>>, pos: nat)
    ensures pos <= |payload|
    ensures Emits(V.Unbounded, B.Decode(V.Unbounded, payload, 0), out, payload[pos..])
  {
    var sum: Outcome<int>;
    hide V.ReadVarint, B.Decode;
    B.Specified(V.Unbounded, payload, 0);
    sum, pos := SumRuby(payload);
    if !sum.Return? {
      return Crash, pos;
    }
    var bytes := WriteRuby(sum.value);
    return Return(bytes), pos;
  }
}
