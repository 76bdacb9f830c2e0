/** producer.rs, processor.rs and consumer.rs in a row, and the same through the other encoders. */
module EndToEnd {
  import opened Bits
  import V = Varint
  import B = Blocks
  import opened Codec
  import opened Decoders

  /** The record of a list: its count, its numbers, the terminator. */
  function Record(xs: seq<i64>): seq<byte> {
    V.Encode(|xs|) + V.EncodeAll(xs) + V.Encode(0)
  }

  /** producer.rs, and the loading loop of processor.rs: into a buffer cleared for each record. */
  method WriteRecord(buf: Buffer, xs: seq<i64>)
    requires |xs| < TWO63
    modifies buf
    ensures buf.bytes == Record(xs)
  {
    hide V.Encode;
    buf.Clear();
    WriteVarint(buf, |xs|);
    for i := 0 to |xs|
      invariant buf.bytes == V.Encode(|xs|) + V.EncodeAll(xs[..i])
    {
      WriteVarint(buf, xs[i]);
      EncodeAllAppend(xs[..i], xs[i]);
      assert xs[..i + 1] == xs[..i] + [xs[i]];
    }
    assert xs[..|xs|] == xs;
    WriteVarint(buf, 0);
  }

  lemma {:induction false} EncodeAllAppend(xs: seq<int>, x: int)
    ensures V.EncodeAll(xs + [x]) == V.EncodeAll(xs) + V.Encode(x)
    decreases |xs|
  {
    hide V.Encode;
    if xs == [] {
      assert V.EncodeAll([x]) == V.Encode(x) + V.EncodeAll([]);
    } else {
      EncodeAllAppend(xs[1..], x);
      assert (xs + [x])[1..] == xs[1..] + [x];
    }
  }

  /** Every dialect reads the wrapped sum out of the record of a list; with an int index that takes fewer
      than 2^31 items. */
  lemma RecordDecodes(d: V.Dialect, xs: seq<i64>)
    requires |xs| < TWO63
    ensures var r := B.Decode(d, Record(xs), 0);
            if B.CountsInInt(d) && |xs| >= 0x8000_0000 then r.Unspecified?
            else r.Done? && r.total == B.Wrap(d, B.Sum(xs))
  {
    var blocks, suffix := if xs == [] then [] else [B.Plain(xs)], if xs == [] then V.Encode(0) else [];
    RecordLayout(xs);
    hide V.Encode, V.ReadVarint, B.Decode, B.EncodeBlocks, Record;
    if B.CountsInInt(d) && |xs| >= 0x8000_0000 {
      assert B.Plain(xs) in blocks;
      B.BlocksLost(d, blocks, suffix, 0);
    } else {
      B.BlocksDecode(d, blocks, suffix, 0);
    }
    if xs != [] {
      assert B.Items(blocks[1..]) == [];
      assert B.Items(blocks) == xs;
    }
  }

  lemma RecordLayout(xs: seq<i64>)
    ensures xs == [] ==> Record(xs) == B.EncodeBlocks([]) + V.Encode(0)
    ensures xs != [] ==> Record(xs) == B.EncodeBlocks([B.Plain(xs)]) + []
  {
    hide V.Encode;
    if xs != [] {
      B.Layout([B.Plain(xs)], []);
      assert B.EncodeBlocks([B.Plain(xs)][1..]) == V.Encode(0);
    }
  }

  // ----- one record through a processor -----

  datatype Processor = Krafka | Rdkafka | C | Go | Benchmark | StreamApp | Scala | Python | Ruby

  function DialectOf(p: Processor): V.Dialect {
    match p
    case Krafka => V.Krafka
    case Rdkafka => V.Checked
    case C => V.Bounded
    case Go => V.Go
    case Benchmark => V.ZeroAtEnd
    case StreamApp => V.Endless
    case Scala => V.ZeroAtEnd
    case Python => V.Unbounded
    case Ruby => V.Unbounded
  }

  /** The processors whose loop index is a 32-bit int. */
  predicate HasIntIndex(p: Processor) {
    p.C? || p.Benchmark? || p.StreamApp? || p.Scala?
  }

  predicate ComparesSigned(p: Processor) {
    p.Rdkafka? || p.Benchmark? || p.StreamApp? || p.Scala?
  }

  /** What the processor's encoder writes for a sum. */
  function Written(p: Processor, total: int): seq<byte> {
    if DialectOf(p).Unbounded? then UnboundedEncode(total)
    else if ComparesSigned(p) then SignedEncode(AsI64(total))
    else V.Encode(AsI64(total))
  }

  function Result(p: Processor, record: seq<byte>): Outcome<seq<byte>> {
    match B.Decode(DialectOf(p), record, 0)
    case Done(total, _) => Return(Written(p, total))
    case Panicked => Crash
    case Unspecified => Lost
  }

  function KrafkaResult(record: seq<byte>): Outcome<seq<byte>> {
    Result(Krafka, record)
  }

  /** From what a decoding loop returns to what its program owes. */
  lemma FromSum(p: Processor, record: seq<byte>, sum: Outcome<int>, rest: seq<byte>)
    requires Computes(B.Decode(DialectOf(p), record, 0), sum, rest)
    ensures sum.Return? ==> Result(p, record) == Return(Written(p, sum.value))
    ensures sum.Crash? ==> Result(p, record) == Crash
    ensures sum.Lost? ==> Result(p, record) == Lost
  {
    hide B.Decode, Written;
  }

  function Failure(sum: Outcome<int>): Outcome<seq<byte>>
    requires !sum.Return?
  {
    if sum.Crash? then Crash else Lost
  }

  /** processor.rs (krafka), one record: decode, sum, encode. */
  method ProcessKrafka(record: seq<byte>) returns (out: Outcome<seq<byte>>)
    ensures out == KrafkaResult(record)
  {
    hide V.Encode, B.Decode, Result, Computes;
    var payload := new Reader(record);
    assert payload.Remaining() == record;
    var sum := DecodeKrafka(payload);
    FromSum(Krafka, record, sum, payload.Remaining());
    if !sum.Return? { return Failure(sum); }
    var buf := new Buffer();
    WriteVarint(buf, sum.value);
    InWord(sum.value);
    assert buf.bytes == [] + V.Encode(sum.value) == V.Encode(sum.value);
    return Return(buf.bytes);
  }

  /** The programs that write through the signed encoder. */
  method ProcessSigned(p: Processor, record: seq<byte>) returns (out: Outcome<seq<byte>>)
    requires ComparesSigned(p)
    ensures out == Result(p, record)
  {
    hide SignedEncode, B.Decode, Result, Computes;
    var payload := new Reader(record);
    assert payload.Remaining() == record;
    var sum: Outcome<int>;
    match p {
      case Rdkafka => sum := DecodeRdkafka(payload);
      case Benchmark => sum := DecodeBenchmark(payload);
      case StreamApp => sum := DecodeStreamApp(payload);
      case Scala => sum := DecodeScala(payload);
    }
    FromSum(p, record, sum, payload.Remaining());
    if !sum.Return? { return Failure(sum); }
    var outBuf := new Buffer();
    WriteSigned(outBuf, sum.value);
    InWord(sum.value);
    assert outBuf.bytes == [] + SignedEncode(sum.value) == SignedEncode(sum.value);
    return Return(outBuf.bytes);
  }

  /** C: through a fixed buffer of 32 bytes. */
  method ProcessC(record: seq<byte>) returns (out: Outcome<seq<byte>>)
    ensures out == Result(Processor.C, record)
  {
    hide V.Encode, B.Decode, Result, Computes;
    var payload := new Reader(record);
    assert payload.Remaining() == record;
    ghost var blocks;
    var sum;
    sum, blocks := DecodeC(payload);
    FromSum(Processor.C, record, sum, payload.Remaining());
    if !sum.Return? { return Failure(sum); }
    var outBuf := new byte[32](_ => 0);
    var outLen := WriteArray(outBuf, 0, sum.value);
    InWord(sum.value);
    assert outBuf[..outLen] == V.Encode(sum.value);
    return Return(outBuf[..outLen]);
  }

  method ProcessPython(record: seq<byte>) returns (out: Outcome<seq<byte>>)
    ensures out == Result(Python, record)
  {
    hide UnboundedEncode, B.Decode, Result, Computes;
    var sum, pos := DecodePython(record);
    FromSum(Python, record, sum, record[pos..]);
    if !sum.Return? { return Failure(sum); }
    var bytes := WriteUnbounded(sum.value);
    return Return(bytes);
  }

  /** The inlined programs, in the terms used here. */
  lemma FromEmits(p: Processor, record: seq<byte>, out: Outcome<seq<byte>>, rest: seq<byte>)
    requires (p.Go? || p.Ruby?) && Emits(DialectOf(p), B.Decode(DialectOf(p), record, 0), out, rest)
    ensures out == Result(p, record)
  {
    hide B.Decode, UnboundedEncode, V.Encode;
  }

  /** Any of the programs on any record. */
  method Process(p: Processor, record: seq<byte>) returns (out: Outcome<seq<byte>>)
    ensures out == Result(p, record)
  {
    hide B.Decode, Result, Emits;
    match p {
      case Krafka => out := ProcessKrafka(record);
      case C => out := ProcessC(record);
      case Go =>
        var pos;
        out, pos := ProcessGo(record);
        FromEmits(Go, record, out, record[pos..]);
      case Python => out := ProcessPython(record);
      case Ruby =>
        var pos;
        out, pos := ProcessRuby(record);
        FromEmits(Ruby, record, out, record[pos..]);
      case _ => out := ProcessSigned(p, record);
    }
  }

  // ----- from the producer to the consumer -----

  /** consumer.rs on a result. */
  function Consumed(out: Outcome<seq<byte>>): V.Read {
    if out.Return? then V.ReadVarint(V.Krafka, out.value) else V.Panic
  }

  ghost predicate ReadsAs(r: V.Read, n: int) {
    r.Value? && r.v == n
  }

  /** The sums that the processor passes on exactly. */
  predicate Exact(p: Processor, sum: int) {
    if ComparesSigned(p) then -TWO63 / 2 <= sum < TWO63 / 2 else -TWO63 <= sum < TWO63
  }

  lemma RecordResult(p: Processor, xs: seq<i64>)
    requires |xs| < TWO63
    ensures Result(p, Record(xs))
         == if HasIntIndex(p) && |xs| >= 0x8000_0000 then Lost
            else Return(Written(p, B.Wrap(DialectOf(p), B.Sum(xs))))
  {
    hide B.Decode, Record, Written, B.Wrap, B.Sum;
    RecordDecodes(DialectOf(p), xs);
    IntIndex(p);
    hide HasIntIndex, B.CountsInInt, DialectOf;
  }

  lemma IntIndex(p: Processor)
    ensures HasIntIndex(p) <==> B.CountsInInt(DialectOf(p))
  {
  }

  /** What the consumer makes of a sum as the encoders write it. */
  lemma ConsumesWritten(p: Processor, total: int)
    ensures Exact(p, total) ==> V.ReadVarint(V.Krafka, Written(p, total)) == V.Value(total, |Written(p, total)|)
    ensures !Exact(p, total) && (-TWO63 <= total < TWO63 || !ComparesSigned(p)) ==>
              !ReadsAs(V.ReadVarint(V.Krafka, Written(p, total)), total)
  {
    hide V.ReadVarint, V.Encode, SignedEncode, UnboundedEncode;
    if -TWO63 <= total < TWO63 {
      InWord(total);
      V.RoundTripAlone(V.Krafka, total);
      SignedGuardDomain(total);
      UnboundedDomain(total);
      SignedByte(total);
    } else {
      KrafkaReadsWord(Written(p, total));
    }
  }

  lemma KrafkaReadsWord(bs: seq<byte>)
    ensures var r := V.ReadVarint(V.Krafka, bs); r.Value? ==> -TWO63 <= r.v < TWO63
  {
    hide V.Low, V.GroupLen;
    forall z: u64 ensures -TWO63 <= V.UnZigZag(z) < TWO63 {
      UnzigMeans(z);
    }
  }

  lemma SignedByte(n: i64)
    ensures SignedEncode(n) != V.Encode(n) ==> !ReadsAs(V.ReadVarint(V.Krafka, SignedEncode(n)), n)
  {
    SignedGuardDomain(n);
    if SignedEncode(n) != V.Encode(n) {
      OneByte(SignedEncode(n)[0]);
      assert SignedEncode(n) == [SignedEncode(n)[0]];
    }
    hide V.ReadVarint, SignedEncode, V.Encode;
  }

  /** From the producer through any of the processors to the consumer: the consumer reads the true sum
      if and only if that fits an i64, or half of one where the encoder compares signed words.  What it
      reads of the sum modulo 2^64 depends on that number in the same way, so that it always is what
      krafka, C and Go pass on, whatever the partial sums did. */
  lemma EndToEnd(p: Processor, xs: seq<i64>)
    requires |xs| < TWO63 && (HasIntIndex(p) ==> |xs| < 0x8000_0000)
    ensures ReadsAs(Consumed(Result(p, Record(xs))), B.Sum(xs)) <==> Exact(p, B.Sum(xs))
    ensures var total := B.Wrap(DialectOf(p), B.Sum(xs));
            Exact(p, total) ==> Consumed(Result(p, Record(xs))) == V.Value(total, |Written(p, total)|)
    ensures ComparesSigned(p) ==>
              (ReadsAs(Consumed(Result(p, Record(xs))), AsI64(B.Sum(xs))) <==> Exact(p, AsI64(B.Sum(xs))))
    ensures p.Krafka? || p.C? || p.Go? ==> Exact(p, AsI64(B.Sum(xs)))
  {
    hide V.ReadVarint, Record, Result, Written, B.Sum;
    var total := B.Sum(xs);
    RecordResult(p, xs);
    ConsumesWritten(p, B.Wrap(DialectOf(p), total));
    Wrapped(total);
    if -TWO63 <= total < TWO63 {
      InWord(total);
    } else {
      KrafkaReadsWord(Written(p, B.Wrap(DialectOf(p), total)));
    }
    hide AsI64;
  }

  lemma Wrapped(total: int)
    ensures -TWO63 <= AsI64(total) < TWO63
  {
  }

  /** The programs themselves, one after the other. */
  method RunAll(p: Processor, xs: seq<i64>) returns (read: Outcome<int>)
    requires |xs| < TWO63
    ensures read == Return(B.Sum(xs)) <==> Exact(p, B.Sum(xs)) && (HasIntIndex(p) ==> |xs| < 0x8000_0000)
    ensures read.Lost? <==> HasIntIndex(p) && |xs| >= 0x8000_0000
  {
    hide V.ReadVarint, Result, Record, Exact, B.Sum;
    var buf := new Buffer();
    WriteRecord(buf, xs);
    var out := Process(p, buf.bytes);
    RecordResult(p, xs);
    if !out.Return? {
      return Lost;
    }
    EndToEnd(p, xs);
    var reader := new Reader(out.value);
    assert reader.Remaining() == out.value;
    read := ReadKrafka(reader);
  }
}
