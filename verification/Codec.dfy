/** The varint loops of the programs, each with its own control flow, proved to compute the
    functions of module `Varint`. */
module Codec {
  import opened Bits
  import V = Varint

  /** A call that ends the program's thread (a Rust panic, a Go or Python index error) is `Crash`; one
      that never returns, or whose behaviour the language leaves undefined, is `Lost`. */
  datatype Outcome<T> = Return(value: T) | Crash | Lost

  /** A byte string and a cursor: Rust's shrinking slice, C's `data`/`end` pair, a Java stream. */
  class Reader {
    const data: seq<byte>
    var pos: nat

    constructor (data: seq<byte>)
      ensures this.data == data && pos == 0
    {
      this.data := data;
      pos := 0;
    }

    predicate Valid()
      reads this
    {
      pos <= |data|
    }

    function Remaining(): seq<byte>
      requires Valid()
      reads this
    {
      data[pos..]
    }
  }

  /** An output buffer that a program clears and reuses. */
  class Buffer {
    var bytes: seq<byte>

    constructor ()
      ensures bytes == []
    {
      bytes := [];
    }

    method Clear()
      modifies this
      ensures bytes == []
    {
      bytes := [];
    }

    method Push(b: byte)
      modifies this
      ensures bytes == old(bytes) + [b]
    {
      bytes := bytes + [b];
    }
  }

  // ----- the expressions between the loops -----

  /** `((val >> 1) as i64) ^ -((val & 1) as i64)` */
  function UnzigWord(val: u64): int {
    Xor(AsI64(Shr(val, 1)), -And(val, 1))
  }

  /** The same on unbounded integers. */
  function UnzigInt(val: nat): int {
    Xor(Shr(val, 1), -And(val, 1))
  }

  /** `(n << 1) ^ (n >> 63)` as a signed word. */
  function ZigWord(n: i64): int {
    Xor(AsI64(Shl(n, 1)), Shr(n, 63))
  }

  /** The same on unbounded integers. */
  function ZigInt(n: int): int {
    Xor(Shl(n, 1), Shr(n, 63))
  }

  lemma UnzigMeans(val: nat)
    ensures UnzigInt(val) == V.UnZigZag(val)
    ensures val < TWO64 ==> UnzigWord(val) == V.UnZigZag(val) && -TWO63 <= V.UnZigZag(val) < TWO63
  {
    AndOne(val);
    XorSignBits(val / 2, -(val % 2));
    assert val < TWO64 ==> AsI64(val / 2) == val / 2;
  }

  /** The top bit of a word, shifted down arithmetically, is its sign. */
  lemma SignOf(n: int)
    ensures Shr(n, 63) == 0 <==> 0 <= n < TWO63
    ensures Shr(n, 63) == -1 <==> -TWO63 <= n < 0
  {
    Pow2Values();
  }

  lemma ZigMeans(n: i64)
    ensures AsU64(ZigWord(n)) == V.ZigZag(n)
    ensures ZigWord(n) == AsI64(V.ZigZag(n))
  {
    AndOne(n);
    SignOf(n);
    XorSignBits(AsI64(2 * n), Shr(n, 63));
    WrapTwice(n);
  }

  lemma WrapTwice(n: i64)
    ensures var w: int := AsI64(2 * n);
            if n < 0 then -w - 1 == AsI64(-2 * n - 1) && AsU64(-w - 1) == -2 * n - 1
            else AsU64(w) == 2 * n
  {
  }

  /** The first line of every encoder, as a signed word ... */
  method Zig(n: i64) returns (val: int)
    ensures val == AsI64(V.ZigZag(n))
  {
    ZigMeans(n);
    val := ZigWord(n);
  }

  /** ... and cast to an unsigned one. */
  method ZigUnsigned(n: i64) returns (val: int)
    ensures val == V.ZigZag(n)
  {
    ZigMeans(n);
    val := AsU64(ZigWord(n));
  }

  /** Without a word size the expression is the zig-zag map exactly on the 64-bit range. */
  lemma ZigIntMeans(n: int)
    ensures ZigInt(n) >= 0
    ensures ZigInt(n) == V.ZigZag(n) <==> -TWO63 <= n < TWO63
  {
    Pow2Values();
    SignOf(n);
    hide Xor, Pow2, Shr;
    ShiftedOnce(n);
    XorSign(2 * n, Shr(n, 63));
    SignKept(n);
    if n >= 0 {
      XorZero(2 * n);
      if ZigInt(n) == V.ZigZag(n) {
        XorCancel(2 * n, Shr(n, 63), 0);
      }
    } else {
      XorComplement(2 * n);
      if ZigInt(n) == V.ZigZag(n) {
        XorCancel(2 * n, Shr(n, 63), -1);
      }
    }
  }

  lemma ShiftedOnce(n: int)
    ensures Shl(n, 1) == 2 * n
  {
    assert Pow2(1) == 2;
  }

  lemma SignKept(n: int)
    ensures Shr(n, 63) < 0 <==> n < 0
  {
    Pow2Values();
    hide Pow2;
  }

  // ----- the reading loops -----

  /** The state of a reading loop: `val` and `shift` account for the continuation bytes
      data[start..pos]. */
  ghost predicate Scanning(d: V.Dialect, data: seq<byte>, start: nat, pos: nat, shift: nat, val: int) {
    && start <= pos <= |data|
    && shift == 7 * (pos - start)
    && (forall i | start <= i < pos :: data[i] >= 128)
    && val == V.Word(d, data[start..pos])
  }

  lemma ScanStart(d: V.Dialect, data: seq<byte>, start: nat)
    requires start <= |data|
    ensures Scanning(d, data, start, start, 0, 0)
  {
    assert data[start..start] == [];
  }

  /** The loops' exit test. */
  lemma Continues(b: byte)
    ensures And(b, 0x80) == 0 <==> b < 128
  {
    ByteOps(b);
  }

  /** What a reading method owes its caller: agreement with the dialect's reader. */
  ghost predicate Reads(d: V.Dialect, before: seq<byte>, out: Outcome<int>, after: seq<byte>) {
    match V.ReadVarint(d, before)
    case Value(v, used) => used <= |before| && out == Return(v) && after == before[used..]
    case Panic => out.Crash?
    case Outside => out.Lost?
  }

  /** Leaving a loop at a clear high bit. */
  lemma Stopped(d: V.Dialect, data: seq<byte>, start: nat, pos: nat, val: nat)
    requires start < pos <= |data| && data[pos - 1] < 128
    requires forall i | start <= i < pos - 1 :: data[i] >= 128
    requires d.Krafka? || d.Bounded? ==> pos - start <= 10
    requires val == V.Word(d, data[start..pos])
    ensures Reads(d, data[start..], Return(V.UnZigZag(val)), data[pos..])
  {
    var bs := data[start..];
    assert bs == data[start..pos] + data[pos..];
    V.GroupLenAppend(data[start..pos], data[pos..]);
    assert bs[..pos - start] == data[start..pos];
    assert bs[pos - start..] == data[pos..];
  }

  /** Passing over continuation bytes only. */
  lemma OnlyContinuations(bs: seq<byte>, k: nat)
    requires k <= |bs| && forall i | 0 <= i < k :: bs[i] >= 128
    ensures k == |bs| ==> !V.Terminated(bs) && V.GroupLen(bs) == k
    ensures V.Terminated(bs) ==> V.GroupLen(bs) > k
  {
  }

  /** Leaving the krafka loop after ten continuation bytes. */
  lemma CutOff(data: seq<byte>, start: nat, pos: nat, val: nat)
    requires Scanning(V.Krafka, data, start, pos, 70, val)
    ensures Reads(V.Krafka, data[start..], Return(V.UnZigZag(val)), data[pos..])
  {
    OnlyContinuations(data[start..], 10);
    assert data[start..][..10] == data[start..pos];
    assert data[start..][10..] == data[pos..];
  }

  /** C meets an eleventh byte. */
  lemma TooLong(data: seq<byte>, start: nat, pos: nat, val: nat)
    requires Scanning(V.Bounded, data, start, pos, 70, val) && pos < |data|
    ensures Reads(V.Bounded, data[start..], Lost, data[pos..])
  {
    OnlyContinuations(data[start..], 10);
    LongGroups(data[start..], 10);
  }

  lemma LongGroups(bs: seq<byte>, k: nat)
    requires k < |bs| && forall i | 0 <= i < k :: bs[i] >= 128
    ensures V.GroupLen(bs) > k
  {
  }

  /** What a reader makes of the end of the input. */
  function AtEnd(d: V.Dialect, val: nat): Outcome<int> {
    match d
    case Bounded => Return(V.UnZigZag(val))
    case ZeroAtEnd => Return(0)
    case Endless => Lost
    case _ => Crash
  }

  /** A whole round, for words: go on scanning, or stop with the number. */
  lemma WordRound(d: V.Dialect, data: seq<byte>, start: nat, pos: nat, shift: nat, s: nat, val: int)
    requires Scanning(d, data, start, pos, shift, val) && pos < |data| && !d.Unbounded?
    requires s == V.Places(d, shift) && (d.Krafka? || d.Bounded? ==> pos - start <= 9)
    ensures var val' := AsU64(Or(val, AsU64(Shl(And(data[pos], 0x7F), s))));
            if And(data[pos], 0x80) == 0 then Reads(d, data[start..], Return(V.UnZigZag(val')), data[pos + 1..])
            else Scanning(d, data, start, pos + 1, shift + 7, val')
  {
    hide Or, And, Shl, Reads, V.Low, V.Word, V.Places;
    ByteOps(data[pos]);
    Continues(data[pos]);
    var val' := AsU64(Or(val, AsU64(Shl(And(data[pos], 0x7F), s))));
    assert data[start..pos + 1] == data[start..pos] + [data[pos]];
    V.WordRound(d, data[start..pos], data[pos]);
    if data[pos] < 128 {
      Stopped(d, data, start, pos + 1, val');
    }
  }

  /** ... and without a word size. */
  lemma UnboundedRound(data: seq<byte>, start: nat, pos: nat, shift: nat, val: int)
    requires Scanning(V.Unbounded, data, start, pos, shift, val) && pos < |data|
    ensures var val' := Or(val, Shl(And(data[pos], 0x7F), shift));
            && val' >= 0
            && if And(data[pos], 0x80) == 0
               then Reads(V.Unbounded, data[start..], Return(V.UnZigZag(val')), data[pos + 1..])
               else Scanning(V.Unbounded, data, start, pos + 1, shift + 7, val')
  {
    hide Or, And, Shl, Reads, V.Low;
    ByteOps(data[pos]);
    Continues(data[pos]);
    V.UnboundedRound(data[start..pos], data[pos]);
    assert data[start..pos + 1] == data[start..pos] + [data[pos]];
    var val' := Or(val, Shl(And(data[pos], 0x7F), shift));
    if data[pos] < 128 {
      Stopped(V.Unbounded, data, start, pos + 1, val');
    }
  }

  /** Leaving a loop at the end of the input. */
  lemma ScanEnd(d: V.Dialect, data: seq<byte>, start: nat, shift: nat, val: nat)
    requires Scanning(d, data, start, |data|, shift, val)
    requires d.Krafka? ==> |data| - start < 10
    requires d.Bounded? ==> |data| - start <= 10
    ensures Reads(d, data[start..], AtEnd(d, val), data[|data|..])
  {
    OnlyContinuations(data[start..], |data| - start);
    assert data[start..|data|] == data[start..];
    assert data[start..][|data| - start..] == [];
  }

  /** krafka (processor.rs and consumer.rs): at most ten bytes. */
  method ReadKrafka(r: Reader) returns (out: Outcome<int>)
    requires r.Valid()
    modifies r
    ensures r.Valid() && old(r.pos) <= r.pos && !out.Lost? && (out.Crash? || old(r.pos) < r.pos)
    ensures out.Return? ==> -TWO63 <= out.value < TWO63
    ensures Reads(V.Krafka, old(r.Remaining()), out, r.Remaining())
  {
    hide Or, And, Shl, V.Low, V.ReadVarint, Reads, UnzigWord;
    var val: int, shift: nat := 0, 0;
    ghost var start := r.pos;
    ScanStart(V.Krafka, r.data, start);
    while true
      invariant r.Valid() && r.pos - start <= 9
      invariant Scanning(V.Krafka, r.data, start, r.pos, shift, val) && 0 <= val < TWO64
      decreases |r.data| - r.pos
    {
      if r.pos == |r.data| {
        ScanEnd(V.Krafka, r.data, start, shift, val);
        return Crash;
      }
      var b := r.data[r.pos];
      WordRound(V.Krafka, r.data, start, r.pos, shift, shift, val);
      r.pos := r.pos + 1;
      val := AsU64(Or(val, AsU64(Shl(And(b, 0x7F), shift))));
      if And(b, 0x80) == 0 {
        break;
      }
      shift := shift + 7;
      if shift >= 64 {
        CutOff(r.data, start, r.pos, val);
        break;
      }
    }
    UnzigMeans(val);
    return Return(UnzigWord(val));
  }

  /** Rust on rdkafka: no cut-off, an index error at the end of the input. */
  method ReadChecked(r: Reader) returns (out: Outcome<int>)
    requires r.Valid()
    modifies r
    ensures r.Valid() && old(r.pos) <= r.pos && !out.Lost? && (out.Crash? || old(r.pos) < r.pos)
    ensures out.Return? ==> -TWO63 <= out.value < TWO63
    ensures Reads(V.Checked, old(r.Remaining()), out, r.Remaining())
  {
    hide Or, And, Shl, V.Low, V.ReadVarint, Reads, UnzigWord;
    var val: int, shift: nat := 0, 0;
    ghost var start := r.pos;
    ScanStart(V.Checked, r.data, start);
    while true
      invariant r.Valid() && Scanning(V.Checked, r.data, start, r.pos, shift, val) && 0 <= val < TWO64
      decreases |r.data| - r.pos
    {
      if r.pos == |r.data| {
        ScanEnd(V.Checked, r.data, start, shift, val);
        return Crash;
      }
      var b := r.data[r.pos];
      WordRound(V.Checked, r.data, start, r.pos, shift, shift % 64, val);
      r.pos := r.pos + 1;
      val := AsU64(Or(val, AsU64(Shl(And(b, 0x7F), shift % 64))));
      if And(b, 0x80) == 0 {
        break;
      }
      shift := shift + 7;
    }
    UnzigMeans(val);
    return Return(UnzigWord(val));
  }

  /** C: stops at `end` and returns what it has.  A shift by 64 or more is undefined. */
  method ReadBounded(r: Reader) returns (out: Outcome<int>)
    requires r.Valid()
    modifies r
    ensures r.Valid() && old(r.pos) <= r.pos && !out.Crash? && (out == Return(0) || old(r.pos) < r.pos)
    ensures out.Return? ==> -TWO63 <= out.value < TWO63
    ensures Reads(V.Bounded, old(r.Remaining()), out, r.Remaining())
  {
    hide Or, And, Shl, V.Low, V.ReadVarint, Reads, UnzigWord;
    var val: int, shift: nat := 0, 0;
    ghost var start, stopped := r.pos, false;
    ScanStart(V.Bounded, r.data, start);
    while r.pos < |r.data|
      invariant r.Valid() && 0 <= val < TWO64 && r.pos - start <= 10
      invariant Scanning(V.Bounded, r.data, start, r.pos, shift, val)
    {
      var b := r.data[r.pos];
      if shift >= 64 {
        TooLong(r.data, start, r.pos, val);
        return Lost;
      }
      WordRound(V.Bounded, r.data, start, r.pos, shift, shift, val);
      r.pos := r.pos + 1;
      val := AsU64(Or(val, AsU64(Shl(And(b, 0x7F), shift))));
      if And(b, 0x80) == 0 {
        stopped := true;
        break;
      }
      shift := shift + 7;
    }
    if !stopped {
      ScanEnd(V.Bounded, r.data, start, shift, val);
    }
    UnzigMeans(val);
    return Return(UnzigWord(val));
  }

  /** StreamSumBenchmark: the end of the input, even inside a number, reads as 0. */
  method ReadZeroAtEnd(r: Reader) returns (out: Outcome<int>)
    requires r.Valid()
    modifies r
    ensures r.Valid() && old(r.pos) <= r.pos && out.Return? && (out == Return(0) || old(r.pos) < r.pos)
    ensures out.Return? ==> -TWO63 <= out.value < TWO63
    ensures Reads(V.ZeroAtEnd, old(r.Remaining()), out, r.Remaining())
  {
    hide Or, And, Shl, V.Low, V.ReadVarint, Reads, UnzigWord;
    var val: int, shift: nat := 0, 0;
    ghost var start := r.pos;
    ScanStart(V.ZeroAtEnd, r.data, start);
    while true
      invariant r.Valid() && Scanning(V.ZeroAtEnd, r.data, start, r.pos, shift, val) && 0 <= val < TWO64
      decreases |r.data| - r.pos
    {
      if r.pos == |r.data| {
        ScanEnd(V.ZeroAtEnd, r.data, start, shift, val);
        return Return(0);
      }
      var b := r.data[r.pos];
      WordRound(V.ZeroAtEnd, r.data, start, r.pos, shift, shift % 64, val);
      r.pos := r.pos + 1;
      val := AsU64(Or(val, AsU64(Shl(And(b, 0x7F), shift % 64))));
      if And(b, 0x80) == 0 {
        break;
      }
      shift := shift + 7;
    }
    UnzigMeans(val);
    return Return(UnzigWord(val));
  }

  /** StreamSumApp does not look for the end of the input: there `read()` is -1, again and again, and
      the loop goes on for ever. */
  method ReadStreamApp(r: Reader) returns (out: Outcome<int>)
    requires r.Valid()
    modifies r
    ensures r.Valid() && old(r.pos) <= r.pos && !out.Crash? && (out.Lost? || old(r.pos) < r.pos)
    ensures out.Return? ==> -TWO63 <= out.value < TWO63
    ensures Reads(V.Endless, old(r.Remaining()), out, r.Remaining())
  {
    hide Or, And, Shl, V.Low, V.ReadVarint, Reads, UnzigWord;
    var val: int, shift: nat := 0, 0;
    ghost var start := r.pos;
    ScanStart(V.Endless, r.data, start);
    while true
      invariant r.Valid() && Scanning(V.Endless, r.data, start, r.pos, shift, val) && 0 <= val < TWO64
      decreases |r.data| - r.pos
    {
      ghost var cur := r.pos;
      var b := NextByte(r);
      if b == -1 {
        ScanEnd(V.Endless, r.data, start, shift, val);
        return Lost;
      }
      WordRound(V.Endless, r.data, start, cur, shift, shift % 64, val);
      val := AsU64(Or(val, AsU64(Shl(And(b, 0x7F), shift % 64))));
      if And(b, 0x80) == 0 {
        break;
      }
      shift := shift + 7;
    }
    UnzigMeans(val);
    return Return(UnzigWord(val));
  }

  /** Scala: the same function from a loop that reads one byte ahead; -1 is the end of the input. */
  method ReadAhead(r: Reader) returns (out: Outcome<int>)
    requires r.Valid()
    modifies r
    ensures r.Valid() && old(r.pos) <= r.pos && out.Return? && (out == Return(0) || old(r.pos) < r.pos)
    ensures out.Return? ==> -TWO63 <= out.value < TWO63
    ensures Reads(V.ZeroAtEnd, old(r.Remaining()), out, r.Remaining())
  {
    hide Or, And, Shl, V.Low, V.ReadVarint, Reads, UnzigWord;
    var val: int, shift: nat := 0, 0;
    ghost var start, cur := r.pos, r.pos;
    ScanStart(V.ZeroAtEnd, r.data, start);
    var b := NextByte(r);
    while b != -1
      invariant r.Valid() && 0 <= val < TWO64
      invariant if b == -1 then cur == r.pos == |r.data| else cur + 1 == r.pos && b == r.data[cur]
      invariant Scanning(V.ZeroAtEnd, r.data, start, cur, shift, val)
      decreases |r.data| - cur
    {
      WordRound(V.ZeroAtEnd, r.data, start, cur, shift, shift % 64, val);
      val := AsU64(Or(val, AsU64(Shl(And(b, 0x7F), shift % 64))));
      if And(b, 0x80) == 0 {
        UnzigMeans(val);
        return Return(UnzigWord(val));
      }
      shift := shift + 7;
      cur := cur + 1;
      b := NextByte(r);
    }
    ScanEnd(V.ZeroAtEnd, r.data, start, shift, val);
    return Return(0);
  }

  /** `ByteArrayInputStream.read` */
  method NextByte(r: Reader) returns (b: int)
    requires r.Valid()
    modifies r
    ensures r.Valid()
    ensures if old(r.pos) == |r.data| then b == -1 && r.pos == old(r.pos)
            else r.pos == old(r.pos) + 1 && b == r.data[old(r.pos)]
  {
    if r.pos == |r.data| {
      return -1;
    }
    b := r.data[r.pos];
    r.pos := r.pos + 1;
  }

  /** Python: the same loop on unbounded integers; the new position is a second result. */
  method ReadPython(data: seq<byte>, start: nat) returns (out: Outcome<int>, pos: nat)
    requires start <= |data|
    ensures start <= pos <= |data| && !out.Lost? && (out.Crash? || start < pos)
    ensures Reads(V.Unbounded, data[start..], out, data[pos..])
  {
    hide Or, And, Shl, V.Low, V.ReadVarint, Reads, UnzigInt;
    var val: int, shift: nat := 0, 0;
    pos := start;
    ScanStart(V.Unbounded, data, start);
    while true
      invariant Scanning(V.Unbounded, data, start, pos, shift, val) && 0 <= val
      decreases |data| - pos
    {
      if pos == |data| {
        ScanEnd(V.Unbounded, data, start, shift, val);
        return Crash, pos;
      }
      var b := data[pos];
      UnboundedRound(data, start, pos, shift, val);
      pos := pos + 1;
      val := Or(val, Shl(And(b, 0x7F), shift));
      if And(b, 0x80) == 0 {
        break;
      }
      shift := shift + 7;
    }
    UnzigMeans(val);
    return Return(UnzigInt(val)), pos;
  }

  // ----- the writing loops -----

  // A byte of output is the low group with the continuation bit, written in three ways.

  lemma CastThenSet(val: nat)
    ensures Or(AsU8(val), 0x80) == val % 128 + 128
  {
    hide Or, And;
    ByteOps(AsU8(val));
    LowSeven(val);
  }

  lemma LowSeven(val: nat)
    ensures AsU8(val) % 128 == val % 128
  {
    var q, r := val / 256, val % 256;
    assert val == 256 * q + r && r == 128 * (r / 128) + r % 128;
    ModUnique(val, 128, 2 * q + r / 128, r % 128);
  }

  lemma MaskThenSet(val: nat)
    ensures Or(And(val, 0x7F), 0x80) == val % 128 + 128
  {
    assert Pow2(7) == 128;
    AndMask(val, 7);
    ByteOps(val % 128);
  }

  lemma SetThenCast(val: nat)
    ensures AsU8(Or(val, 0x80)) == val % 128 + 128
  {
    assert Pow2(7) == 128;
    OrLow(val, 7);
  }

  lemma NextGroup(val: nat)
    ensures Shr(val, 7) == val / 128
  {
    assert Pow2(7) == 128;
  }

  /** Moving one group from the number to the buffer. */
  lemma GroupStep(written: seq<byte>, val: nat, b: byte)
    requires val >= 0x80 && b == val % 128 + 128
    ensures (written + [b]) + V.Groups(val / 128) == written + V.Groups(val)
    ensures |V.Groups(val / 128)| >= 1
  {
  }

  lemma LastGroup(written: seq<byte>, val: nat)
    requires val < 0x80
    ensures written + V.Groups(val) == written + [val] && AsU8(val) == val
  {
  }

  /** krafka, C and Go, and the producer: unsigned comparison. */
  method WriteVarint(buf: Buffer, n: i64)
    modifies buf
    ensures buf.bytes == old(buf.bytes) + V.Encode(n)
  {
    var val := ZigUnsigned(n);
    while val >= 0x80
      invariant val >= 0
      invariant buf.bytes + V.Groups(val) == old(buf.bytes) + V.Encode(n)
      decreases val
    {
      CastThenSet(val);
      NextGroup(val);
      GroupStep(buf.bytes, val, Or(AsU8(val), 0x80));
      buf.Push(Or(AsU8(val), 0x80));
      val := Shr(val, 7);
    }
    buf.Push(AsU8(val));
  }

  /** C: into a fixed buffer at an offset; the caller provides ten bytes of room. */
  method WriteArray(buf: array<byte>, off: nat, n: i64) returns (len: nat)
    requires off + 10 <= buf.Length
    modifies buf
    ensures 1 <= len <= 10
    ensures len == |V.Encode(n)| && Holds(buf, off, V.Encode(n))
    ensures forall i | 0 <= i < off || off + len <= i < buf.Length :: buf[i] == old(buf[i])
  {
    var val := ZigUnsigned(n);
    V.EncodeLength(n);
    assert V.Groups(val) == V.Encode(n);
    hide Or, V.Encode, V.Groups, Shr, AsU8;
    len := 0;
    ghost var written: seq<byte> := [];
    assert Holds(buf, off, []);
    hide Holds;
    while val >= 0x80
      invariant val >= 0 && len == |written| < 10 && written + V.Groups(val) == V.Encode(n)
      invariant Holds(buf, off, written)
      invariant forall i | 0 <= i < off || off + len <= i < buf.Length :: buf[i] == old(buf[i])
      decreases val
    {
      SetThenCast(val);
      NextGroup(val);
      var b := AsU8(Or(val, 0x80));
      GroupStep(written, val, b);
      Put(buf, off, written, len, b);
      written := written + [b];
      val, len := Shr(val, 7), len + 1;
    }
    LastGroup(written, val);
    Put(buf, off, written, len, AsU8(val));
    len := len + 1;
  }

  /** `buf[len++] = b` */
  method Put(buf: array<byte>, off: nat, ghost written: seq<byte>, len: nat, b: byte)
    requires Holds(buf, off, written) && len == |written| && off + len < buf.Length
    modifies buf
    ensures Holds(buf, off, written + [b])
    ensures forall i | 0 <= i < buf.Length && i != off + len :: buf[i] == old(buf[i])
  {
    buf[off + len] := b;
  }

  ghost predicate Holds(buf: array<byte>, off: nat, bs: seq<byte>)
    reads buf
  {
    off + |bs| <= buf.Length && forall i | 0 <= i < |bs| :: buf[off + i] == bs[i]
  }

  /** What a loop with a signed comparison still writes: a number that reaches bit 63 looks
      negative, and its low byte is all that is written. */
  function SignedRest(val: int): seq<byte> {
    if val < 0 then [AsU8(val)] else V.Groups(val)
  }

  function SignedEncode(n: i64): seq<byte> {
    SignedRest(AsI64(V.ZigZag(n)))
  }

  /** Rust on rdkafka, StreamSumApp, StreamSumBenchmark, Scala: signed comparison.  (Java and Scala set
      the bit before they cut out the byte, with the same result: `SetThenCast`.) */
  method WriteSigned(buf: Buffer, n: i64)
    modifies buf
    ensures buf.bytes == old(buf.bytes) + SignedEncode(n)
  {
    var val := Zig(n);
    ghost var goal := buf.bytes + SignedRest(val);
    while val >= 0x80
      invariant buf.bytes + SignedRest(val) == goal
      decreases val
    {
      CastThenSet(val);
      NextGroup(val);
      GroupStep(buf.bytes, val, Or(AsU8(val), 0x80));
      buf.Push(Or(AsU8(val), 0x80));
      val := Shr(val, 7);
    }
    buf.Push(AsU8(val));
  }

  /** The signed encoders agree with the unsigned ones exactly on -2^62 <= n < 2^62.  Outside they
      write one byte, from which no reader recovers n. */
  lemma SignedGuardDomain(n: i64)
    ensures SignedEncode(n) == V.Encode(n) <==> -TWO63 / 2 <= n < TWO63 / 2
    ensures SignedEncode(n) != V.Encode(n) ==>
              |SignedEncode(n)| == 1 && V.ReadVarint(V.Krafka, SignedEncode(n)) != V.Value(n, 1)
  {
    var z := V.ZigZag(n);
    HighBit(n);
    if z >= TWO63 {
      OneByte(AsU8(AsI64(z)));
      V.GroupsShape(z);
    }
  }

  lemma HighBit(n: i64)
    ensures V.ZigZag(n) < TWO63 <==> -TWO63 / 2 <= n < TWO63 / 2
    ensures V.ZigZag(n) < TWO63 ==> AsI64(V.ZigZag(n)) == V.ZigZag(n)
    ensures V.ZigZag(n) >= TWO63 ==> AsI64(V.ZigZag(n)) < 0
  {
  }

  /** A single byte reads as a number between -64 and 63, or not at all. */
  lemma OneByte(b: byte)
    ensures |V.Groups(V.Low([b]))| == 1 && V.Low([b]) < 128
    ensures V.ReadVarint(V.Krafka, [b]).Value? ==> -64 <= V.ReadVarint(V.Krafka, [b]).v < 64
  {
    assert [b][..1] == [b];
    assert V.Low([b]) == b % 128 + 128 * V.Low([]);
  }

  function UnboundedEncode(n: int): seq<byte> {
    ZigIntMeans(n);
    V.Groups(ZigInt(n))
  }

  /** Python and the Ruby producer: the same loop on an unbounded integer. */
  method WriteUnbounded(n: int) returns (buf: seq<byte>)
    ensures buf == UnboundedEncode(n)
  {
    var val := ZigInt(n);
    ZigIntMeans(n);
    buf := [];
    while val >= 0x80
      invariant val >= 0 && buf + V.Groups(val) == UnboundedEncode(n)
      decreases val
    {
      MaskThenSet(val);
      NextGroup(val);
      GroupStep(buf, val, Or(And(val, 0x7F), 0x80));
      buf := buf + [Or(And(val, 0x7F), 0x80)];
      val := Shr(val, 7);
    }
    buf := buf + [val];
  }

  /** The unbounded encoders write what krafka writes, and what their own reader reads back as n,
      exactly on the 64-bit range. */
  lemma UnboundedDomain(n: int)
    ensures UnboundedEncode(n) == V.Encode(n) <==> -TWO63 <= n < TWO63
    ensures V.ReadVarint(V.Unbounded, UnboundedEncode(n)) == V.Value(n, |UnboundedEncode(n)|)
            <==> -TWO63 <= n < TWO63
  {
    ZigIntMeans(n);
    V.GroupsShape(ZigInt(n));
    V.GroupsShape(V.ZigZag(n));
    V.ZigZagBijection(n, ZigInt(n));
    hide V.Groups, V.Low, V.ReadVarint, ZigInt, V.ZigZag, V.UnZigZag;
    var e := UnboundedEncode(n);
    V.ReadsWhole(V.Unbounded, e, []);
    assert e + [] == e;
  }
}
