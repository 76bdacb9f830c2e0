/** Records: arrays written as counted blocks (Apache Avro 1.11 specification, "Complex Types",
    "Arrays") and the sums the programs read out of them. */
module Blocks {
  import opened Bits
  import V = Varint

  /** A block is written with its count, or with its negated count and a byte size that every
      decoder here skips unread, so that any varint may stand there. */
  datatype Block = Plain(items: seq<i64>) | Sized(items: seq<i64>, size: seq<byte>)

  predicate IsVarint(e: seq<byte>) {
    V.Terminated(e) && V.GroupLen(e) == |e| <= 10
  }

  /** Blocks are not empty, as a zero count ends the array, and counts are 64-bit words. */
  predicate WellFormed(blocks: seq<Block>) {
    forall b <- blocks :: 0 < |b.items| < TWO63 && (b.Sized? ==> IsVarint(b.size))
  }

  function Count(b: Block): int {
    if b.Plain? then |b.items| else -|b.items|
  }

  function SizeField(b: Block): seq<byte> {
    if b.Sized? then b.size else []
  }

  function Header(b: Block): seq<byte> {
    V.Encode(Count(b)) + SizeField(b)
  }

  function EncodeBlocks(blocks: seq<Block>): seq<byte> {
    if blocks == [] then V.Encode(0)
    else Header(blocks[0]) + V.EncodeAll(blocks[0].items) + EncodeBlocks(blocks[1..])
  }

  function Items(blocks: seq<Block>): seq<i64> {
    if blocks == [] then [] else blocks[0].items + Items(blocks[1..])
  }

  function Sum(xs: seq<int>): int {
    if xs == [] then 0 else xs[0] + Sum(xs[1..])
  }

  // ----- decoding -----

  /** `Done` carries the sum and the unread rest of the input.  `Unspecified` collects the inputs
      on which a program has no outcome: in C numbers of more than ten bytes and counts that overflow
      the int index, both undefined; in Java and Scala counts that overflow the int index, so that the
      loop never ends; and in StreamSumApp input that ends early, where reading never ends. */
  datatype Decoded = Done(total: int, rest: seq<byte>) | Panicked | Unspecified

  function Wrap(d: V.Dialect, x: int): int {
    if d.Unbounded? then x else AsI64(x)
  }

  /** How many items a count announces.  krafka's `0..count` is empty for negative counts; the others
      take `abs`, which in the word languages stays negative for i64::MIN: an empty loop again. */
  function Announced(d: V.Dialect, count: int): nat {
    if d.Krafka? && count < 0 then 0
    else if !d.Unbounded? && count == -TWO63 then 0
    else if count < 0 then -count else count
  }

  /** C and the JVM programs count items in a 32-bit int. */
  predicate CountsInInt(d: V.Dialect) {
    d.Bounded? || d.ZeroAtEnd? || d.Endless?
  }

  predicate IndexFits(d: V.Dialect, count: int) {
    || !CountsInInt(d)
    || -0x8000_0000 < count < 0x8000_0000
    || (!d.Bounded? && count == -TWO63)
  }

  function ReadItems(d: V.Dialect, bs: seq<byte>, n: nat, acc: int): Decoded {
    if n == 0 then Done(acc, bs)
    else match V.ReadVarint(d, bs)
      case Value(v, used) => ReadItems(d, bs[used..], n - 1, Wrap(d, acc + v))
      case Panic => Panicked
      case Outside => Unspecified
  }

  /** Everything between two counts: the skipped byte size, then the items. */
  function ReadBody(d: V.Dialect, bs: seq<byte>, count: int, acc: int): Decoded {
    if !IndexFits(d, count) then Unspecified
    else if count < 0 && !d.Krafka? then
      match V.ReadVarint(d, bs)
      case Value(_, used) => ReadItems(d, bs[used..], Announced(d, count), acc)
      case Panic => Panicked
      case Outside => Unspecified
    else ReadItems(d, bs, Announced(d, count), acc)
  }

  lemma {:induction false} ItemsConsume(d: V.Dialect, bs: seq<byte>, n: nat, acc: int)
    ensures var r := ReadItems(d, bs, n, acc); r.Done? ==> |r.rest| <= |bs|
    decreases n
  {
    hide V.ReadVarint;
    if n > 0 {
      var r := V.ReadVarint(d, bs);
      if r.Value? {
        ItemsConsume(d, bs[r.used..], n - 1, Wrap(d, acc + r.v));
      }
    }
  }

  lemma BodyConsumes(d: V.Dialect, bs: seq<byte>, count: int, acc: int)
    ensures var r := ReadBody(d, bs, count, acc); r.Done? ==> |r.rest| <= |bs|
  {
    var r := V.ReadVarint(d, bs);
    if r.Value? {
      ItemsConsume(d, bs[r.used..], Announced(d, count), acc);
    }
    ItemsConsume(d, bs, Announced(d, count), acc);
  }

  /** The decoding loop, from the point where a count is about to be read. */
  function Decode(d: V.Dialect, bs: seq<byte>, acc: int): Decoded
    decreases |bs|
  {
    match V.ReadVarint(d, bs)
    case Panic => Panicked
    case Outside => Unspecified
    case Value(count, used) => DecodeFrom(d, bs[used..], count, acc)
  }

  /** ... and from its loop head, with the count in hand. */
  function DecodeFrom(d: V.Dialect, bs: seq<byte>, count: int, acc: int): Decoded
    decreases |bs| + if count == 0 then 0 else 1, 0
  {
    if count == 0 then Done(acc, bs)
    else
      var body := ReadBody(d, bs, count, acc);
      if body.Done? then
        BodyConsumes(d, bs, count, acc);
        Decode(d, body.rest, body.total)
      else body
  }

  /** Every program but those in C and on the JVM has an outcome on all inputs. */
  lemma {:induction false} Specified(d: V.Dialect, bs: seq<byte>, acc: int)
    requires !d.Bounded? && !d.ZeroAtEnd? && !d.Endless?
    ensures !Decode(d, bs, acc).Unspecified?
    decreases |bs|
  {
    NeverOutside(d, bs);
    hide V.ReadVarint;
    var r := V.ReadVarint(d, bs);
    if r.Value? && r.v != 0 {
      var tail := bs[r.used..];
      BodySpecified(d, tail, r.v, acc);
      BodyConsumes(d, tail, r.v, acc);
      hide ReadBody;
      var body := ReadBody(d, tail, r.v, acc);
      if body.Done? {
        Specified(d, body.rest, body.total);
      }
    }
  }

  lemma NeverOutside(d: V.Dialect, bs: seq<byte>)
    ensures V.ReadVarint(d, bs).Outside? ==> d.Bounded? || d.Endless?
  {
  }

  lemma BodySpecified(d: V.Dialect, bs: seq<byte>, count: int, acc: int)
    requires !d.Bounded? && !d.ZeroAtEnd? && !d.Endless?
    ensures !ReadBody(d, bs, count, acc).Unspecified?
  {
    NeverOutside(d, bs);
    hide V.ReadVarint;
    var r := V.ReadVarint(d, bs);
    ItemsSpecified(d, bs, Announced(d, count), acc);
    if r.Value? {
      ItemsSpecified(d, bs[r.used..], Announced(d, count), acc);
    }
    hide ReadItems;
  }

  lemma {:induction false} ItemsSpecified(d: V.Dialect, bs: seq<byte>, n: nat, acc: int)
    requires !d.Bounded? && !d.Endless?
    ensures !ReadItems(d, bs, n, acc).Unspecified?
    decreases n
  {
    NeverOutside(d, bs);
    hide V.ReadVarint;
    var r := V.ReadVarint(d, bs);
    if n > 0 && r.Value? {
      ItemsSpecified(d, bs[r.used..], n - 1, Wrap(d, acc + r.v));
    }
  }

  // ----- well-formed records -----

  lemma WrapAdd(d: V.Dialect, a: int, b: int)
    ensures Wrap(d, Wrap(d, a) + b) == Wrap(d, a + b)
  {
  }

  lemma {:induction false} SumAppend(xs: seq<int>, ys: seq<int>)
    ensures Sum(xs + ys) == Sum(xs) + Sum(ys)
    decreases |xs|
  {
    if xs == [] {
      assert xs + ys == ys;
    } else {
      assert (xs + ys)[1..] == xs[1..] + ys;
      SumAppend(xs[1..], ys);
    }
  }

  /** Items read back, wrapping at each addition, give the wrapped sum. */
  lemma {:induction false} ItemsDecode(d: V.Dialect, items: seq<i64>, suffix: seq<byte>, acc: int)
    ensures ReadItems(d, V.EncodeAll(items) + suffix, |items|, Wrap(d, acc))
         == Done(Wrap(d, acc + Sum(items)), suffix)
    decreases |items|
  {
    hide V.ReadVarint, V.Encode;
    if items == [] {
      assert V.EncodeAll(items) + suffix == suffix;
    } else {
      var e, rest := V.Encode(items[0]), V.EncodeAll(items[1..]) + suffix;
      assert V.EncodeAll(items) + suffix == e + rest;
      V.RoundTrip(d, items[0], rest);
      WrapAdd(d, acc, items[0]);
      ItemsDecode(d, items[1..], suffix, acc + items[0]);
    }
  }

  lemma SkipSize(d: V.Dialect, size: seq<byte>, rest: seq<byte>)
    requires IsVarint(size)
    ensures var r := V.ReadVarint(d, size + rest); r.Value? && r.used == |size|
    ensures (size + rest)[|size|..] == rest
  {
    V.GroupLenAppend(size, rest);
  }

  /** krafka has no branch for negative counts; C and Java count items in an int. */
  predicate Handles(d: V.Dialect, b: Block) {
    (d.Krafka? ==> b.Plain?) && (CountsInInt(d) ==> |b.items| < 0x8000_0000)
  }

  /** The body of a block that the dialect handles, read after its count. */
  lemma BodyDecode(d: V.Dialect, b: Block, suffix: seq<byte>, acc: int)
    requires WellFormed([b]) && Handles(d, b)
    ensures ReadBody(d, SizeField(b) + (V.EncodeAll(b.items) + suffix), Count(b), Wrap(d, acc))
         == Done(Wrap(d, acc + Sum(b.items)), suffix)
  {
    hide V.ReadVarint, V.Encode;
    assert b in [b];
    var rest := V.EncodeAll(b.items) + suffix;
    ItemsDecode(d, b.items, suffix, acc);
    if b.Sized? {
      SkipSize(d, b.size, rest);
    } else {
      assert [] + rest == rest;
    }
  }

  lemma Layout(blocks: seq<Block>, suffix: seq<byte>)
    requires blocks != []
    ensures EncodeBlocks(blocks) + suffix
         == V.Encode(Count(blocks[0]))
            + (SizeField(blocks[0]) + (V.EncodeAll(blocks[0].items) + (EncodeBlocks(blocks[1..]) + suffix)))
  {
    var b := blocks[0];
    assert EncodeBlocks(blocks) == Header(b) + V.EncodeAll(b.items) + EncodeBlocks(blocks[1..]);
    hide V.Encode, V.EncodeAll, EncodeBlocks, SizeField, Count;
    Regroup(V.Encode(Count(b)), SizeField(b), V.EncodeAll(b.items), EncodeBlocks(blocks[1..]), suffix);
  }

  lemma Regroup<T>(a: seq<T>, b: seq<T>, c: seq<T>, d: seq<T>, e: seq<T>)
    ensures (((a + b) + c) + d) + e == a + (b + (c + (d + e)))
  {
  }

  /** One turn of the decoding loop, on an input that starts with an encoded count. */
  lemma DecodeTurn(d: V.Dialect, count: i64, bs: seq<byte>, acc: int)
    ensures Decode(d, V.Encode(count) + bs, acc) == DecodeFrom(d, bs, count, acc)
  {
    V.RoundTrip(d, count, bs);
    hide V.ReadVarint, V.Encode;
  }

  /** The theorem of the format: any list, cut into any blocks, plain or sized, decodes to its
      wrapped sum and leaves exactly what follows the terminator, in every program that handles the
      blocks: krafka if all counts are positive, C and Java if they fit an int, the others always. */
  lemma {:induction false} BlocksDecode(d: V.Dialect, blocks: seq<Block>, suffix: seq<byte>, acc: int)
    requires WellFormed(blocks)
    requires forall b <- blocks :: (d.Krafka? ==> b.Plain?) && (CountsInInt(d) ==> |b.items| < 0x8000_0000)
    ensures Decode(d, EncodeBlocks(blocks) + suffix, Wrap(d, acc))
         == Done(Wrap(d, acc + Sum(Items(blocks))), suffix)
    decreases |blocks|
  {
    hide *;
    if blocks == [] {
      EmptyDecode(d, suffix, acc);
    } else {
      var b, more := blocks[0], EncodeBlocks(blocks[1..]) + suffix;
      FirstAndRest(d, blocks);
      Layout(blocks, suffix);
      BlockDecode(d, b, more, acc);
      ItemsSum(blocks);
      BlocksDecode(d, blocks[1..], suffix, acc + Sum(b.items));
    }
  }

  lemma FirstAndRest(d: V.Dialect, blocks: seq<Block>)
    requires blocks != [] && WellFormed(blocks)
    requires forall b <- blocks :: (d.Krafka? ==> b.Plain?) && (CountsInInt(d) ==> |b.items| < 0x8000_0000)
    ensures WellFormed([blocks[0]]) && Handles(d, blocks[0]) && WellFormed(blocks[1..])
  {
  }

  lemma BlockDecode(d: V.Dialect, b: Block, more: seq<byte>, acc: int)
    requires WellFormed([b]) && Handles(d, b)
    ensures Decode(d, V.Encode(Count(b)) + (SizeField(b) + (V.EncodeAll(b.items) + more)), Wrap(d, acc))
         == Decode(d, more, Wrap(d, acc + Sum(b.items)))
  {
    assert b in [b];
    assert -TWO63 < Count(b) < TWO63 && Count(b) != 0;
    hide *;
    var body := SizeField(b) + (V.EncodeAll(b.items) + more);
    DecodeTurn(d, Count(b), body, Wrap(d, acc));
    BodyTurn(d, body, Count(b), Wrap(d, acc));
    BodyDecode(d, b, more, acc);
  }

  lemma ItemsSum(blocks: seq<Block>)
    requires blocks != []
    ensures Sum(Items(blocks)) == Sum(blocks[0].items) + Sum(Items(blocks[1..]))
  {
    SumAppend(blocks[0].items, Items(blocks[1..]));
  }

  lemma EmptyDecode(d: V.Dialect, suffix: seq<byte>, acc: int)
    ensures Decode(d, EncodeBlocks([]) + suffix, Wrap(d, acc)) == Done(Wrap(d, acc + Sum(Items([]))), suffix)
  {
    hide V.ReadVarint, V.Encode, ReadBody;
    DecodeTurn(d, 0, suffix, Wrap(d, acc));
  }

  /** ... and as soon as one block has 2^31 items or more, a program with an int index has no outcome. */
  lemma {:induction false} BlocksLost(d: V.Dialect, blocks: seq<Block>, suffix: seq<byte>, acc: int)
    requires WellFormed(blocks) && CountsInInt(d) && exists b <- blocks :: |b.items| >= 0x8000_0000
    ensures Decode(d, EncodeBlocks(blocks) + suffix, Wrap(d, acc)).Unspecified?
    decreases |blocks|
  {
    hide V.ReadVarint, V.Encode, V.EncodeAll, ReadBody, Decode, DecodeFrom, EncodeBlocks, SizeField;
    var b, more := blocks[0], EncodeBlocks(blocks[1..]) + suffix;
    var body := SizeField(b) + (V.EncodeAll(b.items) + more);
    Layout(blocks, suffix);
    DecodeTurn(d, Count(b), body, Wrap(d, acc));
    BodyTurn(d, body, Count(b), Wrap(d, acc));
    if |b.items| < 0x8000_0000 {
      BodyDecode(d, b, more, acc);
      BlocksLost(d, blocks[1..], suffix, acc + Sum(b.items));
    } else {
      BodyLost(d, body, Count(b), Wrap(d, acc));
    }
  }

  lemma BodyTurn(d: V.Dialect, bs: seq<byte>, count: int, acc: int)
    requires count != 0
    ensures var body := ReadBody(d, bs, count, acc);
            DecodeFrom(d, bs, count, acc) == if body.Done? then Decode(d, body.rest, body.total) else body
  {
    hide ReadBody, Decode;
  }

  lemma BodyLost(d: V.Dialect, bs: seq<byte>, count: int, acc: int)
    requires CountsInInt(d) && (0x8000_0000 <= count < TWO63 || -TWO63 < count <= -0x8000_0000)
    ensures ReadBody(d, bs, count, acc).Unspecified?
  {
  }

  // ----- krafka and negative counts -----

  predicate OneByte(x: int) {
    -64 <= x < 64
  }

  ghost predicate OneByteItems(items: seq<int>) {
    forall x <- items :: OneByte(x)
  }

  lemma {:induction false} ItemBytes(items: seq<i64>)
    ensures |items| <= |V.EncodeAll(items)| <= 10 * |items|
    ensures |V.EncodeAll(items)| == |items| <==> OneByteItems(items)
    decreases |items|
  {
    if items != [] {
      V.EncodeLength(items[0]);
      assert |V.Encode(items[0])| == 1 <==> OneByte(items[0]);
      ItemBytes(items[1..]);
      assert items == [items[0]] + items[1..];
      hide V.Encode;
    }
  }

  /** A block whose byte size is the true one, as Avro requires. */
  function TrueSized(items: seq<i64>): Block {
    Sized(items, V.Encode(|V.EncodeAll(items)|))
  }

  ghost predicate TrueSize(b: Block) {
    b.Sized? ==> |V.EncodeAll(b.items)| < TWO63 && b == TrueSized(b.items)
  }

  ghost predicate TrueSizes(blocks: seq<Block>) {
    forall b <- blocks :: TrueSize(b)
  }

  /** Blocks that krafka reads right: a byte size in its true place equals the count it is mistaken
      for exactly if every item takes one byte. */
  ghost predicate Readable(b: Block) {
    WellFormed([b]) && TrueSize(b) && (b.Sized? ==> OneByteItems(b.items))
  }

  lemma IsVarintEncode(n: i64)
    ensures IsVarint(V.Encode(n))
  {
    V.GroupsShape(V.ZigZag(n));
    V.EncodeLength(n);
    V.GroupLenAppend(V.Encode(n), []);
    assert V.Encode(n) + [] == V.Encode(n);
  }

  lemma TrueSizedFits(items: seq<i64>)
    requires items != [] && |V.EncodeAll(items)| < TWO63
    ensures WellFormed([TrueSized(items)]) && TrueSize(TrueSized(items))
  {
    ItemBytes(items);
    IsVarintEncode(|V.EncodeAll(items)|);
  }

  function Continue(body: Decoded): Decoded {
    if body.Done? then Decode(V.Krafka, body.rest, body.total) else body
  }

  lemma KrafkaTurn(bs: seq<byte>, count: int, acc: int)
    ensures count < 0 ==> DecodeFrom(V.Krafka, bs, count, acc) == Decode(V.Krafka, bs, acc)
    ensures count > 0 ==> DecodeFrom(V.Krafka, bs, count, acc) == Continue(ReadItems(V.Krafka, bs, count, acc))
  {
    hide V.ReadVarint;
    if count < 0 {
      assert ReadItems(V.Krafka, bs, 0, acc) == Done(acc, bs);
    }
  }

  /** A negative count reads as an empty block, the byte size as the next count. */
  lemma KrafkaMistakesSize(count: i64, size: i64, bs: seq<byte>, acc: int)
    requires count < 0
    ensures Decode(V.Krafka, V.Encode(count) + (V.Encode(size) + bs), acc) == DecodeFrom(V.Krafka, bs, size, acc)
  {
    DecodeTurn(V.Krafka, count, V.Encode(size) + bs, acc);
    KrafkaTurn(V.Encode(size) + bs, count, acc);
    DecodeTurn(V.Krafka, size, bs, acc);
    hide *;
  }

  lemma {:induction false} ItemsSplit(d: V.Dialect, bs: seq<byte>, m: nat, n: nat, acc: int)
    requires ReadItems(d, bs, m, acc).Done?
    ensures var r := ReadItems(d, bs, m, acc);
            ReadItems(d, bs, m + n, acc) == ReadItems(d, r.rest, n, r.total)
    decreases m
  {
    hide V.ReadVarint;
    if m > 0 {
      var r := V.ReadVarint(d, bs);
      ItemsSplit(d, bs[r.used..], m - 1, n, Wrap(d, acc + r.v));
    }
  }

  lemma NoItems(bs: seq<byte>, acc: int)
    ensures ReadItems(V.Krafka, bs, 0, acc) == Done(acc, bs)
  {
  }

  lemma TrueSizedHeader(items: seq<i64>, bs: seq<byte>)
    ensures Header(TrueSized(items)) + bs == V.Encode(-|items|) + (V.Encode(|V.EncodeAll(items)|) + bs)
  {
    hide V.Encode, V.EncodeAll;
  }

  /** After a true-sized block the decoder still owes as many numbers as the size exceeds the count,
      and takes them from whatever follows. */
  lemma KrafkaOwes(items: seq<i64>, more: seq<byte>, acc: int)
    requires items != [] && |V.EncodeAll(items)| < TWO63
    ensures |V.EncodeAll(items)| >= |items|
    ensures Decode(V.Krafka, Header(TrueSized(items)) + (V.EncodeAll(items) + more), Wrap(V.Krafka, acc))
         == Continue(ReadItems(V.Krafka, more, |V.EncodeAll(items)| - |items|, Wrap(V.Krafka, acc + Sum(items))))
  {
    hide V.ReadVarint, V.Encode, V.EncodeAll, DecodeFrom, Decode, ReadItems, Sum, Wrap, Header, TrueSized;
    var bs, n, size := V.EncodeAll(items) + more, |items|, |V.EncodeAll(items)|;
    ItemBytes(items);
    TrueSizedHeader(items, bs);
    KrafkaMistakesSize(-n, size, bs, Wrap(V.Krafka, acc));
    KrafkaTurn(bs, size, Wrap(V.Krafka, acc));
    ItemsDecode(V.Krafka, items, more, acc);
    ItemsSplit(V.Krafka, bs, n, size - n, Wrap(V.Krafka, acc));
  }

  lemma KrafkaBlock(b: Block, more: seq<byte>, acc: int)
    requires Readable(b)
    ensures Decode(V.Krafka, Header(b) + (V.EncodeAll(b.items) + more), Wrap(V.Krafka, acc))
         == Decode(V.Krafka, more, Wrap(V.Krafka, acc + Sum(b.items)))
  {
    hide V.ReadVarint, V.Encode, V.EncodeAll, Decode, ReadItems, Sum, Wrap;
    assert b in [b];
    var body := V.EncodeAll(b.items) + more;
    if b.Sized? {
      ItemBytes(b.items);
      KrafkaOwes(b.items, more, acc);
      NoItems(more, Wrap(V.Krafka, acc + Sum(b.items)));
    } else {
      assert Header(b) + body == V.Encode(|b.items|) + body;
      DecodeTurn(V.Krafka, |b.items|, body, Wrap(V.Krafka, acc));
      KrafkaTurn(body, |b.items|, Wrap(V.Krafka, acc));
      ItemsDecode(V.Krafka, b.items, more, acc);
    }
  }

  lemma LayoutBlocks(b: Block, blocks: seq<Block>, suffix: seq<byte>)
    ensures EncodeBlocks([b] + blocks) + suffix == Header(b) + (V.EncodeAll(b.items) + (EncodeBlocks(blocks) + suffix))
  {
    assert ([b] + blocks)[1..] == blocks;
    hide V.Encode, V.EncodeAll, Header;
  }

  /** Over readable blocks the krafka decoder gets to whatever follows them with their sum. */
  lemma {:induction false} KrafkaGetsTo(blocks: seq<Block>, more: seq<Block>, suffix: seq<byte>, acc: int)
    requires forall b <- blocks :: Readable(b)
    ensures Decode(V.Krafka, EncodeBlocks(blocks + more) + suffix, Wrap(V.Krafka, acc))
         == Decode(V.Krafka, EncodeBlocks(more) + suffix, Wrap(V.Krafka, acc + Sum(Items(blocks))))
    decreases |blocks|
  {
    hide V.ReadVarint, V.Encode, V.EncodeAll, Decode, Readable, EncodeBlocks, Header, Wrap;
    if blocks == [] {
      assert blocks + more == more;
    } else {
      var b, tail := blocks[0], blocks[1..];
      assert blocks + more == [b] + (tail + more);
      LayoutBlocks(b, tail + more, suffix);
      KrafkaBlock(b, EncodeBlocks(tail + more) + suffix, acc);
      SumAppend(b.items, Items(tail));
      KrafkaGetsTo(tail, more, suffix, acc + Sum(b.items));
    }
  }

  /** What a decoder owes a record. */
  ghost predicate DecodesRight(d: V.Dialect, blocks: seq<Block>, suffix: seq<byte>) {
    Decode(d, EncodeBlocks(blocks) + suffix, 0) == Done(Wrap(d, Sum(Items(blocks))), suffix)
  }

  /** krafka decodes right any record whose blocks have positive counts, or negative counts with
      their true byte sizes and one-byte items. */
  lemma KrafkaReadable(blocks: seq<Block>, suffix: seq<byte>)
    requires forall b <- blocks :: Readable(b)
    ensures DecodesRight(V.Krafka, blocks, suffix)
  {
    hide V.Encode, V.ReadVarint, Decode, Readable, EncodeBlocks;
    KrafkaGetsTo(blocks, [], suffix, 0);
    assert blocks + [] == blocks;
    BlocksDecode(V.Krafka, [], suffix, Sum(Items(blocks)));
  }

  lemma ZeroByte()
    ensures V.Encode(0) == [0]
  {
  }

  lemma NothingLeft(n: nat, acc: int)
    ensures ReadItems(V.Krafka, [0], n + 1, acc) == if n == 0 then Done(Wrap(V.Krafka, acc), []) else Panicked
    ensures Decode(V.Krafka, [0], acc) == Done(acc, [])
    ensures Decode(V.Krafka, [], acc) == Panicked
  {
    assert V.ReadVarint(V.Krafka, [0]) == V.Value(0, 1) by {
      V.RoundTrip(V.Krafka, 0, []);
      ZeroByte();
      assert [0] + [] == [0];
    }
    assert V.ReadVarint(V.Krafka, []) == V.Panic;
    hide V.ReadVarint;
  }

  /** krafka reads a record of readable blocks and a last true-sized one right if and only if all of
      that block's items take one byte; otherwise it runs off the end of the record and panics. */
  lemma KrafkaLastSized(blocks: seq<Block>, items: seq<i64>)
    requires forall b <- blocks :: Readable(b)
    requires items != [] && |V.EncodeAll(items)| < TWO63
    ensures Decode(V.Krafka, EncodeBlocks(blocks + [TrueSized(items)]), 0)
         == if OneByteItems(items) then Done(AsI64(Sum(Items(blocks)) + Sum(items)), []) else Panicked
  {
    hide V.ReadVarint, V.Encode, V.EncodeAll, Decode, Readable, EncodeBlocks, ReadItems;
    var last, acc := TrueSized(items), Sum(Items(blocks));
    var extra: int := |V.EncodeAll(items)| - |items|;
    KrafkaGetsTo(blocks, [last], [], 0);
    assert EncodeBlocks(blocks + [last]) + [] == EncodeBlocks(blocks + [last]);
    LayoutBlocks(last, [], []);
    assert [last] + [] == [last];
    assert EncodeBlocks([]) + [] == [0] by { NoBlocks(); }
    KrafkaOwes(items, [0], acc);
    ItemBytes(items);
    var total := Wrap(V.Krafka, acc + Sum(items));
    NoItems([0], total);
    NothingLeft(if extra > 0 then extra - 1 else 0, total);
    NothingLeft(0, Wrap(V.Krafka, total));
  }

  lemma NoBlocks()
    ensures EncodeBlocks([]) == [0]
  {
  }

  // ----- records of a given shape -----

  function Shape(blocks: seq<Block>): seq<int> {
    seq(|blocks|, i requires 0 <= i < |blocks| => Count(blocks[i]))
  }

  predicate IsShape(counts: seq<int>) {
    forall i | 0 <= i < |counts| :: counts[i] != 0 && -TWO63 < counts[i] < TWO63
  }

  function Zeros(n: nat): seq<i64> {
    seq(n, _ => 0)
  }

  function ZeroBlock(count: int): Block
    requires count != 0
  {
    if count > 0 then Plain(Zeros(count)) else TrueSized(Zeros(-count))
  }

  function ZeroBlocks(counts: seq<int>): seq<Block>
    requires IsShape(counts)
  {
    seq(|counts|, i requires 0 <= i < |counts| => ZeroBlock(counts[i]))
  }

  /** A record of zeros of a given shape, but for block j. */
  function Sample(counts: seq<int>, j: nat, b: Block): seq<Block>
    requires IsShape(counts) && j < |counts|
  {
    ZeroBlocks(counts[..j]) + ([b] + ZeroBlocks(counts[j + 1..]))
  }

  lemma {:induction false} ZerosSum(n: nat)
    ensures Sum(Zeros(n)) == 0
  {
    if n > 0 {
      assert Zeros(n)[1..] == Zeros(n - 1);
      ZerosSum(n - 1);
    }
  }

  lemma ZeroBlockReadable(count: int)
    requires count != 0 && -TWO63 < count < TWO63
    ensures Readable(ZeroBlock(count)) && Count(ZeroBlock(count)) == count && Sum(ZeroBlock(count).items) == 0
  {
    hide V.Encode, V.EncodeAll, Sum;
    var zeros := Zeros(if count > 0 then count else -count);
    ZerosSum(|zeros|);
    if count < 0 {
      ItemBytes(zeros);
      TrueSizedFits(zeros);
    } else {
      assert WellFormed([Plain(zeros)]);
    }
  }

  lemma {:induction false} ZeroBlocksSum(counts: seq<int>)
    requires IsShape(counts)
    ensures Sum(Items(ZeroBlocks(counts))) == 0
    ensures forall b <- ZeroBlocks(counts) :: Readable(b)
    decreases |counts|
  {
    hide Readable;
    forall b <- ZeroBlocks(counts) ensures Readable(b) {
      var i :| 0 <= i < |counts| && b == ZeroBlock(counts[i]);
      ZeroBlockReadable(counts[i]);
    }
    if counts != [] {
      ZeroBlockReadable(counts[0]);
      ZeroBlocksSum(counts[1..]);
      assert ZeroBlocks(counts)[1..] == ZeroBlocks(counts[1..]);
      hide ZeroBlock;
      SumAppend(ZeroBlock(counts[0]).items, Items(ZeroBlocks(counts[1..])));
    }
  }

  lemma {:induction false} ItemsAppend(xs: seq<Block>, ys: seq<Block>)
    ensures Sum(Items(xs + ys)) == Sum(Items(xs)) + Sum(Items(ys))
    decreases |xs|
  {
    if xs == [] {
      assert xs + ys == ys;
    } else {
      assert (xs + ys)[1..] == xs[1..] + ys;
      ItemsAppend(xs[1..], ys);
      SumAppend(xs[0].items, Items(xs[1..] + ys));
      SumAppend(xs[0].items, Items(xs[1..]));
    }
  }

  lemma SampleFits(counts: seq<int>, j: nat, b: Block)
    requires IsShape(counts) && j < |counts| && WellFormed([b]) && Count(b) == counts[j]
    ensures WellFormed(Sample(counts, j, b)) && Shape(Sample(counts, j, b)) == counts
    ensures TrueSize(b) ==> TrueSizes(Sample(counts, j, b))
    ensures Sum(Items(Sample(counts, j, b))) == Sum(b.items)
  {
    hide V.Encode, V.EncodeAll, Sum, IsVarint;
    var pre, post := counts[..j], counts[j + 1..];
    ZeroBlocksSum(pre);
    ZeroBlocksSum(post);
    ItemsAppend(ZeroBlocks(pre), [b] + ZeroBlocks(post));
    ItemsAppend([b], ZeroBlocks(post));
    SingleSum(b);
    forall x <- Sample(counts, j, b) ensures WellFormed([x]) && (TrueSize(b) ==> TrueSize(x)) {
      assert x in ZeroBlocks(pre) || x == b || x in ZeroBlocks(post);
    }
    WellFormedAll(Sample(counts, j, b));
    forall i | 0 <= i < |counts| ensures Count(Sample(counts, j, b)[i]) == counts[i] {
      ZeroBlockReadable(counts[i]);
    }
  }

  lemma SingleSum(b: Block)
    ensures Sum(Items([b])) == Sum(b.items)
  {
    assert Items([b][1..]) == [] && b.items + [] == b.items;
  }

  lemma WellFormedAll(blocks: seq<Block>)
    requires forall b <- blocks :: WellFormed([b])
    ensures WellFormed(blocks)
  {
    forall b <- blocks ensures 0 < |b.items| < TWO63 && (b.Sized? ==> IsVarint(b.size)) {
      assert b in [b];
    }
  }

  lemma SampleDecodes(counts: seq<int>, j: nat, b: Block)
    requires IsShape(counts) && j < |counts|
    ensures Decode(V.Krafka, EncodeBlocks(Sample(counts, j, b)) + [], 0)
         == Decode(V.Krafka, Header(b) + (V.EncodeAll(b.items) + EncodeBlocks(ZeroBlocks(counts[j + 1..]))), 0)
  {
    hide V.Encode, V.EncodeAll, Decode, EncodeBlocks, Readable, Header;
    var post := ZeroBlocks(counts[j + 1..]);
    ZeroBlocksSum(counts[..j]);
    KrafkaGetsTo(ZeroBlocks(counts[..j]), [b] + post, [], 0);
    LayoutBlocks(b, post, []);
    assert EncodeBlocks(post) + [] == EncodeBlocks(post);
  }

  // ----- any byte sizes -----

  lemma AllPlain(blocks: seq<Block>)
    requires forall i | 0 <= i < |blocks| :: Shape(blocks)[i] > 0
    ensures forall b <- blocks :: Handles(V.Krafka, b)
  {
    forall b <- blocks ensures Handles(V.Krafka, b) {
      var i :| 0 <= i < |blocks| && blocks[i] == b;
      assert Shape(blocks)[i] > 0;
    }
  }

  /** A byte size of 0 ends the record early. */
  lemma KrafkaOnZeroSize(count: i64, more: seq<byte>)
    requires count < 0
    ensures Decode(V.Krafka, V.Encode(count) + ([0] + more), 0) == Done(0, more)
  {
    ZeroByte();
    KrafkaMistakesSize(count, 0, more, 0);
    hide V.Encode, Decode;
  }

  lemma ZeroSizeFails(counts: seq<int>, j: nat) returns (blocks: seq<Block>)
    requires IsShape(counts) && j < |counts| && counts[j] < 0
    ensures WellFormed(blocks) && Shape(blocks) == counts && !DecodesRight(V.Krafka, blocks, [])
  {
    hide V.Encode, V.EncodeAll, Decode, EncodeBlocks, V.ReadVarint, Sample, Shape, WellFormed, ZeroBlocks, Items;
    hide TrueSize;
    var b := ZeroSized(-counts[j]);
    blocks := Sample(counts, j, b);
    SampleFits(counts, j, b);
    SampleDecodes(counts, j, b);
    var more := V.EncodeAll(b.items) + EncodeBlocks(ZeroBlocks(counts[j + 1..]));
    assert Header(b) + more == V.Encode(counts[j]) + ([0] + more);
    KrafkaOnZeroSize(counts[j], more);
  }

  lemma ZeroSized(n: nat) returns (b: Block)
    requires 0 < n < TWO63
    ensures WellFormed([b]) && b.Sized? && b.size == [0] && |b.items| == n && Sum(b.items) == 1
  {
    b := Sized([1] + Zeros(n - 1), [0]);
    assert V.GroupLen([0]) == 1;
    ZerosSum(n - 1);
    assert b.items[1..] == Zeros(n - 1);
  }

  /** krafka, which has no branch for negative counts, decodes the records of a given shape right,
      whatever their items, byte sizes and surroundings, if and only if all counts are positive. */
  lemma KrafkaShapes(counts: seq<int>)
    requires IsShape(counts)
    ensures (forall i | 0 <= i < |counts| :: counts[i] > 0)
       <==> (forall blocks, suffix | WellFormed(blocks) && Shape(blocks) == counts ::
               DecodesRight(V.Krafka, blocks, suffix))
  {
    hide EncodeBlocks, Decode, DecodesRight;
    if forall i | 0 <= i < |counts| :: counts[i] > 0 {
      forall blocks, suffix | WellFormed(blocks) && Shape(blocks) == counts
        ensures DecodesRight(V.Krafka, blocks, suffix)
      {
        PlainRight(blocks, suffix);
      }
    } else {
      var j :| 0 <= j < |counts| && counts[j] <= 0;
      var blocks := ZeroSizeFails(counts, j);
    }
  }

  lemma PlainRight(blocks: seq<Block>, suffix: seq<byte>)
    requires WellFormed(blocks) && forall i | 0 <= i < |blocks| :: Shape(blocks)[i] > 0
    ensures DecodesRight(V.Krafka, blocks, suffix)
  {
    hide EncodeBlocks, Decode;
    AllPlain(blocks);
    BlocksDecode(V.Krafka, blocks, suffix, 0);
  }

  // ----- true byte sizes -----

  /** The largest count has a byte size in 64 bits only if all its items take one byte. */
  const FULL: int := 1 - TWO63

  /** A block with one item of two bytes: the decoder owes one number to what follows. */
  lemma TwoByteBlock(n: nat) returns (items: seq<i64>)
    requires 0 < n < TWO63 - 1
    ensures |items| == n && |V.EncodeAll(items)| == n + 1 && Sum(items) == 64
  {
    items := [64] + Zeros(n - 1);
    assert items[1..] == Zeros(n - 1);
    ZerosSum(n - 1);
    ItemBytes(Zeros(n - 1));
    assert |V.Encode(64)| == 2 by { assert V.Groups(128) == [128] + V.Groups(1); }
  }

  /** Owing one number to zero blocks, the decoder does not get to the end of them with their sum. */
  lemma OwesOne(counts: seq<int>)
    requires IsShape(counts)
    ensures Continue(ReadItems(V.Krafka, EncodeBlocks(ZeroBlocks(counts)), 1, 64)) != Done(64, [])
  {
    hide V.ReadVarint, V.Encode, V.EncodeAll, Decode, ReadItems, EncodeBlocks, Header;
    if counts == [] {
      NoBlocks();
      NothingLeft(0, 64);
    } else {
      var b, post := ZeroBlock(counts[0]), ZeroBlocks(counts[1..]);
      assert ZeroBlocks(counts) == [b] + post;
      ZeroBlockReadable(counts[0]);
      ZeroBlocksSum(counts[1..]);
      LayoutBlocks(b, post, []);
      assert EncodeBlocks(post) + [] == EncodeBlocks(post) && EncodeBlocks([b] + post) + [] == EncodeBlocks([b] + post);
      if counts[0] > 0 {
        OwesPlain(counts[0], EncodeBlocks(post));
      } else {
        OwesSized(-counts[0], post);
      }
    }
  }

  /** One number read in front of the rest. */
  lemma ReadOne(n: i64, more: seq<byte>, acc: int)
    ensures ReadItems(V.Krafka, V.Encode(n) + more, 1, acc) == Done(Wrap(V.Krafka, acc + n), more)
  {
    V.RoundTrip(V.Krafka, n, more);
    hide V.ReadVarint, V.Encode;
    NoItems(more, Wrap(V.Krafka, acc + n));
  }

  /** The first zero item ends the record early. */
  lemma OwesPlain(count: int, more: seq<byte>)
    requires 0 < count < TWO63
    ensures var b := ZeroBlock(count);
            Continue(ReadItems(V.Krafka, Header(b) + (V.EncodeAll(b.items) + more), 1, 64)) != Done(64, [])
  {
    hide V.ReadVarint, V.Encode, Decode, ReadItems;
    var zeros := Zeros(count);
    var bs, rest := V.EncodeAll(zeros) + more, V.EncodeAll(zeros[1..]) + more;
    assert bs == V.Encode(0) + rest;
    hide V.EncodeAll;
    assert Header(ZeroBlock(count)) + bs == V.Encode(count) + bs;
    ReadOne(count, bs, 64);
    DecodeTurn(V.Krafka, 0, rest, AsI64(64 + count));
    hide Header;
    NotSixtyFour(count);
  }

  lemma NotSixtyFour(count: int)
    requires count != 0 && -TWO63 < count < TWO63
    ensures AsI64(64 + count) != 64
  {
  }

  /** A byte size of n before n zeros is as good as a count. */
  lemma SizeAsCount(n: int, post: seq<Block>, acc: int)
    requires 0 < n < TWO63 && (forall b <- post :: Readable(b)) && Sum(Items(post)) == 0
    ensures Decode(V.Krafka, V.Encode(n) + (V.EncodeAll(Zeros(n)) + EncodeBlocks(post)), Wrap(V.Krafka, acc))
         == Done(Wrap(V.Krafka, acc), [])
  {
    hide V.ReadVarint, V.Encode, V.EncodeAll, Decode, EncodeBlocks, Readable, Sum, Items, Wrap;
    var plain := ZeroBlock(n);
    ZeroBlockReadable(n);
    LayoutBlocks(plain, post, []);
    assert Header(plain) == V.Encode(n) + [] == V.Encode(n);
    assert EncodeBlocks(post) + [] == EncodeBlocks(post);
    KrafkaGetsTo([plain] + post, [], [], acc);
    assert ([plain] + post) + [] == [plain] + post;
    BlocksDecode(V.Krafka, [], [], acc);
    ItemsAppend([plain], post);
    SingleSum(plain);
    hide Header;
    NoItemsSum();
  }

  lemma NoItemsSum()
    ensures Sum(Items([])) == 0
  {
  }

  /** The count goes into the sum, and the byte size is a count again. */
  lemma OwesSized(n: int, post: seq<Block>)
    requires 0 < n < TWO63 && (forall b <- post :: Readable(b)) && Sum(Items(post)) == 0
    ensures var b := ZeroBlock(-n);
            Continue(ReadItems(V.Krafka, Header(b) + (V.EncodeAll(b.items) + EncodeBlocks(post)), 1, 64))
            != Done(64, [])
  {
    hide V.ReadVarint, V.Encode, V.EncodeAll, Decode, ReadItems, EncodeBlocks, Readable, Sum, Items;
    var zeros := Zeros(n);
    ZerosBytes(n);
    var more := V.EncodeAll(zeros) + EncodeBlocks(post);
    TrueSizedHeader(zeros, more);
    ReadOne(-n, V.Encode(n) + more, 64);
    SizeAsCount(n, post, 64 - n);
    NotSixtyFour(-n);
  }

  lemma ZerosBytes(n: nat)
    ensures |Zeros(n)| == n && |V.EncodeAll(Zeros(n))| == n
  {
    ItemBytes(Zeros(n));
    hide V.EncodeAll;
  }

  lemma TwoBytesFail(counts: seq<int>, j: nat) returns (blocks: seq<Block>)
    requires IsShape(counts) && j < |counts| && FULL < counts[j] < 0
    ensures WellFormed(blocks) && Shape(blocks) == counts && TrueSizes(blocks)
    ensures !DecodesRight(V.Krafka, blocks, [])
  {
    hide V.Encode, V.EncodeAll, Decode, EncodeBlocks, V.ReadVarint, Header, ReadItems, Sample, Shape, WellFormed;
    hide TrueSize, Sum, Items, ZeroBlocks, Continue;
    var items := TwoByteBlock(-counts[j]);
    var b, post := TrueSized(items), counts[j + 1..];
    assert Count(b) == counts[j] && IsShape(post);
    TrueSizedFits(items);
    blocks := Sample(counts, j, b);
    SampleFits(counts, j, b);
    SampleDecodes(counts, j, b);
    hide TrueSized, IsShape;
    KrafkaOwes(items, EncodeBlocks(ZeroBlocks(post)), 0);
    OwesOne(post);
  }

  lemma FullIsReadable(b: Block)
    requires WellFormed([b]) && TrueSize(b) && (Count(b) > 0 || Count(b) == FULL)
    ensures Readable(b)
  {
    assert b in [b];
    ItemBytes(b.items);
  }

  /** Among the records with true byte sizes, too, krafka decodes all of a shape right if and only if
      their counts are positive, or leave no room for an item of two bytes. */
  lemma KrafkaTrueShapes(counts: seq<int>)
    requires IsShape(counts)
    ensures (forall i | 0 <= i < |counts| :: counts[i] > 0 || counts[i] == FULL)
       <==> (forall blocks, suffix | WellFormed(blocks) && Shape(blocks) == counts && TrueSizes(blocks) ::
               DecodesRight(V.Krafka, blocks, suffix))
  {
    hide EncodeBlocks, Decode, DecodesRight, TrueSize;
    if forall i | 0 <= i < |counts| :: counts[i] > 0 || counts[i] == FULL {
      forall blocks, suffix | WellFormed(blocks) && Shape(blocks) == counts && TrueSizes(blocks)
        ensures DecodesRight(V.Krafka, blocks, suffix)
      {
        forall b <- blocks ensures Readable(b) {
          var i :| 0 <= i < |blocks| && blocks[i] == b;
          assert Shape(blocks)[i] == Count(b);
          FullIsReadable(b);
        }
        KrafkaReadable(blocks, suffix);
      }
    } else {
      var j :| 0 <= j < |counts| && counts[j] <= 0 && counts[j] != FULL;
      var blocks := TwoBytesFail(counts, j);
    }
  }

  /** For single records with more than one block no such rule holds: a misread size may swallow
      the next block whole, count and size included, which cancel in the sum. */
  lemma KrafkaResyncs(items: seq<i64>, more: seq<i64>, suffix: seq<byte>)
    requires items != [] && more != [] && OneByteItems(more)
    requires |V.EncodeAll(items)| == |items| + |more| + 2 < TWO63
    ensures DecodesRight(V.Krafka, [TrueSized(items), TrueSized(more)], suffix)
  {
    hide V.ReadVarint, V.Encode, V.EncodeAll, Decode, ReadItems, EncodeBlocks, Header;
    var a, b, m: int := TrueSized(items), TrueSized(more), |more|;
    ItemBytes(more);
    var tail := EncodeBlocks([]) + suffix;
    LayoutBlocks(a, [b], suffix);
    LayoutBlocks(b, [], suffix);
    assert [a] + [b] == [a, b] && [b] + [] == [b];
    KrafkaOwes(items, Header(b) + (V.EncodeAll(more) + tail), 0);
    var all: seq<i64> := [-m, m] + more;
    SwallowedBytes(more, tail);
    ItemsDecode(V.Krafka, all, tail, Sum(items));
    assert all[1..][1..] == more;
    BlocksDecode(V.Krafka, [], suffix, Sum(items) + Sum(more));
    ItemsAppend([a], [b]);
    SingleSum(a);
    SingleSum(b);
  }

  lemma SwallowedBytes(more: seq<i64>, tail: seq<byte>)
    requires |V.EncodeAll(more)| == |more|
    ensures Header(TrueSized(more)) + (V.EncodeAll(more) + tail) == V.EncodeAll([-|more|, |more|] + more) + tail
  {
    hide V.Encode, V.EncodeAll, Header, TrueSized;
    TrueSizedHeader(more, V.EncodeAll(more) + tail);
    assert [-|more|, |more|] + more == [-|more|] + ([|more|] + more);
    EncodeAllCons(-|more|, [|more|] + more);
    EncodeAllCons(|more|, more);
    Regroup(V.Encode(-|more|), V.Encode(|more|), V.EncodeAll(more), tail, []);
  }

  lemma EncodeAllCons(x: int, xs: seq<int>)
    ensures V.EncodeAll([x] + xs) == V.Encode(x) + V.EncodeAll(xs)
  {
    assert ([x] + xs)[1..] == xs;
    hide V.Encode;
  }

  // ----- C: input that ends early -----

  function Pad(k: nat): seq<byte> {
    seq(k, _ => 0)
  }

  lemma PadSplit(bs: seq<byte>, k: nat, used: nat)
    requires used <= |bs| + k
    ensures used <= |bs| ==> (bs + Pad(k))[used..] == bs[used..] + Pad(k)
    ensures used > |bs| ==> (bs + Pad(k))[used..] == Pad(|bs| + k - used)
  {
  }

  function Missing(bs: seq<byte>): nat {
    if V.Terminated(bs) then 0 else 1
  }

  /** The decoders without a rule for the end of the input that C is compared with. */
  predicate Plainly(d: V.Dialect) {
    d.Checked? || d.Go?
  }

  /** The C reader at an early end returns what the plain readers find if zero bytes follow. */
  lemma ReadPadded(d: V.Dialect, bs: seq<byte>, k: nat)
    requires V.ReadVarint(V.Bounded, bs).Value? && Plainly(d) && k >= Missing(bs)
    ensures var r := V.ReadVarint(V.Bounded, bs);
            V.ReadVarint(d, bs + Pad(k)) == V.Value(r.v, r.used + Missing(bs))
    ensures V.ReadVarint(V.Bounded, bs).used + Missing(bs) <= |bs| + k
    ensures !V.Terminated(bs) ==> V.ReadVarint(V.Bounded, bs).used == |bs|
  {
    if V.Terminated(bs) {
      FollowedBy(bs, Pad(k));
      V.WordShort(d, bs[..V.GroupLen(bs)]);
    } else {
      CutOffBy(bs, k);
      V.WordThenZero(d, bs);
      V.WordShort(d, bs);
    }
    hide V.GroupLen, V.Low, V.UnZigZag, V.Masked;
  }

  lemma FollowedBy(bs: seq<byte>, more: seq<byte>)
    requires V.Terminated(bs)
    ensures V.Terminated(bs + more) && V.GroupLen(bs + more) == V.GroupLen(bs)
    ensures (bs + more)[..V.GroupLen(bs)] == bs[..V.GroupLen(bs)]
  {
    var g := V.GroupLen(bs);
    assert bs + more == bs[..g] + (bs[g..] + more);
    V.GroupLenAppend(bs[..g], bs[g..] + more);
  }

  lemma CutOffBy(bs: seq<byte>, k: nat)
    requires !V.Terminated(bs) && k > 0
    ensures V.GroupLen(bs) == |bs| && bs[..|bs|] == bs
    ensures V.Terminated(bs + Pad(k)) && V.GroupLen(bs + Pad(k)) == |bs| + 1
    ensures (bs + Pad(k))[..|bs| + 1] == bs + [0]
  {
    NeverTerminated(bs);
    PadCons(bs, k);
    V.GroupLenAppend(bs + [0], Pad(k - 1));
    hide *;
  }

  lemma NeverTerminated(bs: seq<byte>)
    requires !V.Terminated(bs)
    ensures V.GroupLen(bs) == |bs| && bs[..|bs|] == bs && forall i | 0 <= i < |bs| :: bs[i] >= 128
  {
  }

  lemma PadCons(bs: seq<byte>, k: nat)
    requires k > 0
    ensures bs + Pad(k) == (bs + [0]) + Pad(k - 1)
    ensures (bs + Pad(k))[..|bs| + 1] == bs + [0]
  {
  }

  /** ... and leaves the same rest, with the remaining zero bytes. */
  lemma ReadPaddedRest(d: V.Dialect, bs: seq<byte>, k: nat)
    requires V.ReadVarint(V.Bounded, bs).Value? && Plainly(d) && k >= Missing(bs)
    ensures var r, p := V.ReadVarint(V.Bounded, bs), V.ReadVarint(d, bs + Pad(k));
            p.Value? && p.v == r.v && (bs + Pad(k))[p.used..] == bs[r.used..] + Pad(k - Missing(bs))
  {
    hide V.ReadVarint;
    var r := V.ReadVarint(V.Bounded, bs);
    ReadPadded(d, bs, k);
    PadSplit(bs, k, r.used + Missing(bs));
    assert r.used == |bs| ==> bs[r.used..] + Pad(k - Missing(bs)) == Pad(k - Missing(bs));
  }

  /** The items of a block over input that ends early: some number c of zero bytes makes up for it,
      and more of them change nothing. */
  lemma {:induction false} ItemsPadded(d: V.Dialect, bs: seq<byte>, n: nat, acc: int) returns (c: nat)
    requires ReadItems(V.Bounded, bs, n, acc).Done? && Plainly(d)
    ensures var r := ReadItems(V.Bounded, bs, n, acc);
            forall k | k >= c :: ReadItems(d, bs + Pad(k), n, acc) == Done(r.total, r.rest + Pad(k - c))
    decreases n
  {
    hide V.ReadVarint, V.Terminated;
    if n == 0 {
      return 0;
    }
    var r := V.ReadVarint(V.Bounded, bs);
    var next, goal := AsI64(acc + r.v), ReadItems(V.Bounded, bs, n, acc);
    var c' := ItemsPadded(d, bs[r.used..], n - 1, next);
    c := Missing(bs) + c';
    forall k | k >= c ensures ReadItems(d, bs + Pad(k), n, acc) == Done(goal.total, goal.rest + Pad(k - c)) {
      ReadPaddedRest(d, bs, k);
      var k' := k - Missing(bs);
      assert ReadItems(d, bs[r.used..] + Pad(k'), n - 1, next) == Done(goal.total, goal.rest + Pad(k' - c'));
    }
  }

  lemma BodyPadded(d: V.Dialect, bs: seq<byte>, count: int, acc: int) returns (c: nat)
    requires ReadBody(V.Bounded, bs, count, acc).Done? && Plainly(d)
    ensures var r := ReadBody(V.Bounded, bs, count, acc);
            forall k | k >= c :: ReadBody(d, bs + Pad(k), count, acc) == Done(r.total, r.rest + Pad(k - c))
  {
    hide V.ReadVarint, V.Terminated, ReadItems;
    var n := Announced(V.Bounded, count);
    if count < 0 {
      var used := V.ReadVarint(V.Bounded, bs).used;
      var c' := ItemsPadded(d, bs[used..], n, acc);
      c := Missing(bs) + c';
      var r := ReadBody(V.Bounded, bs, count, acc);
      forall k | k >= c ensures ReadBody(d, bs + Pad(k), count, acc) == Done(r.total, r.rest + Pad(k - c)) {
        ReadPaddedRest(d, bs, k);
        var k' := k - Missing(bs);
        assert ReadItems(d, bs[used..] + Pad(k'), n, acc) == Done(r.total, r.rest + Pad(k' - c'));
      }
    } else {
      c := ItemsPadded(d, bs, n, acc);
    }
  }

  /** The C decoder, which never leaves its input, computes what the plain decoders (Rust on rdkafka
      and Go) compute on the same input followed by enough zero bytes, however many. */
  lemma {:induction false} DecodePadded(d: V.Dialect, bs: seq<byte>, acc: int) returns (c: nat)
    requires Decode(V.Bounded, bs, acc).Done? && Plainly(d)
    ensures var r := Decode(V.Bounded, bs, acc);
            forall k | k >= c :: Decode(d, bs + Pad(k), acc) == Done(r.total, r.rest + Pad(k - c))
    decreases |bs|
  {
    hide V.ReadVarint, V.Terminated, ReadBody;
    var first := V.ReadVarint(V.Bounded, bs);
    var count, tail, r := first.v, bs[first.used..], Decode(V.Bounded, bs, acc);
    if count == 0 {
      c := Missing(bs);
      forall k | k >= c ensures Decode(d, bs + Pad(k), acc) == Done(r.total, r.rest + Pad(k - c)) {
        ReadPaddedRest(d, bs, k);
      }
    } else {
      var body := ReadBody(V.Bounded, tail, count, acc);
      BodyConsumes(V.Bounded, tail, count, acc);
      var c1 := BodyPadded(d, tail, count, acc);
      var c2 := DecodePadded(d, body.rest, body.total);
      c := Missing(bs) + c1 + c2;
      forall k | k >= c ensures Decode(d, bs + Pad(k), acc) == Done(r.total, r.rest + Pad(k - c)) {
        ReadPaddedRest(d, bs, k);
        var k1 := k - Missing(bs);
        assert ReadBody(d, tail + Pad(k1), count, acc) == Done(body.total, body.rest + Pad(k1 - c1));
        var k2 := k1 - c1;
        assert Decode(d, body.rest + Pad(k2), body.total) == Done(r.total, r.rest + Pad(k2 - c2));
      }
    }
  }

  // ----- the end of the input in C and in Java -----

  /** On a number cut off by the end of the input, C returns the bits it has and the Java benchmark
      and Scala return 0: they agree if and only if the bits are all zero (of a tenth byte only the
      lowest bit still counts). */
  lemma EndOfInputDomain(bs: seq<byte>)
    requires V.ReadVarint(V.Bounded, bs).Value?
    ensures V.ReadVarint(V.Bounded, bs) == V.ReadVarint(V.ZeroAtEnd, bs)
       <==> V.Terminated(bs) || forall i | 0 <= i < |bs| :: bs[i] == 128 || (i == 9 && bs[i] % 2 == 0)
  {
    if V.Terminated(bs) {
      V.WordShort(V.ZeroAtEnd, bs[..V.GroupLen(bs)]);
      hide V.Masked, V.Low, V.UnZigZag;
    } else {
      assert forall i | 0 <= i < |bs| :: bs[i] >= 128;
      assert |bs| <= 10 && bs[..|bs|] == bs;
      LowZero(bs);
    }
  }

  lemma LowZero(bs: seq<byte>)
    requires |bs| <= 10 && forall i | 0 <= i < |bs| :: bs[i] >= 128
    ensures AsU64(V.Low(bs)) == 0 <==> forall i | 0 <= i < |bs| :: bs[i] == 128 || (i == 9 && bs[i] % 2 == 0)
  {
    if |bs| < 10 {
      V.LowBound(bs);
      V.Pow2Monotone(7 * |bs|, 63);
      Pow2Values();
      ShortLowZero(bs);
    } else {
      TenLowZero(bs);
    }
  }

  lemma TenLowZero(bs: seq<byte>)
    requires |bs| == 10 && forall i | 0 <= i < |bs| :: bs[i] >= 128
    ensures AsU64(V.Low(bs)) == 0 <==> (forall i | 0 <= i < 9 :: bs[i] == 128) && bs[9] % 2 == 0
  {
    var init, last := bs[..9], bs[9];
    assert bs == init + [last];
    V.LowAppend(init, last);
    V.LowBound(init);
    Pow2Values();
    ShortLowZero(init);
    hide V.Low, Pow2;
    TopBit(V.Low(init), last % 128);
    assert forall i | 0 <= i < 9 :: init[i] == bs[i];
  }

  lemma {:induction false} ShortLowZero(bs: seq<byte>)
    requires forall i | 0 <= i < |bs| :: bs[i] >= 128
    ensures V.Low(bs) == 0 <==> forall i | 0 <= i < |bs| :: bs[i] == 128
    decreases |bs|
  {
    if bs != [] {
      ShortLowZero(bs[1..]);
      assert bs == [bs[0]] + bs[1..];
    }
  }

  lemma TopBit(low: nat, digit: nat)
    requires low < TWO63
    ensures AsU64(low + digit * TWO63) == 0 <==> low == 0 && digit % 2 == 0
  {
  }

  // ----- where the programs agree -----

  /** The next number is one that the program reads as Rust on rdkafka does. */
  predicate ReadsAlike(d: V.Dialect, bs: seq<byte>) {
    var g := V.GroupLen(bs);
    match d
    case Krafka => g <= 10
    case Bounded => g <= 10
    case Go => V.LateBitsSet(bs[..g])
    case Unbounded => V.Low(bs[..g]) < TWO64
    case _ => true
  }

  predicate CountFits(d: V.Dialect, count: int) {
    IndexFits(d, count) && (d.Krafka? ==> count >= 0) && (d.Unbounded? ==> count != -TWO63)
  }

  ghost predicate ItemsFit(d: V.Dialect, bs: seq<byte>, n: nat) {
    n == 0 ||
    (ReadsAlike(d, bs) &&
     (var r := V.ReadVarint(V.Checked, bs);
      r.Value? ==> ItemsFit(d, bs[r.used..], n - 1)))
  }

  ghost predicate BodyFits(d: V.Dialect, bs: seq<byte>, count: int) {
    var n, r := Announced(V.Checked, count), V.ReadVarint(V.Checked, bs);
    && CountFits(d, count)
    && if count < 0 then ReadsAlike(d, bs) && (r.Value? ==> ItemsFit(d, bs[r.used..], n))
       else ItemsFit(d, bs, n)
  }

  /** Every count and every number that is met fits. */
  ghost predicate RecordFits(d: V.Dialect, bs: seq<byte>, acc: int)
    decreases |bs|
  {
    var first := V.ReadVarint(V.Checked, bs);
    && ReadsAlike(d, bs)
    && (first.Value? && first.v != 0 ==>
          var tail := bs[first.used..];
          && BodyFits(d, tail, first.v)
          && var body := ReadBody(V.Checked, tail, first.v, acc);
             BodyConsumes(V.Checked, tail, first.v, acc);
             body.Done? ==> RecordFits(d, body.rest, body.total))
  }

  /** Equal, and modulo 2^64 where there is no word size. */
  ghost predicate Congruent(d: V.Dialect, wide: int, total: int) {
    if d.Unbounded? then AsI64(wide) == AsI64(total) else wide == total
  }

  ghost predicate Agrees(d: V.Dialect, r: Decoded, goal: Decoded) {
    r.Done? && goal.Done? && Congruent(d, r.total, goal.total) && r.rest == goal.rest
  }

  /** The programs that have no outcome where they do not agree. */
  predicate OrNone(d: V.Dialect) {
    d.Bounded? || d.ZeroAtEnd? || d.Endless?
  }

  lemma CongruentAdd(d: V.Dialect, wide: int, acc: int, v: int)
    requires Congruent(d, wide, acc)
    ensures Congruent(d, Wrap(d, wide + v), AsI64(acc + v))
  {
    if d.Unbounded? {
      WordsApart(wide, acc, v);
      WrapAdd(V.Checked, acc + v, 0);
      hide AsI64;
    }
  }

  /** Sums that differ by a multiple of 2^64 still do after an addition. */
  lemma WordsApart(x: int, y: int, v: int)
    requires AsI64(x) == AsI64(y)
    ensures AsI64(x + v) == AsI64(y + v)
  {
    var q := (x + TWO63) / TWO64 - (y + TWO63) / TWO64;
    assert x == y + TWO64 * q;
    V.ModPlus(y + v + TWO63, TWO64, q);
  }

  /** Wherever Rust on rdkafka decodes a record, every other program returns the same sum and rest if
      every count and number met fits; Python and Ruby return a sum that is the same modulo 2^64.
      Otherwise C, Java and Scala have no outcome. */
  lemma {:induction false} DecodersAgree(d: V.Dialect, bs: seq<byte>, wide: int, acc: int)
    requires Decode(V.Checked, bs, acc).Done? && Congruent(d, wide, acc)
    ensures RecordFits(d, bs, acc) ==> Agrees(d, Decode(d, bs, wide), Decode(V.Checked, bs, acc))
    ensures !RecordFits(d, bs, acc) && OrNone(d) ==> Decode(d, bs, wide).Unspecified?
    decreases |bs|
  {
    ReadersAgree(d, bs);
    hide V.ReadVarint, ReadsAlike, Congruent;
    var first := V.ReadVarint(V.Checked, bs);
    var tail := bs[first.used..];
    if first.v != 0 {
      BodiesAgree(d, tail, first.v, wide, acc);
      BodyConsumes(V.Checked, tail, first.v, acc);
      BodyConsumes(d, tail, first.v, wide);
      hide ReadBody, BodyFits;
      var body := ReadBody(V.Checked, tail, first.v, acc);
      if BodyFits(d, tail, first.v) {
        DecodersAgree(d, body.rest, ReadBody(d, tail, first.v, wide).total, body.total);
      }
    }
  }

  lemma ReadersAgree(d: V.Dialect, bs: seq<byte>)
    requires V.ReadVarint(V.Checked, bs).Value?
    ensures ReadsAlike(d, bs) ==> V.ReadVarint(d, bs) == V.ReadVarint(V.Checked, bs)
    ensures !ReadsAlike(d, bs) && OrNone(d) ==> V.ReadVarint(d, bs).Outside?
    ensures d.Go? && V.ReadVarint(d, bs) == V.ReadVarint(V.Checked, bs) ==> ReadsAlike(d, bs)
  {
    var groups := bs[..V.GroupLen(bs)];
    V.OverlongDomain(V.Checked, groups);
    hide V.LateBitsSet;
    if |groups| <= 10 && !d.Unbounded? {
      V.WordShort(d, groups);
      V.WordShort(V.Checked, groups);
    } else if d.Unbounded? && V.Low(groups) < TWO64 {
      V.MaskedSmall(groups);
    }
    V.ZigZagBijection(0, V.Word(V.Checked, groups));
    V.ZigZagBijection(0, V.Word(d, groups));
    hide V.Masked, V.Low, V.UnZigZag, V.ZigZag;
  }

  lemma CountAgrees(d: V.Dialect, count: int)
    requires CountFits(d, count)
    ensures Announced(d, count) == Announced(V.Checked, count)
    ensures count < 0 ==> !d.Krafka?
  {
  }

  lemma BodiesAgree(d: V.Dialect, bs: seq<byte>, count: int, wide: int, acc: int)
    requires ReadBody(V.Checked, bs, count, acc).Done? && Congruent(d, wide, acc)
    ensures BodyFits(d, bs, count) ==> Agrees(d, ReadBody(d, bs, count, wide), ReadBody(V.Checked, bs, count, acc))
    ensures !BodyFits(d, bs, count) && OrNone(d) ==> ReadBody(d, bs, count, wide).Unspecified?
  {
    var n := Announced(V.Checked, count);
    if CountFits(d, count) {
      CountAgrees(d, count);
      hide Announced;
      if count < 0 {
        ReadersAgree(d, bs);
        hide V.ReadVarint, ReadsAlike, ReadItems, ItemsFit, Congruent;
        ItemsAgree(d, bs[V.ReadVarint(V.Checked, bs).used..], n, wide, acc);
      } else {
        hide V.ReadVarint, ReadsAlike, ReadItems, ItemsFit, Congruent;
        ItemsAgree(d, bs, n, wide, acc);
      }
    }
  }

  lemma {:induction false} ItemsAgree(d: V.Dialect, bs: seq<byte>, n: nat, wide: int, acc: int)
    requires ReadItems(V.Checked, bs, n, acc).Done? && Congruent(d, wide, acc)
    ensures ItemsFit(d, bs, n) ==> Agrees(d, ReadItems(d, bs, n, wide), ReadItems(V.Checked, bs, n, acc))
    ensures !ItemsFit(d, bs, n) && OrNone(d) ==> ReadItems(d, bs, n, wide).Unspecified?
    decreases n
  {
    hide V.ReadVarint, ReadsAlike, Congruent;
    if n > 0 {
      ReadersAgree(d, bs);
      var r := V.ReadVarint(V.Checked, bs);
      CongruentAdd(d, wide, acc, r.v);
      ItemsAgree(d, bs[r.used..], n - 1, Wrap(d, wide + r.v), AsI64(acc + r.v));
    }
  }
}
