/** The variable-length integer format, as mathematics: the zig-zag map and the little-endian
    base-128 groups of the Apache Avro 1.11 specification ("Binary Encoding", "Primitive Types"),
    whose groups are the LEB128 form of DWARF 5, section 7.6.  The programs' own loops are in
    module `Codec`; they are proved to compute the functions defined here.
  */
module Varint {
  import opened Bits

  function ZigZag(n: int): nat {
    if n < 0 then -2 * n - 1 else 2 * n
  }

  function UnZigZag(z: nat): int {
    if z % 2 == 0 then z / 2 else -(z / 2) - 1
  }

  /** The groups of z, seven bits each, low group first; all but the last have the high bit. */
  function Groups(z: nat): seq<byte> {
    if z < 128 then [z] else [z % 128 + 128] + Groups(z / 128)
  }

  function Encode(n: int): seq<byte> {
    Groups(ZigZag(n))
  }

  /** The number written by a run of groups: only the low seven bits of each byte count. */
  function Low(bs: seq<byte>): nat {
    if bs == [] then 0 else bs[0] % 128 + 128 * Low(bs[1..])
  }

  /** Bytes up to and including the first with a clear high bit, or all of them. */
  function GroupLen(bs: seq<byte>): (g: nat)
    ensures g <= |bs|
    ensures bs != [] ==> g > 0
    ensures forall i | 0 <= i < g - 1 :: bs[i] >= 128
    ensures g < |bs| ==> g > 0 && bs[g - 1] < 128
  {
    if bs == [] then 0
    else if bs[0] < 128 then 1
    else 1 + GroupLen(bs[1..])
  }

  predicate Terminated(bs: seq<byte>) {
    GroupLen(bs) > 0 && bs[GroupLen(bs) - 1] < 128
  }

  // ----- the readers of the different programs -----

  /** What a reader does where the programs differ: at the end of the input and beyond ten bytes,
      where the shift count of a 64-bit word leaves its range.

      - `Krafka`:    stops after ten bytes, panics at the end of the input
      - `Checked`:   Rust on rdkafka; shift counts keep their low six bits; an index error at the end
                     of the input
      - `Go`:        shifts of 64 and more give 0; an index error at the end of the input
      - `Bounded`:   C; stops at `end` and keeps the bits it has; longer shifts are undefined
      - `ZeroAtEnd`: StreamSumBenchmark and Scala; the end of the input reads as the number 0, and
                     shift counts keep their low six bits
      - `Endless`:   StreamSumApp; reads on for ever at the end of the input; shift counts keep their
                     low six bits
      - `Unbounded`: Python and Ruby; no word size, an exception at the end of the input
    */
  datatype Dialect = Krafka | Checked | Go | Bounded | ZeroAtEnd | Endless | Unbounded

  /** `Outside`: the program has no result.  A number of more than ten bytes is undefined in C, and
      StreamSumApp never returns from a number that the input does not end. */
  datatype Read = Value(v: int, used: nat) | Panic | Outside

  predicate Masks(d: Dialect) {
    d.Checked? || d.ZeroAtEnd? || d.Endless?
  }

  /** The number of places by which a program shifts the group that comes after `shift` bits. */
  function Places(d: Dialect, shift: nat): nat {
    if d.Go? || d.Unbounded? then shift else shift % 64
  }

  /** The word that groups of any number leave behind where shift counts keep six bits: from the
      eleventh group on, digits land on bits that are taken already. */
  function Masked(groups: seq<byte>): u64 {
    if groups == [] then 0
    else
      var init, last := groups[..|groups| - 1], groups[|groups| - 1];
      AsU64(Or(Masked(init), AsU64(Shl(last % 128, 7 * |init| % 64))))
  }

  function Word(d: Dialect, groups: seq<byte>): nat {
    if d.Unbounded? then Low(groups) else if Masks(d) then Masked(groups) else AsU64(Low(groups))
  }

  function Number(d: Dialect, groups: seq<byte>): int {
    UnZigZag(Word(d, groups))
  }

  function ReadVarint(d: Dialect, bs: seq<byte>): (r: Read)
    ensures r.Value? ==> r.used <= |bs|
    ensures r.Value? && r.v != 0 ==> r.used > 0
  {
    var g := GroupLen(bs);
    if Terminated(bs) && (g <= 10 || !(d.Krafka? || d.Bounded?)) then Value(Number(d, bs[..g]), g)
    else match d
      case Krafka => if |bs| >= 10 then Value(Number(d, bs[..10]), 10) else Panic
      case Checked => Panic
      case Go => Panic
      case Bounded => if g <= 10 then Value(Number(d, bs), g) else Outside
      case ZeroAtEnd => Value(0, g)
      case Endless => Outside
      case Unbounded => Panic
  }

  // ----- zig-zag -----

  lemma ZigZagBijection(n: int, z: nat)
    ensures UnZigZag(ZigZag(n)) == n
    ensures ZigZag(UnZigZag(z)) == z
  {
    if n < 0 {
      ModUnique(-2 * n - 1, 2, -n - 1, 1);
    } else {
      ModUnique(2 * n, 2, n, 0);
    }
    assert z == 2 * (z / 2) + z % 2;
  }

  lemma ZigZagRange(n: int)
    ensures -TWO63 <= n < TWO63 <==> ZigZag(n) < TWO64
  {
  }

  // ----- groups -----

  lemma {:induction false} GroupsShape(z: nat)
    ensures |Groups(z)| >= 1
    ensures forall i | 0 <= i < |Groups(z)| - 1 :: Groups(z)[i] >= 128
    ensures Groups(z)[|Groups(z)| - 1] < 128
    ensures |Groups(z)| > 1 ==> Groups(z)[|Groups(z)| - 1] > 0
    ensures Low(Groups(z)) == z
    decreases z
  {
    if z >= 128 {
      GroupsShape(z / 128);
      assert Groups(z)[1..] == Groups(z / 128);
    }
  }

  /** The encoding is exactly as long as its number has base-128 digits. */
  lemma {:induction false} GroupsLength(z: nat)
    ensures |Groups(z)| >= 1
    ensures z < Pow2(7 * |Groups(z)|)
    ensures |Groups(z)| > 1 ==> Pow2(7 * (|Groups(z)| - 1)) <= z
    decreases z
  {
    if z < 128 {
      Pow2Values();
    } else {
      GroupsLength(z / 128);
      var k := |Groups(z / 128)|;
      Pow2Seven(k);
      Pow2Seven(k - 1);
      assert Pow2(0) == 1;
    }
  }

  lemma Pow2Seven(k: nat)
    ensures Pow2(7 * (k + 1)) == 128 * Pow2(7 * k)
  {
    Pow2Values();
    Pow2Add(7, 7 * k);
  }

  lemma {:induction false} Pow2Monotone(j: nat, k: nat)
    ensures j <= k ==> Pow2(j) <= Pow2(k)
    decreases k
  {
    if j < k {
      Pow2Monotone(j, k - 1);
    }
  }

  lemma {:induction false} LowBound(bs: seq<byte>)
    ensures Low(bs) < Pow2(7 * |bs|)
  {
    if bs != [] {
      LowBound(bs[1..]);
      Pow2Seven(|bs| - 1);
    }
  }

  lemma {:induction false} LowAppend(bs: seq<byte>, b: byte)
    ensures Low(bs + [b]) == Low(bs) + Shl(b % 128, 7 * |bs|)
  {
    if bs == [] {
      assert Pow2(0) == 1;
      assert ([] + [b])[1..] == [];
      assert Low([b]) == b % 128 + 128 * Low([]);
    } else {
      LowAppend(bs[1..], b);
      Pow2Seven(|bs| - 1);
      assert (bs + [b])[1..] == bs[1..] + [b];
      var p, d := Pow2(7 * (|bs| - 1)), b % 128;
      assert d * (128 * p) == 128 * (d * p);
    }
  }

  lemma LowAppendZero(bs: seq<byte>)
    ensures Low(bs + [0]) == Low(bs)
  {
    LowAppend(bs, 0);
    hide Low, Pow2;
  }

  // ----- one round of a reading loop -----

  /** The place value of group k in a word: room for seven more bits up to the ninth group, and
      bit 63 alone for the tenth. */
  lemma PlaceValue(k: nat)
    requires k <= 9
    ensures k <= 8 ==> 128 * Pow2(7 * k) <= TWO63
    ensures k == 9 ==> Pow2(7 * k) == TWO63
  {
    Pow2Values();
    Pow2Seven(k);
    Pow2Monotone(7 * (k + 1), 63);
  }

  /** Adding a digit at place value p, modulo the word size. */
  lemma PlaceDigit(low: nat, digit: nat, p: nat) returns (kept: nat)
    requires low < p && digit < 128 && (128 * p <= TWO63 || p == TWO63)
    ensures AsU64(digit * p) == kept * p
    ensures AsU64(low + digit * p) == low + kept * p
    ensures AsU64(low) == low
  {
    if p == TWO63 {
      kept := digit % 2;
      TopPlace(low, digit);
    } else {
      kept := digit;
      LowPlace(low, digit, p);
    }
  }

  lemma TopPlace(low: nat, digit: nat)
    requires low < TWO63 && digit < 128
    ensures AsU64(digit * TWO63) == digit % 2 * TWO63
    ensures AsU64(low + digit * TWO63) == low + digit % 2 * TWO63
  {
    assert digit * TWO63 == (digit / 2) * TWO64 + digit % 2 * TWO63;
  }

  lemma LowPlace(low: nat, digit: nat, p: nat)
    requires low < p && digit < 128 && 128 * p <= TWO63
    ensures 0 <= digit * p && low + digit * p < TWO64
  {
    MulOrder(0, digit, p);
    MulOrder(digit, 127, p);
  }

  /** Up to the tenth group, a round adds the digit, modulo 2^64. */
  lemma DigitRound(e: seq<byte>, b: byte)
    requires |e| <= 9
    ensures Or(AsU64(Low(e)), AsU64(Shl(b % 128, 7 * |e|))) == AsU64(Low(e + [b]))
  {
    hide Or, Low, Pow2, AsU64;
    LowAppend(e, b);
    LowBound(e);
    PlaceValue(|e|);
    var kept := PlaceDigit(Low(e), b % 128, Pow2(7 * |e|));
    OrDisjoint(Low(e), kept, 7 * |e|);
  }

  /** Beyond that, shifts that are not cut short leave nothing of the digit in the word. */
  lemma LateDigit(e: seq<byte>, b: byte)
    requires |e| >= 10
    ensures AsU64(Shl(b % 128, 7 * |e|)) == 0
    ensures AsU64(Low(e + [b])) == AsU64(Low(e))
  {
    hide Low, Pow2;
    LowAppend(e, b);
    var q := LatePlace(b % 128, 7 * |e|);
    hide Shl;
    LateWord(Low(e), q);
  }

  lemma LateWord(low: nat, q: nat)
    ensures AsU64(TWO64 * q) == 0 && AsU64(low + TWO64 * q) == AsU64(low)
  {
    ModPlus(low, TWO64, q);
    ModPlus(0, TWO64, q);
  }

  lemma LatePlace(d: nat, k: nat) returns (q: nat)
    requires k >= 64
    ensures Shl(d, k) == TWO64 * q
  {
    Pow2Values();
    Pow2Add(64, k - 64);
    hide Pow2;
    q := d * Pow2(k - 64);
    assert d * (TWO64 * Pow2(k - 64)) == TWO64 * q;
  }

  lemma ModPlus(a: int, m: nat, q: int)
    requires m > 0
    ensures (a + m * q) % m == a % m
  {
    assert a == m * (a / m) + a % m;
    assert a + m * q == m * (a / m + q) + a % m;
    ModUnique(a + m * q, m, a / m + q, a % m);
  }

  lemma MaskedAppend(e: seq<byte>, b: byte)
    ensures Masked(e + [b]) == AsU64(Or(Masked(e), AsU64(Shl(b % 128, 7 * |e| % 64))))
  {
    assert (e + [b])[..|e|] == e;
    hide Or, Shl, AsU64;
  }

  /** Where shift counts keep six bits, the word is the number as long as there are ten groups. */
  lemma {:induction false} MaskedIsLow(groups: seq<byte>)
    requires |groups| <= 10
    ensures Masked(groups) == AsU64(Low(groups))
    decreases |groups|
  {
    if groups != [] {
      var init, last := groups[..|groups| - 1], groups[|groups| - 1];
      assert groups == init + [last];
      hide *;
      MaskedIsLow(init);
      MaskedStep(init, last);
    }
  }

  lemma MaskedStep(init: seq<byte>, last: byte)
    requires |init| <= 9 && Masked(init) == AsU64(Low(init))
    ensures Masked(init + [last]) == AsU64(Low(init + [last]))
  {
    hide Or, Low, AsU64, Shl, Masked;
    MaskedAppend(init, last);
    DigitRound(init, last);
    WordIsWord(Low(init + [last]));
  }

  /** ... and of any length as long as the number is a word. */
  lemma {:induction false} MaskedSmall(groups: seq<byte>)
    requires Low(groups) < TWO64
    ensures Masked(groups) == Low(groups)
    decreases |groups|
  {
    hide *;
    if |groups| <= 10 {
      MaskedIsLow(groups);
      SmallWord(Low(groups));
    } else {
      var init, last := groups[..|groups| - 1], groups[|groups| - 1];
      assert groups == init + [last];
      LateZero(init, last);
      MaskedSmall(init);
      MaskedZero(init, last);
    }
  }

  lemma MaskedZero(e: seq<byte>, b: byte)
    requires b % 128 == 0
    ensures Masked(e + [b]) == Masked(e)
  {
    hide *;
    MaskedAppend(e, b);
    NoDigit();
    ZeroShift(7 * |e| % 64);
    ZeroDigit(Masked(e));
  }

  lemma ZeroShift(k: nat)
    ensures Shl(0, k) == 0
  {
  }

  lemma SmallWord(x: nat)
    requires x < TWO64
    ensures AsU64(x) == x
  {
  }

  /** A digit beyond the tenth makes the number larger than a word, unless it is 0. */
  lemma LateZero(e: seq<byte>, b: byte)
    requires |e| >= 10 && Low(e + [b]) < TWO64
    ensures b % 128 == 0 && Low(e) == Low(e + [b])
  {
    hide Low, Shl;
    LowAppend(e, b);
    LargeDigit(b % 128, 7 * |e|);
  }

  lemma LargeDigit(digit: nat, k: nat)
    requires k >= 64
    ensures if digit == 0 then Shl(digit, k) == 0 else Shl(digit, k) >= TWO64
  {
    Pow2Values();
    Pow2Monotone(64, k);
    hide Pow2;
    if digit > 0 {
      MulOrder(1, digit, Pow2(k));
    }
  }

  lemma WordIsWord(x: int)
    ensures AsU64(AsU64(x)) == AsU64(x)
  {
  }

  /** Ten groups or fewer make the same word in all word languages. */
  lemma WordShort(d: Dialect, groups: seq<byte>)
    requires |groups| <= 10 && !d.Unbounded?
    ensures Word(d, groups) == AsU64(Low(groups))
  {
    MaskedIsLow(groups);
  }

  /** A round as the programs write it makes the next word, for numbers of any length; C is defined
      up to ten bytes only. */
  lemma WordRound(d: Dialect, e: seq<byte>, b: byte)
    requires !d.Unbounded? && ((d.Krafka? || d.Bounded?) ==> |e| <= 9)
    ensures AsU64(Or(Word(d, e), AsU64(Shl(b % 128, Places(d, 7 * |e|))))) == Word(d, e + [b])
  {
    hide Or, Low, AsU64, Shl, Masked;
    if Masks(d) {
      MaskedAppend(e, b);
    } else if |e| <= 9 {
      DigitRound(e, b);
      WordIsWord(Low(e + [b]));
    } else {
      LateDigit(e, b);
      ZeroDigit(AsU64(Low(e)));
    }
  }

  lemma NoDigit()
    ensures AsU64(0) == 0
  {
  }

  lemma ZeroDigit(val: u64)
    ensures AsU64(Or(val, 0)) == val
  {
    hide Or;
    OrComm(val);
    OrZero(val);
  }

  /** ... and so does a round without a word size. */
  lemma UnboundedRound(e: seq<byte>, b: byte)
    ensures Or(Low(e), Shl(b % 128, 7 * |e|)) == Low(e + [b])
  {
    LowAppend(e, b);
    LowBound(e);
    hide Or, Low;
    OrDisjoint(Low(e), b % 128, 7 * |e|);
  }

  /** In Go a number of any length reads as its first ten groups do ... */
  lemma {:induction false} GoKeepsTen(groups: seq<byte>)
    requires |groups| >= 10
    ensures Word(Go, groups) == Word(Go, groups[..10])
    decreases |groups|
  {
    if |groups| > 10 {
      var init, last := groups[..|groups| - 1], groups[|groups| - 1];
      assert groups == init + [last] && init[..10] == groups[..10];
      LateDigit(init, last);
      hide Low, AsU64;
      GoKeepsTen(init);
    } else {
      assert groups[..10] == groups;
    }
  }

  /** The digit of group i as a six-bit shift count places it. */
  function LateBits(groups: seq<byte>, i: nat): u64
    requires i < |groups|
  {
    AsU64(Shl(groups[i] % 128, 7 * i % 64))
  }

  /** The digits beyond the tenth fall on bits that the first ten groups have set already. */
  predicate LateBitsSet(groups: seq<byte>) {
    |groups| > 10 ==>
      var w := AsU64(Low(groups[..10]));
      forall i | 10 <= i < |groups| :: Or(w, LateBits(groups, i)) == w
  }

  /** ... while Rust and Java put every later digit on bits that are taken.  So on numbers of any
      length they agree with Go if and only if all those digits' bits are set there already. */
  lemma OverlongDomain(d: Dialect, groups: seq<byte>)
    requires Masks(d)
    ensures Word(d, groups) == Word(Go, groups) <==> LateBitsSet(groups)
  {
    hide Low, Masked, Or, LateBits;
    if |groups| <= 10 {
      MaskedIsLow(groups);
    } else {
      var _ := LateRounds(groups, AsU64(Low(groups[..10])));
      GoKeepsTen(groups);
    }
  }

  /** What later groups add to the first ten is or-ed in, and shows unless it was there. */
  lemma {:induction false} LateRounds(groups: seq<byte>, w: u64) returns (x: u64)
    requires |groups| >= 10 && w == AsU64(Low(groups[..10]))
    ensures Masked(groups) == Or(w, x)
    ensures Masked(groups) == w <==> forall i | 10 <= i < |groups| :: Or(w, LateBits(groups, i)) == w
    decreases |groups|
  {
    hide Low, AsU64, Shl, Or, Masked;
    if |groups| == 10 {
      assert groups[..10] == groups;
      MaskedIsLow(groups);
      OrComm(w);
      OrZero(w);
      x := 0;
    } else {
      var n := |groups| - 1;
      var init, digit := groups[..n], LateBits(groups, n);
      assert groups == init + [groups[n]] && init[..10] == groups[..10];
      MaskedAppend(init, groups[n]);
      var y := LateRounds(init, w);
      assert forall i | 10 <= i < n :: LateBits(init, i) == LateBits(groups, i);
      OrWord(Or(w, y), digit);
      OrWord(y, digit);
      OrAssoc(w, y, digit);
      x := Or(y, digit);
      if Masked(groups) == w {
        OrAbsorbed(w, y, digit);
      }
    }
  }

  /** Ten bytes without a bit and an eleventh with the lowest: Rust and Java read 32, Go reads 0. */
  lemma OverlongDiffers()
    ensures var bs := Tens() + [1];
            ReadVarint(Checked, bs) == Value(32, 11) && ReadVarint(Go, bs) == Value(0, 11)
  {
    var e := Tens() + [1];
    OverlongWords();
    hide Low, Masked, ReadVarint, Word, Tens;
    ReadsWhole(Checked, e, []);
    ReadsWhole(Go, e, []);
    assert e + [] == e;
  }

  function Tens(): (e: seq<byte>)
    ensures |e| == 10 && forall i | 0 <= i < 10 :: e[i] == 128
  {
    seq(10, _ => 128)
  }

  lemma OverlongWords()
    ensures Word(Checked, Tens() + [1]) == 64 && Word(Go, Tens() + [1]) == 0
  {
    hide Low, Masked, Or, Tens;
    var e := Tens();
    NoBits(e);
    MaskedAppend(e, 1);
    MaskedIsLow(e);
    LateDigit(e, 1);
    assert Shl(1, 6) == 64 by { assert Pow2(6) == 64; }
    hide Shl;
    OrZero(64);
  }

  lemma {:induction false} NoBits(e: seq<byte>)
    requires forall i | 0 <= i < |e| :: e[i] == 128
    ensures Low(e) == 0
  {
    if e != [] {
      NoBits(e[1..]);
    }
  }

  /** A zero byte after the groups changes nothing, whatever its shift. */
  lemma WordThenZero(d: Dialect, e: seq<byte>)
    requires !d.Unbounded?
    ensures Word(d, e + [0]) == Word(d, e)
  {
    hide Or, Low, AsU64, Masked;
    if Masks(d) {
      MaskedZero(e, 0);
    } else {
      LowAppendZero(e);
    }
  }

  lemma {:induction false} GroupLenAppend(e: seq<byte>, suffix: seq<byte>)
    requires |e| > 0 && e[|e| - 1] < 128
    requires forall i | 0 <= i < |e| - 1 :: e[i] >= 128
    ensures GroupLen(e + suffix) == |e| && Terminated(e + suffix)
  {
    if |e| > 1 {
      assert (e + suffix)[1..] == e[1..] + suffix;
      GroupLenAppend(e[1..], suffix);
    }
  }

  // ----- what the encoding guarantees -----

  /** Ten bytes suffice for a 64-bit number and one byte is always needed. */
  lemma EncodeLength(n: int)
    ensures |Encode(n)| >= 1
    ensures ZigZag(n) < Pow2(7 * |Encode(n)|)
    ensures |Encode(n)| > 1 ==> Pow2(7 * (|Encode(n)| - 1)) <= ZigZag(n)
    ensures -TWO63 <= n < TWO63 ==> |Encode(n)| <= 10
  {
    GroupsLength(ZigZag(n));
    Pow2Monotone(70, 7 * (|Encode(n)| - 1));
    Pow2Add(64, 6);
    Pow2Values();
  }

  lemma ReadsWhole(d: Dialect, e: seq<byte>, suffix: seq<byte>)
    requires |e| > 0 && e[|e| - 1] < 128 && (|e| <= 10 || !(d.Krafka? || d.Bounded?))
    requires forall i | 0 <= i < |e| - 1 :: e[i] >= 128
    ensures ReadVarint(d, e + suffix) == Value(Number(d, e), |e|)
  {
    GroupLenAppend(e, suffix);
    assert (e + suffix)[..|e|] == e;
    hide GroupLen, Word;
  }

  lemma NumberOf(d: Dialect, n: int)
    requires -TWO63 <= n < TWO63 || d.Unbounded?
    ensures Number(d, Encode(n)) == n
  {
    hide Groups, Low, Masked, Pow2;
    GroupsShape(ZigZag(n));
    ZigZagRange(n);
    ZigZagBijection(n, 0);
    hide UnZigZag;
    if !d.Unbounded? {
      EncodeLength(n);
      hide ZigZag;
      WordShort(d, Encode(n));
    }
  }

  /** The round trip: every program's reader, given the encoding of an i64 followed by anything,
      returns the number and stops right after it. */
  lemma RoundTrip(d: Dialect, n: int, suffix: seq<byte>)
    requires -TWO63 <= n < TWO63 || d.Unbounded?
    ensures ReadVarint(d, Encode(n) + suffix) == Value(n, |Encode(n)|)
    ensures (Encode(n) + suffix)[|Encode(n)|..] == suffix
  {
    GroupsShape(ZigZag(n));
    EncodeLength(n);
    NumberOf(d, n);
    hide Groups, Low, Number, ReadVarint, ZigZag;
    ReadsWhole(d, Encode(n), suffix);
  }

  lemma RoundTripAlone(d: Dialect, n: int)
    requires -TWO63 <= n < TWO63 || d.Unbounded?
    ensures ReadVarint(d, Encode(n)) == Value(n, |Encode(n)|)
  {
    hide ReadVarint, Encode;
    RoundTrip(d, n, []);
    assert Encode(n) + [] == Encode(n);
  }

  /** Encodings are self-delimiting: none is a prefix of another number's. */
  lemma PrefixFree(m: int, n: int)
    requires Encode(m) <= Encode(n)
    ensures m == n
  {
    var suffix := Encode(n)[|Encode(m)|..];
    assert Encode(n) == Encode(m) + suffix && Encode(n) == Encode(n) + [];
    RoundTrip(Unbounded, m, suffix);
    RoundTrip(Unbounded, n, []);
  }

  function EncodeAll(xs: seq<int>): seq<byte> {
    if xs == [] then [] else Encode(xs[0]) + EncodeAll(xs[1..])
  }

  /** ... and so a concatenation of encodings has one reading only. */
  lemma {:induction false} UniqueParse(xs: seq<int>, ys: seq<int>)
    requires EncodeAll(xs) == EncodeAll(ys)
    ensures xs == ys
    decreases |xs|
  {
    if xs == [] || ys == [] {
      if xs != [] { EncodeLength(xs[0]); }
      if ys != [] { EncodeLength(ys[0]); }
    } else {
      var x, y := xs[0], ys[0];
      if |Encode(x)| <= |Encode(y)| {
        assert Encode(x) == EncodeAll(xs)[..|Encode(x)|] == Encode(y)[..|Encode(x)|];
        PrefixFree(x, y);
      } else {
        assert Encode(y) == EncodeAll(ys)[..|Encode(y)|] == Encode(x)[..|Encode(y)|];
        PrefixFree(y, x);
      }
      assert EncodeAll(xs[1..]) == EncodeAll(xs)[|Encode(x)|..];
      assert EncodeAll(ys[1..]) == EncodeAll(ys)[|Encode(y)|..];
      UniqueParse(xs[1..], ys[1..]);
    }
  }

  // ----- non-canonical input -----

  /** The shape of shortest encodings, read off the bytes alone: terminated, no empty top group,
      and nothing beyond bit 63 in a tenth byte. */
  predicate Canonical(e: seq<byte>) {
    && 1 <= |e| <= 10
    && e[|e| - 1] < 128
    && (|e| > 1 ==> e[|e| - 1] > 0)
    && (|e| == 10 ==> e[9] <= 1)
    && forall i | 0 <= i < |e| - 1 :: e[i] >= 128
  }

  /** On any input with a terminator or ten bytes, the krafka reader takes one to ten bytes, what
      it read re-encodes to no more bytes, and to the same bytes exactly if they were canonical. */
  lemma KrafkaReencode(bs: seq<byte>)
    requires Terminated(bs) || |bs| >= 10
    ensures var r := ReadVarint(Krafka, bs);
            && r.Value?
            && 1 <= r.used <= 10 && r.used <= |bs|
            && -TWO63 <= r.v < TWO63
            && |Encode(r.v)| <= r.used
            && (Encode(r.v) == bs[..r.used] <==> Canonical(bs[..r.used]))
  {
    Reencode(bs[..ReadVarint(Krafka, bs).used]);
  }

  lemma Reencode(e: seq<byte>)
    requires 1 <= |e| <= 10
    requires forall i | 0 <= i < |e| - 1 :: e[i] >= 128
    ensures var v := Number(Krafka, e);
            && -TWO63 <= v < TWO63
            && |Encode(v)| <= |e|
            && (Encode(v) == e <==> Canonical(e))
  {
    var z := AsU64(Low(e));
    ZigZagBijection(0, z);
    ZigZagRange(UnZigZag(z));
    NoLongerGroups(e, z);
    SameGroups(e, z);
  }

  lemma NoLongerGroups(e: seq<byte>, z: nat)
    requires 1 <= |e| && z <= Low(e)
    ensures |Groups(z)| <= |e|
  {
    LowBound(e);
    GroupsLength(z);
    Pow2Monotone(7 * |e|, 7 * (|Groups(z)| - 1));
  }

  lemma SameGroups(e: seq<byte>, z: u64)
    requires 1 <= |e| <= 10 && z == AsU64(Low(e))
    requires forall i | 0 <= i < |e| - 1 :: e[i] >= 128
    ensures Groups(z) == e <==> Canonical(e)
  {
    hide Low, Groups;
    CanonicalBound(e);
    GroupsShape(z);
    if Canonical(e) {
      GroupsOfLow(e);
    }
  }

  /** Ten groups fit in 64 bits exactly if the last holds at most bit 63. */
  lemma CanonicalBound(e: seq<byte>)
    requires 1 <= |e| <= 10
    ensures Low(e) < TWO64 <==> (|e| == 10 ==> e[9] % 128 <= 1)
  {
    var init, last := e[..|e| - 1], e[|e| - 1];
    assert e == init + [last];
    LowAppend(init, last);
    LowBound(init);
    Pow2Values();
    if |e| < 10 {
      LowBound(e);
      Pow2Monotone(7 * |e|, 63);
    }
  }

  lemma {:induction false} GroupsOfLow(e: seq<byte>)
    requires |e| > 0 && e[|e| - 1] < 128
    requires |e| > 1 ==> e[|e| - 1] > 0
    requires forall i | 0 <= i < |e| - 1 :: e[i] >= 128
    ensures Groups(Low(e)) == e
  {
    if |e| > 1 {
      GroupsOfLow(e[1..]);
      LowPositive(e[1..]);
      LowHead(e[0], e[1..], Low(e));
      assert e == [e[0]] + e[1..];
    } else {
      assert Low(e[1..]) == 0;
      assert e == [e[0]];
    }
  }

  lemma LowHead(b: byte, tail: seq<byte>, z: nat)
    requires b >= 128 && Low(tail) > 0 && z == b % 128 + 128 * Low(tail)
    ensures z >= 128 && z % 128 + 128 == b && z / 128 == Low(tail)
  {
    hide Low;
  }

  lemma {:induction false} LowPositive(e: seq<byte>)
    requires |e| > 0 && 0 < e[|e| - 1] < 128
    ensures Low(e) > 0
  {
    if |e| > 1 {
      LowPositive(e[1..]);
    }
  }
}
