/** Integer bit operations in two's complement, and the machine words cut out of them.

    Python and Ruby compute on unbounded integers; Rust, C, Java, Scala and Go compute on 64-bit
    words.  Both use the same `And`, `Or`, `Xor`, `Shl` and `Shr` below; the word languages then
    truncate with `AsU8`, `AsU64` or `AsI64`, exactly where their code casts or wraps.
  */
module Bits {

  const TWO63: int := 0x8000_0000_0000_0000
  const TWO64: int := 0x1_0000_0000_0000_0000

  type byte = x: int | 0 <= x < 256
  type u64 = x: int | 0 <= x < TWO64
  type i64 = x: int | -TWO63 <= x < TWO63

  /** Dafny's `/` and `%` round toward minus infinity for positive divisors, so `a / 2` is the
      arithmetic shift by one and `a % 2` is the lowest bit, also for negative `a`. */
  function Magnitude(a: int): nat {
    if a < 0 then -a - 1 else a
  }

  ghost predicate AllSignBits(a: int) {
    a == 0 || a == -1
  }

  function And(a: int, b: int): int
    decreases Magnitude(a) + Magnitude(b)
  {
    if (a == 0 || a == -1) && (b == 0 || b == -1) then
      if a == -1 && b == -1 then -1 else 0
    else
      2 * And(a / 2, b / 2) + (if a % 2 == 1 && b % 2 == 1 then 1 else 0)
  }

  function Or(a: int, b: int): int
    decreases Magnitude(a) + Magnitude(b)
  {
    if (a == 0 || a == -1) && (b == 0 || b == -1) then
      if a == -1 || b == -1 then -1 else 0
    else
      2 * Or(a / 2, b / 2) + (if a % 2 == 1 || b % 2 == 1 then 1 else 0)
  }

  function Xor(a: int, b: int): int
    decreases Magnitude(a) + Magnitude(b)
  {
    if (a == 0 || a == -1) && (b == 0 || b == -1) then
      if a != b then -1 else 0
    else
      2 * Xor(a / 2, b / 2) + (if a % 2 != b % 2 then 1 else 0)
  }

  function Pow2(k: nat): (p: nat)
    ensures p > 0
  {
    if k == 0 then 1 else 2 * Pow2(k - 1)
  }

  function Shl(a: int, k: nat): int {
    a * Pow2(k)
  }

  function Shr(a: int, k: nat): int {
    a / Pow2(k)
  }

  function AsU8(a: int): byte {
    a % 256
  }

  function AsU64(a: int): u64 {
    a % TWO64
  }

  /** Two's complement truncation to a signed word: the wrap-around of every `i64` sum. */
  function AsI64(a: int): i64 {
    (a + TWO63) % TWO64 - TWO63
  }

  /** It is the word congruent to the number, and the number itself if that is a word. */
  lemma AsI64Means(a: int)
    ensures -TWO63 <= AsI64(a) < TWO63 && (a - AsI64(a)) % TWO64 == 0
  {
    var q := (a + TWO63) / TWO64;
    ModUnique(a - AsI64(a), TWO64, q, 0);
  }

  lemma InWord(n: i64)
    ensures AsI64(n) == n
  {
  }

  lemma Pow2Add(j: nat, k: nat)
    ensures Pow2(j + k) == Pow2(j) * Pow2(k)
  {
    if j > 0 {
      Pow2Add(j - 1, k);
      assert Pow2(j + k) == 2 * Pow2(j - 1 + k);
      assert Pow2(j) * Pow2(k) == (2 * Pow2(j - 1)) * Pow2(k) == 2 * (Pow2(j - 1) * Pow2(k));
    }
  }

  lemma Pow2Values()
    ensures Pow2(1) == 2 && Pow2(7) == 128 && Pow2(8) == 256
    ensures Pow2(63) == TWO63 && Pow2(64) == TWO64
  {
    assert Pow2(7) == 128 && Pow2(8) == 256;
    Pow2Add(8, 8);
    Pow2Add(16, 16);
    Pow2Add(32, 32);
    assert Pow2(64) == 2 * Pow2(63);
  }

  lemma {:induction false} XorZero(a: int)
    ensures Xor(a, 0) == a && Xor(0, a) == a
    decreases Magnitude(a)
  {
    if !AllSignBits(a) {
      XorZero(a / 2);
    }
  }

  lemma {:induction false} XorComplement(a: int)
    ensures Xor(a, -1) == -a - 1
    decreases Magnitude(a)
  {
    if !AllSignBits(a) {
      XorComplement(a / 2);
    }
  }

  /** Exclusive-or with a number that is all sign bits keeps or complements. */
  lemma XorSignBits(a: int, s: int)
    requires s == 0 || s == -1
    ensures Xor(a, s) == if s == 0 then a else -a - 1
  {
    XorZero(a);
    XorComplement(a);
  }

  /** Exclusive-or with the same number twice gives back the original. */
  lemma {:induction false} XorTwice(a: int, b: int)
    ensures Xor(a, Xor(a, b)) == b
    decreases Magnitude(a) + Magnitude(b)
  {
    if !(AllSignBits(a) && AllSignBits(b)) {
      XorTwice(a / 2, b / 2);
      XorParity(a, b);
      XorParity(a, Xor(a, b));
    }
  }

  lemma XorCancel(a: int, b: int, c: int)
    requires Xor(a, b) == Xor(a, c)
    ensures b == c
  {
    XorTwice(a, b);
    XorTwice(a, c);
  }

  lemma XorParity(a: int, b: int)
    ensures Xor(a, b) / 2 == Xor(a / 2, b / 2)
    ensures Xor(a, b) % 2 == (if a % 2 != b % 2 then 1 else 0)
  {
  }

  /** The sign of an exclusive-or is the exclusive-or of the signs. */
  lemma {:induction false} XorSign(a: int, b: int)
    ensures Xor(a, b) < 0 <==> (a < 0) != (b < 0)
    decreases Magnitude(a) + Magnitude(b)
  {
    if !(AllSignBits(a) && AllSignBits(b)) {
      XorSign(a / 2, b / 2);
    }
  }

  lemma AndOne(a: int)
    ensures And(a, 1) == a % 2 && Shr(a, 1) == a / 2 && Shl(a, 1) == 2 * a
  {
    assert Pow2(1) == 2;
    AndMask(a, 1);
  }

  /** Masking with 2^k - 1 keeps the remainder modulo 2^k. */
  lemma {:induction false} AndMask(a: int, k: nat)
    ensures And(a, Pow2(k) - 1) == a % Pow2(k)
    decreases k
  {
    if k == 0 {
      AndZero(a);
    } else {
      var p := Pow2(k - 1);
      AndMask(a / 2, k - 1);
      ModTwice(a, p);
      assert (Pow2(k) - 1) / 2 == p - 1;
      assert (Pow2(k) - 1) % 2 == 1;
      assert And(a, Pow2(k) - 1) == 2 * And(a / 2, p - 1) + a % 2;
    }
  }

  lemma {:induction false} AndZero(a: int)
    ensures And(a, 0) == 0
    decreases Magnitude(a)
  {
    if !AllSignBits(a) {
      AndZero(a / 2);
    }
  }

  lemma ModTwice(a: int, p: nat)
    requires p > 0
    ensures a % (2 * p) == 2 * ((a / 2) % p) + a % 2
  {
    var q, r := (a / 2) / p, (a / 2) % p;
    assert a / 2 == q * p + r;
    assert a == 2 * (q * p + r) + a % 2 == (2 * p) * q + (2 * r + a % 2);
    ModUnique(a, 2 * p, q, 2 * r + a % 2);
  }

  lemma ModUnique(a: int, m: nat, q: int, r: int)
    requires m > 0 && a == m * q + r && 0 <= r < m
    ensures a % m == r && a / m == q
  {
    DifferenceBelow(m, a / m - q);
  }

  lemma MulOrder(x: int, y: int, p: nat)
    ensures x <= y ==> x * p <= y * p
  {
  }

  lemma DifferenceBelow(m: nat, d: int)
    requires m > 0 && m * d < m && m * d > 0 - m
    ensures d == 0
  {
  }

  lemma RoundDown(t: nat, b: nat)
    requires b > 0
    ensures 0 <= t - t % b <= t < t - t % b + b && (t - t % b) % b == 0
  {
    assert t == b * (t / b) + t % b;
    ModUnique(t - t % b, b, t / b, 0);
  }

  lemma MultiplesApart(b: nat, p: nat, q: nat)
    requires b > 0 && p % b == 0 && q % b == 0
    ensures p < q + b ==> p <= q
  {
    if q < p < q + b {
      assert p == b * (p / b) && q == b * (q / b);
      assert b * (p / b - q / b) == p - q;
      DifferenceBelow(b, p / b - q / b);
    }
  }

  /** Or-ing a number below 2^k with a multiple of 2^k adds them: this is what makes the
      accumulation `val |= digit << shift` a positional sum. */
  lemma {:induction false} OrDisjoint(low: nat, high: nat, k: nat)
    requires low < Pow2(k)
    ensures Or(low, Shl(high, k)) == low + Shl(high, k)
  {
    if k == 0 {
      OrZero(high);
    } else {
      var p := Pow2(k - 1);
      assert Shl(high, k) == 2 * Shl(high, k - 1) by {
        assert high * (2 * p) == 2 * (high * p);
      }
      OrDisjoint(low / 2, high, k - 1);
      if low == 0 && Shl(high, k) == 0 {
      } else {
        assert Or(low, Shl(high, k)) == 2 * Or(low / 2, Shl(high, k - 1)) + low % 2;
      }
    }
  }

  lemma {:induction false} OrZero(a: int)
    ensures Or(0, a) == a
    decreases Magnitude(a)
  {
    if !AllSignBits(a) {
      OrZero(a / 2);
    }
  }

  lemma OrHalves(a: int, b: int)
    ensures Or(a, b) / 2 == Or(a / 2, b / 2)
    ensures Or(a, b) % 2 == (if a % 2 == 1 || b % 2 == 1 then 1 else 0)
  {
  }

  lemma {:induction false} OrAssoc(a: int, b: int, c: int)
    ensures Or(Or(a, b), c) == Or(a, Or(b, c))
    decreases Magnitude(a) + Magnitude(b) + Magnitude(c)
  {
    if !(AllSignBits(a) && AllSignBits(b) && AllSignBits(c)) {
      OrAssoc(a / 2, b / 2, c / 2);
      OrHalves(a, b);
      OrHalves(b, c);
      OrHalves(Or(a, b), c);
      OrHalves(a, Or(b, c));
      hide Or;
      SameHalves(Or(Or(a, b), c), Or(a, Or(b, c)));
    }
  }

  lemma SameHalves(a: int, b: int)
    requires a / 2 == b / 2 && a % 2 == b % 2
    ensures a == b
  {
  }

  /** If nothing shows of two numbers in w, nothing shows of the first. */
  lemma {:induction false} OrAbsorbed(w: int, x: int, y: int)
    requires Or(Or(w, x), y) == w
    ensures Or(w, x) == w
    decreases Magnitude(w) + Magnitude(x) + Magnitude(y)
  {
    if !(AllSignBits(w) && AllSignBits(x) && AllSignBits(y)) {
      OrHalves(w, x);
      OrHalves(Or(w, x), y);
      OrAbsorbed(w / 2, x / 2, y / 2);
      hide Or;
      SameHalves(Or(w, x), w);
    }
  }

  /** Words stay words. */
  lemma {:induction false} OrBound(a: nat, b: nat, k: nat)
    requires a < Pow2(k) && b < Pow2(k)
    ensures 0 <= Or(a, b) < Pow2(k)
  {
    if k > 0 {
      OrBound(a / 2, b / 2, k - 1);
      OrHalves(a, b);
    }
  }

  lemma OrWord(a: u64, b: u64)
    ensures 0 <= Or(a, b) < TWO64 && AsU64(Or(a, b)) == Or(a, b)
  {
    Pow2Values();
    hide Or, Pow2;
    OrBound(a, b, 64);
  }

  /** The byte operations of every codec here: the low seven bits and the continuation bit. */
  lemma ByteOps(b: byte)
    ensures And(b, 0x7F) == b % 128
    ensures And(b, 0x80) == 0 <==> b < 128
    ensures b < 128 ==> Or(b, 0x80) == b + 128
    ensures b >= 128 ==> Or(b, 0x80) == b
  {
    Pow2Values();
    AndMask(b, 7);
    ContinuationBit(b, 7);
    assert Pow2(7) == 0x80;
  }

  lemma {:induction false} ContinuationBit(b: nat, k: nat)
    requires b < 2 * Pow2(k)
    ensures And(b, Pow2(k)) == 0 <==> b < Pow2(k)
    ensures Or(b, Pow2(k)) == if b < Pow2(k) then b + Pow2(k) else b
  {
    if k == 0 {
      assert Or(0, 1) == 1 && Or(1, 1) == 1 && And(0, 1) == 0 && And(1, 1) == 1;
    } else {
      ContinuationBit(b / 2, k - 1);
      assert Pow2(k) / 2 == Pow2(k - 1) && Pow2(k) % 2 == 0;
    }
  }

  /** Setting bit k and then keeping k + 1 bits, for numbers of any size. */
  lemma {:induction false} OrLow(a: int, k: nat)
    ensures Or(a, Pow2(k)) % (2 * Pow2(k)) == a % Pow2(k) + Pow2(k)
    decreases k
  {
    if k == 0 {
      OrOne(a);
      hide Or;
    } else {
      var p := Pow2(k - 1);
      hide Or;
      OrLow(a / 2, k - 1);
      OrLowStep(a, p);
    }
  }

  lemma OrOne(a: int)
    ensures Or(a, 1) % 2 == 1
  {
    OrStep(a, 1);
    hide Or;
  }

  lemma OrStep(a: int, b: int)
    requires !AllSignBits(b)
    ensures Or(a, b) == 2 * Or(a / 2, b / 2) + if a % 2 == 1 || b % 2 == 1 then 1 else 0
  {
  }

  lemma OrLowStep(a: int, p: nat)
    requires p > 0 && Or(a / 2, p) % (2 * p) == (a / 2) % p + p
    ensures Or(a, 2 * p) % (2 * (2 * p)) == a % (2 * p) + 2 * p
  {
    OrEven(a, p);
    hide Or;
    ModTwice(Or(a, 2 * p), 2 * p);
    ModTwice(a, p);
  }

  lemma OrEven(a: int, p: nat)
    requires p > 0
    ensures Or(a, 2 * p) == 2 * Or(a / 2, p) + a % 2
  {
    OrStep(a, 2 * p);
    hide Or;
    assert (2 * p) / 2 == p && (2 * p) % 2 == 0;
  }

  lemma {:induction false} OrComm(a: int)
    ensures Or(a, 0) == Or(0, a)
    decreases Magnitude(a)
  {
    if !AllSignBits(a) {
      OrComm(a / 2);
    }
  }
}
