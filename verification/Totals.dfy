/** Sums over the workers of a system, and how they change when one worker takes a step. */
module Totals {

  ghost function Total<T>(xs: seq<T>, f: T -> int): int {
    if xs == [] then 0 else f(xs[0]) + Total(xs[1..], f)
  }

  lemma {:induction false} TotalUpdate<T>(xs: seq<T>, i: nat, x: T, f: T -> int)
    requires i < |xs|
    ensures Total(xs[i := x], f) == Total(xs, f) - f(xs[i]) + f(x)
    decreases i
  {
    if i == 0 {
      assert xs[0 := x][1..] == xs[1..];
    } else {
      assert xs[i := x][1..] == xs[1..][i - 1 := x];
      TotalUpdate(xs[1..], i - 1, x, f);
    }
  }

  /** A bound on every worker bounds the sum. */
  lemma {:induction false} TotalBound<T>(xs: seq<T>, f: T -> int, hi: int)
    requires forall i | 0 <= i < |xs| :: f(xs[i]) <= hi
    ensures Total(xs, f) <= |xs| * hi
  {
    if xs != [] {
      TotalBound(xs[1..], f, hi);
      assert |xs| * hi == hi + (|xs| - 1) * hi;
    }
  }

  lemma {:induction false} TotalAdd<T>(xs: seq<T>, f: T -> int, g: T -> int, h: T -> int)
    requires forall i | 0 <= i < |xs| :: h(xs[i]) == f(xs[i]) + g(xs[i])
    ensures Total(xs, h) == Total(xs, f) + Total(xs, g)
  {
    if xs != [] {
      TotalAdd(xs[1..], f, g, h);
    }
  }

  lemma {:induction false} TotalNonNegative<T>(xs: seq<T>, f: T -> int)
    requires forall i | 0 <= i < |xs| :: f(xs[i]) >= 0
    ensures Total(xs, f) >= 0
    ensures forall i | 0 <= i < |xs| :: f(xs[i]) <= Total(xs, f)
  {
    if xs != [] {
      TotalNonNegative(xs[1..], f);
      forall i | 0 <= i < |xs| ensures f(xs[i]) <= Total(xs, f) {
        if i > 0 {
          assert xs[i] == xs[1..][i - 1];
        }
      }
    }
  }

  /** The sum over workers that all start alike. */
  lemma {:induction false} TotalAlike<T>(xs: seq<T>, f: T -> int, c: int)
    requires forall i | 0 <= i < |xs| :: f(xs[i]) == c
    ensures Total(xs, f) == |xs| * c
  {
    if xs != [] {
      TotalAlike(xs[1..], f, c);
      assert |xs| * c == c + (|xs| - 1) * c;
    }
  }
}
