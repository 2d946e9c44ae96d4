/** 64-bit sequence numbers (lp::Sequence) and their wrap-around arithmetic. */
module Sequence64 {

  const MOD: nat := 0x1_0000_0000_0000_0000

  type Seq64 = n: nat | n < MOD

  /** The sequence number of the n-th element of an unbounded numbering. */
  function Wrap(n: nat): Seq64 {
    n % MOD
  }

  /** `++s` on an lp::Sequence. */
  function Next(s: Seq64): Seq64 {
    if s == MOD - 1 then 0 else s + 1
  }

  /** Number of increments that lead from `a` to `b`. */
  function Dist(a: Seq64, b: Seq64): Seq64 {
    if a <= b then b - a else b - a + MOD
  }

  lemma WrapInjective(a: nat, b: nat)
    requires Wrap(a) == Wrap(b)
    requires -(MOD as int) < a - b < MOD
    ensures a == b
  {
    assert a - b == (a / MOD - b / MOD) * MOD;
  }

  lemma WrapNext(n: nat)
    ensures Wrap(n + 1) == Next(Wrap(n))
  {
  }

  lemma WrapSmall(s: Seq64)
    ensures Wrap(s) == s
  {
  }

  /** Cyclic distance is distance in the unbounded numbering, while that is below 2^64. */
  lemma WrapDist(a: nat, b: nat)
    requires a <= b < a + MOD
    ensures Dist(Wrap(a), Wrap(b)) == b - a
  {
    var q := a / MOD;
    assert a == q * MOD + Wrap(a);
    if Wrap(a) + (b - a) < MOD {
      WrapOf(b, q, Wrap(a) + (b - a));
    } else {
      WrapOf(b, q + 1, Wrap(a) + (b - a) - MOD);
    }
  }

  lemma WrapOf(n: nat, q: nat, r: nat)
    requires n == q * MOD + r && r < MOD
    ensures Wrap(n) == r
  {
    var d := n / MOD - q;
    assert d * MOD == r - Wrap(n);
  }

  lemma WrapPlusMod(n: nat)
    ensures Wrap(n + MOD) == Wrap(n)
  {
  }

  lemma WrapPlus(n: nat, i: nat)
    ensures Wrap(Wrap(n) + i) == Wrap(n + i)
  {
    var m := Wrap(n) + i;
    WrapOf(n + i, n / MOD + m / MOD, m % MOD);
  }

  /** Distance from k to x, measured back from a common end point. */
  lemma DistVia(k: Seq64, x: Seq64, last: Seq64)
    ensures Dist(k, x) == if Dist(x, last) <= Dist(k, last) then Dist(k, last) - Dist(x, last)
                          else Dist(k, last) - Dist(x, last) + MOD
  {
  }
}
