/** Powers of two and least-significant-bit-first bit strings. */
module Bits {
  import opened Arith

  type byte = x: int | 0 <= x < 256

  function Pow2(n: nat): (p: nat)
    ensures p > 0
  {
    if n == 0 then 1 else 2 * Pow2(n - 1)
  }

  lemma {:induction false} Pow2Add(m: nat, n: nat)
    ensures Pow2(m + n) == Pow2(m) * Pow2(n)
  {
    if m > 0 {
      Pow2Add(m - 1, n);
    }
  }

  lemma {:induction false} Pow2Mono(m: nat, n: nat)
    requires m <= n
    ensures Pow2(m) <= Pow2(n)
    ensures m < n ==> Pow2(m) < Pow2(n)
  {
    if m < n {
      Pow2Mono(m, n - 1);
    }
  }

  function Bit(b: bool): nat { if b then 1 else 0 }

  /** The number a bit string spells, first bit least significant. */
  function Val(bits: seq<bool>): nat {
    if bits == [] then 0 else Bit(bits[0]) + 2 * Val(bits[1..])
  }

  /** The n low bits of v, least significant first. */
  function BitsOf(v: nat, n: nat): (bits: seq<bool>)
    ensures |bits| == n
  {
    if n == 0 then [] else [v % 2 == 1] + BitsOf(v / 2, n - 1)
  }

  lemma {:induction false} ValBitsOf(v: nat, n: nat)
    requires v < Pow2(n)
    ensures Val(BitsOf(v, n)) == v
  {
    if n > 0 {
      ValBitsOf(v / 2, n - 1);
    }
  }

  lemma {:induction false} BitsOfVal(bits: seq<bool>)
    ensures Val(bits) < Pow2(|bits|)
    ensures BitsOf(Val(bits), |bits|) == bits
  {
    if bits != [] {
      BitsOfVal(bits[1..]);
    }
  }

  /** Gluing b behind a's n low bits shifts it up by n. */
  lemma {:induction false} BitsOfSum(a: nat, b: nat, n: nat, m: nat)
    requires a < Pow2(n)
    ensures BitsOf(a + b * Pow2(n), n + m) == BitsOf(a, n) + BitsOf(b, m)
  {
    hide BitsOf;
    BitsStep(a, n);
    if n == 0 {
      assert b * Pow2(0) == b;
    } else {
      var p := b * Pow2(n - 1);
      Twice(b, Pow2(n - 1));
      BitsOfSum(a / 2, b, n - 1, m);
      BitsOfDouble(a, p, n + m);
    }
  }

  lemma Twice(x: nat, y: nat)
    ensures x * (2 * y) == 2 * (x * y)
  {
  }

  lemma BitsStep(v: nat, n: nat)
    ensures BitsOf(v, n) == if n == 0 then [] else [v % 2 == 1] + BitsOf(v / 2, n - 1)
  {
  }

  lemma BitsOfDouble(a: nat, p: nat, n: nat)
    requires n > 0
    ensures BitsOf(a + 2 * p, n) == [a % 2 == 1] + BitsOf(a / 2 + p, n - 1)
  {
    assert (a + 2 * p) / 2 == a / 2 + p && (a + 2 * p) % 2 == a % 2;
  }

  /** The n low bits come first and spell the remainder. */
  lemma BitsSplit(low: nat, high: nat, n: nat, total: nat)
    requires n <= total && low < Pow2(n)
    ensures BitsOf(low + high * Pow2(n), total)[..n] == BitsOf(low, n)
    ensures BitsOf(low + high * Pow2(n), total)[n..] == BitsOf(high, total - n)
    ensures Val(BitsOf(low, n)) == low
  {
    hide Pow2, BitsOf, Val;
    BitsOfSum(low, high, n, total - n);
    ValBitsOf(low, n);
  }
}
