/** Bitwise conjunction on naturals, and the powers of two it detects. */
module Bits {

  /** `a & b` on non-negative integers, bit by bit from the lowest. */
  function AndNat(a: nat, b: nat): nat
  {
    if a == 0 || b == 0 then 0
    else 2 * AndNat(a / 2, b / 2) + (if a % 2 == 1 && b % 2 == 1 then 1 else 0)
  }

  /** `u` is 2^k for some k. */
  predicate Pow2(u: nat)
  {
    u == 1 || (u >= 2 && u % 2 == 0 && Pow2(u / 2))
  }

  function Pow(k: nat): (p: nat)
    ensures p >= 1
  {
    if k == 0 then 1 else 2 * Pow(k - 1)
  }

  lemma {:induction false} AndSelf(a: nat)
    ensures AndNat(a, a) == a
  {
    if a != 0 {
      AndSelf(a / 2);
    }
  }

  /** The classic test: `u & (u - 1)` is zero exactly for powers of two. */
  lemma {:induction false} AndPredecessor(u: nat)
    requires u >= 1
    ensures AndNat(u, u - 1) == 0 <==> Pow2(u)
    decreases u
  {
    if u == 1 {
    } else if u % 2 == 1 {
      assert (u - 1) / 2 == u / 2;
      AndSelf(u / 2);
    } else {
      assert (u - 1) / 2 == u / 2 - 1;
      AndPredecessor(u / 2);
    }
  }

  /** No power of two lies strictly between 2^k and 2^(k+1). */
  lemma {:induction false} Pow2Gap(u: nat, k: nat)
    requires Pow(k) < u < 2 * Pow(k)
    ensures !Pow2(u)
  {
    if k > 0 && u % 2 == 0 {
      Pow2Gap(u / 2, k - 1);
    }
  }

  lemma {:induction false} PowAdd(a: nat, b: nat)
    ensures Pow(a + b) == Pow(a) * Pow(b)
  {
    if a > 0 {
      PowAdd(a - 1, b);
    }
  }

  lemma Pow31()
    ensures Pow(31) == 0x8000_0000
  {
    assert Pow(1) == 2;
    PowAdd(1, 1);
    assert Pow(2) == 4;
    PowAdd(2, 2);
    assert Pow(4) == 0x10;
    PowAdd(4, 4);
    assert Pow(8) == 0x100;
    PowAdd(8, 8);
    assert Pow(16) == 0x1_0000;
    PowAdd(16, 8);
    assert Pow(24) == 0x100_0000;
    PowAdd(24, 4);
    assert Pow(28) == 0x1000_0000;
    PowAdd(28, 2);
    assert Pow(30) == 0x4000_0000;
    PowAdd(30, 1);
  }
}
