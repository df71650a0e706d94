/** Bitwise operations on non-negative integers, defined bit by bit from the
    least significant bit, and the facts about them that the swizzle of the
    tiled layout needs: an AND with a low mask keeps a remainder, an AND with
    an even mask shifts, and an XOR with a power of two flips one bit. */
module Bits {
  import opened Arithmetic

  function Pow2(k: nat): (r: nat)
    ensures r >= 1
  {
    if k == 0 then 1 else 2 * Pow2(k - 1)
  }

  lemma Pow2Values()
    ensures Pow2(1) == 2 && Pow2(2) == 4 && Pow2(3) == 8 && Pow2(4) == 16
    ensures Pow2(5) == 32 && Pow2(8) == 256
  {
  }

  /** a & b */
  function BitAnd(a: nat, b: nat): nat
  {
    if a == 0 || b == 0 then 0
    else 2 * BitAnd(a / 2, b / 2) + (if a % 2 == 1 && b % 2 == 1 then 1 else 0)
  }

  /** a ^ b */
  function BitXor(a: nat, b: nat): nat
  {
    if a == 0 then b
    else if b == 0 then a
    else 2 * BitXor(a / 2, b / 2) + (if a % 2 != b % 2 then 1 else 0)
  }

  /** Bit k of n. */
  function Bit(n: nat, k: nat): nat
  {
    n / Pow2(k) % 2
  }

  /** Halving then taking the remainder by p is taking the remainder by 2p
      and halving. */
  lemma HalfMod(a: nat, p: nat)
    requires p >= 1
    ensures a % (2 * p) == 2 * (a / 2 % p) + a % 2
    ensures a / 2 / p == a / (2 * p)
  {
    var q, r := a / 2 / p, a / 2 % p;
    assert a / 2 == q * p + r;
    assert a == q * (2 * p) + (2 * r + a % 2);
    DivModUnique(a, 2 * p, q, 2 * r + a % 2);
  }

  /** a & (2^k - 1) keeps the low k bits: it is a % 2^k. */
  lemma {:induction false} BitAndLowMask(a: nat, k: nat)
    ensures BitAnd(a, Pow2(k) - 1) == a % Pow2(k)
  {
    if k == 0 {
      assert Pow2(k) == 1;
    } else if a != 0 {
      BitAndLowMask(a / 2, k - 1);
      LowMaskStep(a, Pow2(k - 1), Pow2(k));
    }
  }

  /** One step of BitAndLowMask: from the low bits of a / 2 under the mask
      p - 1 to the low bits of a under the mask 2p - 1. */
  lemma LowMaskStep(a: nat, p: nat, m: nat)
    requires a > 0 && p >= 1 && m == 2 * p
    requires BitAnd(a / 2, p - 1) == a / 2 % p
    ensures BitAnd(a, m - 1) == a % m
  {
    assert BitAnd(a, m - 1) == 2 * BitAnd(a / 2, p - 1) + a % 2;
    HalfMod(a, p);
  }

  /** An AND with an even mask is twice the AND of the halves. */
  lemma BitAndEvenMask(a: nat, m: nat)
    requires m % 2 == 0
    ensures BitAnd(a, m) == 2 * BitAnd(a / 2, m / 2)
  {
  }

  /** XOR with nothing set changes nothing. */
  lemma BitXorZero(a: nat)
    ensures BitXor(a, 0) == a
  {
  }

  /** a ^ 2^k flips bit k of a: it adds 2^k when the bit is clear and
      subtracts it when the bit is set. */
  lemma {:induction false} BitXorPow2(a: nat, k: nat)
    ensures BitXor(a, Pow2(k)) == if Bit(a, k) == 0 then a + Pow2(k) else a - Pow2(k)
  {
    if a == 0 {
    } else if k == 0 {
      BitXorZero(a / 2);
    } else {
      BitXorPow2(a / 2, k - 1);
      XorStep(a, Pow2(k - 1), Pow2(k));
    }
  }

  /** One step of BitXorPow2: from flipping the bit of a / 2 worth p to
      flipping the bit of a worth 2p. */
  lemma XorStep(a: nat, p: nat, m: nat)
    requires a > 0 && p >= 1 && m == 2 * p
    requires BitXor(a / 2, p) == if a / 2 / p % 2 == 0 then a / 2 + p else a / 2 - p
    ensures BitXor(a, m) == if a / m % 2 == 0 then a + m else a - m
  {
    assert BitXor(a, m) == 2 * BitXor(a / 2, p) + a % 2;
    DivDiv(a, 2, p);
  }
}
