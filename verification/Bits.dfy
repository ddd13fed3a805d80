/** The bit-level functions of the machine integers that the sources use,
    on unbounded naturals. */
module Bits {
  import opened Bytes

  function Pow2(n: nat): (p: nat)
    ensures p >= 1
  {
    if n == 0 then 1 else 2 * Pow2(n - 1)
  }

  lemma {:induction false} Pow2Sum(m: nat, n: nat)
    ensures Pow2(m + n) == Pow2(m) * Pow2(n)
  {
    if m == 0 {
    } else {
      Pow2Sum(m - 1, n);
    }
  }

  /** Position of the most significant set bit counted from 1; 0 for zero. */
  function BitLength(x: nat): nat {
    if x == 0 then 0 else 1 + BitLength(x / 2)
  }

  function PopCount(x: nat): nat {
    if x == 0 then 0 else x % 2 + PopCount(x / 2)
  }

  function Xor(x: nat, y: nat): nat
    decreases x + y
  {
    if x == 0 && y == 0 then 0 else (x + y) % 2 + 2 * Xor(x / 2, y / 2)
  }

  function ShiftRight(x: nat, n: nat): nat {
    if n == 0 then x else ShiftRight(x / 2, n - 1)
  }

  lemma {:induction false} BitLengthBounds(x: nat)
    requires x > 0
    ensures BitLength(x) >= 1
    ensures Pow2(BitLength(x) - 1) <= x < Pow2(BitLength(x))
  {
    if x <= 1 {
    } else {
      BitLengthBounds(x / 2);
    }
  }

  lemma {:induction false} BitLengthAtMost(x: nat, n: nat)
    ensures BitLength(x) <= n <==> x < Pow2(n)
  {
    if x == 0 || n == 0 {
    } else {
      BitLengthAtMost(x / 2, n - 1);
    }
  }

  lemma {:induction false} Pow2Doubled(n: nat, p: nat)
    requires Pow2(n) == p
    ensures Pow2(2 * n) == p * p
  {
    Pow2Sum(n, n);
  }

  lemma Pow2Of64()
    ensures Pow2(64) == 0x1_0000_0000_0000_0000
  {
    assert Pow2(4) == 16;
    Pow2Doubled(4, 16);
    Pow2Doubled(8, 0x100);
    Pow2Doubled(16, 0x1_0000);
    Pow2Doubled(32, 0x1_0000_0000);
  }

  /** `leading_zeros` of a 64-bit integer. */
  function LeadingZeros64(x: u64): (z: nat)
    ensures z == 64 - BitLength(x)
  {
    BitLengthAtMost(x, 64);
    Pow2Of64();
    64 - BitLength(x)
  }
}
