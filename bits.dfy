/** Bitmasks as non-negative integers, with Python's `|` on them. */
module Bits {

  function Pow2(k: nat): (r: nat)
    ensures r >= 1
  {
    if k == 0 then 1 else 2 * Pow2(k - 1)
  }

  /** Python's `a | b` on non-negative integers. */
  function Or(a: nat, b: nat): nat
    decreases a + b
  {
    if a == 0 then b
    else if b == 0 then a
    else 2 * Or(a / 2, b / 2) + (if a % 2 == 1 || b % 2 == 1 then 1 else 0)
  }

  /** Bit `k` of `x` is set. */
  predicate HasBit(x: nat, k: nat) {
    if k == 0 then x % 2 == 1 else HasBit(x / 2, k - 1)
  }

  lemma {:induction false} ZeroHasNoBit(k: nat)
    ensures !HasBit(0, k)
  {
    if k > 0 { ZeroHasNoBit(k - 1); }
  }

  /** A bit of `a | b` is set exactly when it is set in `a` or in `b`. */
  lemma {:induction false} OrHasBit(a: nat, b: nat, k: nat)
    ensures HasBit(Or(a, b), k) <==> HasBit(a, k) || HasBit(b, k)
    decreases a + b
  {
    if a == 0 {
      ZeroHasNoBit(k);
    } else if b == 0 {
      ZeroHasNoBit(k);
    } else if k > 0 {
      var r := if a % 2 == 1 || b % 2 == 1 then 1 else 0;
      assert (2 * Or(a / 2, b / 2) + r) / 2 == Or(a / 2, b / 2);
      OrHasBit(a / 2, b / 2, k - 1);
    }
  }

  /** `|` of two masks below `2^n` stays below `2^n`. */
  lemma {:induction false} OrBelow(a: nat, b: nat, n: nat)
    requires a < Pow2(n) && b < Pow2(n)
    ensures Or(a, b) < Pow2(n)
    decreases a + b
  {
    if a != 0 && b != 0 {
      assert n > 0;
      OrBelow(a / 2, b / 2, n - 1);
    }
  }

  /** `2^j` has exactly bit `j` set. */
  lemma {:induction false} Pow2HasBit(j: nat, k: nat)
    ensures HasBit(Pow2(j), k) <==> j == k
  {
    if j == 0 {
      if k > 0 { ZeroHasNoBit(k - 1); }
    } else if k == 0 {
      assert Pow2(j) % 2 == 0;
    } else {
      assert Pow2(j) / 2 == Pow2(j - 1);
      Pow2HasBit(j - 1, k - 1);
    }
  }

  /** A mask below `2^n` has no bit at position `n` or above. */
  lemma {:induction false} BelowHasNoHighBit(x: nat, n: nat, k: nat)
    requires x < Pow2(n) && n <= k
    ensures !HasBit(x, k)
  {
    if n == 0 {
      ZeroHasNoBit(k);
    } else {
      BelowHasNoHighBit(x / 2, n - 1, k - 1);
    }
  }

  lemma Pow2Monotone(j: nat, k: nat)
    requires j < k
    ensures Pow2(j) < Pow2(k)
  {}
}
