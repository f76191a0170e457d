/** Bitwise and on natural numbers, for masks made of powers of two. */
module Bits {
  import opened Powers

  /** Bitwise and. */
  function And(x: nat, y: nat): nat {
    if x == 0 || y == 0 then 0 else 2 * And(x / 2, y / 2) + (if x % 2 == 1 && y % 2 == 1 then 1 else 0)
  }

  lemma {:induction false} AndOnes(x: nat, w: nat)
    requires x < Pow2(w)
    ensures And(x, Pow2(w) - 1) == x
  {
    if 0 < x {
      AndOnes(x / 2, w - 1);
    }
  }

  /** x without its last k bits. */
  function High(x: nat, k: nat): nat {
    if k == 0 then x else High(x / 2, k - 1)
  }

  lemma HighStep(x: nat, k: nat)
    requires 0 < k
    ensures High(x, k) * Pow2(k) == 2 * (High(x / 2, k - 1) * Pow2(k - 1))
  {
  }

  lemma {:induction false} HighBounds(x: nat, k: nat)
    ensures High(x, k) * Pow2(k) <= x < High(x, k) * Pow2(k) + Pow2(k)
  {
    if k != 0 {
      HighBounds(x / 2, k - 1);
      HighStep(x, k);
    }
  }

  lemma AndEven(x: nat, y: nat)
    ensures And(x, 2 * y) == 2 * And(x / 2, y)
  {
  }

  /** Masking with the negation of a power of two rounds down to a multiple of it. */
  lemma {:induction false} MaskRounds(x: nat, w: nat, k: nat)
    requires x < Pow2(w) && k <= w
    ensures Pow2(k) <= Pow2(w) && And(x, Pow2(w) - Pow2(k)) == High(x, k) * Pow2(k)
  {
    hide High, And;
    Pow2Monotone(k, w);
    if k == 0 {
      AndOnes(x, w);
      HighBounds(x, 0);
    } else {
      MaskRounds(x / 2, w - 1, k - 1);
      AndEven(x, Pow2(w - 1) - Pow2(k - 1));
      HighStep(x, k);
    }
  }

  /** Masking with a power of two less one keeps what rounding down drops. */
  lemma {:induction false} MaskKeeps(x: nat, k: nat)
    ensures And(x, Pow2(k) - 1) == x - High(x, k) * Pow2(k)
  {
    if k != 0 {
      MaskKeeps(x / 2, k - 1);
      AndOdd(x, Pow2(k - 1) - 1);
      HighStep(x, k);
    }
  }

  lemma AndOdd(x: nat, y: nat)
    ensures And(x, 2 * y + 1) == 2 * And(x / 2, y) + x % 2
  {
  }
}
