/** Rounding addresses with masks (AlignUpTo8 in arena_impl.h, AlignTo in arena.h), on 64-bit words. */
module Alignment {
  import opened Bits
  import opened Powers

  /** The complement plus one, in 64 bits. */
  function Negate(x: nat): nat
    requires 0 < x <= TWO64
  {
    TWO64 - x
  }

  function AlignUpTo8(n: nat): nat {
    And(n + 7, Negate(8))
  }

  function AlignTo(p: nat, align: nat): nat
    requires 0 < align <= TWO64
  {
    And(p + align - 1, Negate(align))
  }

  /** AlignTo gives the least multiple of a power of two that is not below p. */
  lemma AlignToRounds(p: nat, k: nat)
    requires k < 64 && p + Pow2(k) - 1 < TWO64
    ensures 0 < Pow2(k) <= TWO64
    ensures var r := AlignTo(p, Pow2(k));
            r == High(p + Pow2(k) - 1, k) * Pow2(k) && p <= r < p + Pow2(k)
  {
    hide Pow2, High, And;
    WordSizes();
    MaskRounds(p + Pow2(k) - 1, 64, k);
    HighBounds(p + Pow2(k) - 1, k);
  }

  lemma AlignUpTo8Rounds(n: nat)
    requires n + 7 < TWO64
    ensures AlignUpTo8(n) % 8 == 0 && n <= AlignUpTo8(n) < n + 8
  {
    hide Pow2, High, And;
    WordSizes();
    MaskRounds(n + 7, 64, 3);
    HighBounds(n + 7, 3);
  }

  lemma Eightfold(k: nat)
    requires 3 <= k
    ensures Pow2(k) == 8 * Pow2(k - 3)
  {
    assert Pow2(k) == 2 * Pow2(k - 1) == 4 * Pow2(k - 2);
  }

  /** A multiple of a power of two above 8 is a multiple of 8. */
  lemma MultipleOf8(q: nat, k: nat)
    requires 3 <= k
    ensures (q * Pow2(k)) % 8 == 0 && Pow2(k) % 8 == 0
  {
    hide Pow2;
    var m := Pow2(k - 3);
    Eightfold(k);
    assert q * Pow2(k) == q * (8 * m) == 8 * (q * m);
  }

  /** Over-allocating by align - 8 leaves room for the aligned object. */
  lemma OverAlignedFits(p: nat, size: nat, k: nat)
    requires 3 < k < 64 && p % 8 == 0 && p + Pow2(k) - 1 < TWO64
    ensures 0 < Pow2(k) <= TWO64
    ensures var r := AlignTo(p, Pow2(k));
            r == High(p + Pow2(k) - 1, k) * Pow2(k) && p <= r && r + size <= p + (size + Pow2(k) - 8)
  {
    hide Pow2, High, AlignTo;
    AlignToRounds(p, k);
    MultipleOf8(High(p + Pow2(k) - 1, k), k);
  }
}
