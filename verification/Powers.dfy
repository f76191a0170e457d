/** Powers of two and the position of the highest bit. */
module Powers {

  const TWO32: nat := 0x1_0000_0000
  const TWO64: nat := 0x1_0000_0000_0000_0000

  function Pow2(n: nat): (p: nat)
    ensures 0 < p
  {
    if n == 0 then 1 else 2 * Pow2(n - 1)
  }

  lemma {:induction false} Pow2Add(p: nat, q: nat)
    ensures Pow2(p + q) == Pow2(p) * Pow2(q)
  {
    if q != 0 {
      Pow2Add(p, q - 1);
      assert Pow2(p + q) == 2 * Pow2(p + (q - 1));
      assert Pow2(p) * (2 * Pow2(q - 1)) == 2 * (Pow2(p) * Pow2(q - 1));
    }
  }

  lemma {:induction false} Pow2Monotone(p: nat, q: nat)
    requires p <= q
    ensures Pow2(p) <= Pow2(q)
  {
    if p < q {
      Pow2Monotone(p, q - 1);
    }
  }

  lemma {:induction false} Pow2Exceeds(n: nat)
    ensures n < Pow2(n)
  {
    if 0 < n {
      Pow2Exceeds(n - 1);
    }
  }

  lemma WordSizes()
    ensures Pow2(3) == 8 && Pow2(32) == TWO32 && Pow2(64) == TWO64
  {
    assert Pow2(8) == 256;
    Pow2Add(8, 8);
    Pow2Add(16, 16);
    Pow2Add(32, 32);
  }

  /** Position of the highest bit set. */
  function Log2Floor(v: nat): nat
    requires 0 < v
  {
    if v == 1 then 0 else 1 + Log2Floor(v / 2)
  }

  lemma {:induction false} Log2Bounds(v: nat)
    requires 0 < v
    ensures Pow2(Log2Floor(v)) <= v < Pow2(Log2Floor(v) + 1)
  {
    if 1 < v {
      Log2Bounds(v / 2);
    }
  }

  lemma {:induction false} LogBelow(v: nat, n: nat)
    requires 0 < v < Pow2(n)
    ensures Log2Floor(v) < n
  {
    if 1 < v {
      LogBelow(v / 2, n - 1);
    }
  }

  lemma {:induction false} LogAtLeast(v: nat, n: nat)
    requires Pow2(n) <= v
    ensures 0 < v && n <= Log2Floor(v)
  {
    if 0 < n {
      LogAtLeast(v / 2, n - 1);
    }
  }
}
