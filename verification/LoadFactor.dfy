/** When Map::InnerMap grows and shrinks: the arithmetic of ResizeIfLoadIsOutOfRange in map.h. */
module LoadFactor {
  import opened Powers

  const K_MIN_TABLE_SIZE := 8
  const MAX_SIZE: nat := 0x1000_0000_0000_0000        // max_size(), 2^60

  ghost predicate IsPow2(n: nat) {
    exists p: nat :: n == Pow2(p)
  }

  function HiCutoff(buckets: nat): nat {
    buckets * 12 / 16
  }

  /** Shifting right is dividing by two again and again. */
  function ShiftRight(n: nat, j: nat): nat {
    if j == 0 then n else ShiftRight(n, j - 1) / 2
  }

  lemma {:induction false} ShiftPow2(p: nat, j: nat)
    ensures ShiftRight(Pow2(p), j) == if j <= p then Pow2(p - j) else 0
  {
    if j != 0 {
      ShiftPow2(p, j - 1);
    }
  }

  /** The loop that estimates how far to shrink stops at j. */
  ghost predicate ShrinkStops(newSize: nat, buckets: nat, j: nat) {
    && 1 <= j
    && HiCutoff(buckets) <= (newSize * 5 / 4 + 1) * Pow2(j)
    && (1 < j ==> (newSize * 5 / 4 + 1) * Pow2(j - 1) < HiCutoff(buckets))
  }

  predicate Shrinks(newSize: nat, buckets: nat) {
    newSize < HiCutoff(buckets) && newSize <= HiCutoff(buckets) / 4 && K_MIN_TABLE_SIZE < buckets
  }

  /** The table size that ResizeIfLoadIsOutOfRange leaves behind. */
  ghost predicate Target(newSize: nat, buckets: nat, after: nat) {
    var hi := HiCutoff(buckets);
    if hi <= newSize then
      after == if MAX_SIZE / 2 < buckets then buckets else if buckets == 1 then K_MIN_TABLE_SIZE else 2 * buckets
    else if Shrinks(newSize, buckets) then
      exists j :: ShrinkStops(newSize, buckets, j) && after == Max(K_MIN_TABLE_SIZE, ShiftRight(buckets, j))
    else
      after == buckets
  }

  function Max(a: nat, b: nat): nat {
    if a < b then b else a
  }

  /** A legal number of buckets: the global empty table, or a power of two in range. */
  ghost predicate Legal(buckets: nat) {
    IsPow2(buckets) && (buckets == 1 || K_MIN_TABLE_SIZE <= buckets <= MAX_SIZE)
  }

  lemma LegalSize(buckets: nat)
    requires Legal(buckets)
    ensures 1 <= buckets <= MAX_SIZE && (buckets == 1 || buckets % 2 == 0)
  {
    var p: nat :| buckets == Pow2(p);
  }

  /** Fewer than 6/5 elements a bucket, unless the table is as large as it may get. */
  predicate LoadOk(elements: nat, buckets: nat) {
    buckets < MAX_SIZE ==> 5 * elements < 6 * buckets
  }

  lemma Distribute(a: nat, b: nat, q: nat)
    ensures (a + b) * q == a * q + b * q
  {
  }

  lemma MulMonotone(a: nat, b: nat, q: nat)
    ensures a <= b ==> a * q <= b * q
  {
    if a <= b {
      Distribute(a, b - a, q);
    }
  }

  /** Cancelling q in 2hq < 3mq. */
  lemma Cancel(h: nat, m: nat, q: nat)
    requires 2 * (h * q) < 3 * (m * q)
    ensures 2 * h < 3 * m
  {
    Distribute(h, h, q);
    Distribute(m, m, q);
    Distribute(m + m, m, q);
    MulMonotone(m + m + m, h + h, q);
  }

  lemma ShrinkBound(newSize: nat, buckets: nat, p: nat, j: nat)
    requires buckets == Pow2(p) && newSize <= HiCutoff(buckets) / 4
    requires ShrinkStops(newSize, buckets, j) && j <= p
    ensures 5 * newSize < 6 * Pow2(p - j)
  {
    var m, h, q := Pow2(p - j), newSize * 5 / 4 + 1, Pow2(j - 1);
    Pow2Add(p - j, j - 1);
    assert buckets == 2 * (m * q);
    if 1 < j {
      Cancel(h, m, q);
    }
  }

  /** The shrink loop stops before it has shifted the table away. */
  lemma ShrinkInRange(newSize: nat, buckets: nat, p: nat, j: nat)
    requires buckets == Pow2(p) && K_MIN_TABLE_SIZE < buckets && ShrinkStops(newSize, buckets, j)
    ensures j <= p
  {
    if p < j {
      Pow2Monotone(p, j - 1);
      if 1 < j {
        MulGrows(newSize * 5 / 4 + 1, Pow2(j - 1));
      }
    }
  }

  lemma MulGrows(h: nat, q: nat)
    requires 0 < h
    ensures q <= h * q
  {
  }

  /** The shrink loop always leaves a table of legal size with room for the new element. */
  lemma ShrinkOk(newSize: nat, buckets: nat, j: nat)
    requires Legal(buckets) && K_MIN_TABLE_SIZE < buckets
    requires newSize <= HiCutoff(buckets) / 4 && ShrinkStops(newSize, buckets, j)
    ensures var after := Max(K_MIN_TABLE_SIZE, ShiftRight(buckets, j));
            Legal(after) && 5 * newSize < 6 * after && after < buckets
  {
    hide ShrinkStops, HiCutoff;
    var p: nat :| buckets == Pow2(p);
    ShrinkInRange(newSize, buckets, p, j);
    ShiftPow2(p, j);
    assert Pow2(3) == 8;
    ShrinkBound(newSize, buckets, p, j);
    assert 1 <= j by { AtLeastOne(newSize, buckets, j); }
    Pow2Monotone(p - j, p - 1);
  }

  lemma AtLeastOne(newSize: nat, buckets: nat, j: nat)
    requires ShrinkStops(newSize, buckets, j)
    ensures 1 <= j
  {
  }

  lemma Pow2Max()
    ensures 2 * Pow2(59) == Pow2(60) == MAX_SIZE
  {
    assert Pow2(15) == 0x8000;
    Pow2Add(15, 15);
    Pow2Add(30, 30);
  }

  lemma Doubled(h: nat, j: nat)
    ensures h * Pow2(j + 1) == 2 * (h * Pow2(j))
  {
  }

  /** One more turn of the loop that looks for the shift keeps the shifted value inside 64 bits. */
  lemma ShiftOneMore(h: nat, hi: nat, j: nat)
    requires 0 < h && hi <= MAX_SIZE && h * Pow2(j) < hi
    ensures j < hi && h * Pow2(j + 1) == 2 * (h * Pow2(j)) < TWO64
  {
    Pow2Exceeds(j);
    MulGrows(h, Pow2(j));
    Doubled(h, j);
  }

  /** Whatever size the table takes to let one more element in, it is legal and not overloaded. */
  lemma TargetOk(newSize: nat, buckets: nat, after: nat)
    requires Legal(buckets) && 0 < newSize && LoadOk(newSize - 1, buckets)
    requires Target(newSize, buckets, after)
    ensures Legal(after) && 1 < after && LoadOk(newSize, after)
  {
    var p: nat :| buckets == Pow2(p);
    assert Pow2(3) == 8 && 2 * buckets == Pow2(p + 1);
    Pow2Max();
    if MAX_SIZE / 2 < buckets < MAX_SIZE {
      if p < 60 { Pow2Monotone(p, 59); } else { Pow2Monotone(60, p); }
    }
    if Shrinks(newSize, buckets) {
      var j :| ShrinkStops(newSize, buckets, j) && after == Max(K_MIN_TABLE_SIZE, ShiftRight(buckets, j));
      ShrinkOk(newSize, buckets, j);
    }
  }

  lemma ShiftMonotone(h: nat, j: nat, k: nat)
    requires j <= k
    ensures h * Pow2(j) <= h * Pow2(k)
  {
    Pow2Monotone(j, k);
    MulMonotone(Pow2(j), Pow2(k), h);
  }

  /** The shrink loop has one place to stop. */
  lemma StopsOnce(newSize: nat, buckets: nat, j: nat, k: nat)
    requires ShrinkStops(newSize, buckets, j) && ShrinkStops(newSize, buckets, k)
    ensures j == k
  {
    hide Pow2, HiCutoff;
    var h := newSize * 5 / 4 + 1;
    if j < k {
      ShiftMonotone(h, j, k - 1);
    } else if k < j {
      ShiftMonotone(h, k, j - 1);
    }
  }

  /** Cancelling q in 4nq <= 3mq. */
  lemma CancelQuarters(n: nat, m: nat, q: nat)
    requires 0 < q
    ensures 4 * (n * q) <= 3 * (m * q) <==> 4 * n <= 3 * m
  {
    Distribute(n + n, n + n, q);
    Distribute(n, n, q);
    Distribute(m + m, m, q);
    Distribute(m, m, q);
    MulMonotone(4 * n, 3 * m, q);
    MulMonotone(3 * m + 1, 4 * n, q);
    Distribute(3 * m, 1, q);
  }

  lemma FitsExactly(n: nat, buckets: nat, p: nat, j: nat)
    requires buckets == Pow2(p) && j <= p
    ensures 4 * n <= 3 * Pow2(p - j) <==> n * Pow2(j) <= HiCutoff(buckets)
  {
    hide Pow2;
    Pow2Add(p - j, j);
    CancelQuarters(n, Pow2(p - j), Pow2(j));
  }

  lemma ShrunkExactly(n: nat, buckets: nat, p: nat, j: nat)
    requires buckets == Pow2(p) && K_MIN_TABLE_SIZE < buckets && n <= HiCutoff(buckets) / 4
    requires ShrinkStops(n, buckets, j)
    ensures 4 * n <= 3 * Max(K_MIN_TABLE_SIZE, ShiftRight(buckets, j)) <==> n * Pow2(j) <= HiCutoff(buckets)
  {
    hide ShrinkStops, HiCutoff, ShiftRight;
    ShrinkInRange(n, buckets, p, j);
    ShiftPow2(p, j);
    FitsExactly(n, buckets, p, j);
    assert Pow2(3) == 8;
    if p - j < 3 {
      ClampedFits(n, buckets, p, j);
    } else {
      Pow2Monotone(3, p - j);
    }
  }

  /** Shrinking would have gone below the smallest table: then there are few elements. */
  lemma ClampedFits(n: nat, buckets: nat, p: nat, j: nat)
    requires buckets == Pow2(p) && K_MIN_TABLE_SIZE < buckets && n <= HiCutoff(buckets) / 4
    requires ShrinkStops(n, buckets, j) && j <= p < j + 3
    ensures 4 * n <= 3 * Pow2(p - j)
  {
    ShrinkBound(n, buckets, p, j);
  }

  /** Cancelling q in 3mq <= 4hq. */
  lemma CancelThirds(h: nat, m: nat, q: nat)
    requires 0 < q
    ensures 3 * (m * q) <= 4 * (h * q) <==> 3 * m <= 4 * h
  {
    Distribute(h + h, h + h, q);
    Distribute(h, h, q);
    Distribute(m + m, m, q);
    Distribute(m, m, q);
    MulMonotone(3 * m, 4 * h, q);
    MulMonotone(4 * h + 1, 3 * m, q);
    Distribute(4 * h, 1, q);
  }

  lemma Fourfold(p: nat)
    requires 2 <= p
    ensures Pow2(p) % 4 == 0
  {
    assert Pow2(p) == 2 * Pow2(p - 1) == 4 * Pow2(p - 2);
  }

  lemma EstimateFits(h: nat, buckets: nat, p: nat, j: nat)
    requires buckets == Pow2(p) && 2 <= p && j <= p
    ensures HiCutoff(buckets) <= h * Pow2(j) <==> 3 * Pow2(p - j) <= 4 * h
  {
    hide Pow2;
    Fourfold(p);
    Pow2Add(p - j, j);
    CancelThirds(h, Pow2(p - j), Pow2(j));
  }

  /** The size after a shrink by j bits, in terms of the estimate alone. */
  lemma ShrunkSize(n: nat, buckets: nat, p: nat, j: nat)
    requires buckets == Pow2(p) && K_MIN_TABLE_SIZE < buckets && ShrinkStops(n, buckets, j)
    ensures j <= p && 2 * Pow2(p - j) <= buckets && ShiftRight(buckets, j) == Pow2(p - j)
    ensures 3 * Pow2(p - j) <= 4 * (n * 5 / 4 + 1)
    ensures 2 * Pow2(p - j) < buckets ==> 4 * (n * 5 / 4 + 1) < 6 * Pow2(p - j)
  {
    hide HiCutoff, ShiftRight;
    ShrinkInRange(n, buckets, p, j);
    ShiftPow2(p, j);
    var h := n * 5 / 4 + 1;
    Pow2Monotone(p - j, p - 1);
    assert 4 <= p by { SmallPowers(p); }
    EstimateFits(h, buckets, p, j);
    if 1 < j {
      EstimateFits(h, buckets, p, j - 1);
      assert Pow2(p - (j - 1)) == 2 * Pow2(p - j);
    }
  }

  lemma SmallPowers(p: nat)
    requires 8 < Pow2(p)
    ensures 4 <= p
  {
    assert Pow2(3) == 8;
    if p < 4 {
      Pow2Monotone(p, 3);
    }
  }

  /** The size of the table after a call, without its cutoffs and its loop. A table with no room for 3/4 of an element
      per bucket doubles if it can. One with at most 3/16 shrinks to the largest power of two, at most half of it and
      at least 8, that 4/3 of the estimate, a quarter more elements and one, would not exceed. Any other stays. */
  lemma TargetExactly(n: nat, buckets: nat, after: nat)
    requires Legal(buckets) && 0 < n && Target(n, buckets, after)
    ensures if buckets == 1 then after == 8
            else if 3 * buckets <= 4 * n then
              after == if buckets <= 0x800_0000_0000_0000 then 2 * buckets else buckets
            else if 8 < buckets && 16 * n <= 3 * buckets then
              && IsPow2(after) && 8 <= after && 2 * after <= buckets
              && (8 < after ==> 3 * after <= 4 * (n * 5 / 4 + 1))
              && (2 * after < buckets ==> 4 * (n * 5 / 4 + 1) < 6 * after)
            else after == buckets
  {
    hide ShrinkStops, ShiftRight;
    var p: nat :| buckets == Pow2(p);
    assert Pow2(3) == 8;
    if buckets != 1 {
      MultipleOfEight(p);
      if Shrinks(n, buckets) {
        var j :| ShrinkStops(n, buckets, j) && after == Max(K_MIN_TABLE_SIZE, ShiftRight(buckets, j));
        ShrunkSize(n, buckets, p, j);
      }
    }
  }

  lemma MultipleOfEight(p: nat)
    requires 8 <= Pow2(p)
    ensures Pow2(p) % 8 == 0 && (8 < Pow2(p) ==> Pow2(p) % 16 == 0)
  {
    assert Pow2(2) == 4 && Pow2(3) == 8;
    if p < 3 {
      Pow2Monotone(p, 2);
    } else {
      Pow2Add(p - 3, 3);
      if p != 3 {
        assert Pow2(p - 3) == 2 * Pow2(p - 4);
      }
    }
  }

  /** No table is too large for what it holds: more than 3/16 of an element per bucket, unless it is the smallest. */
  lemma NotTooSparse(n: nat, buckets: nat, after: nat)
    requires Legal(buckets) && 0 < n && Target(n, buckets, after)
    ensures after <= 8 || 3 * after < 16 * n
  {
    hide Target, Legal, IsPow2;
    TargetExactly(n, buckets, after);
  }

  /** Whether a table keeps the bound of 3/4 that the growth test suggests can be told before the call: it does
      if it does not shrink and can grow, and if it shrinks by j bits it does exactly when n shifted left by j
      is not above the growth limit of the old table. */
  lemma ThreeQuartersExactly(n: nat, buckets: nat, after: nat)
    requires Legal(buckets) && 0 < n && LoadOk(n - 1, buckets) && Target(n, buckets, after)
    ensures 4 * n <= 3 * after <==>
            if Shrinks(n, buckets) then exists j :: ShrinkStops(n, buckets, j) && n * Pow2(j) <= HiCutoff(buckets)
            else buckets < MAX_SIZE || n <= HiCutoff(buckets)
  {
    var p: nat :| buckets == Pow2(p);
    if Shrinks(n, buckets) {
      var j :| ShrinkStops(n, buckets, j) && after == Max(K_MIN_TABLE_SIZE, ShiftRight(buckets, j));
      ShrunkExactly(n, buckets, p, j);
      forall k | ShrinkStops(n, buckets, k) ensures k == j {
        StopsOnce(n, buckets, j, k);
      }
    } else {
      Pow2Max();
      if 60 <= p { Pow2Monotone(60, p); } else { Pow2Monotone(p, 59); }
    }
  }

  /** The bound of 3/4 that the growth test suggests is not kept: with 18 elements arriving at 128
      buckets the table shrinks to 16. */
  lemma ThreeQuartersIsNotKept()
    ensures Legal(128) && 4 * (18 - 1) <= 3 * 128 && Target(18, 128, 16) && 3 * 16 < 4 * 18
  {
    assert Pow2(3) == 8 && Pow2(7) == 128;
    assert ShrinkStops(18, 128, 3);
    ShiftPow2(7, 3);
  }
}
