/** The positions `insert_leaves` gives to its values, counted in 32 bits. */
module Positions {
  import opened Basics
  import opened MutableSpec

  /** The first insert position, in the program's 32-bit arithmetic: the count is truncated,
      the shift distance is taken modulo 32 and the product wraps. */
  function InsertIndexU32(meta: TreeMetadata): nat {
    ((meta.subTreeCount % U32_RANGE) * Pow2(meta.subTreeHeight % 32)) % U32_RANGE
  }

  /** The position of value `t` of a batch, counted on in 32 bits from the first. */
  function PositionU32(meta: TreeMetadata, t: nat): nat {
    (InsertIndexU32(meta) + t) % U32_RANGE
  }

  /** Every value that is stored at all has a true position of at most 32 bits. */
  ghost predicate PositionsFit(batch: seq<Fr>, at: nat) {
    forall t | 0 <= t < |batch| && batch[t] != 0 :: at + t < U32_RANGE
  }

  /** The 32-bit insert position is the true one exactly when that fits. */
  lemma {:induction false} InsertIndexExact(meta: TreeMetadata)
    ensures InsertIndexU32(meta) == meta.LeavesBelow(meta.subTreeCount)
            <==> meta.LeavesBelow(meta.subTreeCount) < U32_RANGE
  {
    if meta.subTreeHeight >= 32 {
      WideShift(meta.subTreeHeight);
      WrappedProduct(meta.subTreeCount, Pow2(meta.subTreeHeight % 32), meta.Capacity());
    } else {
      WrappedProduct(meta.subTreeCount, meta.Capacity(), meta.Capacity());
    }
  }

  /** The position given to a value is its true one exactly when that fits. */
  lemma {:induction false} PositionExact(meta: TreeMetadata, t: nat)
    ensures PositionU32(meta, t) == meta.LeavesBelow(meta.subTreeCount) + t
            <==> meta.LeavesBelow(meta.subTreeCount) + t < U32_RANGE
  {
    InsertIndexExact(meta);
  }

  /** In any case it is the true one modulo 2^32, for sub-trees lower than 32; for higher ones the
      program's shift starts again from nothing. */
  lemma {:induction false} PositionResidue(meta: TreeMetadata, t: nat)
    ensures PositionU32(meta, t) == (meta.subTreeCount * Pow2(meta.subTreeHeight % 32) + t) % U32_RANGE
    ensures meta.subTreeHeight < 32 ==>
              PositionU32(meta, t) == (meta.LeavesBelow(meta.subTreeCount) + t) % U32_RANGE
  {
    var a, low := meta.subTreeCount, Pow2(meta.subTreeHeight % 32);
    var x := (a % U32_RANGE) * low;
    EuclidSplit(a, U32_RANGE);
    Distributes(a / U32_RANGE, a % U32_RANGE, low, U32_RANGE);
    ModShift(x + t, (a / U32_RANGE) * low, U32_RANGE);
    EuclidSplit(x, U32_RANGE);
    ModShift(x % U32_RANGE + t, x / U32_RANGE, U32_RANGE);
  }

  lemma {:induction false} Distributes(q: int, r: int, low: int, m: int)
    ensures (q * m + r) * low == r * low + (q * low) * m
  {
    assert (q * m + r) * low == (q * m) * low + r * low;
    assert (q * m) * low == (q * low) * m;
  }

  lemma {:induction false} NextPosition(meta: TreeMetadata, t: nat)
    ensures PositionU32(meta, t + 1) == (PositionU32(meta, t) + 1) % U32_RANGE
  {
  }

  /** All the positions of a batch are true exactly when the batch ends within 32 bits. */
  lemma {:induction false} PositionsExact(meta: TreeMetadata, n: nat)
    requires n > 0
    ensures (forall t: nat | t < n :: PositionU32(meta, t) == meta.LeavesBelow(meta.subTreeCount) + t)
            <==> meta.LeavesBelow(meta.subTreeCount) + n <= U32_RANGE
  {
    forall t: nat | t < n
      ensures PositionU32(meta, t) == meta.LeavesBelow(meta.subTreeCount) + t
              <==> meta.LeavesBelow(meta.subTreeCount) + t < U32_RANGE
    {
      PositionExact(meta, t);
    }
    PositionExact(meta, n - 1);
  }

  /** Two trees whose positions come out wrong: one from the first value on, one from its third. */
  lemma {:induction false} PositionsWrap()
    ensures PositionU32(TreeMetadata(33, 0, U32_RANGE, 0), 0) == 0
    ensures var late := TreeMetadata(33, 1, 0x7FFF_FFFF, 0);
            && PositionU32(late, 0) == late.LeavesBelow(late.subTreeCount)
            && PositionU32(late, 2) == 0
  {
    assert Pow2(0) == 1 && Pow2(1) == 2;
  }

  lemma {:induction false} WideShift(n: nat)
    requires n >= 32
    ensures Pow2(n) >= U32_RANGE
  {
    Pow2Of32();
    Pow2Mono(32, n);
  }

  lemma {:induction false} Pow2Of32()
    ensures Pow2(32) == U32_RANGE
  {
    assert Pow2(8) == 0x100;
    ShlPow2(8, 8);
    ShlIsProduct(0x100, 8);
    ShlPow2(16, 16);
    ShlIsProduct(0x1_0000, 16);
  }

  /** `low` is what the program multiplies by, `b` the true factor. */
  lemma {:induction false} WrappedProduct(a: nat, low: nat, b: nat)
    requires b >= 1 && (low == b || b >= U32_RANGE)
    ensures ((a % U32_RANGE) * low) % U32_RANGE == a * b <==> a * b < U32_RANGE
  {
    if a == 0 {
      assert (0 * low) % U32_RANGE == 0;
    } else {
      FactorsBelow(a, b);
      if a * b < U32_RANGE { assert a % U32_RANGE == a; }
    }
  }

  lemma {:induction false} FactorsBelow(a: nat, b: nat)
    requires a >= 1 && b >= 1
    ensures a <= a * b && b <= a * b
  {
    assert a * b - a == a * (b - 1);
    assert a * b - b == (a - 1) * b;
  }
}
