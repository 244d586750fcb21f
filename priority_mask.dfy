/**
 * The 32-bit pending mask of the high-priority registry, modelled as the set
 * of the indices of its set bits: `mask | (1u << i)` is `mask + {i}`,
 * `mask & ~(1u << i)` is `mask - {i}`, `mask != 0` is `mask != {}`, and
 * `31 - __builtin_clz(mask)` is the largest element.
 */
module PriorityMask {

  /** Width of the uint32_t mask. */
  const MASK_BITS: nat := 32

  /** A uint32_t bit mask: only bit indices 0..31 exist. */
  type Mask = m: set<nat> | forall i | i in m :: i < MASK_BITS

  /**
   * Scans down from bit i for the most significant set bit; no bit above i
   * is set.
   */
  function HighestFrom(mask: Mask, i: nat): (r: nat)
    requires mask != {} && i < MASK_BITS
    requires forall j | j in mask :: j <= i
    ensures r <= i && r in mask
    ensures forall j | j in mask :: j <= r
    decreases i
  {
    if i in mask then i
    else
      assert i > 0 by {
        var j :| j in mask;
      }
      HighestFrom(mask, i - 1)
  }

  /** `31 - __builtin_clz(mask)` for a non-zero mask. */
  function HighestSetBit(mask: Mask): (r: nat)
    requires mask != {}
    ensures r < MASK_BITS && r in mask
    ensures forall j | j in mask :: j <= r
  {
    HighestFrom(mask, MASK_BITS - 1)
  }

  /**
   * Priority order: while bit a is pending, no lower bit b is selected, so a
   * higher slot is always served before a lower one.
   */
  lemma HigherBitServedFirst(mask: Mask, a: nat, b: nat)
    requires a in mask && b < a
    ensures mask != {} && HighestSetBit(mask) >= a && HighestSetBit(mask) != b
  {
  }

  /** A mask whose bits all lie below k selects an index below k. */
  lemma HighestSetBitBelow(mask: Mask, k: nat)
    requires mask != {} && forall j | j in mask :: j < k
    ensures HighestSetBit(mask) < k
  {
  }
}
