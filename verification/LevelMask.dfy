/** The 8-bit masks that record which label counts occur among stored names. */
module LevelMask {
  const MAX_LEVEL := 8 // bits in the mask

  /** `1 << (level - 1)` after the conversion to u8: zero above level 8. */
  function Bit(level: nat): bv8
    requires level >= 1
  {
    match level
    case 1 => 0x01
    case 2 => 0x02
    case 3 => 0x04
    case 4 => 0x08
    case 5 => 0x10
    case 6 => 0x20
    case 7 => 0x40
    case 8 => 0x80
    case _ => 0
  }

  predicate Has(mask: bv8, level: nat)
    requires level >= 1
  {
    mask & Bit(level) != 0
  }

  function Record(mask: bv8, level: nat): bv8
    requires level >= 1
  {
    mask | Bit(level)
  }

  lemma OrAnd(m: bv8, a: bv8, b: bv8)
    ensures (m | a) & b == (m & b) | (a & b)
  {
  }

  lemma OrZero(x: bv8, y: bv8)
    ensures x | y != 0 <==> x != 0 || y != 0
  {
  }

  lemma BitsDisjoint(i: nat, j: nat)
    requires i >= 1 && j >= 1
    ensures Bit(i) & Bit(j) != 0 <==> i == j && i <= MAX_LEVEL
  {
    if i > MAX_LEVEL || j > MAX_LEVEL {
      assert Bit(i) == 0 || Bit(j) == 0;
    }
  }

  /** Recording one level adds that level to the mask and nothing else. */
  lemma HasRecord(mask: bv8, i: nat, j: nat)
    requires 1 <= i <= MAX_LEVEL && j >= 1
    ensures Has(Record(mask, i), j) <==> i == j || Has(mask, j)
  {
    OrAnd(mask, Bit(i), Bit(j));
    OrZero(mask & Bit(j), Bit(i) & Bit(j));
    BitsDisjoint(i, j);
  }

  lemma HasBounded(mask: bv8, i: nat)
    requires i >= 1 && Has(mask, i)
    ensures i <= MAX_LEVEL && mask != 0
  {
  }

  lemma SomeBit(mask: bv8)
    requires mask != 0
    ensures Has(mask, 1) || Has(mask, 2) || Has(mask, 3) || Has(mask, 4) ||
            Has(mask, 5) || Has(mask, 6) || Has(mask, 7) || Has(mask, 8)
  {
  }

  /** `__builtin_ctz(mask) + 1`: the smallest recorded level. */
  function MinLevel(mask: bv8): (l: nat)
    requires mask != 0
    ensures 1 <= l <= MAX_LEVEL && Has(mask, l)
    ensures forall k :: 1 <= k < l ==> !Has(mask, k)
  {
    SomeBit(mask);
    if Has(mask, 1) then 1
    else if Has(mask, 2) then 2
    else if Has(mask, 3) then 3
    else if Has(mask, 4) then 4
    else if Has(mask, 5) then 5
    else if Has(mask, 6) then 6
    else if Has(mask, 7) then 7
    else 8
  }
}
