/** Single bits of bytes. */
module ByteBits {

  /** `1 << k` in a byte. */
  function Mask(k: nat): bv8
    requires k < 8
  {
    if k == 0 then 1 else if k == 1 then 2 else if k == 2 then 4 else if k == 3 then 8
    else if k == 4 then 16 else if k == 5 then 32 else if k == 6 then 64 else 128
  }

  predicate Bit(x: bv8, k: nat)
    requires k < 8
  {
    x & Mask(k) != 0
  }

  /** `x |= b << k`. */
  function OrBit(x: bv8, k: nat, b: bool): bv8
    requires k < 8
  {
    x | if b then Mask(k) else 0
  }

  /** `x &= ~(1 << k)`. */
  function ClearBit(x: bv8, k: nat): bv8
    requires k < 8
  {
    x & !Mask(k)
  }

  lemma OrBitSets(x: bv8, k: nat, b: bool, j: nat)
    requires k < 8 && j < 8
    ensures Bit(OrBit(x, k, b), j) == (Bit(x, j) || (b && j == k))
  {
  }

  lemma ClearBitClears(x: bv8, k: nat, j: nat)
    requires k < 8 && j < 8
    ensures Bit(ClearBit(x, k), j) == (Bit(x, j) && j != k)
  {
  }

  /** Bits are counted from the least significant one. */
  lemma BitIsShift(x: bv8, k: nat)
    requires k < 8
    ensures Bit(x, k) <==> (x >> k as bv4) & 1 == 1
  {
  }

  lemma Constants()
    ensures forall k: nat | k < 8 :: !Bit(0, k) && Bit(0xff, k)
  {
  }
}
