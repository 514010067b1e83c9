/** Single bits of a byte. */
module ByteBits {

  /** `1 << k` in a byte. */
  function Mask(k: nat): bv8
    requires k < 8
  {
    match k case 0 => 1 case 1 => 2 case 2 => 4 case 3 => 8 case 4 => 16 case 5 => 32 case 6 => 64 case _ => 128
  }

  predicate Test(b: bv8, k: nat)
    requires k < 8
  {
    b & Mask(k) != 0
  }

  function SetBit(b: bv8, k: nat): bv8
    requires k < 8
  {
    b | Mask(k)
  }

  function ClearBit(b: bv8, k: nat): bv8
    requires k < 8
  {
    b & !Mask(k)
  }

  lemma SetOne(b: bv8, k: nat, j: nat)
    requires k < 8 && j < 8
    ensures Test(SetBit(b, k), j) <==> j == k || Test(b, j)
  {
  }

  lemma ClearOne(b: bv8, k: nat, j: nat)
    requires k < 8 && j < 8
    ensures Test(ClearBit(b, k), j) <==> j != k && Test(b, j)
  {
  }
}
