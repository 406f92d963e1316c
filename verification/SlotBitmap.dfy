/** The packed used-slot bitmaps: bit macros on bytes and what they do to single bits. */
module SlotBitmap {

  /** 1U << j, for a bit position of a byte. */
  function Mask(j: nat): bv8
    requires j < 8
  {
    if j == 0 then 1 else if j == 1 then 2 else if j == 2 then 4 else if j == 3 then 8
    else if j == 4 then 16 else if j == 5 then 32 else if j == 6 then 64 else 128
  }

  predicate IsSet(b: bv8, j: nat)
    requires j < 8
  {
    b & Mask(j) != 0
  }

  function SetBit(b: bv8, j: nat): bv8
    requires j < 8
  {
    b | Mask(j)
  }

  function ClearBit(b: bv8, j: nat): bv8
    requires j < 8
  {
    b & !Mask(j)
  }

  /** Setting or clearing one bit of a byte leaves the other seven alone. */
  lemma OneBit(b: bv8, j: nat, i: nat)
    requires j < 8 && i < 8
    ensures IsSet(SetBit(b, j), i) <==> i == j || IsSet(b, i)
    ensures IsSet(ClearBit(b, j), i) <==> i != j && IsSet(b, i)
  {
    assert i != j ==> Mask(i) & Mask(j) == 0;
    assert (b | Mask(j)) & Mask(i) == (b & Mask(i)) | (Mask(j) & Mask(i));
    assert (b & !Mask(j)) & Mask(i) == (b & Mask(i)) & !(Mask(j) & Mask(i)) || i == j;
  }
}
