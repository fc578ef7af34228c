/** Keeping the low, non-constant frequencies: the 8x8 block of coefficients whose
    column and row both lie in 1 .. 8 of the 32x32 transform. The constant term (column
    0 and row 0) and every frequency from 9 up are dropped. */
module Selector {
  import opened Layout

  /** The source offset, in the 32x32 coefficient grid, of block cell k. */
  function CropSource(k: int): (i: int)
    requires 0 <= k < CropSize * CropSize
    ensures 33 <= i <= 288
    ensures 1 <= i % Square <= CropSize && 1 <= i / Square <= CropSize
  {
    OffsetIsCell(k, CropSize, CropSize);
    AtDivMod(1 + k % CropSize, 1 + k / CropSize, Square);
    At(1 + k % CropSize, 1 + k / CropSize, Square)
  }

  /** Block cell (x, y) lies inside the 8x8 block, and the coefficient it is cropped
      from lies inside the 32x32 grid. */
  lemma CropCellInRange(x: int, y: int)
    requires 0 <= x < CropSize && 0 <= y < CropSize
    ensures 0 <= At(x, y, CropSize) < CropSize * CropSize
    ensures 0 <= At(1 + x, 1 + y, Square) < Square * Square
  {
    AtInRange(x, y, CropSize, CropSize);
    CellsIsProduct(CropSize, CropSize);
    AtInRange(1 + x, 1 + y, Square, Square);
    CellsIsProduct(Square, Square);
  }

  /** The crop in `dct_imagehash`: block cell (x, y) is coefficient (1 + x, 1 + y). */
  function CropBlock(coeffs: seq<real>): (block: seq<real>)
    requires |coeffs| == Square * Square
    ensures |block| == CropSize * CropSize
    ensures forall x, y {:trigger block[At(x, y, CropSize)]}
      | 0 <= x < CropSize && 0 <= y < CropSize ::
        (CropCellInRange(x, y);
         block[At(x, y, CropSize)] == coeffs[At(1 + x, 1 + y, Square)])
  {
    var block := seq(CropSize * CropSize, k requires 0 <= k < CropSize * CropSize =>
      coeffs[CropSource(k)]);
    assert forall x, y {:trigger block[At(x, y, CropSize)]}
      | 0 <= x < CropSize && 0 <= y < CropSize ::
        (CropCellInRange(x, y);
         block[At(x, y, CropSize)] == coeffs[At(1 + x, 1 + y, Square)])
    by {
      forall x, y | 0 <= x < CropSize && 0 <= y < CropSize
        ensures (CropCellInRange(x, y);
                 block[At(x, y, CropSize)] == coeffs[At(1 + x, 1 + y, Square)])
      {
        CropCellInRange(x, y);
        AtDivMod(x, y, CropSize);
      }
    }
    block
  }

  /** True when coefficient i is one the crop keeps: its column and row are in 1 .. 8. */
  predicate Kept(i: int)
  {
    1 <= i % Square <= CropSize && 1 <= i / Square <= CropSize
  }

  /** Distinct block cells read distinct coefficients: the 64 cells take the 64 kept
      coefficients one each. */
  lemma CropSourceInjective()
    ensures forall k, j | 0 <= k < j < CropSize * CropSize :: CropSource(k) != CropSource(j)
  {
    forall k, j | 0 <= k < j < CropSize * CropSize
      ensures CropSource(k) != CropSource(j)
    {
      OffsetIsCell(k, CropSize, CropSize);
      OffsetIsCell(j, CropSize, CropSize);
      if CropSource(k) == CropSource(j) {
        AtDivMod(1 + k % CropSize, 1 + k / CropSize, Square);
        AtDivMod(1 + j % CropSize, 1 + j / CropSize, Square);
      }
    }
  }

  /** The block depends only on the kept coefficients: two grids that agree on them crop
      to the same block, whatever the constant term and the frequencies from 9 up hold. */
  lemma CropIgnoresOutside(a: seq<real>, b: seq<real>)
    requires |a| == Square * Square && |b| == Square * Square
    requires forall i | 0 <= i < Square * Square && Kept(i) :: a[i] == b[i]
    ensures CropBlock(a) == CropBlock(b)
  {
    var ba, bb := CropBlock(a), CropBlock(b);
    forall k | 0 <= k < CropSize * CropSize
      ensures ba[k] == bb[k]
    {
      OffsetIsCell(k, CropSize, CropSize);
      var x, y := k % CropSize, k / CropSize;
      CropCellInRange(x, y);
      assert Kept(CropSource(k));
    }
  }

  /** In particular the constant (DC) term at offset 0 is never read. */
  lemma CropIgnoresConstantTerm(coeffs: seq<real>, v: real)
    requires |coeffs| == Square * Square
    ensures CropBlock(coeffs[0 := v]) == CropBlock(coeffs)
  {
    CropIgnoresOutside(coeffs[0 := v], coeffs);
  }
}
