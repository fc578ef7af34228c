/** `dct_imagehash` end to end: resample the bitmap to a 32x32 square, transform it,
    keep the 8x8 block of low frequencies, and threshold the block at its median.

    The discrete cosine transform is a parameter: any function from 32x32 grids to
    32x32 grids. The hash is therefore stated in terms of whatever that transform
    returns for the reference square. */
module PHash {
  import opened Layout
  import opened Bits
  import opened Resampler
  import opened Selector
  import opened Thresholder

  /** A 32x32 grid of values, row-major. */
  type Grid = g: seq<real> | |g| == Square * Square
    witness seq(Square * Square, _ => 0.0)

  /** The resampled square as the `float` values the transform reads. */
  function ToGrid(sq: seq<int>): (g: Grid)
    requires |sq| == Square * Square
    ensures forall k | 0 <= k < Square * Square :: g[k] == sq[k] as real
  {
    seq(Square * Square, k requires 0 <= k < Square * Square => sq[k] as real)
  }

  /** The transformed reference square of a bitmap: the coefficients the hash reads. */
  function Coefficients(dct: Grid -> Grid, bitmap: seq<Byte>, width: int, height: int): Grid
    requires 1 <= width && 1 <= height && |bitmap| == Cells(width, height)
  {
    dct(ToGrid(ReferenceSquare(bitmap, width, height)))
  }

  /** The last two steps of `dct_imagehash`: crop the transformed square and threshold
      the block at its median. Bit x + 8 * y is set exactly when coefficient
      (1 + x, 1 + y) lies strictly above the median of the 64 kept coefficients; at most
      32 bits are set. */
  function HashCoefficients(c: seq<real>): (hash: Word)
    requires |c| == Square * Square
    ensures forall x, y {:trigger At(x, y, CropSize)} | 0 <= x < CropSize && 0 <= y < CropSize ::
      (CropCellInRange(x, y);
       Bit(hash, At(x, y, CropSize)) == (c[At(1 + x, 1 + y, Square)] > Median(CropBlock(c))))
    ensures PopCount(hash) <= WordBits / 2
  {
    var block := CropBlock(c);
    var hash := HashBlock(block);
    assert forall x, y {:trigger At(x, y, CropSize)} | 0 <= x < CropSize && 0 <= y < CropSize ::
      (CropCellInRange(x, y);
       Bit(hash, At(x, y, CropSize)) == (c[At(1 + x, 1 + y, Square)] > Median(block)))
    by {
      forall x, y | 0 <= x < CropSize && 0 <= y < CropSize
        ensures (CropCellInRange(x, y);
                 Bit(hash, At(x, y, CropSize)) == (c[At(1 + x, 1 + y, Square)] > Median(block)))
      {
        CropCellInRange(x, y);
        assert block[At(x, y, CropSize)] == c[At(1 + x, 1 + y, Square)];
      }
    }
    hash
  }

  /** `dct_imagehash`. Whichever resampling path the sizes select, bit
      x + 8 * y of the hash is set exactly when coefficient (1 + x, 1 + y) of the
      transformed reference square lies strictly above the median of the 64 kept
      coefficients; at most 32 bits are set. */
  function DctImageHash(dct: Grid -> Grid, bitmap: seq<Byte>, width: int, height: int)
    : (hash: Word)
    requires ValidDimensions(width, height) && |bitmap| == Cells(width, height)
    ensures var c := Coefficients(dct, bitmap, width, height);
      forall x, y {:trigger At(x, y, CropSize)} | 0 <= x < CropSize && 0 <= y < CropSize ::
        (CropCellInRange(x, y);
         Bit(hash, At(x, y, CropSize)) == (c[At(1 + x, 1 + y, Square)] > Median(CropBlock(c))))
    ensures PopCount(hash) <= WordBits / 2
  {
    var c := dct(ToGrid(Resample(bitmap, width, height)));
    assert c == Coefficients(dct, bitmap, width, height);
    HashCoefficients(c)
  }

  /** The hash reads only the 64 kept coefficients: bitmaps (of any sizes) whose
      transformed squares agree there have the same hash. */
  lemma HashDependsOnlyOnKept(dct: Grid -> Grid, a: seq<Byte>, wa: int, ha: int,
                              b: seq<Byte>, wb: int, hb: int)
    requires ValidDimensions(wa, ha) && |a| == Cells(wa, ha)
    requires ValidDimensions(wb, hb) && |b| == Cells(wb, hb)
    requires forall i | 0 <= i < Square * Square && Kept(i) ::
      Coefficients(dct, a, wa, ha)[i] == Coefficients(dct, b, wb, hb)[i]
    ensures DctImageHash(dct, a, wa, ha) == DctImageHash(dct, b, wb, hb)
  {
    CropIgnoresOutside(Coefficients(dct, a, wa, ha), Coefficients(dct, b, wb, hb));
  }

  /** Ties give 0: when the 64 kept coefficients are all equal the hash is 0. */
  lemma FlatCoefficientsHashToZero(dct: Grid -> Grid, bitmap: seq<Byte>, width: int,
                                   height: int)
    requires ValidDimensions(width, height) && |bitmap| == Cells(width, height)
    requires var c := Coefficients(dct, bitmap, width, height);
      forall i | 0 <= i < Square * Square && Kept(i) :: c[i] == c[At(1, 1, Square)]
    ensures DctImageHash(dct, bitmap, width, height) == 0
  {
    var block := CropBlock(Coefficients(dct, bitmap, width, height));
    forall k | 0 <= k < BlockSize
      ensures block[k] == block[0]
    {
      assert Kept(CropSource(k));
    }
    HashOfConstantBlock(block);
  }

  /** On the fused path the hash is the one blur-then-shrink would give: taking the fast
      path for sizes where both are defined never changes the hash. */
  lemma HashPathIndependent(dct: Grid -> Grid, bitmap: seq<Byte>, width: int, height: int)
    requires FastPath(width, height) && ShrinkFits(width, height)
    requires |bitmap| == Cells(width, height)
    ensures ValidDimensions(width, height)
    ensures DctImageHash(dct, bitmap, width, height)
         == HashBlock(CropBlock(dct(ToGrid(SlowPath(bitmap, width, height)))))
  {
    SlowPathIsReference(bitmap, width, height);
  }

  /** A uniform image hashes to 0 whenever the transform maps the flat square it resamples
      to onto coefficients whose 64 kept terms are equal. */
  lemma UniformBitmapHashesToZero(dct: Grid -> Grid, bitmap: seq<Byte>, width: int,
                                  height: int, v: Byte)
    requires ValidDimensions(width, height) && |bitmap| == Cells(width, height)
    requires Uniform(bitmap, v)
    requires var c := dct(ToGrid(seq(Square * Square, _ => 49 * v)));
      forall i | 0 <= i < Square * Square && Kept(i) :: c[i] == c[At(1, 1, Square)]
    ensures DctImageHash(dct, bitmap, width, height) == 0
  {
    UniformBitmapIsFlat(bitmap, width, height, v);
    var sq := Resample(bitmap, width, height);
    var flat: seq<int> := seq(Square * Square, _ => 49 * v);
    assert |sq| == |flat|;
    assert forall k | 0 <= k < |sq| :: sq[k] == flat[k];
    assert sq == flat;
    FlatCoefficientsHashToZero(dct, bitmap, width, height);
  }
}
