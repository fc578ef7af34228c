/** Shrinking a luma bitmap to the 32x32 square that the transform consumes.

    Two paths exist. The general one copies the bitmap, blurs it with a 7-sample box
    horizontally and then vertically (`box_blur` twice) and picks the nearest sample of
    each of the 32x32 destination cells (`shrink_to_square`). When both sides are at
    least 224 the fused `smear_and_shrink` sums the 7x7 neighbourhood of each nearest
    sample directly. Samples are bytes and at most 49 of them are added, so every sum
    fits a `float` exactly; the model sums over `int`. */
module Resampler {
  import opened Layout

  // ---------------------------------------------------------------------------------
  // box_blur
  // ---------------------------------------------------------------------------------

  /** Offset of sample x of line y: lines start `pitch` apart, samples are `stride` apart. */
  function Position(x: nat, y: nat, stride: int, pitch: int): int
  {
    Cells(pitch, y) + Cells(stride, x)
  }

  /** The two ways the blur walks the grid: along rows (`stride == 1`, `pitch == width`)
      or along the columns of a grid `height` cells wide (`stride == height`,
      `pitch == 1`). Either way the lines tile the `width * height` cells exactly. */
  predicate BlurLayout(width: int, height: int, stride: int, pitch: int)
  {
    (stride == 1 && pitch == width) || (stride == height && pitch == 1)
  }

  /** Requirements shared by the blur and its line sums. */
  predicate BlurArgs(src: seq<int>, width: int, height: int, stride: int, pitch: int)
  {
    1 <= width && 1 <= height && BlurLayout(width, height, stride, pitch)
    && |src| == Cells(width, height)
  }

  /** Sample x of line y is cell (x, y) of the grid when the lines are rows, and cell
      (y, x) of the transposed grid when they are columns. */
  lemma PositionIsAt(x: nat, y: nat, width: int, height: int, stride: int, pitch: int)
    requires BlurLayout(width, height, stride, pitch)
    ensures stride == 1 && pitch == width ==> Position(x, y, stride, pitch) == At(x, y, width)
    ensures !(stride == 1 && pitch == width) ==> Position(x, y, stride, pitch) == At(y, x, height)
  {
    CellsOfOne(x);
    CellsOfOne(y);
  }

  /** Every sample of every line lies inside the grid. */
  lemma PositionInRange(x: int, y: int, width: int, height: int, stride: int, pitch: int)
    requires 1 <= width && 1 <= height && BlurLayout(width, height, stride, pitch)
    requires 0 <= x < width && 0 <= y < height
    ensures 0 <= Position(x, y, stride, pitch) < Cells(width, height)
  {
    PositionIsAt(x, y, width, height, stride, pitch);
    if stride == 1 && pitch == width {
      AtInRange(x, y, width, height);
    } else {
      AtInRange(y, x, height, width);
      CellsCommute(width, height);
    }
  }

  /** The sample and line that a grid offset belongs to. */
  function LineCoordinates(p: int, width: int, height: int, stride: int, pitch: int): (c: (int, int))
    requires 1 <= width && 1 <= height && BlurLayout(width, height, stride, pitch)
    requires 0 <= p < Cells(width, height)
    ensures 0 <= c.0 < width && 0 <= c.1 < height
    ensures Position(c.0, c.1, stride, pitch) == p
  {
    if stride == 1 && pitch == width then
      OffsetIsCell(p, width, height);
      PositionIsAt(p % width, p / width, width, height, stride, pitch);
      (p % width, p / width)
    else
      CellsCommute(width, height);
      OffsetIsCell(p, height, width);
      PositionIsAt(p / height, p % height, width, height, stride, pitch);
      (p / height, p % height)
  }

  /** LineCoordinates inverts Position: distinct (sample, line) pairs have distinct
      offsets. */
  lemma LineCoordinatesInverse(x: int, y: int, width: int, height: int, stride: int, pitch: int)
    requires 1 <= width && 1 <= height && BlurLayout(width, height, stride, pitch)
    requires 0 <= x < width && 0 <= y < height
    ensures 0 <= Position(x, y, stride, pitch) < Cells(width, height)
    ensures LineCoordinates(Position(x, y, stride, pitch), width, height, stride, pitch) == (x, y)
  {
    PositionInRange(x, y, width, height, stride, pitch);
    PositionIsAt(x, y, width, height, stride, pitch);
    if stride == 1 && pitch == width {
      AtDivMod(x, y, width);
    } else {
      AtDivMod(y, x, height);
    }
  }

  /** Sum of the samples x + i of line y for lo <= i < hi, each clamped to the line,
      added in increasing i as the accumulator loop does. */
  function BlurLine(src: seq<int>, width: int, height: int, stride: int, pitch: int,
                    x: int, y: int, lo: int, hi: int): int
    requires BlurArgs(src, width, height, stride, pitch) && 0 <= y < height
    decreases hi - lo
  {
    if hi <= lo then 0
    else
      var x0 := Clamp(x + hi - 1, width);
      PositionInRange(x0, y, width, height, stride, pitch);
      BlurLine(src, width, height, stride, pitch, x, y, lo, hi - 1)
        + src[Position(x0, y, stride, pitch)]
  }

  /** `box_blur`: every sample becomes the sum of the 2 * radius + 1 samples of its line
      centred on it, clamped to the line's ends. */
  function BoxBlur(src: seq<int>, width: int, height: int, stride: int, pitch: int,
                   radius: int): (dst: seq<int>)
    requires BlurArgs(src, width, height, stride, pitch) && 0 <= radius
    ensures |dst| == Cells(width, height)
    ensures forall x, y {:trigger dst[Position(x, y, stride, pitch)]} | 0 <= x < width && 0 <= y < height ::
      (PositionInRange(x, y, width, height, stride, pitch);
       dst[Position(x, y, stride, pitch)]
         == BlurLine(src, width, height, stride, pitch, x, y, -radius, radius + 1))
  {
    var dst := seq(Cells(width, height), p requires 0 <= p < Cells(width, height) =>
      BlurCell(src, width, height, stride, pitch, radius, p));
    BlurCellsByPosition(src, width, height, stride, pitch, radius, dst);
    dst
  }

  /** The blurred value of the sample at offset p. */
  function BlurCell(src: seq<int>, width: int, height: int, stride: int, pitch: int,
                    radius: int, p: int): int
    requires BlurArgs(src, width, height, stride, pitch) && 0 <= p < Cells(width, height)
  {
    var c := LineCoordinates(p, width, height, stride, pitch);
    BlurLine(src, width, height, stride, pitch, c.0, c.1, -radius, radius + 1)
  }

  /** A grid holding BlurCell at every offset holds, at the position of sample x of
      line y, the blur of that sample. */
  lemma BlurCellsByPosition(src: seq<int>, width: int, height: int, stride: int, pitch: int,
                            radius: int, dst: seq<int>)
    requires BlurArgs(src, width, height, stride, pitch)
    requires |dst| == Cells(width, height)
    requires forall p | 0 <= p < Cells(width, height) ::
      dst[p] == BlurCell(src, width, height, stride, pitch, radius, p)
    ensures forall x, y {:trigger dst[Position(x, y, stride, pitch)]} | 0 <= x < width && 0 <= y < height ::
      (PositionInRange(x, y, width, height, stride, pitch);
       dst[Position(x, y, stride, pitch)]
         == BlurLine(src, width, height, stride, pitch, x, y, -radius, radius + 1))
  {
    forall x, y {:trigger dst[Position(x, y, stride, pitch)]} | 0 <= x < width && 0 <= y < height
      ensures (PositionInRange(x, y, width, height, stride, pitch);
               dst[Position(x, y, stride, pitch)]
                 == BlurLine(src, width, height, stride, pitch, x, y, -radius, radius + 1))
    {
      PositionInRange(x, y, width, height, stride, pitch);
      var p := Position(x, y, stride, pitch);
      LineCoordinatesInverse(x, y, width, height, stride, pitch);
      assert dst[p] == BlurCell(src, width, height, stride, pitch, radius, p);
    }
  }

  // ---------------------------------------------------------------------------------
  // The reference: a clamped 7x7 neighbourhood sum
  // ---------------------------------------------------------------------------------

  /** Sum of the bytes in columns cx + i, lo <= i < hi, of one row, columns clamped to
      the bitmap. */
  function RowSum(bitmap: seq<Byte>, width: int, height: int, cx: int, row: int,
                  lo: int, hi: int): (s: int)
    requires 1 <= width && 0 <= row < height && |bitmap| == Cells(width, height)
    ensures 0 <= s && (lo <= hi ==> s <= 255 * (hi - lo))
    decreases hi - lo
  {
    if hi <= lo then 0
    else
      var x0 := Clamp(cx + hi - 1, width);
      AtInRange(x0, row, width, height);
      RowSum(bitmap, width, height, cx, row, lo, hi - 1) + bitmap[At(x0, row, width)]
  }

  /** Sum, over rows cy + j with lo <= j < hi clamped to the bitmap, of the row sums of
      radius around column cx. */
  function WindowRows(bitmap: seq<Byte>, width: int, height: int, cx: int, cy: int,
                      radius: int, lo: int, hi: int): (s: int)
    requires 1 <= width && 1 <= height && |bitmap| == Cells(width, height) && 0 <= radius
    ensures 0 <= s && (lo <= hi ==> s <= 255 * (2 * radius + 1) * (hi - lo))
    decreases hi - lo
  {
    if hi <= lo then 0
    else
      var prev := WindowRows(bitmap, width, height, cx, cy, radius, lo, hi - 1);
      var here := RowSum(bitmap, width, height, cx, Clamp(cy + hi - 1, height), -radius, radius + 1);
      var m := 255 * (2 * radius + 1);
      assert prev <= m * (hi - 1 - lo) by {
        if hi - 1 < lo { MulLeft(0, m, 0); }
      }
      assert m * (hi - lo) == m * (hi - 1 - lo) + m;
      prev + here
  }

  /** The clamped (2 * radius + 1)-square neighbourhood sum around (cx, cy): what both
      resampling paths compute for each destination cell. */
  function WindowSum(bitmap: seq<Byte>, width: int, height: int, cx: int, cy: int,
                     radius: int): (s: int)
    requires 1 <= width && 1 <= height && |bitmap| == Cells(width, height) && 0 <= radius
    ensures 0 <= s <= 255 * (2 * radius + 1) * (2 * radius + 1)
  {
    WindowRows(bitmap, width, height, cx, cy, radius, -radius, radius + 1)
  }

  /** The 32x32 square both paths should produce: cell (x, y) is the 7x7 window sum
      around the nearest sample of (x, y). */
  function ReferenceSquare(bitmap: seq<Byte>, width: int, height: int): (sq: seq<int>)
    requires 1 <= width && 1 <= height && |bitmap| == Cells(width, height)
    ensures |sq| == Square * Square
    ensures forall k | 0 <= k < |sq| :: 0 <= sq[k] <= 255 * SmearDiameter * SmearDiameter
  {
    seq(Square * Square, k requires 0 <= k < Square * Square =>
      WindowSum(bitmap, width, height, NearestIndex(width, k % Square, Square),
                NearestIndex(height, k / Square, Square), SmearRadius))
  }

  /** A bitmap whose every pixel is `v`. */
  predicate Uniform(bitmap: seq<Byte>, v: Byte)
  {
    forall i | 0 <= i < |bitmap| :: bitmap[i] == v
  }

  /** On a uniform bitmap a row sum over hi - lo columns is hi - lo copies of the pixel,
      wherever the clamps land. */
  lemma {:induction false} UniformRowSum(bitmap: seq<Byte>, width: int, height: int, v: Byte,
                                         cx: int, row: int, lo: int, hi: int)
    requires 1 <= width && 0 <= row < height && |bitmap| == Cells(width, height)
    requires Uniform(bitmap, v) && lo <= hi
    ensures RowSum(bitmap, width, height, cx, row, lo, hi) == Cells(v, hi - lo)
    decreases hi - lo
  {
    if lo < hi {
      UniformRowSum(bitmap, width, height, v, cx, row, lo, hi - 1);
      var x0 := Clamp(cx + hi - 1, width);
      AtInRange(x0, row, width, height);
      assert bitmap[At(x0, row, width)] == v;
    }
  }

  /** On a uniform bitmap each clamped row of a window contributes the same row sum. */
  lemma {:induction false} UniformWindowRows(bitmap: seq<Byte>, width: int, height: int,
                                             v: Byte, cx: int, cy: int, radius: int,
                                             lo: int, hi: int)
    requires 1 <= width && 1 <= height && |bitmap| == Cells(width, height) && 0 <= radius
    requires Uniform(bitmap, v) && lo <= hi
    ensures WindowRows(bitmap, width, height, cx, cy, radius, lo, hi)
         == Cells(Cells(v, 2 * radius + 1), hi - lo)
    decreases hi - lo
  {
    if lo < hi {
      UniformWindowRows(bitmap, width, height, v, cx, cy, radius, lo, hi - 1);
      UniformRowSum(bitmap, width, height, v, cx, Clamp(cy + hi - 1, height),
                    -radius, radius + 1);
    }
  }

  // ---------------------------------------------------------------------------------
  // The general path: blur twice, then shrink_to_square
  // ---------------------------------------------------------------------------------

  /** Horizontal lines of the row-wise blur are the row sums of the bitmap. */
  lemma {:induction false} HorizontalLine(bitmap: seq<Byte>, width: int, height: int,
                                          x: int, y: int, lo: int, hi: int)
    requires 1 <= width && 1 <= height && |bitmap| == Cells(width, height) && 0 <= y < height
    ensures BlurLine(bitmap, width, height, 1, width, x, y, lo, hi)
         == RowSum(bitmap, width, height, x, y, lo, hi)
    decreases hi - lo
  {
    if lo < hi {
      HorizontalLine(bitmap, width, height, x, y, lo, hi - 1);
      PositionIsAt(Clamp(x + hi - 1, width), y, width, height, 1, width);
    }
  }

  /** rows holds, at every cell, the row sum of radius around it. */
  predicate RowsBlurred(bitmap: seq<Byte>, rows: seq<int>, width: int, height: int, radius: int)
    requires 1 <= width && 1 <= height && |bitmap| == Cells(width, height)
  {
    |rows| == Cells(width, height)
    && forall x, y {:trigger rows[At(x, y, width)]} | 0 <= x < width && 0 <= y < height ::
         (AtInRange(x, y, width, height);
          rows[At(x, y, width)] == RowSum(bitmap, width, height, x, y, -radius, radius + 1))
  }

  /** The row-wise `box_blur` call replaces every sample by its row sum. */
  lemma RowBlurIsRowSums(bitmap: seq<Byte>, width: int, height: int, radius: int)
    requires 1 <= width && 1 <= height && |bitmap| == Cells(width, height) && 0 <= radius
    ensures RowsBlurred(bitmap, BoxBlur(bitmap, width, height, 1, width, radius),
                        width, height, radius)
  {
    var rows := BoxBlur(bitmap, width, height, 1, width, radius);
    forall x, y {:trigger rows[At(x, y, width)]} | 0 <= x < width && 0 <= y < height
      ensures (AtInRange(x, y, width, height);
               rows[At(x, y, width)] == RowSum(bitmap, width, height, x, y, -radius, radius + 1))
    {
      PositionInRange(x, y, width, height, 1, width);
      PositionIsAt(x, y, width, height, 1, width);
      assert rows[Position(x, y, 1, width)]
          == BlurLine(bitmap, width, height, 1, width, x, y, -radius, radius + 1);
      HorizontalLine(bitmap, width, height, x, y, -radius, radius + 1);
    }
  }

  /** Vertical lines of the column-wise blur of the row-wise blur are window sums. */
  lemma {:induction false} VerticalLine(bitmap: seq<Byte>, rows: seq<int>, width: int,
                                        height: int, radius: int, x: int, y: int,
                                        lo: int, hi: int)
    requires 1 <= width && 1 <= height && |bitmap| == Cells(width, height) && 0 <= radius
    requires RowsBlurred(bitmap, rows, width, height, radius) && |rows| == Cells(height, width)
    requires 0 <= x < width && 0 <= y < height
    ensures BlurLine(rows, height, width, width, 1, y, x, lo, hi)
         == WindowRows(bitmap, width, height, x, y, radius, lo, hi)
    decreases hi - lo
  {
    if lo < hi {
      VerticalLine(bitmap, rows, width, height, radius, x, y, lo, hi - 1);
      var c := Clamp(y + hi - 1, height);
      AtInRange(x, c, width, height);
      assert rows[At(x, c, width)] == RowSum(bitmap, width, height, x, c, -radius, radius + 1);
      CellsOfOne(x);
      assert At(x, c, width) == Position(c, x, width, 1);
    }
  }

  /** The two `box_blur` calls of the general path (blur along rows into a second
      buffer, then along columns back): together they replace every sample by the
      clamped square window sum around it. */
  function BlurBothWays(bitmap: seq<Byte>, width: int, height: int, radius: int): (v: seq<int>)
    requires 1 <= width && 1 <= height && |bitmap| == Cells(width, height) && 0 <= radius
    ensures |v| == Cells(width, height)
    ensures forall x, y {:trigger v[At(x, y, width)]} | 0 <= x < width && 0 <= y < height ::
      (AtInRange(x, y, width, height);
       v[At(x, y, width)] == WindowSum(bitmap, width, height, x, y, radius))
  {
    var rows := BoxBlur(bitmap, width, height, 1, width, radius);
    CellsCommute(width, height);
    var both := BoxBlur(rows, height, width, width, 1, radius);
    RowBlurIsRowSums(bitmap, width, height, radius);
    BlurBothWaysIsWindowSum(bitmap, rows, both, width, height, radius);
    both
  }

  /** A column-wise blur of the row sums holds the window sums. */
  lemma BlurBothWaysIsWindowSum(bitmap: seq<Byte>, rows: seq<int>, both: seq<int>,
                                width: int, height: int, radius: int)
    requires 1 <= width && 1 <= height && |bitmap| == Cells(width, height) && 0 <= radius
    requires RowsBlurred(bitmap, rows, width, height, radius) && |rows| == Cells(height, width)
    requires both == BoxBlur(rows, height, width, width, 1, radius)
    ensures forall x, y {:trigger both[At(x, y, width)]} | 0 <= x < width && 0 <= y < height ::
      (AtInRange(x, y, width, height);
       both[At(x, y, width)] == WindowSum(bitmap, width, height, x, y, radius))
  {
    forall x, y {:trigger both[At(x, y, width)]} | 0 <= x < width && 0 <= y < height
      ensures (AtInRange(x, y, width, height);
               both[At(x, y, width)] == WindowSum(bitmap, width, height, x, y, radius))
    {
      AtInRange(x, y, width, height);
      CellsOfOne(x);
      assert At(x, y, width) == Position(y, x, width, 1);
      PositionInRange(y, x, height, width, width, 1);
      assert both[Position(y, x, width, 1)]
          == BlurLine(rows, height, width, width, 1, y, x, -radius, radius + 1);
      VerticalLine(bitmap, rows, width, height, radius, x, y, -radius, radius + 1);
    }
  }

  /** The largest side whose product with 31, the largest destination coordinate,
      fits `unsigned` arithmetic. */
  const MaxShrinkSide: int := (U32Limit - 1) / (Square - 1)

  /** A side is at most MaxShrinkSide exactly when `side * 31` does not wrap. */
  lemma MaxShrinkSideExact(side: int)
    requires 0 <= side
    ensures side * (Square - 1) < U32Limit <==> side <= MaxShrinkSide
  {
    if side > MaxShrinkSide {
      MulLeft(MaxShrinkSide + 1, side, Square - 1);
    } else {
      MulLeft(side, MaxShrinkSide, Square - 1);
    }
  }

  /** `width * height`, `width * 31` and `height * 31` fit the `unsigned` arithmetic of
      the general path (the last two stated through MaxShrinkSideExact). */
  predicate ShrinkFits(width: int, height: int)
  {
    0 <= height && Cells(width, height) < U32Limit && width <= MaxShrinkSide && height <= MaxShrinkSide
  }

  /** `shrink_to_square`: destination cell (x, y) takes the sample at the nearest-sample
      coordinates (width * x / size, height * y / size), which always lie in the image. */
  function ShrinkToSquare(image: seq<int>, size: int, width: int, height: int): (ret: seq<int>)
    requires 1 <= size <= Square && 1 <= width && 1 <= height && |image| == Cells(width, height)
    requires ShrinkFits(width, height)
    ensures |ret| == Cells(size, size)
    ensures forall x, y {:trigger ret[At(x, y, size)]} | 0 <= x < size && 0 <= y < size ::
      (AtInRange(x, y, size, size);
       NearestIndexBounds(width, x, size);
       NearestIndexBounds(height, y, size);
       AtInRange(NearestIndex(width, x, size), NearestIndex(height, y, size), width, height);
       ret[At(x, y, size)]
         == image[At(NearestIndex(width, x, size), NearestIndex(height, y, size), width)])
  {
    CellsNonNegative(size, size);
    var ret := seq(Cells(size, size), k requires 0 <= k < Cells(size, size) =>
      OffsetIsCell(k, size, size);
      ShrinkCell(image, size, width, height, k % size, k / size));
    assert forall x, y {:trigger ret[At(x, y, size)]} | 0 <= x < size && 0 <= y < size ::
      (AtInRange(x, y, size, size);
       ret[At(x, y, size)] == ShrinkCell(image, size, width, height, x, y))
    by {
      forall x, y {:trigger ret[At(x, y, size)]} | 0 <= x < size && 0 <= y < size
        ensures (AtInRange(x, y, size, size);
                 ret[At(x, y, size)] == ShrinkCell(image, size, width, height, x, y))
      {
        AtInRange(x, y, size, size);
        AtDivMod(x, y, size);
      }
    }
    ret
  }

  /** The sample `shrink_to_square` stores in destination cell (x, y). */
  function ShrinkCell(image: seq<int>, size: int, width: int, height: int, x: int, y: int): int
    requires 1 <= size && 1 <= width && 1 <= height && |image| == Cells(width, height)
    requires 0 <= x < size && 0 <= y < size
  {
    var x0 := NearestIndex(width, x, size);
    var y0 := NearestIndex(height, y, size);
    NearestIndexBounds(width, x, size);
    NearestIndexBounds(height, y, size);
    AtInRange(x0, y0, width, height);
    image[At(x0, y0, width)]
  }

  /** The general path of `dct_imagehash`: copy, blur both ways, shrink. */
  function SlowPath(bitmap: seq<Byte>, width: int, height: int): (sq: seq<int>)
    requires 1 <= width && 1 <= height && |bitmap| == Cells(width, height)
    requires ShrinkFits(width, height)
    ensures |sq| == Square * Square
  {
    CellsIsProduct(Square, Square);
    ShrinkToSquare(BlurBothWays(bitmap, width, height, SmearRadius), Square, width, height)
  }

  /** The general path computes the reference square, for every size it accepts. */
  lemma SlowPathIsReference(bitmap: seq<Byte>, width: int, height: int)
    requires 1 <= width && 1 <= height && |bitmap| == Cells(width, height)
    requires ShrinkFits(width, height)
    ensures SlowPath(bitmap, width, height) == ReferenceSquare(bitmap, width, height)
  {
    var s, r := SlowPath(bitmap, width, height), ReferenceSquare(bitmap, width, height);
    var v := BlurBothWays(bitmap, width, height, SmearRadius);
    CellsIsProduct(Square, Square);
    forall k | 0 <= k < Square * Square
      ensures s[k] == r[k]
    {
      OffsetIsCell(k, Square, Square);
      var x, y := k % Square, k / Square;
      NearestIndexBounds(width, x, Square);
      NearestIndexBounds(height, y, Square);
      AtInRange(x, y, Square, Square);
    }
  }

  // ---------------------------------------------------------------------------------
  // The fused path: smear_and_shrink
  // ---------------------------------------------------------------------------------

  /** The row that `smear_and_shrink` reads for row coordinate v, as written: below the
      bitmap it reads row 0, past the bottom it reads row `width - 1` (where the clamp to
      the edge would read row `height - 1`). It agrees with that clamp exactly when the
      upper branch is not taken or the bitmap is square, and it names a row of the
      bitmap exactly when the upper branch is not taken or the bitmap is no wider than
      it is tall. */
  function SmearRow(v: int, width: int, height: int): (row: int)
    requires 1 <= width && 1 <= height
    ensures 0 <= row
    ensures row < height <==> v < height || width <= height
    ensures row == Clamp(v, height) <==> v < height || width == height
  {
    if v < 0 then 0 else if v >= height then width - 1 else v
  }

  /** Sum, over rows y1 + i with lo <= i < hi mapped by SmearRow, of the row sums of
      radius around column x1: the two inner loops of `smear_and_shrink`. */
  function SmearRows(bitmap: seq<Byte>, width: int, height: int, x1: int, y1: int,
                     radius: int, lo: int, hi: int): (s: int)
    requires 1 <= width && 1 <= height && |bitmap| == Cells(width, height) && 0 <= radius
    requires width <= height || y1 + hi <= height
    ensures 0 <= s
    decreases hi - lo
  {
    if hi <= lo then 0
    else
      SmearRows(bitmap, width, height, x1, y1, radius, lo, hi - 1)
        + RowSum(bitmap, width, height, x1, SmearRow(y1 + hi - 1, width, height),
                 -radius, radius + 1)
  }

  /** Every read of `smear_and_shrink` stays inside the bitmap: either the bitmap is no
      wider than tall, so the misplaced row `width - 1` is still a row, or the window
      around the lowest nearest-sample row never passes the bottom. */
  predicate RowClampInBounds(width: int, height: int, radius: int, square: int)
    requires 0 <= height && 1 <= square
  {
    width <= height || NearestIndex(height, square - 1, square) + radius < height
  }

  /** `smear_and_shrink`: destination cell (x, y) sums the (2 * radius + 1)-square
      window around the nearest sample (width * x / square, height * y / square), with
      columns clamped to the bitmap and rows mapped by SmearRow. */
  function SmearAndShrink(bitmap: seq<Byte>, width: int, height: int, radius: int,
                          square: int): (ret: seq<int>)
    requires 1 <= width && 1 <= height && |bitmap| == Cells(width, height)
    requires 0 <= radius && 1 <= square
    requires RowClampInBounds(width, height, radius, square)
    ensures |ret| == Cells(square, square)
    ensures forall x, y {:trigger ret[At(x, y, square)]} | 0 <= x < square && 0 <= y < square ::
      (AtInRange(x, y, square, square);
       NearestIndexMonotone(height, y, square - 1, square);
       ret[At(x, y, square)]
         == SmearRows(bitmap, width, height, NearestIndex(width, x, square),
                      NearestIndex(height, y, square), radius, -radius, radius + 1))
  {
    CellsNonNegative(square, square);
    var ret := seq(Cells(square, square), k requires 0 <= k < Cells(square, square) =>
      OffsetIsCell(k, square, square);
      SmearCell(bitmap, width, height, radius, square, k % square, k / square));
    assert forall x, y {:trigger ret[At(x, y, square)]} | 0 <= x < square && 0 <= y < square ::
      (AtInRange(x, y, square, square);
       ret[At(x, y, square)] == SmearCell(bitmap, width, height, radius, square, x, y))
    by {
      forall x, y {:trigger ret[At(x, y, square)]} | 0 <= x < square && 0 <= y < square
        ensures (AtInRange(x, y, square, square);
                 ret[At(x, y, square)] == SmearCell(bitmap, width, height, radius, square, x, y))
      {
        AtInRange(x, y, square, square);
        AtDivMod(x, y, square);
      }
    }
    ret
  }

  /** The sum `smear_and_shrink` stores in destination cell (x, y). */
  function SmearCell(bitmap: seq<Byte>, width: int, height: int, radius: int, square: int,
                     x: int, y: int): int
    requires 1 <= width && 1 <= height && |bitmap| == Cells(width, height)
    requires 0 <= radius && 1 <= square
    requires RowClampInBounds(width, height, radius, square)
    requires 0 <= x < square && 0 <= y < square
  {
    NearestIndexMonotone(height, y, square - 1, square);
    SmearRows(bitmap, width, height, NearestIndex(width, x, square),
              NearestIndex(height, y, square), radius, -radius, radius + 1)
  }

  /** When no row read passes the bottom, or the bitmap is square, the fused path's rows
      are the clamped rows of the reference window. */
  lemma {:induction false} SmearRowsMatchWindow(bitmap: seq<Byte>, width: int, height: int,
                                                x1: int, y1: int, radius: int,
                                                lo: int, hi: int)
    requires 1 <= width && 1 <= height && |bitmap| == Cells(width, height) && 0 <= radius
    requires width == height || y1 + hi <= height
    ensures SmearRows(bitmap, width, height, x1, y1, radius, lo, hi)
         == WindowRows(bitmap, width, height, x1, y1, radius, lo, hi)
    decreases hi - lo
  {
    if lo < hi {
      SmearRowsMatchWindow(bitmap, width, height, x1, y1, radius, lo, hi - 1);
      assert SmearRow(y1 + hi - 1, width, height) == Clamp(y1 + hi - 1, height);
    }
  }

  // ---------------------------------------------------------------------------------
  // Path choice in dct_imagehash
  // ---------------------------------------------------------------------------------

  /** Both sides at least 224: `dct_imagehash` takes the fused path. */
  predicate FastPath(width: int, height: int)
  {
    width >= FastPathMin && height >= FastPathMin
  }

  /** Sizes `dct_imagehash` handles: both sides positive `unsigned` values, and on the
      general path the products it forms in `unsigned` arithmetic do not wrap. */
  predicate ValidDimensions(width: int, height: int)
  {
    1 <= width < U32Limit && 1 <= height < U32Limit
    && (FastPath(width, height) || ShrinkFits(width, height))
  }

  /** On the fused path the upper clamps never fire: the window around every nearest
      sample stays below the last column and the last row, so only the clamp at 0 can
      change a coordinate and the misplaced row clamp is never reached. */
  lemma FastPathNoUpperClamp(width: int, height: int, x: int, y: int)
    requires FastPath(width, height) && 0 <= x < Square && 0 <= y < Square
    ensures NearestIndex(width, x, Square) + SmearRadius < width
    ensures NearestIndex(height, y, Square) + SmearRadius < height
    ensures RowClampInBounds(width, height, SmearRadius, Square)
  {
    CellsIsProduct(Square, SmearRadius + 1);
    NearestIndexLeavesRoom(width, x, Square, SmearRadius);
    NearestIndexLeavesRoom(height, y, Square, SmearRadius);
    NearestIndexLeavesRoom(height, Square - 1, Square, SmearRadius);
  }

  /** On the fused path every row that `smear_and_shrink` reads is the clamped row:
      the `width - 1` branch is unreachable. */
  lemma RowClampBugUnreachable(width: int, height: int, y: int, i: int)
    requires FastPath(width, height) && 0 <= y < Square
    requires -SmearRadius <= i <= SmearRadius
    ensures SmearRow(NearestIndex(height, y, Square) + i, width, height)
         == Clamp(NearestIndex(height, y, Square) + i, height)
  {
    FastPathNoUpperClamp(width, height, 0, y);
  }

  /** The fused path computes the reference square. */
  lemma FastPathIsReference(bitmap: seq<Byte>, width: int, height: int)
    requires FastPath(width, height) && |bitmap| == Cells(width, height)
    ensures RowClampInBounds(width, height, SmearRadius, Square)
    ensures SmearAndShrink(bitmap, width, height, SmearRadius, Square)
         == ReferenceSquare(bitmap, width, height)
  {
    FastPathNoUpperClamp(width, height, 0, 0);
    var f := SmearAndShrink(bitmap, width, height, SmearRadius, Square);
    var r := ReferenceSquare(bitmap, width, height);
    CellsIsProduct(Square, Square);
    forall k | 0 <= k < Square * Square
      ensures f[k] == r[k]
    {
      OffsetIsCell(k, Square, Square);
      var x, y := k % Square, k / Square;
      AtInRange(x, y, Square, Square);
      FastPathNoUpperClamp(width, height, x, y);
      SmearRowsMatchWindow(bitmap, width, height, NearestIndex(width, x, Square),
                           NearestIndex(height, y, Square), SmearRadius,
                           -SmearRadius, SmearRadius + 1);
    }
  }

  /** For sizes where both paths are defined and the fused one is taken, skipping the
      full blur changes nothing: the fused path equals blur-then-shrink. */
  lemma FastSlowEquivalence(bitmap: seq<Byte>, width: int, height: int)
    requires FastPath(width, height) && ShrinkFits(width, height)
    requires |bitmap| == Cells(width, height)
    ensures RowClampInBounds(width, height, SmearRadius, Square)
    ensures SmearAndShrink(bitmap, width, height, SmearRadius, Square)
         == SlowPath(bitmap, width, height)
  {
    FastPathIsReference(bitmap, width, height);
    SlowPathIsReference(bitmap, width, height);
  }

  /** Outside the guard the misplaced clamp does matter. In a bitmap one pixel wide and
      four tall, the window of the bottom-left destination cell covers rows 0 .. 6; the
      fused path reads rows 4 .. 6 as row `width - 1 == 0` where the clamped window reads
      row 3, so the two disagree whenever the first and last pixels differ (with only the
      last pixel lit, 7 against 28). */
  lemma RowClampBugOutsideGuard(b: seq<Byte>)
    requires |b| == 4
    ensures RowClampInBounds(1, 4, SmearRadius, Square)
    ensures |SmearAndShrink(b, 1, 4, SmearRadius, Square)| == Square * Square
    ensures SmearAndShrink(b, 1, 4, SmearRadius, Square)[992]
         == 7 * (4 * (b[0] as int) + b[1] + b[2] + b[3])
    ensures ReferenceSquare(b, 1, 4)[992]
         == 7 * ((b[0] as int) + b[1] + b[2] + 4 * (b[3] as int))
  {
    CellsIsProduct(Square, Square);
    CellsIsProduct(Square, 31);
    CellsIsProduct(4, 31);
    assert NearestIndex(1, 0, Square) == 0;
    assert NearestIndex(4, 31, Square) == 3;
    FusedExampleRows(b);
    ReferenceExampleRows(b);
    var k := At(0, 31, Square);
    assert k == 992 && k % Square == 0 && k / Square == 31;
    assert ReferenceSquare(b, 1, 4)[k]
        == WindowSum(b, 1, 4, NearestIndex(1, 0, Square), NearestIndex(4, 31, Square), 3);
  }

  /** The fused rows of the example: rows 4 .. 6 are read as row 0. */
  lemma FusedExampleRows(b: seq<Byte>)
    requires |b| == 4
    ensures SmearRows(b, 1, 4, 0, 3, 3, -3, 4)
         == 7 * (4 * (b[0] as int) + b[1] + b[2] + b[3])
  {
    SingleColumnRow(b, 4, 0, 0, -3, 4);
    SingleColumnRow(b, 4, 0, 1, -3, 4);
    SingleColumnRow(b, 4, 0, 2, -3, 4);
    SingleColumnRow(b, 4, 0, 3, -3, 4);
    var r0, r1, r2, r3 := 7 * (b[0] as int), 7 * (b[1] as int), 7 * (b[2] as int), 7 * (b[3] as int);
    assert SmearRows(b, 1, 4, 0, 3, 3, -3, -2) == r0;
    assert SmearRows(b, 1, 4, 0, 3, 3, -3, -1) == r0 + r1;
    assert SmearRows(b, 1, 4, 0, 3, 3, -3, 0) == r0 + r1 + r2;
    assert SmearRows(b, 1, 4, 0, 3, 3, -3, 1) == r0 + r1 + r2 + r3;
    assert SmearRows(b, 1, 4, 0, 3, 3, -3, 2) == 2 * r0 + r1 + r2 + r3;
    assert SmearRows(b, 1, 4, 0, 3, 3, -3, 3) == 3 * r0 + r1 + r2 + r3;
  }

  /** The clamped rows of the example: rows 4 .. 6 are read as row 3. */
  lemma ReferenceExampleRows(b: seq<Byte>)
    requires |b| == 4
    ensures WindowRows(b, 1, 4, 0, 3, 3, -3, 4)
         == 7 * ((b[0] as int) + b[1] + b[2] + 4 * (b[3] as int))
  {
    SingleColumnRow(b, 4, 0, 0, -3, 4);
    SingleColumnRow(b, 4, 0, 1, -3, 4);
    SingleColumnRow(b, 4, 0, 2, -3, 4);
    SingleColumnRow(b, 4, 0, 3, -3, 4);
    var r0, r1, r2, r3 := 7 * (b[0] as int), 7 * (b[1] as int), 7 * (b[2] as int), 7 * (b[3] as int);
    assert WindowRows(b, 1, 4, 0, 3, 3, -3, -2) == r0;
    assert WindowRows(b, 1, 4, 0, 3, 3, -3, -1) == r0 + r1;
    assert WindowRows(b, 1, 4, 0, 3, 3, -3, 0) == r0 + r1 + r2;
    assert WindowRows(b, 1, 4, 0, 3, 3, -3, 1) == r0 + r1 + r2 + r3;
    assert WindowRows(b, 1, 4, 0, 3, 3, -3, 2) == r0 + r1 + r2 + 2 * r3;
    assert WindowRows(b, 1, 4, 0, 3, 3, -3, 3) == r0 + r1 + r2 + 3 * r3;
  }

  /** In a bitmap one column wide every row sum repeats that row's only sample. */
  lemma {:induction false} SingleColumnRow(bitmap: seq<Byte>, height: int, cx: int, row: int,
                                           lo: int, hi: int)
    requires 0 <= row < height && |bitmap| == height == Cells(1, height) && lo <= hi
    ensures RowSum(bitmap, 1, height, cx, row, lo, hi) == (hi - lo) * bitmap[row]
    decreases hi - lo
  {
    if lo < hi {
      SingleColumnRow(bitmap, height, cx, row, lo, hi - 1);
      CellsOfOne(row);
    }
  }

  /** The 32x32 square `dct_imagehash` hands to the transform: the fused path when both
      sides are at least 224, the general path otherwise. Whichever path runs, the
      result is the reference square, so every cell lies in [0, 12495] and is held
      exactly by a `float`. */
  function Resample(bitmap: seq<Byte>, width: int, height: int): (sq: seq<int>)
    requires ValidDimensions(width, height) && |bitmap| == Cells(width, height)
    ensures sq == ReferenceSquare(bitmap, width, height)
    ensures |sq| == Square * Square
    ensures forall k | 0 <= k < |sq| :: 0 <= sq[k] <= 12495
  {
    if FastPath(width, height) then
      FastPathIsReference(bitmap, width, height);
      SmearAndShrink(bitmap, width, height, SmearRadius, Square)
    else
      SlowPathIsReference(bitmap, width, height);
      SlowPath(bitmap, width, height)
  }

  /** A uniform bitmap resamples to a flat square: every cell is the 7x7 window of the
      pixel, 49 * v, on either path. */
  lemma UniformBitmapIsFlat(bitmap: seq<Byte>, width: int, height: int, v: Byte)
    requires ValidDimensions(width, height) && |bitmap| == Cells(width, height)
    requires Uniform(bitmap, v)
    ensures forall k | 0 <= k < Square * Square ::
      Resample(bitmap, width, height)[k] == Cells(Cells(v, SmearDiameter), SmearDiameter)
    ensures forall k | 0 <= k < Square * Square :: Resample(bitmap, width, height)[k] == 49 * v
  {
    var sq := Resample(bitmap, width, height);
    var flat := Cells(Cells(v, SmearDiameter), SmearDiameter);
    forall k | 0 <= k < Square * Square
      ensures sq[k] == flat
    {
      UniformWindowRows(bitmap, width, height, v, NearestIndex(width, k % Square, Square),
                        NearestIndex(height, k / Square, Square), SmearRadius,
                        -SmearRadius, SmearRadius + 1);
    }
    CellsIsProduct(v, SmearDiameter);
    CellsIsProduct(Cells(v, SmearDiameter), SmearDiameter);
  }
}
