/** Constants, sample type and index arithmetic shared by every stage of the hash.

    Grids are row-major sequences: the cell in column x and row y of a grid that is w
    cells wide sits at offset `At(x, y, w) == x + y * w`. */
module Layout {

  /** Side of the resampled square (`square` in the source). */
  const Square: int := 32
  /** Side of the coefficient block kept after the transform (`crop`). */
  const CropSize: int := 8
  /** Radius of the box blur (`smear_radius`). */
  const SmearRadius: int := 3
  /** Width of one blur window (`smear_diameter`). */
  const SmearDiameter: int := 2 * SmearRadius + 1
  /** Both dimensions at least this large select the fused smear-and-shrink path. */
  const FastPathMin: int := Square * SmearDiameter

  /** One unsigned 8-bit luma sample. */
  type Byte = b: int | 0 <= b < 256

  /** Bound of `unsigned` (32-bit) arithmetic. */
  const U32Limit: int := 0x1_0000_0000

  /** The cells of n lines of w cells each: the product n * w, added up one line at a
      time. Grid sizes and offsets are written with it, and CellsIsProduct turns it
      back into a multiplication where a proof needs one. */
  function Cells(w: int, n: nat): int
  {
    if n == 0 then 0 else Cells(w, n - 1) + w
  }

  lemma {:induction false} CellsIsProduct(w: int, n: nat)
    ensures Cells(w, n) == n * w
  {
    if n > 0 {
      CellsIsProduct(w, n - 1);
    }
  }

  /** A w-by-h grid and an h-by-w grid have the same number of cells. */
  lemma CellsCommute(w: nat, h: nat)
    ensures Cells(w, h) == Cells(h, w)
  {
    CellsIsProduct(w, h);
    CellsIsProduct(h, w);
  }

  /** Lines of no negative width hold no negative number of cells. */
  lemma {:induction false} CellsNonNegative(w: int, n: nat)
    requires 0 <= w
    ensures 0 <= Cells(w, n)
  {
    if n > 0 {
      CellsNonNegative(w, n - 1);
    }
  }

  /** Lines one cell wide hold one cell per line. */
  lemma CellsOfOne(n: nat)
    ensures Cells(1, n) == n
  {
    CellsIsProduct(1, n);
  }

  /** Row-major offset of column x, row y in a grid w cells wide: `x + y * w`. */
  function At(x: int, y: nat, w: int): int
  {
    x + Cells(w, y)
  }

  /** Clamp-to-edge: coordinates below 0 read 0, coordinates at or past n read n - 1. */
  function Clamp(v: int, n: int): (c: int)
    requires 1 <= n
    ensures 0 <= c < n
    ensures 0 <= v < n ==> c == v
    ensures v < 0 ==> c == 0
    ensures n <= v ==> c == n - 1
  {
    if v < 0 then 0 else if v >= n then n - 1 else v
  }

  lemma MulLeft(a: int, b: int, m: int)
    requires 0 <= m && a <= b
    ensures a * m <= b * m
  {
    assert b * m - a * m == (b - a) * m;
  }

  /** A cell inside a w-by-h grid has an offset inside the grid. */
  lemma AtInRange(x: int, y: int, w: int, h: int)
    requires 0 <= x < w && 0 <= y < h
    ensures 0 <= At(x, y, w) < Cells(w, h)
  {
    CellsIsProduct(w, y);
    CellsIsProduct(w, h);
    MulLeft(y, h - 1, w);
    assert (h - 1) * w == h * w - w;
    MulLeft(0, y, w);
  }

  /** The offset of a cell determines its column and row. */
  lemma AtDivMod(x: int, y: int, w: int)
    requires 0 <= x < w && 0 <= y
    ensures At(x, y, w) / w == y && At(x, y, w) % w == x
  {
    CellsIsProduct(w, y);
    var p := At(x, y, w);
    var q, r := p / w, p % w;
    assert p == x + y * w;
    assert q * w + r == p;
    assert 0 <= r < w;
    assert (q - y) * w == x - r;
    if q > y {
      MulLeft(1, q - y, w);
    } else if q < y {
      MulLeft(1, y - q, w);
    }
  }

  /** Every offset below w * h is some cell of the grid. */
  lemma OffsetIsCell(p: int, w: int, h: int)
    requires 1 <= w && 0 <= h && 0 <= p < Cells(w, h)
    ensures 0 <= p % w < w && 0 <= p / w < h
    ensures At(p % w, p / w, w) == p
  {
    CellsIsProduct(w, h);
    var q := p / w;
    assert q * w + p % w == p;
    if q >= h {
      MulLeft(h, q, w);
    }
    CellsIsProduct(w, q);
  }

  /** a / d for a non-negative a, counted as the number of times d can be taken away.
      NearestIndex divides through it, and QuotIsDiv turns it back into a division
      where a proof needs one. */
  function Quot(a: nat, d: int): nat
    requires 1 <= d
    decreases a
  {
    if a < d then 0 else 1 + Quot(a - d, d)
  }

  lemma {:induction false} QuotIsDiv(a: nat, d: int)
    requires 1 <= d
    ensures Quot(a, d) == a / d
  {
    if a >= d {
      QuotIsDiv(a - d, d);
      var q, r := (a - d) / d, (a - d) % d;
      CellsIsProduct(d, q);
      assert At(r, q + 1, d) == a;
      AtDivMod(r, q + 1, d);
    }
  }

  /** The nearest-sample source coordinate for destination coordinate i when an extent
      of samples is shrunk to size cells (`width * x / size` in the source). */
  function NearestIndex(extent: int, i: nat, size: int): nat
    requires 0 <= extent && 1 <= size
  {
    CellsNonNegative(extent, i);
    Quot(Cells(extent, i), size)
  }

  /** NearestIndex is the integer division `extent * i / size` of the source. */
  lemma NearestIndexIsQuotient(extent: int, i: nat, size: int)
    requires 0 <= extent && 1 <= size
    ensures NearestIndex(extent, i, size) == extent * i / size
  {
    CellsIsProduct(extent, i);
    CellsNonNegative(extent, i);
    QuotIsDiv(Cells(extent, i), size);
  }

  /** Nearest sampling never reads past the end of the source extent. */
  lemma NearestIndexBounds(extent: int, i: int, size: int)
    requires 1 <= extent && 0 <= i < size
    ensures 0 <= NearestIndex(extent, i, size) < extent
  {
    CellsMonotone(extent, i + 1, size);
    CellsCommute(extent, size);
    CellsNonNegative(extent, i);
    QuotBelow(Cells(extent, i), size, extent);
  }

  /** A quotient by d stays below n when the dividend is below n lines of d. */
  lemma {:induction false} QuotBelow(a: nat, d: int, n: nat)
    requires 1 <= d && a < Cells(d, n)
    ensures Quot(a, d) < n
  {
    if a >= d {
      QuotBelow(a - d, d, n - 1);
    }
  }

  /** Nearest sampling preserves order: later destination cells read later source samples. */
  lemma NearestIndexMonotone(extent: int, i: int, j: int, size: int)
    requires 0 <= extent && 0 <= i <= j && 1 <= size
    ensures NearestIndex(extent, i, size) <= NearestIndex(extent, j, size)
  {
    CellsMonotone(extent, i, j);
    CellsNonNegative(extent, i);
    QuotMonotone(Cells(extent, i), Cells(extent, j), size);
  }

  /** More lines of a non-negative width hold at least as many cells. */
  lemma {:induction false} CellsMonotone(w: int, i: nat, j: nat)
    requires 0 <= w && i <= j
    ensures Cells(w, i) <= Cells(w, j)
  {
    if i < j {
      CellsMonotone(w, i, j - 1);
    }
  }

  /** Dividing preserves order. */
  lemma {:induction false} QuotMonotone(a: nat, b: nat, d: int)
    requires a <= b && 1 <= d
    ensures Quot(a, d) <= Quot(b, d)
    decreases b
  {
    if a >= d {
      QuotMonotone(a - d, b - d, d);
    }
  }

  /** Whenever the extent is at least square * (radius + 1), and so in particular under
      the guard square * (2 * radius + 1), a window of the given radius around any
      nearest-sample coordinate stays below the extent: the upper clamp never fires. */
  lemma NearestIndexLeavesRoom(extent: int, i: int, size: int, radius: int)
    requires 0 <= radius && 1 <= size && 0 <= i < size
    requires 0 <= extent && Cells(size, radius + 1) <= extent
    ensures NearestIndex(extent, i, size) + radius < extent
  {
    CellsIsProduct(extent, i);
    CellsIsProduct(size, radius + 1);
    CellsNonNegative(extent, i);
    QuotIsDiv(Cells(extent, i), size);
    LeavesRoom(extent, i, size, radius);
  }

  /** The arithmetic behind NearestIndexLeavesRoom. */
  lemma LeavesRoom(extent: int, i: int, size: int, radius: int)
    requires 0 <= radius && 1 <= size && 0 <= i < size
    requires 0 <= extent && (radius + 1) * size <= extent
    ensures i * extent / size + radius < extent
  {
    var q := i * extent / size;
    assert q * size <= i * extent;
    MulLeft(i, size - 1, extent);
    assert (size - 1) * extent == size * extent - extent;
    assert (radius + 1) * size == size * radius + size;
    if q + radius >= extent {
      MulLeft(extent - radius, q, size);
    }
  }
}
