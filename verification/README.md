# tiny-phash in Dafny

A model of the integer core of tiny-phash, a perceptual image hash based on the discrete
cosine transform. `TinyPHash::dct_imagehash` reads an 8-bit luma bitmap and produces a
64-bit hash. It works in four steps:

1. It resamples the bitmap to a 32x32 square of 7x7 box-blurred samples. Bitmaps at least
   224 pixels on both sides take the fused `smear_and_shrink` path. Smaller bitmaps are
   blurred twice with `box_blur` and then shrunk with `shrink_to_square`.
2. It takes the 2-D DCT of the square.
3. It keeps the 8x8 block of coefficients at columns and rows 1..8.
4. It sets bit i of the hash when coefficient i of that block is above the block's median.

`tinyph_hamming_distance` compares two hashes by counting the bits in which they differ.

The modules follow those stages:

- `Layout`: the constants (square 32, crop 8, blur radius 3), the byte type, row-major
  offsets, clamp-to-edge, and the nearest-sample index `extent * i / size`. Products of
  sizes are written as repeated addition (`Cells`) and that quotient as repeated
  subtraction (`Quot`); `CellsIsProduct` and `QuotIsDiv` prove them equal to `*` and `/`.
- `Bits`: the `uint64_t` hash word. It is an integer in [0, 2^64), whose bit k is binary
  digit k. Popcount, exclusive-or and complement are written out on those digits.
- `Resampler`: `box_blur`, `shrink_to_square`, `smear_and_shrink` and the choice between
  the two paths. It also defines `ReferenceSquare`, the clamped 7x7 neighbourhood sum
  around each nearest sample; both paths are proved equal to it.
- `Selector`: the 8x8 crop.
- `Thresholder`: sorting, the median and the packing loop.
- `Comparator`: the Hamming distance.
- `PHash`: the whole of `dct_imagehash`. The DCT is a function parameter from 32x32 grids
  to 32x32 grids.

Both paths sum at most 49 bytes, so every sample fits a `float` exactly (at most 12495).
The model therefore sums over `int`.

The bug at tinyphash.cpp:129 is modelled as written: rows past the bottom are clamped to
`width - 1` instead of `height - 1`. `SmearAndShrink` requires only that every row it reads
exists. `RowClampBugUnreachable` and `FastPathIsReference` prove that under the 224-pixel
guard at tinyphash.cpp:181 the misplaced branch is never reached. `RowClampBugOutsideGuard`
shows that for a bitmap 1 pixel wide and 4 tall, which is outside the guard, the branch
would change the result.

On the bit order the model follows the code. The loop at tinyphash.cpp:225-230 walks the
block from its last entry to its first while shifting left. So block entry 0 lands in the
least significant bit and entry 63 in the most significant one. `HashBitOrderExample`
checks this: the block 0..63 hashes to 0xFFFFFFFF00000000.

## Model

| member | source | states |
|---|---|---|
| `Layout.Clamp` | tinyphash.cpp:91-95 | the clamped coordinate lies in [0, n); it is v inside the range, 0 below it and n - 1 at or past n |
| `Layout.NearestIndexIsQuotient` | tinyphash.cpp:107-108 | the nearest-sample coordinate is the integer quotient `extent * i / size` |
| `Layout.NearestIndexBounds` | tinyphash.cpp:107-109 | for 0 <= i < size the nearest sample `extent * i / size` lies in [0, extent), so `image[x0 + y0 * width]` is in bounds |
| `Layout.NearestIndexMonotone` | tinyphash.cpp:107-108 | the nearest-sample coordinate never decreases as the destination coordinate grows |
| `Layout.NearestIndexLeavesRoom` | tinyphash.cpp:120-121 | when the extent is at least size * (radius + 1), the nearest sample plus the radius stays below the extent |
| `Layout.AtInRange` | tinyphash.cpp:110 | a cell inside a w-by-h grid has its row-major offset `x + y * w` inside the grid |
| `Bits.DigitsOfFromDigits` | tinyphash.cpp:225-230 | reading back the binary digits of the number built from a digit sequence gives that sequence |
| `Bits.FromDigitsOfDigits` | tinyphash.cpp:225-230 | a number below 2^n is rebuilt from its n lowest digits |
| `Bits.FromDigitsAppend` | tinyphash.cpp:225-230 | the digits of a concatenation put the second part above the first: value(a + b) = value(a) + 2^len(a) * value(b) |
| `Bits.BitsDetermine` | tinyphash.cpp:225-230 | two 64-bit words with the same bits are equal |
| `Bits.CountTrueExtremes` | tinyphash.cpp:267-275 | a bit count is 0 exactly when no bit is set, and full exactly when every bit is set |
| `Bits.PopCount` | tinyphash.cpp:268-274 | the popcount of a word lies in [0, 64] and equals the number of its set bits |
| `Bits.XorNDigits` | tinyphash.cpp:270 | digit k of the exclusive-or is set exactly when digit k of the two operands differs |
| `Bits.Xor` | tinyphash.cpp:270 | bit k of `a ^ b` is set exactly when bit k of a and of b differ |
| `Bits.Not` | tinyphash.cpp:267-275 | bit k of `~a` is the negation of bit k of a |
| `Resampler.BoxBlur` | tinyphash.cpp:84-101 | every sample becomes the sum of the 2 * radius + 1 samples of its line centred on it, each index clamped to the line's ends, in both the row and the column layout |
| `Resampler.RowBlurIsRowSums` | tinyphash.cpp:194 | the row-wise blur call replaces every sample by the clamped sum of its row window |
| `Resampler.VerticalLine` | tinyphash.cpp:195 | the column-wise blur of the row sums sums those row windows over the clamped rows of the column window |
| `Resampler.BlurBothWays` | tinyphash.cpp:192-195 | after both blur calls every sample is the clamped 7x7 neighbourhood sum around it |
| `Resampler.ShrinkToSquare` | tinyphash.cpp:103-113 | destination cell (x, y) holds the source sample at (width * x / size, height * y / size), and that sample lies in the image |
| `Resampler.SlowPathIsReference` | tinyphash.cpp:188-197 | the general path (copy, blur both ways, shrink) yields the clamped 7x7 neighbourhood sum around each nearest sample |
| `Resampler.SmearRow` | tinyphash.cpp:126-130 | the row read as written is non-negative; it names a row of the bitmap iff the coordinate is above the bottom or the bitmap is no wider than tall; it equals the clamp to the edge iff the coordinate is above the bottom or the bitmap is square |
| `Resampler.SmearAndShrink` | tinyphash.cpp:115-144 | destination cell (x, y) sums the 7x7 window around the nearest sample, with columns clamped to the edge and rows mapped as written; it is defined whenever every row read exists |
| `Resampler.SmearRowsMatchWindow` | tinyphash.cpp:124-139 | while no row passes the bottom, or the bitmap is square, the fused row mapping reads exactly the clamped rows of the reference window |
| `Resampler.FastPathNoUpperClamp` | tinyphash.cpp:181 | with both sides at least 224, the window around every nearest sample stays below the last column and the last row, so only the clamp at 0 can fire |
| `Resampler.RowClampBugUnreachable` | tinyphash.cpp:128-129 | under the 224-pixel guard every row `smear_and_shrink` reads is the clamped row, so the `width - 1` branch is never reached |
| `Resampler.FastPathIsReference` | tinyphash.cpp:181-187 | under the guard the fused path yields the clamped 7x7 neighbourhood sum around each nearest sample |
| `Resampler.FastSlowEquivalence` | tinyphash.cpp:181-198 | for sizes where both paths are defined, the fused path equals blur-then-shrink, as the comment at lines 182-186 claims |
| `Resampler.RowClampBugOutsideGuard` | tinyphash.cpp:128-129 | for a bitmap 1 wide and 4 tall the fused path counts the first pixel 4 times and the last once in the bottom-left cell, while the clamped window does the reverse |
| `Resampler.SingleColumnRow` | tinyphash.cpp:132-138 | in a bitmap one column wide every column clamp reads the row's only sample |
| `Resampler.Resample` | tinyphash.cpp:181-198 | whichever path the sizes select, the square is the reference square, and every cell lies in [0, 12495] |
| `Resampler.UniformRowSum` | tinyphash.cpp:132-138 | on a bitmap whose every pixel is v, a clamped row window of n columns sums to n copies of v, whichever columns the clamps repeat |
| `Resampler.UniformWindowRows` | tinyphash.cpp:124-139 | on a uniform bitmap, n clamped rows of a window of radius r sum to n times the (2r + 1)-column row sum |
| `Resampler.UniformBitmapIsFlat` | tinyphash.cpp:181-198 | a uniform bitmap of pixel v resamples, on either path, to a flat square whose every cell is 49 * v |
| `Selector.CropSource` | tinyphash.cpp:210-212 | every coefficient the crop reads lies at offset 33..288, in column and row 1..8 |
| `Selector.CropBlock` | tinyphash.cpp:207-214 | block cell (x, y) is coefficient (1 + x, 1 + y) of the 32x32 grid |
| `Selector.CropSourceInjective` | tinyphash.cpp:210-212 | distinct block cells read distinct coefficients |
| `Selector.CropIgnoresOutside` | tinyphash.cpp:207-214 | grids that agree on the coefficients in columns and rows 1..8 crop to the same block |
| `Selector.CropIgnoresConstantTerm` | tinyphash.cpp:207-212 | changing the constant (DC) term at offset 0 does not change the block |
| `Thresholder.InsertOrdered` | tinyphash.cpp:220 | inserting into a sorted sequence keeps it sorted |
| `Thresholder.InsertPermutes` | tinyphash.cpp:220 | inserting adds exactly the one value to the multiset of values |
| `Thresholder.SortSorted` | tinyphash.cpp:219-220 | the sorted copy is sorted and is a permutation of the input |
| `Thresholder.SortedPermutationUnique` | tinyphash.cpp:220 | two sorted permutations of the same values are equal, so any sort gives the same sorted copy |
| `Thresholder.SortOfSorted` | tinyphash.cpp:220 | sorting a sorted sequence leaves it unchanged |
| `Thresholder.CountAboveAppend` | tinyphash.cpp:226-230 | the number of values above a threshold adds up over a concatenation |
| `Thresholder.CountAboveExtremes` | tinyphash.cpp:226-230 | the count is 0 when no value exceeds the threshold and full when all do |
| `Thresholder.CountAboveInsert` | tinyphash.cpp:219-220 | inserting a value raises the count above a threshold by one exactly when the value exceeds it |
| `Thresholder.CountAboveSort` | tinyphash.cpp:219-220 | sorting does not change how many values exceed a threshold |
| `Thresholder.SortedCountAbove` | tinyphash.cpp:219-222 | in a sorted sequence whose first j values are at most m, at most the rest exceed m, and exactly the rest when they all do |
| `Thresholder.Median` | tinyphash.cpp:216-223 | the mean of the two middle sorted values is a median: at most half the values lie strictly above it and at most half strictly below, and exactly half lie above when the two middle values differ |
| `Thresholder.MedianBetweenMiddle` | tinyphash.cpp:219-222 | the median lies between sorted[31] and sorted[32] (for a block of 64) |
| `Thresholder.CountBelowSort` | tinyphash.cpp:219-220 | sorting does not change how many values lie below a threshold |
| `Thresholder.SortedCountBelow` | tinyphash.cpp:219-222 | in a sorted sequence whose values from position j on are at least m, at most j values lie below m |
| `Thresholder.AboveFlags` | tinyphash.cpp:227-229 | the comparisons `block[i] > median` count as many true entries as there are values above the median |
| `Thresholder.Pack` | tinyphash.cpp:225-232 | bit k of the packed word is flag k, and its popcount is the number of set flags |
| `Thresholder.PackLoop` | tinyphash.cpp:225-232 | the shift-and-or loop from index 63 down to 0 computes the word whose bit k is flag k |
| `Thresholder.PackStep` | tinyphash.cpp:227-229 | one turn of the loop shifts the word left without losing a set bit and puts flag i in bit 0 |
| `Thresholder.HashBlock` | tinyphash.cpp:216-232 | bit k of the hash is set iff block[k] is strictly above the median; at most 32 bits are set, and exactly 32 when sorted[31] < sorted[32] |
| `Thresholder.HashOfConstantBlock` | tinyphash.cpp:222-230 | a block of 64 equal values hashes to 0 |
| `Thresholder.HashBitOrderExample` | tinyphash.cpp:225-230 | the block 0, 1, .., 63 in row-major order hashes to 0xFFFFFFFF00000000 |
| `Comparator.HammingDistance` | tinyphash.cpp:267-275 | popcount(a ^ b) lies in [0, 64] and is the number of bit positions where a and b differ |
| `Comparator.HammingSymmetric` | tinyphash.cpp:267-275 | the distance does not depend on the order of the arguments |
| `Comparator.HammingZeroIffEqual` | tinyphash.cpp:267-275 | the distance is 0 exactly when the hashes are equal |
| `Comparator.HammingComplement` | tinyphash.cpp:267-275 | a hash and its complement are at distance 64 |
| `Comparator.HammingMaximalIffComplement` | tinyphash.cpp:267-275 | the distance is 64 exactly when one hash is the complement of the other |
| `Comparator.HammingTriangle` | tinyphash.cpp:267-275 | the distance obeys the triangle inequality |
| `PHash.HashCoefficients` | tinyphash.cpp:207-232 | after the crop and the threshold, bit x + 8 * y is set iff coefficient (1 + x, 1 + y) is strictly above the median of the 64 kept coefficients; at most 32 bits are set |
| `PHash.DctImageHash` | tinyphash.cpp:177-233 | on either path, bit x + 8 * y is set iff transformed coefficient (1 + x, 1 + y) of the reference square is above the median of the 64 kept coefficients; at most 32 bits are set |
| `PHash.HashDependsOnlyOnKept` | tinyphash.cpp:207-232 | bitmaps whose transformed squares agree on the 64 kept coefficients have the same hash, whatever their sizes |
| `PHash.FlatCoefficientsHashToZero` | tinyphash.cpp:216-230 | when the 64 kept coefficients are all equal the hash is 0 |
| `PHash.UniformBitmapHashesToZero` | tinyphash.cpp:181-232 | a uniform image hashes to 0 whenever the transform maps its flat 49 * v square to coefficients whose 64 kept terms are equal |
| `PHash.HashPathIndependent` | tinyphash.cpp:181-198 | for sizes where both paths are defined, the hash on the fused path equals the hash blur-then-shrink would give |

## Left out

- The discrete cosine transform (tinyphash.cpp:146-175): the basis construction and
  `matrix_multiplication` use `double` and `float` trigonometry and products. The transform
  is a parameter of `PHash.DctImageHash`, any function from 32x32 grids to 32x32 grids.
- Floating-point rounding: the coefficients, the median `(a + b) / 2` and the comparisons
  are exact `real` arithmetic. The resampled samples are exact because no sum exceeds 12495.
  The promise of `Thresholder.HashBlock` that exactly 32 bits are set when sorted[31] <
  sorted[32] holds only for this exact arithmetic: in `float` the mean of two adjacent
  values can round onto the upper one, and then only 31 bits are set.
- PHash.UniformBitmapHashesToZero: a uniform image hashes to 0 end to end only if the
  transform gives the flat square equal kept (AC) coefficients. An exact DCT makes them all
  0, but the `float` transform only approximates that, so the model takes it as a hypothesis
  on the transform parameter.
- The FreeImage loader (tinyphash.cpp:21-80): file I/O, a foreign library, and a float luma
  conversion.
- The `extern "C"` wrappers and the allocation of `TinyPHash` objects (tinyphash.cpp:235-265):
  they only forward to `dct_imagehash` and turn `std::bad_alloc` into a return code.
- The compiler popcount intrinsics (tinyphash.cpp:268-274): `Bits.PopCount` counts the bits
  directly.
- tinyphash.hpp holds declarations only and is not part of this model.
- Resampler.ValidDimensions: 32-bit `unsigned` wrap-around is not modelled. The sizes must
  be positive, and on the general path `width * height`, `width * 31` and `height * 31` must
  fit in 32 bits. The source accepts any sizes, and for huge or zero sizes its behaviour is
  wrap-around or undefined.
- Resampler.SmearAndShrink: `ssize_t` overflow of `y2 * width` is not modelled. It would need
  a bitmap of more than 2^63 bytes.
- Resampler.BoxBlur: it requires one of the two layouts `dct_imagehash` calls it with: along
  rows (stride 1, pitch width), or along the columns of a grid `height` wide (stride
  `height`, pitch 1). The C++ function accepts any stride and pitch.
- Thresholder.Sort: this is an insertion sort, not `std::sort`'s algorithm.
  `SortedPermutationUnique` shows that any sort gives the same sorted copy of real values.
- Bits.Word: the hash is an integer in [0, 2^64) whose bits are its binary digits, not a
  `bv64`. Shift, OR, exclusive-or and complement are written as arithmetic on those digits.
- `std::min(crop * crop, 64)` at tinyphash.cpp:226 is always 64, so the loop bound is the
  constant 64.
