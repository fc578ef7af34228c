/** Turning the 8x8 coefficient block into the 64-bit hash: sort a copy to find the
    median (the mean of the two middle values), then set bit i exactly when coefficient i
    (in row-major order) lies strictly above it. Coefficients are exact reals here; the
    rounding of `float` is not modelled. */
module Thresholder {
  import opened Layout
  import opened Bits

  /** Number of coefficients in the block (`crop * crop`). */
  const BlockSize: int := CropSize * CropSize

  // ---------------------------------------------------------------------------------
  // Sorting
  // ---------------------------------------------------------------------------------

  predicate Sorted(s: seq<real>)
  {
    forall i, j | 0 <= i < j < |s| :: s[i] <= s[j]
  }

  /** x inserted before the first entry of s that is at least x (at the end if none
      is): the step of an insertion sort. */
  function Insert(x: real, s: seq<real>): (r: seq<real>)
    ensures |r| == |s| + 1
  {
    if |s| == 0 || x <= s[0] then [x] + s
    else [s[0]] + Insert(x, s[1..])
  }

  /** Inserting into an ascending sequence keeps it ascending and adds exactly x. */
  lemma InsertSorted(x: real, s: seq<real>)
    requires Sorted(s)
    ensures Sorted(Insert(x, s))
    ensures multiset(Insert(x, s)) == multiset(s) + multiset{x}
  {
    InsertOrdered(x, s);
    InsertPermutes(x, s);
  }

  lemma {:induction false} InsertOrdered(x: real, s: seq<real>)
    requires Sorted(s)
    ensures Sorted(Insert(x, s))
  {
    if |s| > 0 && x > s[0] {
      InsertOrdered(x, s[1..]);
      InsertHead(x, s[1..]);
      var rest := Insert(x, s[1..]);
      assert Insert(x, s) == [s[0]] + rest;
      assert forall k | 0 <= k < |rest| :: s[0] <= rest[k] by {
        InsertBounded(x, s[1..], s[0]);
      }
    }
  }

  /** Every entry of Insert(x, s) is at least any lower bound of x and of s. */
  lemma {:induction false} InsertBounded(x: real, s: seq<real>, lo: real)
    requires lo <= x && forall k | 0 <= k < |s| :: lo <= s[k]
    ensures forall k | 0 <= k < |s| + 1 :: lo <= Insert(x, s)[k]
  {
    if |s| > 0 && x > s[0] {
      InsertBounded(x, s[1..], lo);
    }
  }

  lemma {:induction false} InsertPermutes(x: real, s: seq<real>)
    ensures multiset(Insert(x, s)) == multiset(s) + multiset{x}
  {
    if |s| > 0 && x > s[0] {
      InsertPermutes(x, s[1..]);
      assert s == [s[0]] + s[1..];
    }
  }

  /** The first entry after inserting x into s is x or the first entry of s. */
  lemma InsertHead(x: real, s: seq<real>)
    ensures Insert(x, s)[0] == x || (|s| > 0 && Insert(x, s)[0] == s[0])
  {
  }

  /** The values of s in ascending order, by insertion sort. `std::sort` is not stable,
      but for numbers the ascending arrangement is unique (SortedPermutationUnique), so
      any sort computes this. */
  function Sort(s: seq<real>): (r: seq<real>)
    ensures |r| == |s|
  {
    if |s| == 0 then [] else Insert(s[0], Sort(s[1..]))
  }

  /** Sort returns an ascending permutation of its input. */
  lemma {:induction false} SortSorted(s: seq<real>)
    ensures Sorted(Sort(s))
    ensures multiset(Sort(s)) == multiset(s)
  {
    if |s| > 0 {
      SortSorted(s[1..]);
      InsertSorted(s[0], Sort(s[1..]));
      assert s == [s[0]] + s[1..];
    }
  }

  /** Two ascending arrangements of the same values are the same sequence. */
  lemma {:induction false} SortedPermutationUnique(a: seq<real>, b: seq<real>)
    requires Sorted(a) && Sorted(b) && multiset(a) == multiset(b)
    ensures a == b
  {
    assert |a| == |multiset(a)| == |multiset(b)| == |b|;
    if |a| > 0 {
      SortedSameHead(a, b);
      TailsSameValues(a, b);
      SortedPermutationUnique(a[1..], b[1..]);
      assert a == [a[0]] + a[1..];
      assert b == [b[0]] + b[1..];
    }
  }

  /** Both ascending arrangements start with the least value. */
  lemma SortedSameHead(a: seq<real>, b: seq<real>)
    requires Sorted(a) && Sorted(b) && multiset(a) == multiset(b)
    requires |a| > 0 && |b| > 0
    ensures a[0] == b[0]
  {
    assert a[0] in multiset(b);
    var i :| 0 <= i < |b| && b[i] == a[0];
    assert b[0] in multiset(a);
    var j :| 0 <= j < |a| && a[j] == b[0];
    assert b[0] <= b[i] && a[0] <= a[j];
  }

  /** Removing equal heads leaves the same values. */
  lemma TailsSameValues(a: seq<real>, b: seq<real>)
    requires multiset(a) == multiset(b) && |a| > 0 && |b| > 0 && a[0] == b[0]
    ensures multiset(a[1..]) == multiset(b[1..])
  {
    assert a == [a[0]] + a[1..];
    assert b == [b[0]] + b[1..];
    assert multiset(a) == multiset{a[0]} + multiset(a[1..]);
    assert multiset(b) == multiset{a[0]} + multiset(b[1..]);
    assert multiset(a[1..]) == multiset(a) - multiset{a[0]};
    assert multiset(b[1..]) == multiset(b) - multiset{a[0]};
  }

  /** Sorting an ascending sequence leaves it unchanged. */
  lemma SortOfSorted(s: seq<real>)
    requires Sorted(s)
    ensures Sort(s) == s
  {
    SortSorted(s);
    SortedPermutationUnique(Sort(s), s);
  }

  // ---------------------------------------------------------------------------------
  // Counting the values above a threshold
  // ---------------------------------------------------------------------------------

  /** How many entries of s lie strictly above m. */
  function CountAbove(s: seq<real>, m: real): (c: int)
    ensures 0 <= c <= |s|
  {
    if |s| == 0 then 0 else (if s[0] > m then 1 else 0) + CountAbove(s[1..], m)
  }

  lemma {:induction false} CountAboveAppend(a: seq<real>, b: seq<real>, m: real)
    ensures CountAbove(a + b, m) == CountAbove(a, m) + CountAbove(b, m)
  {
    if |a| == 0 {
      assert a + b == b;
    } else {
      CountAboveAppend(a[1..], b, m);
      assert (a + b)[1..] == a[1..] + b;
    }
  }

  /** CountAbove is 0 when no entry exceeds m and |s| when every entry does. */
  lemma {:induction false} CountAboveExtremes(s: seq<real>, m: real)
    ensures (forall k | 0 <= k < |s| :: s[k] <= m) ==> CountAbove(s, m) == 0
    ensures (forall k | 0 <= k < |s| :: s[k] > m) ==> CountAbove(s, m) == |s|
  {
    if |s| > 0 {
      CountAboveExtremes(s[1..], m);
      assert forall k | 0 <= k < |s| - 1 :: s[1..][k] == s[k + 1];
    }
  }

  lemma {:induction false} CountAboveInsert(x: real, s: seq<real>, m: real)
    ensures CountAbove(Insert(x, s), m) == CountAbove(s, m) + (if x > m then 1 else 0)
  {
    if |s| > 0 && x > s[0] {
      CountAboveInsert(x, s[1..], m);
      assert ([s[0]] + Insert(x, s[1..]))[1..] == Insert(x, s[1..]);
    }
  }

  /** The count does not depend on the order of the values. */
  lemma {:induction false} CountAboveSort(s: seq<real>, m: real)
    ensures CountAbove(Sort(s), m) == CountAbove(s, m)
  {
    if |s| > 0 {
      CountAboveSort(s[1..], m);
      CountAboveInsert(s[0], Sort(s[1..]), m);
    }
  }

  /** In an ascending s, if the first j entries are at most m then at most |s| - j
      entries exceed m; if moreover the rest exceed m then exactly |s| - j do. */
  lemma SortedCountAbove(s: seq<real>, m: real, j: int)
    requires Sorted(s) && 0 <= j <= |s|
    requires forall k | 0 <= k < j :: s[k] <= m
    ensures CountAbove(s, m) <= |s| - j
    ensures (forall k | j <= k < |s| :: s[k] > m) ==> CountAbove(s, m) == |s| - j
  {
    var lo, hi := s[..j], s[j..];
    assert s == lo + hi;
    CountAboveAppend(lo, hi, m);
    assert forall k | 0 <= k < |lo| :: lo[k] <= m;
    CountAboveExtremes(lo, m);
    if forall k | j <= k < |s| :: s[k] > m {
      assert forall k | 0 <= k < |hi| :: hi[k] > m;
      CountAboveExtremes(hi, m);
    }
  }

  // ---------------------------------------------------------------------------------
  // The median
  // ---------------------------------------------------------------------------------

  /** The median in `dct_imagehash`: the mean of the two middle values of a sorted copy.
      It is a median in the order-statistics sense: at most half of the values lie
      strictly above it and at most half strictly below; exactly half lie above when the
      two middle values differ. */
  function Median(block: seq<real>): (m: real)
    requires 2 <= |block| && |block| % 2 == 0
    ensures CountAbove(block, m) <= |block| / 2
    ensures CountBelow(block, m) <= |block| / 2
    ensures Sort(block)[|block| / 2 - 1] < Sort(block)[|block| / 2]
            ==> CountAbove(block, m) == |block| / 2
  {
    var s := Sort(block);
    var n := |s| / 2;
    var m := (s[n] + s[n - 1]) / 2.0;
    SortSorted(block);
    CountAboveSort(block, m);
    CountBelowSort(block, m);
    MiddleCounts(s, m);
    m
  }

  /** The counts for the mean of the two middle values of a sorted sequence. */
  lemma MiddleCounts(s: seq<real>, m: real)
    requires Sorted(s) && 2 <= |s| && |s| % 2 == 0
    requires m == (s[|s| / 2] + s[|s| / 2 - 1]) / 2.0
    ensures CountAbove(s, m) <= |s| / 2
    ensures CountBelow(s, m) <= |s| / 2
    ensures s[|s| / 2 - 1] < s[|s| / 2] ==> CountAbove(s, m) == |s| / 2
  {
    var n := |s| / 2;
    assert s[n - 1] <= m <= s[n];
    assert forall k | 0 <= k < n :: s[k] <= s[n - 1];
    assert forall k | n <= k < |s| :: s[n] <= s[k];
    SortedCountAbove(s, m, n);
    SortedCountBelow(s, m, n);
  }

  /** The median lies between the two middle values of the sorted copy. */
  lemma MedianBetweenMiddle(block: seq<real>)
    requires 2 <= |block| && |block| % 2 == 0
    ensures Sort(block)[|block| / 2 - 1] <= Median(block) <= Sort(block)[|block| / 2]
  {
    SortSorted(block);
  }

  /** How many entries of s lie strictly below m. */
  function CountBelow(s: seq<real>, m: real): (c: int)
    ensures 0 <= c <= |s|
  {
    if |s| == 0 then 0 else (if s[0] < m then 1 else 0) + CountBelow(s[1..], m)
  }

  lemma {:induction false} CountBelowAppend(a: seq<real>, b: seq<real>, m: real)
    ensures CountBelow(a + b, m) == CountBelow(a, m) + CountBelow(b, m)
  {
    if |a| == 0 {
      assert a + b == b;
    } else {
      CountBelowAppend(a[1..], b, m);
      assert (a + b)[1..] == a[1..] + b;
    }
  }

  /** CountBelow is 0 when no entry lies below m. */
  lemma {:induction false} CountBelowNone(s: seq<real>, m: real)
    requires forall k | 0 <= k < |s| :: s[k] >= m
    ensures CountBelow(s, m) == 0
  {
    if |s| > 0 {
      assert forall k | 0 <= k < |s| - 1 :: s[1..][k] == s[k + 1];
      CountBelowNone(s[1..], m);
    }
  }

  lemma {:induction false} CountBelowInsert(x: real, s: seq<real>, m: real)
    ensures CountBelow(Insert(x, s), m) == CountBelow(s, m) + (if x < m then 1 else 0)
  {
    if |s| > 0 && x > s[0] {
      CountBelowInsert(x, s[1..], m);
      assert ([s[0]] + Insert(x, s[1..]))[1..] == Insert(x, s[1..]);
    }
  }

  /** The count does not depend on the order of the values. */
  lemma {:induction false} CountBelowSort(s: seq<real>, m: real)
    ensures CountBelow(Sort(s), m) == CountBelow(s, m)
  {
    if |s| > 0 {
      CountBelowSort(s[1..], m);
      CountBelowInsert(s[0], Sort(s[1..]), m);
    }
  }

  /** In an ascending s whose entries from j on are at least m, at most j entries lie
      below m. */
  lemma SortedCountBelow(s: seq<real>, m: real, j: int)
    requires Sorted(s) && 0 <= j <= |s|
    requires forall k | j <= k < |s| :: s[k] >= m
    ensures CountBelow(s, m) <= j
  {
    var lo, hi := s[..j], s[j..];
    assert s == lo + hi;
    CountBelowAppend(lo, hi, m);
    assert forall k | 0 <= k < |hi| :: hi[k] >= m;
    CountBelowNone(hi, m);
  }

  // ---------------------------------------------------------------------------------
  // Packing the comparisons into the hash word
  // ---------------------------------------------------------------------------------

  /** The comparisons of the packing loop: entry k is `block[k] > m`. */
  function AboveFlags(block: seq<real>, m: real): (flags: seq<bool>)
    ensures |flags| == |block|
    ensures CountTrue(flags) == CountAbove(block, m)
    decreases |block|
  {
    if |block| == 0 then []
    else
      var flags := [block[0] > m] + AboveFlags(block[1..], m);
      assert flags[1..] == AboveFlags(block[1..], m);
      flags
  }

  /** The word whose bit k is flags[k]. */
  function Pack(flags: seq<bool>): (h: Word)
    requires |flags| == WordBits
    ensures forall k | 0 <= k < WordBits :: Bit(h, k) == flags[k]
    ensures PopCount(h) == CountTrue(flags)
  {
    Pow2Word();
    DigitsOfFromDigits(flags);
    FromDigits(flags)
  }

  /** The packing loop as written: walking i down from 63 to 0, shift the word left by
      one (dropping the top bit, as `uint64_t` does) and OR in flag i. Each flag ends up
      at bit i, index 0 in the least significant bit. */
  method PackLoop(flags: seq<bool>) returns (h: Word)
    requires |flags| == WordBits
    ensures h == Pack(flags)
  {
    h := 0;
    var i := |flags|;
    while i > 0
      invariant 0 <= i <= |flags|
      invariant h == FromDigits(flags[i..])
    {
      i := i - 1;
      PackStep(flags, i, h);
      h := (h * 2) % WordLimit + (if flags[i] then 1 else 0);
    }
    assert flags[0..] == flags;
  }

  /** One turn of the packing loop: shifting in flag i on top of the word built from
      the flags after i gives the word built from the flags from i on; the top bit that
      the shift drops is always clear. */
  lemma PackStep(flags: seq<bool>, i: int, h: nat)
    requires |flags| == WordBits && 0 <= i < WordBits
    requires h == FromDigits(flags[i + 1..])
    ensures (h * 2) % WordLimit + (if flags[i] then 1 else 0) == FromDigits(flags[i..])
  {
    assert h < Pow2(WordBits - 1 - i) <= Pow2(WordBits - 1) by {
      Pow2Monotone(WordBits - 1 - i, WordBits - 1);
    }
    assert 2 * Pow2(WordBits - 1) == WordLimit by { Pow2Word(); }
    assert flags[i..][1..] == flags[i + 1..];
  }

  lemma {:induction false} Pow2Monotone(a: nat, b: nat)
    requires a <= b
    ensures Pow2(a) <= Pow2(b)
  {
    if a < b {
      Pow2Monotone(a, b - 1);
    }
  }

  /** The hash of a block: bit k is set exactly when block[k] is strictly above the
      median, at most half of the 64 bits are set, and exactly half when the two middle
      values differ. */
  function HashBlock(block: seq<real>): (h: Word)
    requires |block| == BlockSize
    ensures forall k | 0 <= k < BlockSize :: Bit(h, k) == (block[k] > Median(block))
    ensures PopCount(h) <= BlockSize / 2
    ensures Sort(block)[BlockSize / 2 - 1] < Sort(block)[BlockSize / 2]
            ==> PopCount(h) == BlockSize / 2
  {
    var flags := AboveFlags(block, Median(block));
    assert forall k | 0 <= k < BlockSize :: flags[k] == (block[k] > Median(block)) by {
      AboveFlagsAt(block, Median(block));
    }
    Pack(flags)
  }

  lemma {:induction false} AboveFlagsAt(block: seq<real>, m: real)
    ensures forall k | 0 <= k < |block| :: AboveFlags(block, m)[k] == (block[k] > m)
    decreases |block|
  {
    if |block| > 0 {
      AboveFlagsAt(block[1..], m);
    }
  }

  /** Ties give 0: when all 64 coefficients are equal the median equals each of them, no
      comparison is strictly greater, and no bit is set. */
  lemma HashOfConstantBlock(block: seq<real>)
    requires |block| == BlockSize
    requires forall k | 0 <= k < BlockSize :: block[k] == block[0]
    ensures HashBlock(block) == 0
  {
    var s := Sort(block);
    var v := block[0];
    SortSorted(block);
    assert s[31] in multiset(block) && s[32] in multiset(block);
    assert s[31] == v && s[32] == v;
    assert Median(block) == v;
    var h := HashBlock(block);
    forall k | 0 <= k < WordBits
      ensures Bit(h, k) == Bit(0, k)
    {
      assert block[k] == v;
      ZeroBits(k);
    }
    BitsDetermine(h, 0);
  }

  lemma ZeroBits(k: int)
    requires 0 <= k < WordBits
    ensures !Bit(0, k)
  {
    FromDigitsConstant(WordBits, false);
    Pow2Word();
    DigitsOfFromDigits(seq(WordBits, _ => false));
  }

  /** Bit order: the block 0, 1, .. 63 in row-major order has median 31.5, so its upper
      32 entries set the upper 32 bits and the hash is 0xFFFFFFFF00000000. */
  lemma HashBitOrderExample()
    ensures HashBlock(seq(BlockSize, k => k as real)) == 0xFFFF_FFFF_0000_0000
  {
    var block := seq(BlockSize, k => k as real);
    SortOfSorted(block);
    assert Median(block) == 31.5;
    var flags := AboveFlags(block, 31.5);
    AboveFlagsAt(block, 31.5);
    var low, high := seq(32, _ => false), seq(32, _ => true);
    assert flags == low + high;
    FromDigitsAppend(low, high);
    FromDigitsConstant(32, false);
    FromDigitsConstant(32, true);
    Pow2ThirtyTwo();
  }
}
