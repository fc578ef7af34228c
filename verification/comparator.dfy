/** Comparing two hashes: the Hamming distance is the number of bit positions in which
    they differ, computed as the population count of their exclusive-or. */
module Comparator {
  import opened Bits

  /** Entry k is true when a and b differ in bit k. */
  function DifferingBits(a: Word, b: Word): (d: seq<bool>)
    ensures |d| == WordBits
    ensures forall k | 0 <= k < WordBits :: d[k] == (Bit(a, k) != Bit(b, k))
  {
    seq(WordBits, k requires 0 <= k < WordBits => Bit(a, k) != Bit(b, k))
  }

  /** `tinyph_hamming_distance`: popcount(a ^ b), the number of differing bits. */
  function HammingDistance(a: Word, b: Word): (d: int)
    ensures 0 <= d <= WordBits
    ensures d == CountTrue(DifferingBits(a, b))
  {
    var x := Xor(a, b);
    assert Digits(x, WordBits) == DifferingBits(a, b);
    PopCount(x)
  }

  /** The distance does not depend on the order of the arguments. */
  lemma HammingSymmetric(a: Word, b: Word)
    ensures HammingDistance(a, b) == HammingDistance(b, a)
  {
    assert DifferingBits(a, b) == DifferingBits(b, a);
  }

  /** Distance 0 exactly for equal hashes. */
  lemma HammingZeroIffEqual(a: Word, b: Word)
    ensures HammingDistance(a, b) == 0 <==> a == b
  {
    var d := DifferingBits(a, b);
    CountTrueExtremes(d);
    if HammingDistance(a, b) == 0 {
      forall k | 0 <= k < WordBits
        ensures Bit(a, k) == Bit(b, k)
      {
        assert !d[k];
      }
      BitsDetermine(a, b);
    }
  }

  /** A hash and its complement differ in all 64 bits. */
  lemma HammingComplement(a: Word)
    ensures HammingDistance(a, Not(a)) == WordBits
  {
    var d := DifferingBits(a, Not(a));
    CountTrueExtremes(d);
  }

  /** The distance is the largest possible only against the complement. */
  lemma HammingMaximalIffComplement(a: Word, b: Word)
    ensures HammingDistance(a, b) == WordBits <==> b == Not(a)
  {
    var d := DifferingBits(a, b);
    CountTrueExtremes(d);
    if HammingDistance(a, b) == WordBits {
      forall k | 0 <= k < WordBits
        ensures Bit(b, k) == Bit(Not(a), k)
      {
        assert d[k];
      }
      BitsDetermine(b, Not(a));
    } else if b == Not(a) {
      HammingComplement(a);
    }
  }

  /** The distance obeys the triangle inequality, so hashes form a metric space. */
  lemma HammingTriangle(a: Word, b: Word, c: Word)
    ensures HammingDistance(a, c) <= HammingDistance(a, b) + HammingDistance(b, c)
  {
    CountTrueTriangle(DifferingBits(a, b), DifferingBits(b, c), DifferingBits(a, c));
  }

  /** If entry k of z is true then so is entry k of x or of y; hence z has no more true
      entries than x and y together. */
  lemma {:induction false} CountTrueTriangle(x: seq<bool>, y: seq<bool>, z: seq<bool>)
    requires |x| == |y| == |z|
    requires forall k | 0 <= k < |z| :: z[k] ==> x[k] || y[k]
    ensures CountTrue(z) <= CountTrue(x) + CountTrue(y)
  {
    if |z| > 0 {
      assert forall k | 0 <= k < |z| - 1 ::
        z[1..][k] == z[k + 1] && x[1..][k] == x[k + 1] && y[1..][k] == y[k + 1];
      CountTrueTriangle(x[1..], y[1..], z[1..]);
    }
  }
}
