/** The 64-bit unsigned hash word and its bits.

    A `std::uint64_t` is modelled as an integer in [0, 2^64). Its bits are its binary
    digits, least significant first: bit k of h is `Digits(h, 64)[k]`. The shift, OR,
    exclusive-or and complement used by the hash are written out as arithmetic on those
    digits, so every property below is proved about digits rather than about a
    bit-vector encoding. */
module Bits {

  /** Number of bits in the hash word. */
  const WordBits: int := 64
  /** 2^64: one past the largest hash value. */
  const WordLimit: int := 0x1_0000_0000_0000_0000

  /** A value of `std::uint64_t`. */
  type Word = h: int | 0 <= h < WordLimit

  /** 2^n. */
  function Pow2(n: nat): (p: nat)
    ensures 1 <= p
  {
    if n == 0 then 1 else 2 * Pow2(n - 1)
  }

  lemma {:induction false} Pow2Add(a: nat, b: nat)
    ensures Pow2(a + b) == Pow2(a) * Pow2(b)
  {
    if b > 0 {
      Pow2Add(a, b - 1);
      assert Pow2(a + b) == 2 * Pow2(a + b - 1);
      assert Pow2(b) == 2 * Pow2(b - 1);
    }
  }

  lemma Pow2ThirtyTwo()
    ensures Pow2(32) == 0x1_0000_0000
  {
    assert Pow2(2) == 4;
    Pow2Add(2, 2);
    Pow2Add(4, 4);
    Pow2Add(8, 8);
    Pow2Add(16, 16);
  }

  lemma Pow2Word()
    ensures Pow2(64) == WordLimit
  {
    Pow2ThirtyTwo();
    Pow2Add(32, 32);
  }

  /** The n lowest binary digits of v, least significant first. */
  function Digits(v: nat, n: nat): (d: seq<bool>)
    ensures |d| == n
  {
    if n == 0 then [] else [v % 2 == 1] + Digits(v / 2, n - 1)
  }

  /** Digit k of v is digit k - 1 of v / 2. */
  lemma DigitsStep(v: nat, n: nat, k: int)
    requires 0 <= k < n
    ensures Digits(v, n)[k] == if k == 0 then v % 2 == 1 else Digits(v / 2, n - 1)[k - 1]
  {
  }

  /** The number whose binary digits, least significant first, are ds. */
  function FromDigits(ds: seq<bool>): (v: nat)
    ensures v < Pow2(|ds|)
  {
    if |ds| == 0 then 0 else 2 * FromDigits(ds[1..]) + (if ds[0] then 1 else 0)
  }

  /** Reading back the digits of a number recovers them. */
  lemma {:induction false} DigitsOfFromDigits(ds: seq<bool>)
    ensures Digits(FromDigits(ds), |ds|) == ds
  {
    if |ds| > 0 {
      DigitsOfFromDigits(ds[1..]);
      assert [ds[0]] + ds[1..] == ds;
    }
  }

  /** A number below 2^n is determined by its n lowest digits. */
  lemma {:induction false} FromDigitsOfDigits(v: nat, n: nat)
    requires v < Pow2(n)
    ensures FromDigits(Digits(v, n)) == v
  {
    if n > 0 {
      FromDigitsOfDigits(v / 2, n - 1);
      assert Digits(v, n)[1..] == Digits(v / 2, n - 1);
    }
  }

  /** Digits of a concatenation: the second part is shifted up past the first. */
  lemma {:induction false} FromDigitsAppend(a: seq<bool>, b: seq<bool>)
    ensures FromDigits(a + b) == FromDigits(a) + Pow2(|a|) * FromDigits(b)
  {
    if |a| == 0 {
      assert a + b == b;
    } else {
      var x, c := FromDigits(a[1..]), if a[0] then 1 else 0;
      var p, f := Pow2(|a| - 1), FromDigits(b);
      calc {
        FromDigits(a + b);
        { assert (a + b)[0] == a[0] && (a + b)[1..] == a[1..] + b; }
        2 * FromDigits(a[1..] + b) + c;
        { FromDigitsAppend(a[1..], b); }
        2 * (x + p * f) + c;
        { Double(p, f); }
        (2 * x + c) + (2 * p) * f;
        FromDigits(a) + Pow2(|a|) * f;
      }
    }
  }

  lemma Double(p: int, f: int)
    ensures 2 * (p * f) == (2 * p) * f
  {
  }

  /** n equal digits: all clear is 0, all set is 2^n - 1. */
  lemma {:induction false} FromDigitsConstant(n: nat, d: bool)
    ensures FromDigits(seq(n, _ => d)) == if d then Pow2(n) - 1 else 0
  {
    if n > 0 {
      FromDigitsConstant(n - 1, d);
      assert seq(n, _ => d)[1..] == seq(n - 1, _ => d);
    }
  }

  /** True when bit k (bit 0 is the least significant) of h is set. */
  function Bit(h: Word, k: int): bool
    requires 0 <= k < WordBits
  {
    Digits(h, WordBits)[k]
  }

  /** Two words with the same 64 bits are equal. */
  lemma BitsDetermine(a: Word, b: Word)
    requires forall k | 0 <= k < WordBits :: Bit(a, k) == Bit(b, k)
    ensures a == b
  {
    Pow2Word();
    forall k | 0 <= k < WordBits
      ensures Digits(a, WordBits)[k] == Digits(b, WordBits)[k]
    {
      assert Bit(a, k) == Bit(b, k);
    }
    assert Digits(a, WordBits) == Digits(b, WordBits);
    FromDigitsOfDigits(a, WordBits);
    FromDigitsOfDigits(b, WordBits);
  }

  /** Number of true entries of ds. */
  function CountTrue(ds: seq<bool>): (c: int)
    ensures 0 <= c <= |ds|
  {
    if |ds| == 0 then 0 else (if ds[0] then 1 else 0) + CountTrue(ds[1..])
  }

  /** CountTrue is 0 exactly when no entry is true, and |ds| exactly when all are. */
  lemma {:induction false} CountTrueExtremes(ds: seq<bool>)
    ensures CountTrue(ds) == 0 <==> forall k | 0 <= k < |ds| :: !ds[k]
    ensures CountTrue(ds) == |ds| <==> forall k | 0 <= k < |ds| :: ds[k]
  {
    if |ds| > 0 {
      CountTrueExtremes(ds[1..]);
      assert forall k | 1 <= k < |ds| :: ds[k] == ds[1..][k - 1];
    }
  }

  /** Population count of the n lowest digits of v: each digit is peeled off with % 2
      and / 2, as a bit-counting loop would. */
  function PopCountN(v: nat, n: nat): (c: int)
    ensures 0 <= c <= n
  {
    if n == 0 then 0 else v % 2 + PopCountN(v / 2, n - 1)
  }

  lemma {:induction false} PopCountCountsDigits(v: nat, n: nat)
    ensures PopCountN(v, n) == CountTrue(Digits(v, n))
  {
    if n > 0 {
      PopCountCountsDigits(v / 2, n - 1);
      assert Digits(v, n)[1..] == Digits(v / 2, n - 1);
    }
  }

  /** Population count of a word: the number of its set bits. */
  function PopCount(h: Word): (c: int)
    ensures 0 <= c <= WordBits
    ensures c == CountTrue(Digits(h, WordBits))
  {
    PopCountCountsDigits(h, WordBits);
    PopCountN(h, WordBits)
  }

  /** Bitwise exclusive-or of the n lowest digits of a and b. */
  function XorN(a: nat, b: nat, n: nat): (r: nat)
    ensures r < Pow2(n)
  {
    if n == 0 then 0 else 2 * XorN(a / 2, b / 2, n - 1) + (if a % 2 != b % 2 then 1 else 0)
  }

  /** The digits of XorN are the pairwise differences of the digits of a and b. */
  lemma {:induction false} XorNDigits(a: nat, b: nat, n: nat)
    ensures forall k | 0 <= k < n ::
      Digits(XorN(a, b, n), n)[k] == (Digits(a, n)[k] != Digits(b, n)[k])
  {
    if n > 0 {
      var r := XorN(a, b, n);
      var rest := XorN(a / 2, b / 2, n - 1);
      assert r == 2 * rest + (if a % 2 != b % 2 then 1 else 0);
      assert r / 2 == rest && r % 2 == (if a % 2 != b % 2 then 1 else 0);
      XorNDigits(a / 2, b / 2, n - 1);
      forall k | 0 <= k < n
        ensures Digits(r, n)[k] == (Digits(a, n)[k] != Digits(b, n)[k])
      {
        DigitsStep(r, n, k);
        DigitsStep(a, n, k);
        DigitsStep(b, n, k);
      }
    }
  }

  /** `a ^ b` on `std::uint64_t`. */
  function Xor(a: Word, b: Word): (r: Word)
    ensures forall k | 0 <= k < WordBits :: Bit(r, k) == (Bit(a, k) != Bit(b, k))
  {
    Pow2Word();
    XorNDigits(a, b, WordBits);
    XorN(a, b, WordBits)
  }

  /** Subtracting from the all-ones value 2^n - 1 flips each of the n lowest digits. */
  lemma {:induction false} NotDigits(a: nat, n: nat)
    requires a < Pow2(n)
    ensures forall k | 0 <= k < n :: Digits(Pow2(n) - 1 - a, n)[k] == !Digits(a, n)[k]
  {
    if n > 0 {
      var r := Pow2(n) - 1 - a;
      assert Pow2(n) == 2 * Pow2(n - 1);
      assert r % 2 == 1 - a % 2;
      assert r / 2 == Pow2(n - 1) - 1 - a / 2;
      NotDigits(a / 2, n - 1);
      forall k | 0 <= k < n
        ensures Digits(r, n)[k] == !Digits(a, n)[k]
      {
        DigitsStep(r, n, k);
        DigitsStep(a, n, k);
      }
    }
  }

  /** `~a` on `std::uint64_t`. */
  function Not(a: Word): (r: Word)
    ensures forall k | 0 <= k < WordBits :: Bit(r, k) == !Bit(a, k)
  {
    Pow2Word();
    NotDigits(a, WordBits);
    WordLimit - 1 - a
  }
}
