/**
 * Signed big numbers over 32-bit words (src/util/bigNum/bignum.cpp): their words, their value, and
 * the room that each operation reserves for its result.
 */
module BigNum {
  import opened Wrappers
  import opened NumTheory
  import opened Powers

  const BASE: int := 0x1_0000_0000

  type word = x: int | 0 <= x < BASE

  /** The contents of an IppsBigNumState: a sign and words, the lowest first. */
  datatype Bn = Bn(neg: bool, words: seq<word>)

  function Magnitude(ws: seq<word>): nat {
    if ws == [] then 0 else ws[0] + BASE * Magnitude(ws[1..])
  }

  function Value(b: Bn): int {
    var m: int := Magnitude(b.words);
    if b.neg then -m else m
  }

  /** No superfluous words, and zero is positive: what ippsSet_BN establishes. */
  predicate Canonical(b: Bn) {
    && |b.words| >= 1
    && (|b.words| > 1 ==> b.words[|b.words| - 1] != 0)
    && (b.neg ==> Magnitude(b.words) != 0)
  }

  function WordsOf(n: nat): (ws: seq<word>)
    ensures |ws| >= 1
  {
    if n < BASE then [n] else [n % BASE] + WordsOf(n / BASE)
  }

  function Abs(x: int): nat { if x < 0 then -x else x }

  function FromInt(x: int): Bn { Bn(x < 0, WordsOf(Abs(x))) }

  lemma {:induction false} WordsOfMagnitude(n: nat)
    ensures Magnitude(WordsOf(n)) == n
    ensures |WordsOf(n)| > 1 ==> WordsOf(n)[|WordsOf(n)| - 1] != 0
  {
    if n < BASE {
      assert [n][1..] == [];
    } else {
      WordsOfMagnitude(n / BASE);
      assert WordsOf(n)[1..] == WordsOf(n / BASE);
      if |WordsOf(n / BASE)| == 1 {
        assert n / BASE < BASE;
      }
    }
  }

  lemma FromIntCanonical(x: int)
    ensures Canonical(FromInt(x)) && Value(FromInt(x)) == x
  {
    WordsOfMagnitude(Abs(x));
  }

  lemma {:induction false} TopWordCounts(ws: seq<word>)
    requires ws != [] && ws[|ws| - 1] != 0
    ensures Magnitude(ws) > 0
  {
    if |ws| > 1 {
      TopWordCounts(ws[1..]);
    }
  }

  lemma {:induction false} MagnitudeUnique(ws: seq<word>)
    requires |ws| >= 1 && (|ws| > 1 ==> ws[|ws| - 1] != 0)
    ensures WordsOf(Magnitude(ws)) == ws
  {
    var m := Magnitude(ws[1..]);
    SplitDivision(m, ws[0], BASE);
    if |ws| == 1 {
      assert ws == [ws[0]];
    } else {
      MagnitudeUnique(ws[1..]);
      TopWordCounts(ws[1..]);
      assert Magnitude(ws) >= BASE;
      assert ws == [ws[0]] + ws[1..];
    }
  }

  /** A canonical state is determined by its value. */
  lemma CanonicalUnique(b: Bn)
    requires Canonical(b)
    ensures FromInt(Value(b)) == b
  {
    MagnitudeUnique(b.words);
    if !b.neg {
      assert Value(b) >= 0;
    }
  }

  /* ---- Bit lengths and words ---- */

  /** The bit length that ippsRef_BN reports: 1 for zero. */
  function BitLen(n: nat): (k: nat)
    ensures k >= 1
  {
    if n < 2 then 1 else 1 + BitLen(n / 2)
  }

  lemma {:induction false} BitLenBound(n: nat, k: nat)
    requires k >= 1
    ensures BitLen(n) <= k <==> n < Pow2(k)
  {
    if k == 1 {
      assert Pow2(1) == 2 * Pow2(0);
    } else if n < 2 {
      Pow2Monotone(1, k);
      assert Pow2(1) == 2 * Pow2(0);
    } else {
      BitLenBound(n / 2, k - 1);
    }
  }

  /** BITSIZE_WORD: how many words hold that many bits. */
  function BitsToWords(bits: nat): nat { (bits + 31) / 32 }

  lemma {:induction false} WordsBound(n: nat, w: nat)
    requires w >= 1
    ensures |WordsOf(n)| <= w <==> n < Pow2(32 * w)
  {
    Pow2Word();
    Pow2Add(32, 32 * w - 32);
    var p := Pow2(32 * w - 32);
    assert Pow2(32 * w) == BASE * p;
    if n >= BASE && w > 1 {
      WordsBound(n / BASE, w - 1);
      assert n / BASE < p <==> n < BASE * p;
    } else if n >= BASE {
      assert p == 1;
    } else {
      MulMonotone(BASE, 1, p);
    }
  }

  lemma {:induction false} MagnitudeBelow(ws: seq<word>)
    ensures Magnitude(ws) < Pow2(32 * |ws|)
  {
    if ws == [] {
    } else {
      MagnitudeBelow(ws[1..]);
      Pow2Word();
      Pow2Add(32, 32 * |ws| - 32);
      MulMonotone(BASE, Magnitude(ws[1..]) + 1, Pow2(32 * |ws| - 32));
    }
  }

  /** The words of a number are exactly those that its bit length asks for. */
  lemma WordCount(n: nat)
    ensures |WordsOf(n)| == BitsToWords(BitLen(n))
  {
    var w := BitsToWords(BitLen(n));
    BitLenBound(n, 32 * w);
    WordsBound(n, w);
    if |WordsOf(n)| < w {
      BitLenBound(n, 32 * (w - 1));
      WordsBound(n, w - 1);
    }
  }

  /* ---- The primitives of the library ---- */

  /** What a primitive leaves in a result with this room; None when the exact result needs more. */
  function InRoom(x: int, room: nat): Option<Bn> {
    if |WordsOf(Abs(x))| <= room then Some(FromInt(x)) else None
  }

  /** ippsRef_BN, the bit length. */
  function BitSizeOf(b: Bn): nat { BitLen(Magnitude(b.words)) }

  function Max(a: nat, b: nat): nat { if a < b then b else a }

  function AddRoom(a: Bn, b: Bn): nat { BitsToWords(Max(BitSizeOf(a), BitSizeOf(b)) + 1) }

  /** The bits that -= reserves. */
  function SubBits(a: Bn, b: Bn): nat { Max(BitSizeOf(a), BitSizeOf(b)) }

  function SubRoom(a: Bn, b: Bn): nat { BitsToWords(SubBits(a, b)) }

  function MulRoom(a: Bn, b: Bn): nat { BitsToWords(BitSizeOf(a) + BitSizeOf(b)) }

  function MulWordRoom(a: Bn): nat { BitsToWords(BitSizeOf(a) + 32) }

  lemma FitsInBits(n: nat, bits: nat)
    requires bits >= 1 && n < Pow2(bits)
    ensures |WordsOf(n)| <= BitsToWords(bits)
  {
    var w := BitsToWords(bits);
    Pow2Monotone(bits, 32 * w);
    WordsBound(n, w);
  }

  lemma BelowBitSize(b: Bn)
    ensures Magnitude(b.words) < Pow2(BitSizeOf(b))
  {
    BitLenBound(Magnitude(b.words), BitSizeOf(b));
  }

  lemma MulBelow(a: nat, b: nat, p: nat, q: nat)
    requires a < p && b < q
    ensures a * b < p * q
  {
    MulMonotone(p, b, q - 1);
    assert a * b <= p * b by {
      assert (p - a) * b >= 0;
    }
    assert p * (q - 1) == p * q - p;
  }

  /** += reserves room for every exact sum. */
  lemma SumFits(a: Bn, b: Bn)
    ensures InRoom(Value(a) + Value(b), AddRoom(a, b)) == Some(FromInt(Value(a) + Value(b)))
  {
    var k := Max(BitSizeOf(a), BitSizeOf(b));
    BelowBitSize(a);
    BelowBitSize(b);
    Pow2Monotone(BitSizeOf(a), k);
    Pow2Monotone(BitSizeOf(b), k);
    assert Pow2(k + 1) == 2 * Pow2(k);
    FitsInBits(Abs(Value(a) + Value(b)), k + 1);
  }

  lemma AbsProduct(x: int, y: int)
    ensures Abs(x * y) == Abs(x) * Abs(y)
  {
    if x < 0 && y < 0 {
      assert x * y == (-x) * (-y);
    } else if x < 0 {
      assert x * y == -((-x) * y);
      assert (-x) * y >= 0;
    } else if y < 0 {
      assert x * y == -(x * (-y));
      assert x * (-y) >= 0;
    }
  }

  /** *= reserves room for every exact product. */
  lemma ProductFits(a: Bn, b: Bn)
    ensures InRoom(Value(a) * Value(b), MulRoom(a, b)) == Some(FromInt(Value(a) * Value(b)))
  {
    BelowBitSize(a);
    BelowBitSize(b);
    Pow2Add(BitSizeOf(a), BitSizeOf(b));
    AbsProduct(Value(a), Value(b));
    MulBelow(Magnitude(a.words), Magnitude(b.words), Pow2(BitSizeOf(a)), Pow2(BitSizeOf(b)));
    FitsInBits(Abs(Value(a) * Value(b)), BitSizeOf(a) + BitSizeOf(b));
  }

  lemma WordProductFits(a: Bn, n: word)
    ensures InRoom(Value(a) * n, MulWordRoom(a)) == Some(FromInt(Value(a) * n))
  {
    BelowBitSize(a);
    Pow2Add(BitSizeOf(a), 32);
    Pow2Word();
    AbsProduct(Value(a), n);
    MulBelow(Magnitude(a.words), n, Pow2(BitSizeOf(a)), BASE);
    FitsInBits(Abs(Value(a) * n), BitSizeOf(a) + 32);
  }

  /** The difference of a and b fits into the room that -= reserves. */
  predicate DifferenceFits(a: Bn, b: Bn) { InRoom(Value(a) - Value(b), SubRoom(a, b)).Some? }

  predicate SameSign(a: Bn, b: Bn) {
    (Value(a) >= 0 && Value(b) >= 0) || (Value(a) <= 0 && Value(b) <= 0)
  }

  lemma MagnitudesBelow(a: Bn, b: Bn)
    ensures Magnitude(a.words) < Pow2(SubBits(a, b)) && Magnitude(b.words) < Pow2(SubBits(a, b))
  {
    BelowBitSize(a);
    BelowBitSize(b);
    Pow2Monotone(BitSizeOf(a), SubBits(a, b));
    Pow2Monotone(BitSizeOf(b), SubBits(a, b));
  }

  /** The sum of the magnitudes needs a carry bit, and that bit needs another word. */
  lemma SumOfMagnitudesFits(a: Bn, b: Bn)
    ensures var k, sum := SubBits(a, b), Magnitude(a.words) + Magnitude(b.words);
      |WordsOf(sum)| <= SubRoom(a, b) <==> k % 32 != 0 || sum < Pow2(k)
  {
    var k, sum := SubBits(a, b), Magnitude(a.words) + Magnitude(b.words);
    MagnitudesBelow(a, b);
    WordsBound(sum, SubRoom(a, b));
    RoomForCarry(k, sum);
  }

  lemma RoomForCarry(k: nat, sum: nat)
    requires sum < 2 * Pow2(k)
    ensures sum < Pow2(32 * BitsToWords(k)) <==> k % 32 != 0 || sum < Pow2(k)
  {
    BitsOfWords(k);
    if k % 32 != 0 {
      Pow2Next(k);
      Pow2Monotone(k + 1, 32 * BitsToWords(k));
    }
  }

  lemma BitsOfWords(k: nat)
    ensures if k % 32 == 0 then 32 * BitsToWords(k) == k else k + 1 <= 32 * BitsToWords(k)
  {
  }

  /**
   * -= reserves no extra bit. The result does not fit exactly when the signs differ, the longer
   * operand fills its words to the last bit, and adding the magnitudes carries out of them.
   */
  lemma DifferenceFitsExactly(a: Bn, b: Bn)
    ensures !DifferenceFits(a, b) <==>
      && !SameSign(a, b) && SubBits(a, b) % 32 == 0
      && Magnitude(a.words) + Magnitude(b.words) >= Pow2(SubBits(a, b))
  {
    if SameSign(a, b) {
      MagnitudesBelow(a, b);
      FitsInBits(Abs(Value(a) - Value(b)), SubBits(a, b));
    } else {
      assert Abs(Value(a) - Value(b)) == Magnitude(a.words) + Magnitude(b.words);
      SumOfMagnitudesFits(a, b);
    }
  }

  /** For example (2^32 - 1) - (-1) needs two words where one is reserved. */
  lemma DifferenceCanOverflow()
    ensures !DifferenceFits(Bn(false, [0xffff_ffff]), Bn(true, [1]))
  {
    var a, b := Bn(false, [0xffff_ffff]), Bn(true, [1]);
    assert a.words[1..] == [] && b.words[1..] == [];
    assert Magnitude(a.words) == 0xffff_ffff && Magnitude(b.words) == 1;
    Pow2Word();
    BitLenBound(0xffff_ffff, 32);
    BitLenBound(1, 32);
    WordsBound(0x1_0000_0000, 1);
  }
}
