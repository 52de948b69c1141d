/** The scans over the words of a big number: LSB, MSB, Bit and the sizes derived from them. */
module BigNumBits {
  import opened NumTheory
  import opened Powers
  import opened BigNum

  lemma {:induction false} MagnitudeAppend(a: seq<word>, b: seq<word>)
    ensures Magnitude(a + b) == Magnitude(a) + Pow2(32 * |a|) * Magnitude(b)
  {
    if a == [] {
      assert a + b == b;
    } else {
      MagnitudeAppend(a[1..], b);
      assert (a + b)[1..] == a[1..] + b;
      AppendWords(Magnitude((a + b)[1..]), Magnitude(a[1..]), |a|, Magnitude(b));
    }
  }

  lemma AppendWords(sum: nat, ma: nat, n: nat, mb: nat)
    requires n > 0 && sum == ma + Pow2(32 * n - 32) * mb
    ensures BASE * sum == BASE * ma + Pow2(32 * n) * mb
  {
    WordUp(n, mb);
    SumOfProducts(BASE, ma, Pow2(32 * n - 32) * mb);
  }

  lemma WordUp(n: nat, m: nat)
    requires n > 0
    ensures BASE * (Pow2(32 * n - 32) * m) == Pow2(32 * n) * m
  {
    Pow2Word();
    Pow2Add(32, 32 * n - 32);
    MulAssoc(BASE, Pow2(32 * n - 32), m);
  }

  lemma {:induction false} ZerosMagnitude(ws: seq<word>)
    requires forall i :: 0 <= i < |ws| ==> ws[i] == 0
    ensures Magnitude(ws) == 0
  {
    if ws == [] {
    } else {
      ZerosMagnitude(ws[1..]);
    }
  }

  /* ---- LSB ---- */

  /** 2^k divides n, and the quotient is odd. */
  ghost predicate LowestBit(n: nat, k: nat) {
    exists q: nat :: n == Pow2(k) * (2 * q + 1)
  }

  /** The inner loop of LSB: how often x can be halved. */
  method TrailingZeros(x0: word) returns (j: nat, x: word)
    requires x0 != 0
    ensures j < 32 && x % 2 == 1 && x0 == Pow2(j) * x
  {
    j, x := 0, x0;
    while x % 2 == 0
      invariant x != 0 && x0 == Pow2(j) * x && j < 32
      decreases x
    {
      assert x == 2 * (x / 2);
      assert Pow2(j + 1) == 2 * Pow2(j);
      assert x0 == Pow2(j + 1) * (x / 2);
      if j == 31 {
        Pow2Word();
        assert false;
      }
      j, x := j + 1, x / 2;
    }
  }

  /** The words from the first one that is not zero: its odd part makes the whole odd. */
  lemma OddPart(x0: word, m: nat, j: nat, x: nat) returns (q: nat)
    requires j < 32 && x % 2 == 1 && x0 == Pow2(j) * x
    ensures x0 + BASE * m == Pow2(j) * (2 * q + 1)
  {
    q := x / 2 + Pow2(31 - j) * m;
    EvenWords(m, j);
    SumOfProducts(Pow2(j), x, 2 * (Pow2(31 - j) * m));
  }

  lemma SumOfProducts(p: nat, a: nat, b: nat)
    ensures p * a + p * b == p * (a + b)
  {
  }

  lemma LowestBitOfWords(zeros: seq<word>, x0: word, rest: seq<word>, j: nat, x: nat)
    requires (forall i :: 0 <= i < |zeros| ==> zeros[i] == 0) && j < 32 && x % 2 == 1 && x0 == Pow2(j) * x
    ensures LowestBit(Magnitude(zeros + [x0] + rest), 32 * |zeros| + j)
  {
    var m := Magnitude(rest);
    ZerosMagnitude(zeros);
    MagnitudeAppend(zeros, [x0] + rest);
    assert zeros + [x0] + rest == zeros + ([x0] + rest);
    assert ([x0] + rest)[1..] == rest;
    var q := OddPart(x0, m, j, x);
    Pow2Add(32 * |zeros|, j);
    MulAssoc(Pow2(32 * |zeros|), Pow2(j), 2 * q + 1);
  }

  lemma MulAssoc(a: nat, b: nat, c: nat)
    ensures a * (b * c) == a * b * c
  {
  }

  lemma MulRearrange(a: nat, b: nat, c: nat)
    ensures a * (2 * b) * c == a * (2 * (b * c))
  {
  }

  /** LSB over the vector of words; all its bits when they are zero. */
  method LowestSetBit(v: seq<word>) returns (lsb: nat)
    ensures Magnitude(v) == 0 ==> lsb == 32 * |v|
    ensures Magnitude(v) != 0 ==> LowestBit(Magnitude(v), lsb)
  {
    lsb := 0;
    var i := 0;
    while i < |v|
      invariant i <= |v| && lsb == 32 * i
      invariant forall k :: 0 <= k < i ==> v[k] == 0
    {
      if v[i] == 0 {
        lsb := lsb + 32;
      } else {
        var j, x := TrailingZeros(v[i]);
        assert v == v[..i] + [v[i]] + v[i + 1..];
        LowestBitOfWords(v[..i], v[i], v[i + 1..], j, x);
        return lsb + j;
      }
      i := i + 1;
    }
    ZerosMagnitude(v);
  }

  /* ---- MSB ---- */

  /** x << j, no bit lost. */
  function ShiftedLeft(x: nat, j: nat): nat { if j == 0 then x else 2 * ShiftedLeft(x, j - 1) }

  lemma {:induction false} ShiftedLeftMeans(x: nat, j: nat)
    ensures ShiftedLeft(x, j) == x * Pow2(j)
    ensures x > 0 ==> Pow2(j) <= ShiftedLeft(x, j)
  {
    if j == 0 {
    } else {
      ShiftedLeftMeans(x, j - 1);
      DoubledFactor(x, Pow2(j - 1));
    }
  }

  lemma DoubledFactor(a: nat, b: nat)
    ensures a * (2 * b) == 2 * (a * b)
  {
  }

  /** The inner loop of MSB: how far x can be shifted to the left within a word. */
  method LeadingZeros(x0: word) returns (j: nat)
    requires x0 != 0
    ensures j < 32 && Pow2(31 - j) <= x0 < Pow2(32 - j)
  {
    j := 0;
    var x: word := x0;
    while x < 0x8000_0000
      invariant x == ShiftedLeft(x0, j) && x > 0 && j < 32
      decreases BASE - x
    {
      ShiftOnce(x0, x, j);
      j, x := j + 1, (x * 2) % BASE;
    }
    ShiftedInto(x0, x, j);
  }

  lemma ShiftOnce(x0: nat, x: nat, j: nat)
    requires x == ShiftedLeft(x0, j) && 0 < x0 && x < 0x8000_0000 && j < 32
    ensures j < 31 && (x * 2) % BASE == ShiftedLeft(x0, j + 1)
  {
    Pow2Word();
    ShiftedLeftMeans(x0, j);
  }

  lemma ShiftedInto(x0: nat, x: nat, j: nat)
    requires j < 32 && x == ShiftedLeft(x0, j) && 0x8000_0000 <= x < BASE
    ensures Pow2(31 - j) <= x0 < Pow2(32 - j)
  {
    Pow2Word();
    ShiftedLeftMeans(x0, j);
    Pow2Add(31 - j, j);
    Pow2Add(32 - j, j);
    ScaleDown(x0, Pow2(j), Pow2(31 - j), Pow2(32 - j));
  }

  lemma ScaleDown(x: nat, p: nat, lo: nat, hi: nat)
    requires p > 0 && lo * p <= x * p < hi * p
    ensures lo <= x < hi
  {
    if x < lo {
      MulMonotone(p, x + 1, lo);
    } else if x >= hi {
      MulMonotone(p, hi, x);
    }
  }

  lemma HighestBitOfWords(low: seq<word>, x0: word, j: nat)
    requires j < 32 && Pow2(31 - j) <= x0 < Pow2(32 - j)
    ensures var msb := 32 * |low| + 31 - j;
      Pow2(msb) <= Magnitude(low + [x0]) < Pow2(msb + 1)
  {
    MagnitudeAppend(low, [x0]);
    OneWord(x0);
    MagnitudeBelow(low);
    Pow2Add(32 * |low|, 31 - j);
    Pow2Add(32 * |low|, 32 - j);
    ScaleUp(Pow2(32 * |low|), Pow2(31 - j), x0, Pow2(32 - j), Magnitude(low));
  }

  lemma OneWord(x: word)
    ensures Magnitude([x]) == x
  {
    assert [x][1..] == [];
  }

  lemma ScaleUp(p: nat, lo: nat, x: nat, hi: nat, m: nat)
    requires m < p && lo <= x < hi
    ensures p * lo <= m + p * x < p * hi
  {
    MulMonotone(p, lo, x);
    MulMonotone(p, x + 1, hi);
  }

  /** MSB over the vector of words, from the top; -1 when they are zero. */
  method HighestSetBit(v: seq<word>) returns (msb: int)
    ensures Magnitude(v) == 0 ==> msb == -1
    ensures Magnitude(v) != 0 ==> msb >= 0 && Pow2(msb) <= Magnitude(v) < Pow2(msb + 1)
  {
    msb := 32 * |v| - 1;
    var i := |v|;
    while i > 0
      invariant 0 <= i <= |v| && msb == 32 * i - 1
      invariant forall k :: i <= k < |v| ==> v[k] == 0
    {
      if v[i - 1] == 0 {
        msb := msb - 32;
      } else {
        var j := LeadingZeros(v[i - 1]);
        HighestBitOfWords(v[..i - 1], v[i - 1], j);
        assert v[..i] == v[..i - 1] + [v[i - 1]];
        assert v == v[..i] + v[i..];
        MagnitudeAppend(v[..i], v[i..]);
        ZerosMagnitude(v[i..]);
        return msb - j;
      }
      i := i - 1;
    }
    ZerosMagnitude(v);
  }

  /** The bit length that ippsRef_BN reports is one more than the highest set bit. */
  lemma HighestBitIsBitLen(n: nat, msb: nat)
    requires Pow2(msb) <= n < Pow2(msb + 1)
    ensures BitLen(n) == msb + 1
  {
    BitLenBound(n, msb + 1);
    if msb > 0 {
      BitLenBound(n, msb);
    }
  }

  /* ---- Bit ---- */

  /** Bit: bit n & 31 of word n >> 5. */
  function Bit(v: seq<word>, n: nat): nat
    requires n / 32 < |v|
  {
    v[n / 32] / Pow2(n % 32) % 2
  }

  /** Bit n of the vector is bit n of the number. */
  lemma {:induction false} BitMeans(v: seq<word>, n: nat)
    requires n / 32 < |v|
    ensures Bit(v, n) == Magnitude(v) / Pow2(n) % 2
  {
    var lo, hi := v[0], Magnitude(v[1..]);
    if n < 32 {
      LowBits(lo, hi, n);
    } else {
      BitMeans(v[1..], n - 32);
      BitInTail(v, n);
      ShiftPastWord(lo, hi, n);
    }
  }

  lemma BitInTail(v: seq<word>, n: nat)
    requires 32 <= n && n / 32 < |v|
    ensures Bit(v, n) == Bit(v[1..], n - 32)
  {
    assert n % 32 == (n - 32) % 32 && n / 32 == (n - 32) / 32 + 1;
  }

  lemma ShiftPastWord(lo: word, hi: nat, n: nat)
    requires n >= 32
    ensures (lo + BASE * hi) / Pow2(n) == hi / Pow2(n - 32)
  {
    Pow2Word();
    Pow2Add(32, n - 32);
    SplitDivision(hi, lo, BASE);
    DivDiv(lo + BASE * hi, BASE, Pow2(n - 32));
  }

  lemma LowBits(lo: word, hi: nat, n: nat)
    requires n < 32
    ensures (lo + BASE * hi) / Pow2(n) % 2 == lo / Pow2(n) % 2
  {
    EvenWords(hi, n);
    EvenMultiple(lo, Pow2(n), Pow2(31 - n) * hi);
  }

  lemma EvenWords(hi: nat, n: nat)
    requires n < 32
    ensures BASE * hi == Pow2(n) * (2 * (Pow2(31 - n) * hi))
  {
    Pow2Word();
    Pow2Add(n, 32 - n);
    assert Pow2(32 - n) == 2 * Pow2(31 - n);
    MulRearrange(Pow2(n), Pow2(31 - n), hi);
  }

  lemma EvenMultiple(lo: nat, p: nat, k: nat)
    requires p > 0
    ensures (lo + p * (2 * k)) / p % 2 == lo / p % 2
  {
    var q, r := lo / p, lo % p;
    SumOfProducts(p, q, 2 * k);
    DivModUnique(lo + p * (2 * k), p, q + 2 * k, r);
    DivModUnique(q + 2 * k, 2, q / 2 + k, q % 2);
  }
}
