/** The class BigNumber: operators, comparison and modular arithmetic (src/util/bigNum/bignum.cpp). */
module BigNumbers {
  import opened CStrings
  import opened Powers
  import opened BigNum
  import opened ModularLaws
  import opened BigNumBits
  import opened BigNumText

  /**
   * What a primitive of the library stores for the exact result x in a number with this room.
   * When the room is too small the status says so, the callers ignore it, and nothing is known
   * about the contents.
   */
  method Store(x: int, room: nat) returns (ok: bool, r: Bn)
    ensures Canonical(r)
    ensures ok <==> InRoom(x, room).Some?
    ensures ok ==> Value(r) == x
  {
    FromIntCanonical(x);
    ok := |WordsOf(Abs(x))| <= room;
    if ok {
      r := FromInt(x);
    } else {
      FromIntCanonical(0);
      assert Canonical(FromInt(0));
      r :| Canonical(r);
    }
  }

  function Sign(x: int): int { if x < 0 then -1 else if x == 0 then 0 else 1 }

  class BigNumber {
    var bn: Bn

    ghost predicate Valid()
      reads this
    {
      Canonical(bn)
    }

    ghost function V(): int
      reads this
    {
      Value(bn)
    }

    /** create from words: the library trims leading zeros and the sign of zero. */
    constructor FromWords(data: seq<word>, neg: bool)
      requires data != []
      ensures Valid() && V() == if neg then -(Magnitude(data) as int) else Magnitude(data)
    {
      var m: int := Magnitude(data);
      FromIntCanonical(if neg then -m else m);
      bn := FromInt(if neg then -m else m);
    }

    /** The copy constructor: the words that the bit length asks for are all there are. */
    constructor Copy(b: BigNumber)
      requires b.Valid()
      ensures Valid() && V() == b.V()
    {
      var len := BitsToWords(BitSizeOf(b.bn));
      AllWords(b.bn);
      bn := Bn(b.bn.neg, b.bn.words[..len]);
    }

    /** operator=, which also does nothing for a self-assignment. */
    method Assign(b: BigNumber)
      requires b.Valid()
      modifies this
      ensures Valid() && V() == old(b.V()) && bn == old(b.bn)
    {
      if this != b {
        var len := BitsToWords(BitSizeOf(b.bn));
        AllWords(b.bn);
        bn := Bn(b.bn.neg, b.bn.words[..len]);
      }
    }

    /** operator+= : exact for all operands, also for a += a. */
    method AddAssign(b: BigNumber)
      requires Valid() && b.Valid()
      modifies this
      ensures Valid() && V() == old(V()) + old(b.V())
    {
      SumFits(bn, b.bn);
      var ok, r := Store(Value(bn) + Value(b.bn), AddRoom(bn, b.bn));
      bn := r;
    }

    /** operator-= : exact when the difference fits into the reserved room. */
    method SubAssign(b: BigNumber)
      requires Valid() && b.Valid()
      modifies this
      ensures Valid()
      ensures old(DifferenceFits(bn, b.bn)) ==> V() == old(V()) - old(b.V())
    {
      var ok, r := Store(Value(bn) - Value(b.bn), SubRoom(bn, b.bn));
      bn := r;
    }

    /** operator*= with another big number. */
    method MulAssign(b: BigNumber)
      requires Valid() && b.Valid()
      modifies this
      ensures Valid() && V() == old(V()) * old(b.V())
    {
      ProductFits(bn, b.bn);
      var ok, r := Store(Value(bn) * Value(b.bn), MulRoom(bn, b.bn));
      bn := r;
    }

    /** operator*= with a word. */
    method MulWordAssign(n: word)
      requires Valid()
      modifies this
      ensures Valid() && V() == old(V()) * n
    {
      WordProductFits(bn, n);
      var ok, r := Store(Value(bn) * n, MulWordRoom(bn));
      bn := r;
    }

    /** compare: the sign of the difference, when that fits. */
    method Compare(b: BigNumber) returns (c: int)
      requires Valid() && b.Valid()
      ensures DifferenceFits(bn, b.bn) || SameSign(bn, b.bn) ==>
        (c == -1 <==> V() < b.V()) && (c == 0 <==> V() == b.V()) && (c == 1 <==> V() > b.V())
    {
      DifferenceFitsExactly(bn, b.bn);
      var tmp := new BigNumber.Copy(this);
      CanonicalUnique(bn);
      CanonicalUnique(tmp.bn);
      tmp.SubAssign(b);
      c := Sign(Value(tmp.bn));
    }

    /** Modulo: the remainder of a by this modulus; a modulus that is not positive is copied. */
    method Modulo(a: BigNumber) returns (r: BigNumber)
      requires Valid() && a.Valid()
      ensures fresh(r) && r.Valid()
      ensures V() > 0 ==> r.V() == a.V() % V()
      ensures V() <= 0 ==> r.V() == V()
    {
      r := new BigNumber.Copy(this);
      if Value(bn) > 0 {
        var x := Value(a.bn) % Value(bn);
        RemainderFits(bn, x);
        var ok, rest := Store(x, |bn.words|);
        r.bn := rest;
      }
    }

    /** InverseAdd; a modulus that is not positive is its own remainder, so that 0 comes out. */
    method InverseAdd(a: BigNumber) returns (r: BigNumber)
      requires Valid() && a.Valid()
      ensures fresh(r) && r.Valid()
      ensures r.V() == if V() > 0 then NegM(V(), a.V()) else 0
      ensures V() > 0 ==> 0 <= r.V() < V()
    {
      var t := Modulo(a);
      var zero := new BigNumber.FromWords([0], false);
      assert [0][1..] == [];
      var c := t.Compare(zero);
      if c == 0 {
        r := t;
      } else {
        r := new BigNumber.Copy(this);
        CanonicalUnique(bn);
        CanonicalUnique(r.bn);
        DifferenceFitsExactly(r.bn, t.bn);
        r.SubAssign(t);
      }
    }

    method ModAdd(a: BigNumber, b: BigNumber) returns (r: BigNumber)
      requires Valid() && a.Valid() && b.Valid()
      ensures fresh(r) && r.Valid()
      ensures r.V() == if V() > 0 then AddM(V(), a.V(), b.V()) else V()
      ensures V() > 0 ==> 0 <= r.V() < V()
    {
      var sum := new BigNumber.Copy(a);
      sum.AddAssign(b);
      r := Modulo(sum);
    }

    method ModSub(a: BigNumber, b: BigNumber) returns (r: BigNumber)
      requires Valid() && a.Valid() && b.Valid()
      ensures fresh(r) && r.Valid()
      ensures r.V() == if V() > 0 then SubM(V(), a.V(), b.V()) else V()
      ensures V() > 0 ==> 0 <= r.V() < V()
    {
      var inverse := InverseAdd(b);
      var sum := new BigNumber.Copy(a);
      sum.AddAssign(inverse);
      r := Modulo(sum);
    }

    method ModMul(a: BigNumber, b: BigNumber) returns (r: BigNumber)
      requires Valid() && a.Valid() && b.Valid()
      ensures fresh(r) && r.Valid()
      ensures r.V() == if V() > 0 then MulM(V(), a.V(), b.V()) else V()
      ensures V() > 0 ==> 0 <= r.V() < V()
    {
      var product := new BigNumber.Copy(a);
      product.MulAssign(b);
      r := Modulo(product);
    }

    /** The string constructor: a decimal or hexadecimal literal, digit by digit. */
    constructor FromString(s: string)
      ensures Valid() && V() == Read(s)
    {
      bn := Bn(false, [0]);
      new;
      assert [0][1..] == [];
      var neg := CharAt(s, 0) == '-';
      var t := if neg then s[1..] else s;
      var hex := IsHex(t);
      var base: word := if hex then 16 else 10;
      var digits := if hex then t[2..] else t;
      var i := 0;
      while i < |digits|
        invariant i <= |digits| && Valid() && V() == Horner(base, digits[..i])
      {
        assert digits[..i + 1][..i] == digits[..i];
        MulWordAssign(base);
        AddDigit(DigitOf(digits[i]));
        i := i + 1;
      }
      assert digits[..i] == digits;
      if neg {
        Negate();
      }
    }

    method AddDigit(d: word)
      requires Valid()
      modifies this
      ensures Valid() && V() == old(V()) + d
    {
      var digit := new BigNumber.FromWords([d], false);
      assert [d][1..] == [];
      AddAssign(digit);
    }

    /** *this = Zero() - *this. */
    method Negate()
      requires Valid()
      modifies this
      ensures Valid() && V() == -old(V())
    {
      var zero := new BigNumber.FromWords([0], false);
      assert [0][1..] == [];
      DifferenceFitsExactly(zero.bn, bn);
      FromZero(zero.bn, bn);
      zero.SubAssign(this);
      Assign(zero);
    }

    /** num2vec: the words, one pushed after the other. */
    method Num2Vec() returns (v: seq<word>)
      requires Valid()
      ensures v == bn.words
    {
      WordCount(Magnitude(bn.words));
      CanonicalUnique(bn);
      var len := BitsToWords(BitSizeOf(bn));
      v := [];
      var n := 0;
      while n < len
        invariant n <= len == |bn.words| && v == bn.words[..n]
      {
        v := v + [bn.words[n]];
        n := n + 1;
      }
    }

    method IsZero() returns (z: bool)
      requires Valid()
      ensures z <==> V() == 0
    {
      var zero := new BigNumber.FromWords([0], false);
      assert [0][1..] == [];
      var c := Compare(zero);
      z := c == 0;
    }

    /** LSB: the place of the lowest bit of the magnitude, 0 for zero. */
    method LSB() returns (lsb: nat)
      requires Valid()
      ensures V() == 0 ==> lsb == 0
      ensures V() != 0 ==> LowestBit(Abs(V()), lsb)
    {
      var z := IsZero();
      if z { return 0; }
      var v := Num2Vec();
      lsb := LowestSetBit(v);
    }

    /** MSB: the place of the highest bit of the magnitude, 0 for zero. */
    method MSB() returns (msb: nat)
      requires Valid()
      ensures V() == 0 ==> msb == 0
      ensures V() != 0 ==> Pow2(msb) <= Abs(V()) < Pow2(msb + 1)
    {
      var z := IsZero();
      if z { return 0; }
      var v := Num2Vec();
      var m := HighestSetBit(v);
      msb := m;
    }

    /** DwordSize is the number of words, for zero too. */
    method DwordSize() returns (size: nat)
      requires Valid()
      ensures size == |bn.words|
    {
      var msb := MSB();
      size := (msb + 1 + 31) / 32;
      WordCount(Magnitude(bn.words));
      CanonicalUnique(bn);
      if Value(bn) != 0 {
        HighestBitIsBitLen(Magnitude(bn.words), msb);
      }
    }
  }

  /** The words that the bit length asks for are all there are. */
  lemma AllWords(b: Bn)
    requires Canonical(b)
    ensures BitsToWords(BitSizeOf(b)) == |b.words|
    ensures b.words[..BitsToWords(BitSizeOf(b))] == b.words
  {
    CanonicalUnique(b);
    WordCount(Magnitude(b.words));
  }

  lemma FromZero(zero: Bn, b: Bn)
    requires Value(zero) == 0
    ensures SameSign(zero, b)
  {
  }

  lemma RemainderFits(m: Bn, x: int)
    requires Canonical(m) && 0 <= x < Value(m)
    ensures InRoom(x, |m.words|).Some?
  {
    CanonicalUnique(m);
    WordsBound(Value(m), |m.words|);
    WordsBound(x, |m.words|);
  }
}
