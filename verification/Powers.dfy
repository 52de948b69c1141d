/** Powers of two and of other bases, and how they divide. */
module Powers {
  import opened NumTheory

  function Pow(b: nat, e: nat): (r: nat)
    ensures b > 0 ==> r > 0
  {
    if e == 0 then 1 else
      var p := Pow(b, e - 1);
      PositiveProduct(b, p);
      b * p
  }

  lemma PositiveProduct(a: nat, b: nat)
    ensures a * b >= 0 && (a > 0 && b > 0 ==> a * b > 0)
  {
  }

  function Pow2(e: nat): (r: nat)
    ensures r > 0
  {
    if e == 0 then 1 else 2 * Pow2(e - 1)
  }

  lemma Doubled(a: nat, b: nat)
    ensures 2 * (a * b) == 2 * a * b
  {
  }

  lemma {:induction false} Pow2Add(a: nat, b: nat)
    ensures Pow2(a + b) == Pow2(a) * Pow2(b)
  {
    if a == 0 {
      assert Pow2(a) == 1;
    } else {
      Pow2Add(a - 1, b);
      Doubled(Pow2(a - 1), Pow2(b));
    }
  }

  lemma {:induction false} Pow2Monotone(a: nat, b: nat)
    requires a <= b
    ensures Pow2(a) <= Pow2(b)
  {
    if a == b {
    } else {
      Pow2Monotone(a, b - 1);
    }
  }

  lemma Pow2Octet()
    ensures Pow2(8) == 0x100
  {
    assert Pow2(4) == 16;
  }

  lemma Pow2Half()
    ensures Pow2(16) == 0x1_0000
  {
    Pow2Octet();
    Pow2Add(8, 8);
  }

  lemma Pow2Word()
    ensures Pow2(32) == 0x1_0000_0000 && Pow2(31) == 0x8000_0000
  {
    Pow2Half();
    Pow2Add(16, 16);
    Pow2Next(31);
  }

  lemma Pow2Next(e: nat)
    ensures Pow2(e + 1) == 2 * Pow2(e)
  {
  }

  lemma {:induction false} Pow16(k: nat)
    ensures Pow(16, k) == Pow2(4 * k)
  {
    if k == 0 {
    } else {
      Pow16(k - 1);
      assert Pow2(4 * k) == 2 * Pow2(4 * k - 1);
      assert Pow2(4 * k - 1) == 2 * Pow2(4 * k - 2);
      assert Pow2(4 * k - 2) == 2 * Pow2(4 * k - 3);
    }
  }

  /** Quotient and remainder of a number written in two parts. */
  lemma SplitDivision(hi: nat, lo: nat, m: nat)
    requires lo < m
    ensures (lo + m * hi) / m == hi && (lo + m * hi) % m == lo
  {
    DivModUnique(lo + m * hi, m, hi, lo);
  }

  lemma Distribute(a: nat, b: nat, q: nat, r: nat)
    ensures a * (b * q + r) == a * b * q + a * r
  {
  }

  lemma RemainderBound(a: nat, b: nat, r: nat, s: nat)
    requires r < b && s < a
    ensures a * r + s < a * b
  {
    MulMonotone(a, r + 1, b);
    assert a * (r + 1) == a * r + a;
  }

  /** Dividing twice is dividing by the product. */
  lemma DivDiv(x: nat, a: nat, b: nat)
    requires a > 0 && b > 0
    ensures a * b > 0 && x / (a * b) == x / a / b
  {
    var q, r := x / a, x % a;
    DivDivParts(x, a, b, q, r, q / b, q % b);
  }

  lemma DivDivParts(x: nat, a: nat, b: nat, q: nat, r: nat, q': nat, r': nat)
    requires x == a * q + r && r < a && q == b * q' + r' && r' < b
    ensures a * b > 0 && x / (a * b) == q'
  {
    PositiveProduct(a, b);
    Distribute(a, b, q', r');
    RemainderBound(a, b, r', r);
    DivModUnique(x, a * b, q', a * r' + r);
  }
}
