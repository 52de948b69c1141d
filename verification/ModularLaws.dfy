/** The laws of arithmetic modulo m, for the values that the modular operations compute. */
module ModularLaws {
  import opened NumTheory

  function AddM(m: int, a: int, b: int): int requires m > 0 { (a + b) % m }

  function MulM(m: int, a: int, b: int): int requires m > 0 { (a * b) % m }

  /** InverseAdd: zero stays zero, anything else is subtracted from m. */
  function NegM(m: int, a: int): int
    requires m > 0
  {
    if a % m == 0 then 0 else m - a % m
  }

  function SubM(m: int, a: int, b: int): int requires m > 0 { (a + NegM(m, b)) % m }

  /** Adding a multiple of m does not change the remainder. */
  lemma ModShift(x: int, k: int, m: int)
    requires m > 0
    ensures (x + m * k) % m == x % m
  {
    DivModUnique(x + m * k, m, x / m + k, x % m);
  }

  lemma ModOfMod(x: int, m: int)
    requires m > 0
    ensures 0 <= x % m < m && x % m % m == x % m && x == x % m + m * (x / m)
  {
    DivModUnique(x % m, m, 0, x % m);
  }

  /** A summand may be reduced first. */
  lemma AddReduced(m: int, a: int, b: int)
    requires m > 0
    ensures (a % m + b) % m == (a + b) % m
  {
    ModOfMod(a, m);
    ModShift(a % m + b, a / m, m);
  }

  /** So may a factor. */
  lemma MulReduced(m: int, a: int, b: int)
    requires m > 0
    ensures (a % m * b) % m == (a * b) % m
  {
    ModOfMod(a, m);
    assert a * b == a % m * b + m * (a / m * b);
    ModShift(a % m * b, a / m * b, m);
  }

  lemma AddRight(m: int, a: int, b: int, c: int)
    requires m > 0
    ensures AddM(m, a, AddM(m, b, c)) == (b + c + a) % m
  {
    AddReduced(m, b + c, a);
  }

  lemma AddAssociates(m: int, a: int, b: int, c: int)
    requires m > 0
    ensures AddM(m, AddM(m, a, b), c) == AddM(m, a, AddM(m, b, c))
  {
    AddRight(m, a, b, c);
    AddRight(m, c, a, b);
    assert a + b + c == b + c + a;
    assert AddM(m, AddM(m, a, b), c) == AddM(m, c, AddM(m, a, b));
  }

  lemma MulAssociates(m: int, a: int, b: int, c: int)
    requires m > 0
    ensures MulM(m, MulM(m, a, b), c) == MulM(m, a, MulM(m, b, c))
  {
    MulReduced(m, a * b, c);
    MulReduced(m, b * c, a);
    assert a * b * c == b * c * a;
    assert a * ((b * c) % m) == (b * c) % m * a;
  }

  lemma MulDistributes(m: int, a: int, b: int, c: int)
    requires m > 0
    ensures MulM(m, a, AddM(m, b, c)) == AddM(m, MulM(m, a, b), MulM(m, a, c))
  {
    MulReduced(m, b + c, a);
    assert a * ((b + c) % m) == (b + c) % m * a;
    AddReduced(m, a * b, (a * c) % m);
    AddReduced(m, a * c, a * b);
    assert (b + c) * a == a * c + a * b;
  }

  /** InverseAdd gives the additive inverse. */
  lemma AddInverse(m: int, b: int)
    requires m > 0
    ensures AddM(m, b, NegM(m, b)) == 0
  {
    ModOfMod(b, m);
    AddReduced(m, b, NegM(m, b));
    if b % m == 0 {
      DivModUnique(0, m, 0, 0);
    } else {
      DivModUnique(m, m, 1, 0);
    }
  }

  /** The difference modulo m is the remainder of the difference. */
  lemma SubIsDifference(m: int, a: int, b: int)
    requires m > 0
    ensures SubM(m, a, b) == (a - b) % m
  {
    ModOfMod(b, m);
    var k := if b % m == 0 then b / m else b / m + 1;
    assert NegM(m, b) == -b + m * k by {
      assert m * (b / m + 1) == m * (b / m) + m;
    }
    ModShift(a - b, k, m);
  }

  /** Subtracting what was added gives the reduced start back. */
  lemma SubUndoesAdd(m: int, a: int, b: int)
    requires m > 0
    ensures SubM(m, AddM(m, a, b), b) == a % m
  {
    SubIsDifference(m, AddM(m, a, b), b);
    AddReduced(m, a + b, -b);
  }
}
