/** The number theory behind scalar cancellation: inverses modulo a prime. */
module NumTheory {

  ghost predicate Prime(n: int) {
    n > 1 && forall d {:trigger n % d} :: 1 < d < n ==> n % d != 0
  }

  lemma MulModZero(a: int, b: int, m: int)
    requires m > 0 && a % m == 0
    ensures (a * b) % m == 0
  {
    var q := a / m;
    assert a * b == m * (q * b);
    MultipleMod(q * b, m);
  }

  lemma MultipleMod(q: int, m: int)
    requires m > 0
    ensures (m * q) % m == 0
  {
    DivModUnique(m * q, m, q, 0);
  }

  /** Euclidean division is determined by quotient and remainder. */
  lemma DivModUnique(x: int, m: int, q: int, r: int)
    requires m > 0 && 0 <= r < m && x == m * q + r
    ensures x / m == q && x % m == r
  {
    var q', r' := x / m, x % m;
    assert x == m * q' + r';
    if q > q' {
      MulMonotone(m, q' + 1, q);
    } else if q < q' {
      MulMonotone(m, q + 1, q');
    }
  }

  lemma MulMonotone(m: int, a: int, b: int)
    requires m > 0 && a <= b
    ensures m * a <= m * b
  {
    assert m * (b - a) >= 0;
  }

  lemma SmallMod(x: nat, m: int)
    requires x < m
    ensures x % m == x
  {
    DivModUnique(x, m, 0, x);
  }

  lemma AddMod(a: int, b: int, m: int)
    requires m > 0 && a % m == 0
    ensures (a + b) % m == b % m
  {
    DivModUnique(a + b, m, a / m + b / m, b % m);
  }

  /** Extended Euclid: a common divisor that is a combination of its arguments. */
  lemma {:induction false} Egcd(a: nat, b: nat) returns (g: nat, x: int, y: int)
    requires a > 0 || b > 0
    ensures g > 0 && a % g == 0 && b % g == 0
    ensures a * x + b * y == g
    decreases b
  {
    if b == 0 {
      g, x, y := a, 1, 0;
      MultipleMod(1, a);
    } else {
      var q, r := a / b, a % b;
      var x', y';
      g, x', y' := Egcd(b, r);
      x, y := y', x' - q * y';
      assert a == b * q + r;
      MulModZero(b, q, g);
      AddMod(b * q, r, g);
      assert a * x + b * y == (b * q + r) * y' + b * (x' - q * y') == b * x' + r * y';
    }
  }

  /** Modulo a prime, every number that is not a multiple of it has an inverse. */
  lemma InverseModPrime(k: nat, n: nat) returns (u: nat)
    requires Prime(n) && k % n != 0
    ensures (u * k) % n == 1
  {
    var g, x, y := Egcd(k, n);
    if g > n {
      SmallMod(n, g);
      assert false;
    }
    if 1 < g < n {
      assert false;
    }
    assert g == 1;
    u := x % n;
    var t := x / n;
    assert x == n * t + u;
    assert u * k == n * (-(t * k) - y) + 1 by {
      assert k * x + n * y == 1;
      assert k * (n * t + u) == n * (t * k) + u * k;
    }
    DivModUnique(u * k, n, -(t * k) - y, 1);
  }
}
