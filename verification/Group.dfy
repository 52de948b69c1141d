/** Scalar multiplication in an abelian group whose order is a prime. */
module Group {
  import opened NumTheory

  datatype Group<!P> = Group(zero: P, add: (P, P) -> P, neg: P -> P)

  /** The group laws at given points; proofs name the instances that they use. */
  ghost predicate Assoc<P>(g: Group<P>, p: P, q: P, r: P) {
    g.add(g.add(p, q), r) == g.add(p, g.add(q, r))
  }

  ghost predicate Comm<P>(g: Group<P>, p: P, q: P) {
    g.add(p, q) == g.add(q, p)
  }

  ghost predicate Unit<P>(g: Group<P>, p: P) {
    g.add(g.zero, p) == p && g.add(p, g.neg(p)) == g.zero
  }

  ghost predicate Abelian<P(!new)>(g: Group<P>) {
    && (forall p, q, r :: Assoc(g, p, q, r))
    && (forall p, q :: Comm(g, p, q))
    && (forall p :: Unit(g, p))
  }

  /** k times p, the way ippsGFpECMulPoint is specified: p added k times. */
  function Mul<P>(g: Group<P>, k: nat, p: P): P {
    if k == 0 then g.zero else g.add(p, Mul(g, k - 1, p))
  }

  /** The order n of the group is a prime, so n times any element is the identity. */
  ghost predicate PrimeOrder<P(!new)>(g: Group<P>, n: nat) {
    Abelian(g) && Prime(n) && forall p :: Mul(g, n, p) == g.zero
  }

  lemma {:induction false} MulZero<P(!new)>(g: Group<P>, k: nat)
    requires Abelian(g)
    ensures Mul(g, k, g.zero) == g.zero
  {
    if k == 0 {
    } else {
      MulZero(g, k - 1);
      assert Unit(g, g.zero);
    }
  }

  lemma {:induction false} MulAdd<P(!new)>(g: Group<P>, a: nat, b: nat, p: P)
    requires Abelian(g)
    ensures Mul(g, a + b, p) == g.add(Mul(g, a, p), Mul(g, b, p))
  {
    if a == 0 {
      assert Unit(g, Mul(g, b, p));
    } else {
      MulAdd(g, a - 1, b, p);
      assert Assoc(g, p, Mul(g, a - 1, p), Mul(g, b, p));
    }
  }

  lemma {:induction false} MulMul<P(!new)>(g: Group<P>, a: nat, b: nat, p: P)
    requires Abelian(g)
    ensures Mul(g, a, Mul(g, b, p)) == Mul(g, a * b, p)
  {
    if a == 0 {
    } else {
      MulMul(g, a - 1, b, p);
      MulAdd(g, b, (a - 1) * b, p);
      assert b + (a - 1) * b == a * b;
    }
  }

  /** Blinding by c and then by s is the same as blinding by s and then by c. */
  lemma BlindingCommutes<P(!new)>(g: Group<P>, c: nat, s: nat, p: P)
    requires Abelian(g)
    ensures Mul(g, c, Mul(g, s, p)) == Mul(g, s, Mul(g, c, p))
  {
    MulMul(g, c, s, p);
    MulMul(g, s, c, p);
    assert c * s == s * c;
  }

  /** A blinding factor that is not a multiple of the order can be undone. */
  lemma Unblind<P(!new)>(g: Group<P>, n: nat, k: nat) returns (u: nat)
    requires PrimeOrder(g, n) && k % n != 0
    ensures forall p :: Mul(g, u, Mul(g, k, p)) == p
  {
    u := InverseModPrime(k, n);
    var t := u * k / n;
    assert u * k == t * n + 1 by {
      assert u * k == n * t + u * k % n;
    }
    forall p ensures Mul(g, u, Mul(g, k, p)) == p {
      MulMul(g, u, k, p);
      MulAdd(g, t * n, 1, p);
      MulMul(g, t, n, p);
      MulZero(g, t);
      assert Unit(g, p) && Comm(g, p, g.zero);
      assert Mul(g, 1, p) == g.add(p, Mul(g, 0, p));
    }
  }

  /** Two points agree after blinding exactly when they agreed before it. */
  lemma BlindingInjective<P(!new)>(g: Group<P>, n: nat, k: nat, p: P, q: P)
    requires PrimeOrder(g, n) && k % n != 0
    ensures Mul(g, k, p) == Mul(g, k, q) <==> p == q
  {
    var u := Unblind(g, n, k);
    assert p == Mul(g, u, Mul(g, k, p));
    assert q == Mul(g, u, Mul(g, k, q));
  }

  /** Blinding never produces the point at infinity from another point. */
  lemma BlindingNonZero<P(!new)>(g: Group<P>, n: nat, k: nat, p: P)
    requires PrimeOrder(g, n) && k % n != 0 && p != g.zero
    ensures Mul(g, k, p) != g.zero
  {
    MulZero(g, k);
    BlindingInjective(g, n, k, p, g.zero);
  }

  /** The doubly blinded values match exactly where the unblinded points match. */
  lemma DoubleBlindingMatches<P(!new)>(g: Group<P>, n: nat, s: nat, c: nat, p: P, q: P)
    requires PrimeOrder(g, n) && s % n != 0 && c % n != 0
    ensures Mul(g, s, Mul(g, c, p)) == Mul(g, c, Mul(g, s, q)) <==> p == q
  {
    BlindingCommutes(g, c, s, q);
    BlindingInjective(g, n, s, Mul(g, c, p), Mul(g, c, q));
    BlindingInjective(g, n, c, p, q);
  }
}
