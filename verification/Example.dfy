/**
 * A small instance of the protocol over the integers modulo five, with a common element and one of
 * each party's own. It meets the assumptions of the main results; and with a table key that folds
 * the two words of a record's first eight octets its honest run gives the client a wrong result.
 */
module Example {
  import opened Bytes
  import opened Wrappers
  import opened NumTheory
  import opened Powers
  import opened ModularLaws
  import opened Group
  import opened HashToPoint
  import opened Sm2
  import opened DhPsi
  import opened Transport
  import opened Permutations
  import opened HashJoin
  import opened Intersection
  import opened HonestRun
  import opened Psi
  import opened Guards

  type Five = x: int | 0 <= x < 5

  function Add(a: Five, b: Five): Five { AddM(5, a, b) }

  function Neg(a: Five): Five { NegM(5, a) }

  function Z5(): Group<Five> { Group(0, Add, Neg) }

  const TOP: nat := 8 * HALF - 32

  function WidePoint(): Affine { Affine(Pow2(TOP), Pow2(TOP)) }

  /** The signature of a digest tells its parity. */
  function Tag(d: nat): Affine { Affine(Pow2(TOP) + d % 2, Pow2(TOP)) }

  function Scheme(): Suite {
    Suite((s: seq<byte>) => s, (k: nat) => WidePoint(), (d: nat, k: nat, e: nat) => Tag(d),
          (p: Affine, d: nat, s: Affine) => p == WidePoint() && s == Tag(d))
  }

  /** The point of an element depends on its first octet. */
  function Point(e: seq<byte>): Five { if e == [] then 1 else 1 + e[0] % 4 }

  function Curve(): Crypto<Five> {
    Crypto(Z5(), 5, (h: int, e: seq<byte>) => Some(Point(e)), (p: Five) => seq(POINT, _ => p),
           (s: seq<byte>) => if s == [] then 0 else s[0] % 5, Scheme())
  }

  function Holder(elements: seq<seq<byte>>, scalar: nat): Input {
    Input(elements, scalar, 7, 1, 1, 1, 32, 128, 1)
  }

  const CLIENT := Holder([[1], [0]], 2)
  const SERVER := Holder([[1], [2]], 3)

  lemma Z5Abelian()
    ensures Abelian(Z5())
  {
    forall p: Five, q: Five, r: Five ensures Assoc(Z5(), p, q, r) {
      AddAssociates(5, p, q, r);
    }
    forall p: Five ensures Unit(Z5(), p) {
      AddInverse(5, p);
    }
  }

  lemma NextMultiple(k: nat, p: Five)
    ensures AddM(5, p, (k * p) % 5) == ((k + 1) * p) % 5
  {
    AddReduced(5, k * p, p);
    assert (k + 1) * p == k * p + p;
  }

  lemma {:induction false} Multiples(k: nat, p: Five)
    ensures Mul(Z5(), k, p) == (k * p) % 5
  {
    if k == 0 {
    } else {
      Multiples(k - 1, p);
      NextMultiple(k - 1, p);
    }
  }

  lemma TimesOrder(n: nat, p: Five)
    requires n == 5
    ensures Mul(Z5(), n, p) == 0
  {
    Multiples(n, p);
    MultipleMod(p, n);
  }

  lemma Z5PrimeOrder()
    ensures PrimeOrder(Z5(), 5)
  {
    Z5Abelian();
    forall p: Five ensures Mul(Z5(), 5, p) == 0 {
      TimesOrder(5, p);
    }
  }

  lemma CurveIsGood()
    ensures GoodCrypto(Curve())
  {
    Z5PrimeOrder();
  }

  lemma TagIsWide(d: nat)
    ensures FullWidthPoint(Tag(d)) && FullWidthPoint(WidePoint())
  {
    Pow2Next(TOP);
    Pow2Monotone(TOP + 1, 8 * HALF);
    WireWidth(Pow2(TOP));
    WireWidth(Pow2(TOP) + d % 2);
  }

  lemma PointOf(e: seq<byte>)
    ensures HashPoint(Curve().hashTo, e) == Some(Point(e))
  {
    var ph := Curve().hashTo;
    assert HashFrom(ph, e, 0) == ph(Header(0), e);
  }

  lemma PartyIsGood(me: Input)
    requires |me.elements| < 0x200_0000 && me.scalar % 5 != 0
    ensures GoodInput(Curve(), me)
  {
    forall e | e in me.elements
      ensures HashPoint(Curve().hashTo, e).Some? && HashPoint(Curve().hashTo, e).value != 0
    {
      PointOf(e);
    }
  }

  lemma SignatureIsWide(me: Input, ephemeral: nat, list: seq<byte>)
    ensures FullWidthPoint(SignatureOf(Curve(), me, ephemeral, list))
  {
    TagIsWide(FromBigEndian(Digest(Scheme(), list, UserId(me), WidePoint())));
  }

  lemma AllWide(client: Input, server: Input)
    ensures FullWidthValues(Curve(), client, server)
  {
    TagIsWide(0);
    SignatureIsWide(client, client.ephemeral, BlindedList(Curve(), client));
    SignatureIsWide(server, server.ephemeral, BlindedList(Curve(), server));
    SignatureIsWide(server, server.ephemeral2, List2(Curve(), client, server));
  }

  /** Elements of one small octet are told apart by their points. */
  ghost predicate OneSmallOctet(e: seq<byte>) { |e| == 1 && e[0] < 4 }

  lemma SmallElements(x: seq<byte>, y: seq<byte>)
    requires OneSmallOctet(x) && OneSmallOctet(y)
    ensures HashedPoint(Curve(), x) == HashedPoint(Curve(), y) ==> x == y
  {
    PointOf(x);
    PointOf(y);
  }

  lemma PointsDiffer(xs: seq<seq<byte>>)
    requires forall x :: x in xs ==> OneSmallOctet(x)
    ensures HashInjective(Curve(), xs)
  {
    forall x, y | x in xs && y in xs && HashedPoint(Curve(), x) == HashedPoint(Curve(), y) ensures x == y {
      SmallElements(x, y);
    }
  }

  lemma ElementsDiffer()
    ensures Distinct(CLIENT.elements) && Distinct(SERVER.elements)
    ensures forall x :: x in CLIENT.elements + SERVER.elements ==> OneSmallOctet(x)
  {
    assert [0 as byte][0] != [1 as byte][0] && [1 as byte][0] != [2 as byte][0];
  }

  lemma CommonElement()
    ensures Intersect([[1], [0 as byte]], [[1], [2 as byte]]) == [[1]]
  {
    assert [[1], [0 as byte]][..1] == [[1]] && [[1 as byte]][..0] == [];
  }

  /** All assumptions hold of this instance, and the common element is [1]. */
  lemma AssumptionsCanBeMet()
    ensures Honest(Curve(), CLIENT, SERVER)
    ensures Distinct(CLIENT.elements) && Distinct(SERVER.elements)
    ensures HashInjective(Curve(), CLIENT.elements + SERVER.elements)
    ensures Intersect(CLIENT.elements, SERVER.elements) == [[1]]
  {
    CurveIsGood();
    PartyIsGood(CLIENT);
    PartyIsGood(SERVER);
    AllWide(CLIENT, SERVER);
    ElementsDiffer();
    PointsDiffer(CLIENT.elements + SERVER.elements);
    CommonElement();
  }

  /* ---- A harmful collision on an honest run ---- */

  lemma {:induction false} OctetsBound(s: seq<byte>)
    ensures FromLittleEndian(s) < Pow256(|s|)
  {
    if s == [] {
    } else {
      OctetsBound(s[1..]);
    }
  }

  function Word(s: seq<byte>): bv32
    requires |s| == 4
  {
    OctetsBound(s);
    Pow256Word(0);
    FromLe32(s) as bv32
  }

  /** A hash of a 64-bit key: the exclusive or of its two words. */
  function FoldedWords(k: seq<byte>): int {
    if |k| == 8 then (Word(k[..4]) ^ Word(k[4..])) as int else 0
  }

  /** All octets of a record of this instance are the same, so all records have one code. */
  lemma OneCode(p: Five)
    ensures RecordKey(FoldedWords)(Curve().enc(p)) == 0
  {
    var r := Curve().enc(p);
    assert Min(|r|, 8) == 8;
    EqualWords(r[..8]);
  }

  lemma EqualWords(k: seq<byte>)
    requires |k| == 8 && k[..4] == k[4..]
    ensures FoldedWords(k) == 0
  {
    CancelsOut(Word(k[4..]));
  }

  lemma CancelsOut(w: bv32)
    ensures w ^ w == 0
  {
  }

  lemma CodesAreZero(k: nat, me: Input)
    requires |me.elements| == 2
    ensures MapCodes(RecordKey(FoldedWords), TwiceBlinded(Curve(), k, me)) == [0, 0]
  {
    var records := TwiceBlinded(Curve(), k, me);
    forall i | 0 <= i < 2 ensures RecordKey(FoldedWords)(records[i]) == 0 {
      OneCode(Mul(Curve().group, k, Curve().dec(Blinded(Curve(), me.scalar, me.elements[i]))));
    }
  }

  lemma JoinOfZeros()
    ensures Join([0, 0], [0, 0], [0, 1]) == [1, 1] && Sorted([1, 1]) == [1, 1]
  {
    assert [0, 0][..1] == [0] && [0][..0] == [];
    assert Join([0, 0], [0], [0, 1]) == [1];
    assert [1, 1][..1] == [1] && [1][..0] == [];
    assert Sorted([1]) == [1];
  }

  lemma JoinedWrongly(own: seq<seq<byte>>, peer: seq<seq<byte>>)
    requires MapCodes(RecordKey(FoldedWords), own) == [0, 0] == MapCodes(RecordKey(FoldedWords), peer)
    ensures |own| == 2 && Joined(FoldedWords, CLIENT.elements, own, peer) == Result([[0], [0]])
  {
    assert |own| == 2 && |peer| == 2;
    assert Identity(2) == [0, 1];
    JoinOfZeros();
    assert SortedMatches(RecordKey(FoldedWords), own, peer) == Found([1, 1]);
    assert Pick(CLIENT.elements, [1, 1]) == [[0], [0]];
  }

  lemma WrongOutcome()
    requires Honest(Curve(), CLIENT, SERVER)
    ensures var ms := ServerMessages(Curve(), CLIENT, SERVER);
      && POINT * FromLe32(ms[0]) <= |ms[5]| && POINT * |CLIENT.elements| <= |ms[9]|
      && ClientOutcome(Curve(), FoldedWords, CLIENT, ms) == Result([[0], [0]])
  {
    OutcomeFromMessages(Curve(), FoldedWords, CLIENT, SERVER);
    CodesAreZero(SERVER.scalar, CLIENT);
    CodesAreZero(CLIENT.scalar, SERVER);
    JoinedWrongly(TwiceBlinded(Curve(), SERVER.scalar, CLIENT), TwiceBlinded(Curve(), CLIENT.scalar, SERVER));
  }

  /**
   * A complete honest run of duplicate-free lists whose common element is [1], at the end of which
   * the client's result is [0] twice: the common element is lost and a private one is reported.
   */
  lemma CollisionLosesElement(cap: nat) returns (actions: seq<Action>, w: World)
    requires cap >= 16
    ensures Honest(Curve(), CLIENT, SERVER) && Run(SystemFor(Curve(), CLIENT, SERVER, cap), actions) == Some(w)
    ensures Done(w, ClientScript(Curve(), CLIENT, SERVER), ServerScript(Curve(), CLIENT, SERVER))
    ensures |w.client.rcvd| == 13
    ensures var r := w.client.rcvd; POINT * FromLe32(r[0]) <= |r[5]| && POINT * |CLIENT.elements| <= |r[9]|
    ensures ClientOutcome(Curve(), FoldedWords, CLIENT, w.client.rcvd) == Result([[0], [0]])
    ensures Intersect(CLIENT.elements, SERVER.elements) == [[1]]
  {
    AssumptionsCanBeMet();
    var sys := SystemFor(Curve(), CLIENT, SERVER, cap);
    assert Run(sys, []) == Some(INITIAL);
    actions, w := EveryRunCanFinish(Curve(), CLIENT, SERVER, cap, []);
    assert Reachable(sys, w);
    FinishedClientHasAll(Curve(), CLIENT, SERVER, cap, w);
    WrongOutcome();
  }

  /* ---- A repeated element on an honest run ---- */

  const ONCE := Holder([[1]], 2)
  const TWICE := Holder([[1], [1]], 3)

  lemma RunOf(client: Input, server: Input)
    requires |client.elements| < 0x200_0000 && client.scalar % 5 != 0
    requires |server.elements| < 0x200_0000 && server.scalar % 5 != 0
    requires SameParameters(client, server)
    ensures Honest(Curve(), client, server)
  {
    CurveIsGood();
    PartyIsGood(client);
    PartyIsGood(server);
    AllWide(client, server);
  }

  lemma RepeatedAborts(hash: KeyHash)
    ensures Joined(hash, ONCE.elements, TwiceBlinded(Curve(), 3, ONCE), TwiceBlinded(Curve(), 2, TWICE)) == JoinAborted
  {
    CurveIsGood();
    PartyIsGood(ONCE);
    PartyIsGood(TWICE);
    JoinedAreMatched(Curve(), hash, ONCE, TWICE);
    RepeatedNotMatched(ElementKey(Curve(), hash, 3, 2), [1]);
  }

  lemma RepeatedNotMatched<T(!new)>(key: T -> int, v: T)
    ensures Matched(key, [v], [v, v]) == None
  {
    RepeatedJoin(key(v));
    assert MapCodes(key, [v]) == [key(v)] && MapCodes(key, [v, v]) == [key(v), key(v)];
    assert Identity(1) == [0];
  }

  lemma RepeatedJoin(c: int)
    ensures |Join([c], [c, c], [0])| == 2
  {
    assert [c, c][..1] == [c] && [c][..0] == [];
    assert Join([c], [c], [0]) == [0];
  }

  /**
   * A complete honest run in which the server holds the common element twice: whatever the table
   * key, the assertion in the client's join fails.
   */
  lemma RepetitionAborts(hash: KeyHash, cap: nat) returns (actions: seq<Action>, w: World)
    requires cap >= 16
    ensures Honest(Curve(), ONCE, TWICE) && Run(SystemFor(Curve(), ONCE, TWICE, cap), actions) == Some(w)
    ensures Done(w, ClientScript(Curve(), ONCE, TWICE), ServerScript(Curve(), ONCE, TWICE))
    ensures |w.client.rcvd| == 13
    ensures var r := w.client.rcvd; POINT * FromLe32(r[0]) <= |r[5]| && POINT * |ONCE.elements| <= |r[9]|
    ensures ClientOutcome(Curve(), hash, ONCE, w.client.rcvd) == JoinAborted
    ensures Intersect(ONCE.elements, TWICE.elements) == [[1]]
  {
    RunOf(ONCE, TWICE);
    actions, w := EveryRunCanFinish(Curve(), ONCE, TWICE, cap, []);
    assert Reachable(SystemFor(Curve(), ONCE, TWICE, cap), w);
    FinishedOutcome(Curve(), hash, ONCE, TWICE, cap, w);
    RepeatedAborts(hash);
    OnceCommon();
  }

  lemma OnceCommon()
    ensures Intersect([[1 as byte]], [[1], [1]]) == [[1]]
  {
    assert [[1 as byte]][..0] == [];
  }

  /* ---- A list that was altered after it was signed ---- */

  lemma LastOctetIsParity(s: seq<byte>, b: byte)
    ensures FromBigEndian(s + [b]) % 2 == b % 2
  {
    FromBigEndianSnoc(s, b);
  }

  function NextOctet(b: byte): byte { if b == 255 then 0 else b + 1 }

  /** A list with another last octet. */
  function Altered(list: seq<byte>): seq<byte>
    requires list != []
  {
    list[..|list| - 1] + [NextOctet(list[|list| - 1])]
  }

  lemma AlteredDigest(z: seq<byte>, list: seq<byte>)
    requires list != []
    ensures FromBigEndian(z + Altered(list)) % 2 != FromBigEndian(z + list) % 2
  {
    var init, last := list[..|list| - 1], list[|list| - 1];
    assert z + list == (z + init) + [last];
    assert z + Altered(list) == (z + init) + [NextOctet(last)];
    LastOctetIsParity(z + init, last);
    LastOctetIsParity(z + init, NextOctet(last));
  }

  lemma AlteredIsNotValid(key: seq<byte>, list: seq<byte>, sigX: seq<byte>, sigY: seq<byte>, id: seq<byte>)
    requires |key| == 64 && list != [] && Valid(Scheme(), key, list, sigX, sigY, id)
    ensures !Valid(Scheme(), key, Altered(list), sigX, sigY, id)
  {
    AlteredDigest(ZInput(id, Affine(FromBigEndian(key[..32]), FromBigEndian(key[32..]))), list);
  }

  lemma GenuineIsValid(me: Input)
    requires |me.elements| < 0x200_0000 && me.scalar % 5 != 0
    ensures var ms := FirstMessages(Curve(), me);
      && SentBy(Curve(), me, ms) && Valid(Scheme(), ms[4], ms[5], ms[6], ms[7], ms[8])
  {
    CurveIsGood();
    PartyIsGood(me);
    TagIsWide(0);
    SignatureIsWide(me, me.ephemeral, BlindedList(Curve(), me));
    FirstMessagesMean(Curve(), me);
  }

  /** A list that was altered after it was signed is not accepted, and whoever receives it stops. */
  lemma AlteredListStops(me: Input, from: Input, role: Who)
    requires from.elements != [] && |from.elements| < 0x200_0000 && from.scalar % 5 != 0
    ensures var ms := FirstMessages(Curve(), from);
      ms[5] != [] && NextOp(Curve(), me, role, 13, ms[5 := Altered(ms[5])]) == Halt
  {
    GenuineIsValid(from);
    AlteredHalts(me, role, FirstMessages(Curve(), from));
  }

  lemma AlteredHalts(me: Input, role: Who, ms: seq<seq<byte>>)
    requires |ms| == 9 && |ms[4]| == 64 && ms[5] != []
    requires Valid(Scheme(), ms[4], ms[5], ms[6], ms[7], ms[8])
    ensures NextOp(Curve(), me, role, 13, ms[5 := Altered(ms[5])]) == Halt
  {
    AlteredIsNotValid(ms[4], ms[5], ms[6], ms[7], ms[8]);
    HaltsWithoutSignature(Curve(), me, role, ms[5 := Altered(ms[5])]);
  }
}
