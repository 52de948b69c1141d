/**
 * The data flow of SM2 signing and verification (src/util/gmCrypto/crypto.cpp): which octets are
 * hashed, and how keys and signatures travel. SM3 and the signature equations are contracts.
 */
module Sm2 {
  import opened Bytes
  import opened NumTheory
  import opened Powers
  import opened BigNum

  /** halfPointByteLen: the octets of a coordinate. */
  const HALF: nat := 32

  // The curve and its base point, as the 32-octet strings that are hashed.
  function A(): (r: seq<byte>)
    ensures |r| == HALF
  {
    [0xff, 0xff, 0xff, 0xfe, 0xff, 0xff, 0xff, 0xff, 0xff, 0xff, 0xff, 0xff, 0xff, 0xff, 0xff, 0xff,
     0xff, 0xff, 0xff, 0xff, 0x00, 0x00, 0x00, 0x00, 0xff, 0xff, 0xff, 0xff, 0xff, 0xff, 0xff, 0xfc]
  }

  function B(): (r: seq<byte>)
    ensures |r| == HALF
  {
    [0x28, 0xe9, 0xfa, 0x9e, 0x9d, 0x9f, 0x5e, 0x34, 0x4d, 0x5a, 0x9e, 0x4b, 0xcf, 0x65, 0x09, 0xa7,
     0xf3, 0x97, 0x89, 0xf5, 0x15, 0xab, 0x8f, 0x92, 0xdd, 0xbc, 0xbd, 0x41, 0x4d, 0x94, 0x0e, 0x93]
  }

  function XG(): (r: seq<byte>)
    ensures |r| == HALF
  {
    [0x32, 0xc4, 0xae, 0x2c, 0x1f, 0x19, 0x81, 0x19, 0x5f, 0x99, 0x04, 0x46, 0x6a, 0x39, 0xc9, 0x94,
     0x8f, 0xe3, 0x0b, 0xbf, 0xf2, 0x66, 0x0b, 0xe1, 0x71, 0x5a, 0x45, 0x89, 0x33, 0x4c, 0x74, 0xc7]
  }

  function YG(): (r: seq<byte>)
    ensures |r| == HALF
  {
    [0xbc, 0x37, 0x36, 0xa2, 0xf4, 0xf6, 0x77, 0x9c, 0x59, 0xbd, 0xce, 0xe3, 0x6b, 0x69, 0x21, 0x53,
     0xd0, 0xa9, 0x87, 0x7c, 0xc6, 0x2a, 0x47, 0x40, 0x02, 0xdf, 0x32, 0xe5, 0x21, 0x39, 0xf0, 0xa0]
  }

  datatype Affine = Affine(x: nat, y: nat)

  /** SM3, the public key of a private key, signing with an ephemeral key, and verification. */
  datatype Suite = Suite(
    sm3: seq<byte> -> seq<byte>,
    publicKey: nat -> Affine,
    sign: (nat, nat, nat) -> Affine,
    verify: (Affine, nat, Affine) -> bool)

  /**
   * What the signature scheme promises: a signature verifies under the signer's public key. Keys
   * without a finite public key and ephemeral keys without a signature are left aside: (0, 0)
   * stands for what they give, and it is not of full width.
   */
  ghost predicate Correct(suite: Suite) {
    forall digest, key, ephemeral ::
      FullWidthPoint(suite.publicKey(key)) && FullWidthPoint(suite.sign(digest, key, ephemeral)) ==>
        suite.verify(suite.publicKey(key), digest, suite.sign(digest, key, ephemeral))
  }

  /* ---- The wire form of big numbers ---- */

  /** IppBNStoIpp8u: as many octets as the words of the number have. */
  function BnOctets(n: nat): seq<byte> { BigEndian(n, 4 * |WordsOf(n)|) }

  lemma {:induction false} OctetPowers(k: nat)
    ensures Pow256(k) == Pow2(8 * k)
  {
    if k == 0 {
    } else {
      OctetPowers(k - 1);
      Pow2Add(8, 8 * k - 8);
      assert Pow2(8) == 256 by {
        assert Pow2(4) == 16;
      }
    }
  }

  /** The buffer has the 32 octets that are sent from it exactly when the top word is not zero. */
  lemma WireWidth(n: nat)
    ensures |BnOctets(n)| == 32 <==> Pow2(8 * HALF - 32) <= n < Pow2(8 * HALF)
    ensures FullWidth(n) <==> Pow2(8 * HALF - 32) <= n < Pow2(8 * HALF)
    ensures n < Pow2(8 * HALF) <==> n < Pow256(HALF)
  {
    WordsBound(n, 8);
    WordsBound(n, 7);
    OctetPowers(HALF);
  }

  /** Eight words. */
  predicate FullWidth(n: nat) { |WordsOf(n)| == 8 }

  predicate FullWidthPoint(p: Affine) { FullWidth(p.x) && FullWidth(p.y) }

  /**
   * The 32 octets that are sent or copied from BnOctets(n). What follows a shorter buffer in
   * memory is unknown; zeros stand for it here, and no property relies on them.
   */
  function Wire32(n: nat): (r: seq<byte>)
    ensures |r| == 32
  {
    (BnOctets(n) + BigEndian(0, HALF))[..32]
  }

  lemma WireRoundTrip(n: nat)
    requires FullWidth(n)
    ensures Wire32(n) == BnOctets(n) && FromBigEndian(Wire32(n)) == n
  {
    WireWidth(n);
    assert Wire32(n) == BnOctets(n);
    BigEndianRoundTrip(n, HALF);
  }

  /** The public key as sign_verify_init sends it, and how it is read back. */
  function PointWire(p: Affine): (r: seq<byte>)
    ensures |r| == 64
  {
    Wire32(p.x) + Wire32(p.y)
  }

  function PointFromWire(s: seq<byte>): Affine
    requires |s| == 64
  {
    Affine(FromBigEndian(s[..32]), FromBigEndian(s[32..]))
  }

  lemma PointRoundTrip(p: Affine)
    requires FullWidthPoint(p)
    ensures PointFromWire(PointWire(p)) == p
  {
    WireRoundTrip(p.x);
    WireRoundTrip(p.y);
    assert PointWire(p)[..32] == Wire32(p.x);
    assert PointWire(p)[32..] == Wire32(p.y);
  }

  /* ---- Digests ---- */

  /** The length of the identity in bits, as two octets. */
  function Entl(idLen: nat): (r: seq<byte>)
    ensures |r| == 2
  {
    [idLen * 8 / 256 % 256, idLen * 8 % 256]
  }

  lemma TwoOctets(bits: nat)
    ensures 256 * (bits / 256 % 256) + bits % 256 == bits % 0x1_0000
  {
    var q := bits / 256;
    DivModUnique(bits, 0x1_0000, q / 256, 256 * (q % 256) + bits % 256);
  }

  lemma FromTwoOctets(a: byte, b: byte)
    ensures FromBigEndian([a, b]) == 256 * a + b
  {
    assert [a, b][..1] == [a] && [a][..0] == [];
    assert FromBigEndian([a]) == a;
  }

  lemma EntlIsLength(idLen: nat)
    ensures FromBigEndian(Entl(idLen)) == 8 * idLen % 0x1_0000
  {
    TwoOctets(idLen * 8);
    FromTwoOctets(idLen * 8 / 256 % 256, idLen * 8 % 256);
  }

  /** The two octets hold the length exactly for identities below 8192 octets. */
  lemma EntlHoldsLength(idLen: nat)
    ensures FromBigEndian(Entl(idLen)) == 8 * idLen <==> idLen < 8192
  {
    EntlIsLength(idLen);
  }

  /** ENTL || ID || a || b || xG || yG || xA || yA, section 5.5 of GB/T 32918.2-2016. */
  function ZInput(id: seq<byte>, pub: Affine): seq<byte> {
    Entl(|id|) + id + A() + B() + XG() + YG() + BigEndian(pub.x, HALF) + BigEndian(pub.y, HALF)
  }

  /* ---- What ZInput holds, by offsets ---- */

  /** Four octets as a word. */
  function Quad(s: seq<byte>, i: nat): int
    requires i + 4 <= |s|
  {
    var a: int, b: int, c: int, d: int := s[i], s[i + 1], s[i + 2], s[i + 3];
    0x100_0000 * a + 0x1_0000 * b + 0x100 * c + d
  }

  lemma LastOctet(s: seq<byte>, n: nat)
    requires n < |s|
    ensures FromBigEndian(s[..n + 1]) == 256 * FromBigEndian(s[..n]) + s[n]
  {
    assert s[..n + 1][..n] == s[..n];
  }

  /** One word more. */
  lemma NextQuad(s: seq<byte>, n: nat, m: nat, v: int)
    requires n + 4 == m <= |s| && FromBigEndian(s[..n]) == v
    ensures FromBigEndian(s[..m]) == 0x1_0000_0000 * v + Quad(s, n)
  {
    LastOctet(s, n);
    LastOctet(s, n + 1);
    LastOctet(s, n + 2);
    LastOctet(s, n + 3);
  }

  ghost predicate Quads(s: seq<byte>, n: nat, w0: int, w1: int, w2: int, w3: int) {
    && n + 16 <= |s|
    && Quad(s, n) == w0 && Quad(s, n + 4) == w1 && Quad(s, n + 8) == w2 && Quad(s, n + 12) == w3
  }

  /** Four words more. */
  lemma NextQuads(s: seq<byte>, n: nat, m: nat, v: int, w0: int, w1: int, w2: int, w3: int)
    requires Quads(s, n, w0, w1, w2, w3) && m == n + 16 && FromBigEndian(s[..n]) == v
    ensures FromBigEndian(s[..m])
         == w3 + 0x1_0000_0000 * (w2 + 0x1_0000_0000 * (w1 + 0x1_0000_0000 * (w0 + 0x1_0000_0000 * v)))
  {
    NextQuad(s, n, n + 4, v);
    NextQuad(s, n + 4, n + 8, 0x1_0000_0000 * v + w0);
    NextQuad(s, n + 8, n + 12, w1 + 0x1_0000_0000 * (w0 + 0x1_0000_0000 * v));
    NextQuad(s, n + 12, m, w2 + 0x1_0000_0000 * (w1 + 0x1_0000_0000 * (w0 + 0x1_0000_0000 * v)));
  }

  /** A 32-octet string as eight words, the highest first. */
  lemma FromQuads(s: seq<byte>, w0: int, w1: int, w2: int, w3: int, w4: int, w5: int, w6: int, w7: int, hi: int)
    requires |s| == 32 && Quads(s, 0, w0, w1, w2, w3) && Quads(s, 16, w4, w5, w6, w7)
    requires hi == w3 + 0x1_0000_0000 * (w2 + 0x1_0000_0000 * (w1 + 0x1_0000_0000 * w0))
    ensures FromBigEndian(s)
         == w7 + 0x1_0000_0000 * (w6 + 0x1_0000_0000 * (w5 + 0x1_0000_0000 * (w4 + 0x1_0000_0000 * hi)))
  {
    assert s[..0] == [] && s[..32] == s;
    NextQuads(s, 0, 16, 0, w0, w1, w2, w3);
    NextQuads(s, 16, 32, hi, w4, w5, w6, w7);
  }

  /** The octets of each part are a slice of the whole. */
  lemma PartAt(whole: seq<byte>, before: seq<byte>, part: seq<byte>)
    requires before + part <= whole
    ensures before <= whole && whole[|before|..|before| + |part|] == part
  {
    assert whole[|before|..|before| + |part|] == (before + part)[|before|..];
  }

  lemma ZInputParts(id: seq<byte>, pub: Affine)
    ensures var z, n := ZInput(id, pub), |id|;
      && |z| == 194 + n
      && z[..2] == Entl(n) && z[2..2 + n] == id
      && z[2 + n..34 + n] == A() && z[34 + n..66 + n] == B()
      && z[66 + n..98 + n] == XG() && z[98 + n..130 + n] == YG()
      && z[130 + n..162 + n] == BigEndian(pub.x, HALF) && z[162 + n..] == BigEndian(pub.y, HALF)
  {
    var z := ZInput(id, pub);
    var p1 := Entl(|id|) + id;
    var p2 := p1 + A();
    var p3 := p2 + B();
    var p4 := p3 + XG();
    var p5 := p4 + YG();
    var p6 := p5 + BigEndian(pub.x, HALF);
    PartAt(z, p6, BigEndian(pub.y, HALF));
    PartAt(z, p5, BigEndian(pub.x, HALF));
    PartAt(z, p4, YG());
    PartAt(z, p3, XG());
    PartAt(z, p2, B());
    PartAt(z, p1, A());
    PartAt(z, Entl(|id|), id);
    assert z[..2] == Entl(|id|);
  }

  lemma HighWordsOfA()
    ensures Quads(A(), 0, 0xfffffffe, 0xffffffff, 0xffffffff, 0xffffffff)
  {
  }

  lemma LowWordsOfA()
    ensures Quads(A(), 16, 0xffffffff, 0x00000000, 0xffffffff, 0xfffffffc)
  {
  }

  lemma ValueOfA()
    ensures FromBigEndian(A()) == 0xfffffffe_ffffffff_ffffffff_ffffffff_ffffffff_00000000_ffffffff_fffffffc
  {
    HighWordsOfA();
    LowWordsOfA();
    FromQuads(A(), 0xfffffffe, 0xffffffff, 0xffffffff, 0xffffffff,
              0xffffffff, 0x00000000, 0xffffffff, 0xfffffffc, 0xfffffffe_ffffffff_ffffffff_ffffffff);
  }

  lemma HighWordsOfB()
    ensures Quads(B(), 0, 0x28e9fa9e, 0x9d9f5e34, 0x4d5a9e4b, 0xcf6509a7)
  {
  }

  lemma LowWordsOfB()
    ensures Quads(B(), 16, 0xf39789f5, 0x15ab8f92, 0xddbcbd41, 0x4d940e93)
  {
  }

  lemma ValueOfB()
    ensures FromBigEndian(B()) == 0x28e9fa9e_9d9f5e34_4d5a9e4b_cf6509a7_f39789f5_15ab8f92_ddbcbd41_4d940e93
  {
    HighWordsOfB();
    LowWordsOfB();
    FromQuads(B(), 0x28e9fa9e, 0x9d9f5e34, 0x4d5a9e4b, 0xcf6509a7,
              0xf39789f5, 0x15ab8f92, 0xddbcbd41, 0x4d940e93, 0x28e9fa9e_9d9f5e34_4d5a9e4b_cf6509a7);
  }

  lemma HighWordsOfXG()
    ensures Quads(XG(), 0, 0x32c4ae2c, 0x1f198119, 0x5f990446, 0x6a39c994)
  {
  }

  lemma LowWordsOfXG()
    ensures Quads(XG(), 16, 0x8fe30bbf, 0xf2660be1, 0x715a4589, 0x334c74c7)
  {
  }

  lemma ValueOfXG()
    ensures FromBigEndian(XG()) == 0x32c4ae2c_1f198119_5f990446_6a39c994_8fe30bbf_f2660be1_715a4589_334c74c7
  {
    HighWordsOfXG();
    LowWordsOfXG();
    FromQuads(XG(), 0x32c4ae2c, 0x1f198119, 0x5f990446, 0x6a39c994,
              0x8fe30bbf, 0xf2660be1, 0x715a4589, 0x334c74c7, 0x32c4ae2c_1f198119_5f990446_6a39c994);
  }

  lemma HighWordsOfYG()
    ensures Quads(YG(), 0, 0xbc3736a2, 0xf4f6779c, 0x59bdcee3, 0x6b692153)
  {
  }

  lemma LowWordsOfYG()
    ensures Quads(YG(), 16, 0xd0a9877c, 0xc62a4740, 0x02df32e5, 0x2139f0a0)
  {
  }

  lemma ValueOfYG()
    ensures FromBigEndian(YG()) == 0xbc3736a2_f4f6779c_59bdcee3_6b692153_d0a9877c_c62a4740_02df32e5_2139f0a0
  {
    HighWordsOfYG();
    LowWordsOfYG();
    FromQuads(YG(), 0xbc3736a2, 0xf4f6779c, 0x59bdcee3, 0x6b692153,
              0xd0a9877c, 0xc62a4740, 0x02df32e5, 0x2139f0a0, 0xbc3736a2_f4f6779c_59bdcee3_6b692153);
  }

  /** The prime of the curve, 2^256 - 2^224 - 2^96 + 2^64 - 1. */
  const FIELD: int := 0xfffffffe_ffffffff_ffffffff_ffffffff_ffffffff_00000000_ffffffff_ffffffff

  /** y^2 = x^3 + a*x + b modulo the prime. */
  predicate OnCurve(a: int, b: int, x: int, y: int) {
    (y * y - (x * x * x + a * x + b)) % FIELD == 0
  }

  lemma BasePointOnCurve()
    ensures OnCurve(0xfffffffe_ffffffff_ffffffff_ffffffff_ffffffff_00000000_ffffffff_fffffffc,
                    0x28e9fa9e_9d9f5e34_4d5a9e4b_cf6509a7_f39789f5_15ab8f92_ddbcbd41_4d940e93,
                    0x32c4ae2c_1f198119_5f990446_6a39c994_8fe30bbf_f2660be1_715a4589_334c74c7,
                    0xbc3736a2_f4f6779c_59bdcee3_6b692153_d0a9877c_c62a4740_02df32e5_2139f0a0)
  {
  }

  /**
   * The string that is hashed to Z, by offsets: the length of the identity in bits modulo 2^16, the
   * identity, and at the end the public key ...
   */
  lemma ZInputHoldsIdentity(id: seq<byte>, pub: Affine)
    requires FitsField(pub)
    ensures var z, n := ZInput(id, pub), |id|;
      && |z| == 194 + n
      && FromBigEndian(z[..2]) == 8 * n % 0x1_0000 && z[2..2 + n] == id
      && FromBigEndian(z[130 + n..162 + n]) == pub.x && FromBigEndian(z[162 + n..]) == pub.y
  {
    ZInputParts(id, pub);
    EntlIsLength(|id|);
    BigEndianRoundTrip(pub.x, HALF);
    BigEndianRoundTrip(pub.y, HALF);
  }

  /** ... and between them the coefficients of the curve and the coordinates of its base point. */
  lemma ZInputHoldsCurve(id: seq<byte>, pub: Affine)
    ensures var z, n := ZInput(id, pub), |id|;
      && |z| == 194 + n
      && var a, b := FromBigEndian(z[2 + n..34 + n]), FromBigEndian(z[34 + n..66 + n]);
      var x, y := FromBigEndian(z[66 + n..98 + n]), FromBigEndian(z[98 + n..130 + n]);
      && a == FIELD - 3 && OnCurve(a, b, x, y)
      && b == 0x28e9fa9e_9d9f5e34_4d5a9e4b_cf6509a7_f39789f5_15ab8f92_ddbcbd41_4d940e93
      && x == 0x32c4ae2c_1f198119_5f990446_6a39c994_8fe30bbf_f2660be1_715a4589_334c74c7
  {
    ZInputParts(id, pub);
    ValueOfA();
    ValueOfB();
    ValueOfXG();
    ValueOfYG();
    BasePointOnCurve();
  }

  function Digest(suite: Suite, msg: seq<byte>, id: seq<byte>, pub: Affine): seq<byte> {
    suite.sm3(suite.sm3(ZInput(id, pub)) + msg)
  }

  predicate FitsField(pub: Affine) { pub.x < Pow256(HALF) && pub.y < Pow256(HALF) }

  /** The hash context: Init, any number of Updates, Final. */
  class HashState {
    var absorbed: seq<byte>

    constructor ()
      ensures absorbed == []
    {
      absorbed := [];
    }

    method Update(data: seq<byte>)
      modifies this
      ensures absorbed == old(absorbed) + data
    {
      absorbed := absorbed + data;
    }
  }

  /** hash_digest_z: status 0 and Z, or a negative status when a coordinate does not fit. */
  method HashDigestZ(suite: Suite, id: seq<byte>, pub: Affine) returns (ret: int, z: seq<byte>)
    ensures ret == 0 <==> FitsField(pub)
    ensures ret == 0 ==> z == suite.sm3(ZInput(id, pub))
    ensures ret == -1 <==> pub.x >= Pow256(HALF)
    ensures ret == -2 <==> pub.x < Pow256(HALF) && pub.y >= Pow256(HALF)
  {
    z := [];
    if pub.x >= Pow256(HALF) { return -1, z; }
    var xA := BigEndian(pub.x, HALF);
    if pub.y >= Pow256(HALF) { return -2, z; }
    var yA := BigEndian(pub.y, HALF);
    var state := new HashState();
    state.Update(Entl(|id|));
    assert state.absorbed == Entl(|id|);
    state.Update(id);
    state.Update(A());
    state.Update(B());
    state.Update(XG());
    state.Update(YG());
    state.Update(xA);
    state.Update(yA);
    z := suite.sm3(state.absorbed);
    ret := 0;
  }

  /** hash_digest_with_preprocess: the digest of Z || M. */
  method HashDigest(suite: Suite, msg: seq<byte>, id: seq<byte>, pub: Affine) returns (ret: int, digest: seq<byte>)
    ensures ret == 0 <==> FitsField(pub)
    ensures ret == 0 ==> digest == suite.sm3(suite.sm3(ZInput(id, pub)) + msg) == Digest(suite, msg, id, pub)
    ensures ret != 0 ==> ret == -1
  {
    var z;
    ret, z := HashDigestZ(suite, id, pub);
    if ret != 0 { return -1, []; }
    var state := new HashState();
    state.Update(z);
    state.Update(msg);
    digest := suite.sm3(state.absorbed);
    assert [] + z == z;
  }

  /** The signature over msg with the key and ephemeral key, computed as sm2_do_sign does. */
  function Signature(suite: Suite, key: nat, ephemeral: nat, id: seq<byte>, msg: seq<byte>): Affine {
    suite.sign(FromBigEndian(Digest(suite, msg, id, suite.publicKey(key))), key, ephemeral)
  }

  /** sm2_do_sign: it recomputes the public key from the private one. */
  method DoSign(suite: Suite, key: nat, ephemeral: nat, id: seq<byte>, msg: seq<byte>) returns (ret: int, sig: Affine)
    ensures ret == 0 <==> FitsField(suite.publicKey(key))
    ensures ret == 0 ==> sig == Signature(suite, key, ephemeral, id, msg)
    ensures ret == 0 ==> var z := suite.sm3(ZInput(id, suite.publicKey(key)));
      sig == suite.sign(FromBigEndian(suite.sm3(z + msg)), key, ephemeral)
    ensures ret != 0 ==> ret == -11
  {
    sig := Affine(0, 0);
    var pub := suite.publicKey(key);
    var hash;
    ret, hash := HashDigest(suite, msg, id, pub);
    if ret != 0 { return -11, sig; }
    sig := suite.sign(FromBigEndian(hash), key, ephemeral);
  }

  predicate Verifies(suite: Suite, pub: Affine, id: seq<byte>, msg: seq<byte>, sig: Affine) {
    FitsField(pub) && suite.verify(pub, FromBigEndian(Digest(suite, msg, id, pub)), sig)
  }

  /** sm2_do_verify: 0 when the signature is accepted. */
  method DoVerify(suite: Suite, pub: Affine, id: seq<byte>, msg: seq<byte>, sig: Affine) returns (ret: int)
    ensures ret == 0 <==> Verifies(suite, pub, id, msg, sig)
    ensures var digest := suite.sm3(suite.sm3(ZInput(id, pub)) + msg);
      ret == 0 <==> pub.x < Pow256(HALF) && pub.y < Pow256(HALF) && suite.verify(pub, FromBigEndian(digest), sig)
    ensures ret == -5 <==> !FitsField(pub)
    ensures ret == -9 <==> FitsField(pub) && !Verifies(suite, pub, id, msg, sig)
  {
    var hash;
    ret, hash := HashDigest(suite, msg, id, pub);
    if ret != 0 { return -5; }
    if !suite.verify(pub, FromBigEndian(hash), sig) { return -9; }
  }

  /**
   * On an honest exchange the verifier, working from the received octets only, hashes what the
   * signer hashed and accepts.
   */
  lemma HonestSignatureAccepted(suite: Suite, key: nat, ephemeral: nat, id: seq<byte>, msg: seq<byte>)
    requires Correct(suite) && FullWidthPoint(suite.publicKey(key))
    requires FullWidthPoint(Signature(suite, key, ephemeral, id, msg))
    ensures var sig := Signature(suite, key, ephemeral, id, msg);
      var pub := PointFromWire(PointWire(suite.publicKey(key)));
      var received := Affine(FromBigEndian(Wire32(sig.x)), FromBigEndian(Wire32(sig.y)));
      && Digest(suite, msg, id, pub) == Digest(suite, msg, id, suite.publicKey(key))
      && Verifies(suite, pub, id, msg, received)
  {
    var sig := Signature(suite, key, ephemeral, id, msg);
    PointRoundTrip(suite.publicKey(key));
    WireRoundTrip(sig.x);
    WireRoundTrip(sig.y);
    SignatureVerifies(suite, key, ephemeral, id, msg);
  }

  lemma FullWidthFits(p: Affine)
    requires FullWidthPoint(p)
    ensures FitsField(p)
  {
    WireWidth(p.x);
    WireWidth(p.y);
  }

  lemma SignatureVerifies(suite: Suite, key: nat, ephemeral: nat, id: seq<byte>, msg: seq<byte>)
    requires Correct(suite) && FullWidthPoint(suite.publicKey(key))
    requires FullWidthPoint(Signature(suite, key, ephemeral, id, msg))
    ensures Verifies(suite, suite.publicKey(key), id, msg, Signature(suite, key, ephemeral, id, msg))
  {
    FullWidthFits(suite.publicKey(key));
  }
}
