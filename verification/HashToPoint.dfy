/**
 * Hashing an element to a curve point by trying one 32-bit header after another
 * (src/util/gmCrypto/crypto.cpp, oaid_hashpoint).
 */
module HashToPoint {
  import opened Bytes
  import opened NumTheory
  import opened Wrappers

  const FIRST_HEADER: int := 0x78903473
  const HEADER_STEP: int := 0xf387
  // HEADER_STEP is odd, so it has an inverse modulo 2^32; this is it.
  const STEP_INVERSE: int := 3512623671

  /** ippsGFpECSetPointHash_rmf: some (header, octets) pairs give a point, others fail. */
  type PointHash<P> = (int, seq<byte>) -> Option<P>

  /** The header of try number k, as an Ipp32u that wraps. */
  function Header(k: nat): (h: int)
    ensures 0 <= h < TWO_32
  {
    (FIRST_HEADER + k * HEADER_STEP) % TWO_32
  }

  /** One more step of the loop is one more wrapping addition. */
  lemma HeaderNext(k: nat)
    ensures Header(k + 1) == (Header(k) + HEADER_STEP) % TWO_32
  {
    var x := FIRST_HEADER + k * HEADER_STEP;
    assert x == TWO_32 * (x / TWO_32) + x % TWO_32;
    var y := x % TWO_32 + HEADER_STEP;
    assert x + HEADER_STEP == TWO_32 * (x / TWO_32 + y / TWO_32) + y % TWO_32;
    DivModUnique(x + HEADER_STEP, TWO_32, x / TWO_32 + y / TWO_32, y % TWO_32);
  }

  /** The only try, among the first 2^32, that uses header h. */
  function TryOf(h: int): (k: nat)
    ensures k < TWO_32
  {
    (h - FIRST_HEADER) * STEP_INVERSE % TWO_32
  }

  /** Every 32-bit value is the header of some try among the first 2^32 ... */
  lemma EveryHeaderIsTried(h: int)
    requires 0 <= h < TWO_32
    ensures Header(TryOf(h)) == h
  {
    var d := h - FIRST_HEADER;
    var k := TryOf(h);
    var q := d * STEP_INVERSE / TWO_32;
    assert d * STEP_INVERSE == TWO_32 * q + k;
    assert STEP_INVERSE * HEADER_STEP == TWO_32 * (STEP_INVERSE * HEADER_STEP / TWO_32) + 1;
    var w := STEP_INVERSE * HEADER_STEP / TWO_32;
    assert k * HEADER_STEP == d * (TWO_32 * w + 1) - TWO_32 * q * HEADER_STEP;
    assert FIRST_HEADER + k * HEADER_STEP == TWO_32 * (d * w - q * HEADER_STEP) + h;
    DivModUnique(FIRST_HEADER + k * HEADER_STEP, TWO_32, d * w - q * HEADER_STEP, h);
  }

  /** ... and of only one of them: the sequence is a full cycle. */
  lemma NoHeaderTwice(k: nat)
    requires k < TWO_32
    ensures TryOf(Header(k)) == k
  {
    var x := FIRST_HEADER + k * HEADER_STEP;
    var h := Header(k);
    var q := x / TWO_32;
    assert x == TWO_32 * q + h;
    var w := STEP_INVERSE * HEADER_STEP / TWO_32;
    assert STEP_INVERSE * HEADER_STEP == TWO_32 * w + 1;
    assert (h - FIRST_HEADER) * STEP_INVERSE == k * (TWO_32 * w + 1) - TWO_32 * q * STEP_INVERSE;
    assert (h - FIRST_HEADER) * STEP_INVERSE == TWO_32 * (k * w - q * STEP_INVERSE) + k;
    DivModUnique((h - FIRST_HEADER) * STEP_INVERSE, TWO_32, k * w - q * STEP_INVERSE, k);
  }

  /** What tries k, k + 1, ... up to the end of the first cycle find. */
  function HashFrom<P>(ph: PointHash<P>, e: seq<byte>, k: nat): Option<P>
    decreases TWO_32 - k
  {
    if k >= TWO_32 then None
    else if ph(Header(k), e).Some? then ph(Header(k), e)
    else HashFrom(ph, e, k + 1)
  }

  /** The point of an element, None when no header gives one. */
  function HashPoint<P>(ph: PointHash<P>, e: seq<byte>): Option<P> {
    HashFrom(ph, e, 0)
  }

  ghost predicate SomeHeaderWorks<P>(ph: PointHash<P>, e: seq<byte>) {
    exists h :: 0 <= h < TWO_32 && ph(h, e).Some?
  }

  lemma {:induction false} HashFromNone<P>(ph: PointHash<P>, e: seq<byte>, k: nat, j: nat)
    requires HashFrom(ph, e, k) == None && k <= j < TWO_32
    ensures ph(Header(j), e) == None
    decreases j - k
  {
    if k == j {
    } else {
      HashFromNone(ph, e, k + 1, j);
    }
  }

  lemma {:induction false} HashFromSome<P>(ph: PointHash<P>, e: seq<byte>, k: nat) returns (j: nat)
    requires HashFrom(ph, e, k).Some?
    ensures k <= j < TWO_32 && HashFrom(ph, e, k) == ph(Header(j), e)
    ensures forall i: nat :: k <= i < j ==> ph(Header(i), e) == None
    decreases TWO_32 - k
  {
    if ph(Header(k), e).Some? {
      j := k;
    } else {
      j := HashFromSome(ph, e, k + 1);
    }
  }

  /** Without such a header no try ever succeeds: the loop of the source would not end. */
  lemma OtherwiseTheLoopNeverEnds<P>(ph: PointHash<P>, e: seq<byte>, k: nat)
    ensures !SomeHeaderWorks(ph, e) ==> ph(Header(k), e) == None
  {
    if ph(Header(k), e).Some? {
      assert SomeHeaderWorks(ph, e);
    }
  }

  /**
   * The search finds a point within 2^32 tries exactly when any 32-bit header gives one; otherwise
   * no try, however late, succeeds.
   */
  lemma SearchIsComplete<P>(ph: PointHash<P>, e: seq<byte>)
    ensures HashPoint(ph, e).Some? <==> SomeHeaderWorks(ph, e)
    ensures HashPoint(ph, e).None? <==> forall k: nat :: ph(Header(k), e) == None
  {
    if HashPoint(ph, e).None? {
      forall k: nat ensures SomeHeaderWorks(ph, e) || ph(Header(k), e) == None {
        OtherwiseTheLoopNeverEnds(ph, e, k);
      }
    }
    if HashPoint(ph, e).Some? {
      var j := HashFromSome(ph, e, 0);
      assert ph(Header(j), e).Some?;
    } else if SomeHeaderWorks(ph, e) {
      var h :| 0 <= h < TWO_32 && ph(h, e).Some?;
      EveryHeaderIsTried(h);
      HashFromNone(ph, e, 0, TryOf(h));
      assert false;
    }
  }

  /** What the library answers to try number k of the source's loop. */
  function Attempt<P>(ph: PointHash<P>, e: seq<byte>, k: nat): Option<P> {
    ph((0x7890_3473 + k * 0xf387) % 0x1_0000_0000, e)
  }

  /** The answer to the first try that succeeds. */
  ghost predicate FirstAnswer<P>(ph: PointHash<P>, e: seq<byte>, p: P) {
    exists k: nat :: Attempt(ph, e, k) == Some(p) && forall j: nat :: j < k ==> Attempt(ph, e, j) == None
  }

  /** The tries repeat after 2^32, so the first success is among the first 2^32. */
  lemma FirstIsEarly<P>(ph: PointHash<P>, e: seq<byte>, k: nat)
    requires Attempt(ph, e, k).Some? && forall j: nat :: j < k ==> Attempt(ph, e, j) == None
    ensures k < TWO_32
  {
    EveryHeaderIsTried(Header(k));
    var j := TryOf(Header(k));
    assert Attempt(ph, e, j) == ph(Header(j), e) == Attempt(ph, e, k);
  }

  lemma {:induction false} HashFromSkips<P>(ph: PointHash<P>, e: seq<byte>, i: nat, k: nat)
    requires i <= k < TWO_32 && forall j: nat :: j < k ==> Attempt(ph, e, j) == None
    ensures HashFrom(ph, e, i) == HashFrom(ph, e, k)
    decreases k - i
  {
    if i == k {
    } else {
      assert Attempt(ph, e, i) == ph(Header(i), e);
      HashFromSkips(ph, e, i + 1, k);
    }
  }

  /** The point of an element is the answer to the first try that succeeds, and to no other. */
  lemma FirstAnswerIsFound<P(!new)>(ph: PointHash<P>, e: seq<byte>, p: P)
    ensures HashPoint(ph, e) == Some(p) <==> FirstAnswer(ph, e, p)
  {
    if HashPoint(ph, e) == Some(p) {
      var k := HashFromSome(ph, e, 0);
      assert Attempt(ph, e, k) == Some(p);
      forall j: nat | j < k ensures Attempt(ph, e, j) == None {
        assert ph(Header(j), e) == None;
      }
    }
    if FirstAnswer(ph, e, p) {
      var k: nat :| Attempt(ph, e, k) == Some(p) && forall j: nat :: j < k ==> Attempt(ph, e, j) == None;
      FirstIsEarly(ph, e, k);
      HashFromSkips(ph, e, 0, k);
      assert Attempt(ph, e, k) == ph(Header(k), e);
    }
  }

  /** oaid_hashpoint: the buffer is longer than the element when len says so. */
  method OaidHashPoint<P(!new)>(ph: PointHash<P>, oaid: seq<byte>, len: nat) returns (p: P)
    requires len <= |oaid| && SomeHeaderWorks(ph, oaid[..len])
    ensures HashPoint(ph, oaid[..len]) == Some(p) && FirstAnswer(ph, oaid[..len], p)
  {
    var hdr := FIRST_HEADER;
    ghost var k := 0;
    SearchIsComplete(ph, oaid[..len]);
    while ph(hdr, oaid[..len]) == None
      invariant hdr == Header(k) && k < TWO_32
      invariant HashPoint(ph, oaid[..len]) == HashFrom(ph, oaid[..len], k)
      invariant HashPoint(ph, oaid[..len]).Some?
      decreases TWO_32 - k
    {
      HeaderNext(k);
      hdr := (hdr + HEADER_STEP) % TWO_32;
      k := k + 1;
    }
    p := ph(hdr, oaid[..len]).value;
    FirstAnswerIsFound(ph, oaid[..len], p);
  }
}
