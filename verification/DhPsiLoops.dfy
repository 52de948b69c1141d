/** The loops of dh_psi: blinding, packing into flat buffers, and the client's last steps. */
module DhPsiLoops {
  import opened Bytes
  import opened Memory
  import opened Group
  import opened HashToPoint
  import opened Transport
  import opened DhPsi
  import opened HonestRun
  import opened Permutations
  import opened HashJoin
  import opened Intersection
  import opened CopyOut
  import opened Psi

  /** These octets encode the scalar times the point that the library gives first for the element. */
  ghost predicate BlindingOf<P(!new)>(cr: Crypto<P>, k: nat, e: seq<byte>, octets: seq<byte>) {
    exists p :: FirstAnswer(cr.hashTo, e, p) && octets == cr.enc(Mul(cr.group, k, p))
  }

  lemma BlindedIsBlinding<P(!new)>(cr: Crypto<P>, k: nat, e: seq<byte>)
    requires SomeHeaderWorks(cr.hashTo, e)
    ensures BlindingOf(cr, k, e, Blinded(cr, k, e))
  {
    SearchIsComplete(cr.hashTo, e);
    FirstAnswerIsFound(cr.hashTo, e, HashedPoint(cr, e));
  }

  /** GmulA: each element hashed to a point, multiplied by the scalar, and encoded. */
  method BlindElements<P(!new)>(cr: Crypto<P>, randC: nat, elebytelens: seq<nat>, elements: seq<seq<byte>>)
      returns (gmulA: array<seq<byte>>)
    requires |elements| == |elebytelens| && forall i :: 0 <= i < |elements| ==> elebytelens[i] <= |elements[i]|
    requires forall i :: 0 <= i < |elements| ==> SomeHeaderWorks(cr.hashTo, elements[i][..elebytelens[i]])
    ensures fresh(gmulA) && gmulA[..] == BlindAll(cr, randC, ElementsOf(elebytelens, elements))
    ensures forall i :: 0 <= i < |elements| ==> BlindingOf(cr, randC, elements[i][..elebytelens[i]], gmulA[i])
  {
    gmulA := new seq<byte>[|elements|](_ => []);
    ghost var blinded := BlindAll(cr, randC, ElementsOf(elebytelens, elements));
    var i := 0;
    while i < |elements|
      invariant i <= |elements| && forall k :: 0 <= k < i ==> gmulA[k] == blinded[k]
    {
      var point := OaidHashPoint(cr.hashTo, elements[i], elebytelens[i]);
      assert point == HashedPoint(cr, Element(elebytelens, elements, i));
      gmulA[i] := cr.enc(Mul(cr.group, randC, point));
      i := i + 1;
    }
    assert gmulA[..] == blinded;
    forall k | 0 <= k < |elements| ensures BlindingOf(cr, randC, elements[k][..elebytelens[k]], blinded[k]) {
      BlindedIsBlinding(cr, randC, elements[k][..elebytelens[k]]);
    }
  }

  lemma FlattenNext(records: seq<seq<byte>>, i: nat)
    requires i < |records|
    ensures Flatten(records[..i + 1]) == Flatten(records[..i]) + records[i]
  {
    assert records[..i + 1][..i] == records[..i];
  }

  /** sendBuffer: the records one behind the other, filled at a running index. */
  method Pack(records: seq<seq<byte>>) returns (sendBuffer: array<byte>)
    requires AllRecords(records)
    ensures fresh(sendBuffer) && sendBuffer[..] == Flatten(records)
  {
    sendBuffer := new byte[|records| * POINT](_ => 0);
    var i, index := 0, 0;
    while i < |records|
      invariant i <= |records| && index == POINT * i
      invariant sendBuffer[..index] == Flatten(records[..i])
    {
      CopyInto(sendBuffer, index, records[i]);
      FlattenNext(records, i);
      assert sendBuffer[..index + POINT] == sendBuffer[..index] + records[i];
      i, index := i + 1, index + POINT;
    }
    assert records[..i] == records && sendBuffer[..index] == sendBuffer[..];
  }

  /** GmulB: the records cut out of recvBuffer. */
  method CutRecords(recvBuffer: seq<byte>, pneles: nat) returns (gmulB: array<seq<byte>>)
    requires POINT * pneles <= |recvBuffer|
    ensures fresh(gmulB) && gmulB[..] == Unpack(recvBuffer, pneles)
  {
    gmulB := new seq<byte>[pneles](_ => []);
    var i, index := 0, 0;
    while i < pneles
      invariant i <= pneles && index == POINT * i
      invariant forall k :: 0 <= k < i ==> gmulB[k] == Record(recvBuffer, k)
    {
      gmulB[i] := recvBuffer[index..index + POINT];
      i, index := i + 1, index + POINT;
    }
  }

  /** GmulBmulA: each of these records multiplied by the scalar. */
  method ReblindRecords<P>(cr: Crypto<P>, randC: nat, recvBuffer: seq<byte>, pneles: nat)
      returns (gmulBmulA: array<seq<byte>>)
    requires POINT * pneles <= |recvBuffer|
    ensures fresh(gmulBmulA) && gmulBmulA[..] == ReblindAll(cr, randC, Unpack(recvBuffer, pneles))
  {
    var cut := CutRecords(recvBuffer, pneles);
    var gmulB := cut[..];
    ghost var reblinded := ReblindAll(cr, randC, gmulB);
    gmulBmulA := new seq<byte>[pneles](_ => []);
    var i := 0;
    while i < pneles
      invariant i <= pneles && gmulBmulA[..i] == reblinded[..i]
    {
      gmulBmulA[i] := cr.enc(Mul(cr.group, randC, cr.dec(gmulB[i])));
      assert gmulBmulA[..i + 1] == gmulBmulA[..i] + [reblinded[i]];
      i := i + 1;
    }
  }

  lemma SliceOfSlice(buf: seq<byte>, lo: nat, hi: nat, k: nat)
    requires lo + k <= hi <= |buf|
    ensures buf[lo..hi][..k] == buf[lo..lo + k]
  {
  }

  lemma KeyOfRecord(buf: seq<byte>, i: nat)
    requires POINT * i + POINT <= |buf|
    ensures i * POINT + POINT <= |buf| && KeyOctets(buf, POINT, i) == Record(buf, i)[..8]
  {
    assert Min(POINT, 8) == 8;
    SliceOfSlice(buf, POINT * i, POINT * i + POINT, 8);
  }

  /** The keys that find_intersection reads from a flat buffer are those of its records. */
  lemma {:induction false} CodesOfRecords(hash: KeyHash, buf: seq<byte>, n: nat)
    requires POINT * n <= |buf|
    ensures Codes(hash, buf, POINT, n) == MapCodes(RecordKey(hash), Unpack(buf, n))
  {
    if n == 0 {
    } else {
      CodesOfRecords(hash, buf, n - 1);
      KeyOfRecord(buf, n - 1);
      assert Unpack(buf, n) == Unpack(buf, n - 1) + [Record(buf, n - 1)];
    }
  }

  /** The reference outcome, from what find_intersection is specified to find. */
  lemma OutcomeOfMatches(hash: KeyHash, xs: seq<seq<byte>>, buf: seq<byte>, pbuf: seq<byte>, pneles: nat)
    requires POINT * |xs| <= |buf| && POINT * pneles <= |pbuf|
    ensures var inv := InversePerm(Identity(|xs|));
      var found := Join(Codes(hash, buf, POINT, |xs|), Codes(hash, pbuf, POINT, pneles), inv);
      && IsPermutation(Identity(|xs|)) && Below(found, |xs|) && Below(Sorted(found), |xs|)
      && Joined(hash, xs, Unpack(buf, |xs|), Unpack(pbuf, pneles))
         == if |found| <= Min(|xs|, pneles) then Result(Pick(xs, Sorted(found))) else JoinAborted
  {
    IdentityInverse(|xs|);
    CodesOfRecords(hash, buf, |xs|);
    CodesOfRecords(hash, pbuf, pneles);
    JoinBelow(Codes(hash, buf, POINT, |xs|), Codes(hash, pbuf, POINT, pneles), Identity(|xs|));
    SortedBelow(Join(Codes(hash, buf, POINT, |xs|), Codes(hash, pbuf, POINT, pneles), Identity(|xs|)), |xs|);
  }

  lemma PickLengths(lens: seq<nat>, inputs: seq<seq<byte>>, at: seq<nat>)
    requires |inputs| == |lens| && forall i :: 0 <= i < |lens| ==> lens[i] <= |inputs[i]|
    requires Below(at, |inputs|)
    ensures forall i :: 0 <= i < |at| ==> Pick(lens, at)[i] == |Pick(ElementsOf(lens, inputs), at)[i]|
  {
  }

  /**
   * The client's last steps on the two doubly blinded buffers. The arrays are as large as the
   * source allocates them; perm is the identity.
   */
  method ClientJoin(hash: KeyHash, elebytelens: seq<nat>, elements: seq<seq<byte>>, recvBuffer2: seq<byte>,
                    sendBuffer2: seq<byte>, pneles: nat)
      returns (passed: bool, result: array<seq<byte>>, resbytelens: array<nat>)
    requires |elements| == |elebytelens| && forall i :: 0 <= i < |elements| ==> elebytelens[i] <= |elements[i]|
    requires |recvBuffer2| == POINT * |elements| && |sendBuffer2| == POINT * pneles
    ensures var xs := ElementsOf(elebytelens, elements);
      var outcome := Joined(hash, xs, Unpack(recvBuffer2, |elements|), Unpack(sendBuffer2, pneles));
      && (passed <==> outcome.Result?)
      && (passed ==> result[..] == outcome.elements && resbytelens.Length == result.Length)
      && (passed ==> forall i :: 0 <= i < result.Length ==> resbytelens[i] == |result[i]|)
  {
    var matches := new nat[4 * Min(|elements|, pneles)](_ => 0);
    ghost var xs := ElementsOf(elebytelens, elements);
    OutcomeOfMatches(hash, xs, recvBuffer2, sendBuffer2, pneles);
    var size;
    passed, size := FindIntersection(hash, recvBuffer2, |elements|, sendBuffer2, pneles, POINT,
                                     Identity(|elements|), matches);
    if passed {
      ghost var at := Sorted(matches[..size]);
      result, resbytelens := CreateResult(elebytelens, elements, matches, size);
      PickLengths(elebytelens, elements, at);
    } else {
      result := new seq<byte>[0](_ => []);
      resbytelens := new nat[0](_ => 0);
    }
  }
}
