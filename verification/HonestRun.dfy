/** The programs of two honest parties follow scripts that agree with each other. */
module HonestRun {
  import opened Bytes
  import opened Group
  import opened Transport
  import opened Progress
  import opened Sm2
  import opened DhPsi

  /* ---- Sizes of the lists ---- */

  ghost predicate AllRecords(records: seq<seq<byte>>) {
    forall i :: 0 <= i < |records| ==> |records[i]| == POINT
  }

  lemma {:induction false} FlattenSize(records: seq<seq<byte>>)
    requires AllRecords(records)
    ensures |Flatten(records)| == POINT * |records|
  {
    if records == [] {
    } else {
      FlattenSize(records[..|records| - 1]);
    }
  }

  /** Packing records into a flat buffer and cutting it again gives the records back. */
  lemma {:induction false} UnpackFlatten(records: seq<seq<byte>>)
    requires AllRecords(records)
    ensures |Flatten(records)| == POINT * |records|
    ensures Unpack(Flatten(records), |records|) == records
  {
    FlattenSize(records);
    if records == [] {
    } else {
      var n := |records| - 1;
      var init, buf := records[..n], Flatten(records);
      UnpackFlatten(init);
      forall i | 0 <= i < |records| ensures Record(buf, i) == records[i] {
        if i < n {
          assert Record(buf, i) == Record(Flatten(init), i);
          assert Unpack(Flatten(init), n)[i] == init[i];
        }
      }
    }
  }

  lemma BlindedSize<P(!new)>(cr: Crypto<P>, me: Input, e: seq<byte>)
    requires GoodCrypto(cr) && GoodInput(cr, me) && e in me.elements
    ensures |Blinded(cr, me.scalar, e)| == POINT
    ensures cr.dec(Blinded(cr, me.scalar, e)) == Mul(cr.group, me.scalar, HashedPoint(cr, e))
  {
    BlindingNonZero(cr.group, cr.order, me.scalar, HashedPoint(cr, e));
  }

  lemma BlindedListSize<P(!new)>(cr: Crypto<P>, me: Input)
    requires GoodCrypto(cr) && GoodInput(cr, me)
    ensures AllRecords(BlindAll(cr, me.scalar, me.elements))
    ensures |BlindedList(cr, me)| == POINT * |me.elements|
    ensures Unpack(BlindedList(cr, me), |me.elements|) == BlindAll(cr, me.scalar, me.elements)
  {
    var records := BlindAll(cr, me.scalar, me.elements);
    forall i | 0 <= i < |records| ensures |records[i]| == POINT {
      BlindedSize(cr, me, me.elements[i]);
    }
    UnpackFlatten(records);
  }

  /** Record i of a list that both have blinded: k times the owner's scalar times the point. */
  lemma ReblindedRecord<P(!new)>(cr: Crypto<P>, k: nat, owner: Input, e: seq<byte>)
    requires GoodCrypto(cr) && GoodInput(cr, owner) && k % cr.order != 0 && e in owner.elements
    ensures var p := Mul(cr.group, k, Mul(cr.group, owner.scalar, HashedPoint(cr, e)));
      && Reblinded(cr, k, Blinded(cr, owner.scalar, e)) == cr.enc(p)
      && p != cr.group.zero && |cr.enc(p)| == POINT
  {
    BlindedSize(cr, owner, e);
    BlindingNonZero(cr.group, cr.order, owner.scalar, HashedPoint(cr, e));
    BlindingNonZero(cr.group, cr.order, k, Mul(cr.group, owner.scalar, HashedPoint(cr, e)));
  }

  /** The elements of owner, blinded by owner and then with k. */
  function TwiceBlinded<P>(cr: Crypto<P>, k: nat, owner: Input): (r: seq<seq<byte>>)
    ensures |r| == |owner.elements|
  {
    ReblindAll(cr, k, BlindAll(cr, owner.scalar, owner.elements))
  }

  lemma ReblindedListSize<P(!new)>(cr: Crypto<P>, me: Input, owner: Input)
    requires GoodCrypto(cr) && GoodInput(cr, me) && GoodInput(cr, owner)
    ensures POINT * |owner.elements| <= |BlindedList(cr, owner)|
    ensures var list2 := ReblindedList(cr, me, BlindedList(cr, owner), |owner.elements|);
      && list2 == Flatten(TwiceBlinded(cr, me.scalar, owner))
      && |list2| == POINT * |owner.elements|
      && Unpack(list2, |owner.elements|) == TwiceBlinded(cr, me.scalar, owner)
  {
    BlindedListSize(cr, owner);
    var records := TwiceBlinded(cr, me.scalar, owner);
    forall i | 0 <= i < |records| ensures |records[i]| == POINT {
      ReblindedRecord(cr, me.scalar, owner, owner.elements[i]);
    }
    UnpackFlatten(records);
  }

  /* ---- What the scripts send and receive ---- */

  lemma {:induction false} LensShape(ops: Script, lo: nat, hi: nat, table: seq<nat>, k: nat)
    requires k <= |ops| && lo <= hi <= |ops| && |table| == hi - lo
    requires forall i :: 0 <= i < |ops| ==> (HasIn(ops[i]) <==> lo <= i < hi)
    requires forall i :: lo <= i < hi ==> InLen(ops[i]) == table[i - lo]
    ensures Lens(ops, k) == table[..if k <= lo then 0 else if k <= hi then k - lo else hi - lo]
  {
    if k == 0 {
    } else {
      LensShape(ops, lo, hi, table, k - 1);
    }
  }

  /** Operations 0..4 and 8..hi send. */
  lemma {:induction false} SendsShape(ops: Script, hi: nat, ms: seq<Msg>, k: nat)
    requires k <= |ops| && 8 <= hi <= |ops| && |ms| == hi - 4
    requires forall i :: 0 <= i < |ops| ==> (HasOut(ops[i]) <==> i < 4 || 8 <= i < hi)
    requires forall i :: 0 <= i < 4 ==> Out(ops[i]) == ms[i]
    requires forall i :: 8 <= i < hi ==> Out(ops[i]) == ms[i - 4]
    ensures Sends(ops, k) == ms[..if k <= 4 then k else if k <= 8 then 4 else if k <= hi then k - 4 else hi - 4]
  {
    if k == 0 {
    } else {
      SendsShape(ops, hi, ms, k - 1);
    }
  }

  /** Fewer than 2^25 elements each: the lengths in octets fit into 32 bits. */
  ghost predicate Small(client: Input, server: Input) {
    |client.elements| < 0x200_0000 && |server.elements| < 0x200_0000
  }

  lemma NineParts(params: seq<Msg>, key: Msg, list: Msg, sigX: Msg, sigY: Msg, id: Msg)
    requires |params| == 4
    ensures var ms := Nine(params, key, list, sigX, sigY, id);
      && ms[..4] == params
      && ms[0] == params[0] && ms[1] == params[1] && ms[2] == params[2] && ms[3] == params[3]
      && ms[4] == key && ms[5] == list && ms[6] == sigX && ms[7] == sigY && ms[8] == id
  {
  }

  lemma ParameterParts(me: Input)
    ensures var ms := Parameters(me);
      && ms[0] == Le32(U32(|me.elements|)) && ms[1] == Le32(U32(me.bytelen))
      && ms[2] == Le32(U32(me.secparam)) && ms[3] == Le32(U32(me.nthreads))
  {
  }

  lemma FirstMessageParts<P>(cr: Crypto<P>, me: Input)
    ensures var ms, params, list := FirstMessages(cr, me), Parameters(me), BlindedList(cr, me);
      var sig := SignatureOf(cr, me, me.ephemeral, list);
      && ms[..4] == params
      && ms[0] == params[0] && ms[1] == params[1] && ms[2] == params[2] && ms[3] == params[3]
      && ms[4] == PointWire(cr.suite.publicKey(me.privateKey)) && ms[5] == list
      && ms[6] == Wire32(sig.x) && ms[7] == Wire32(sig.y) && ms[8] == UserId(me)
  {
    var list := BlindedList(cr, me);
    var sig := SignatureOf(cr, me, me.ephemeral, list);
    NineParts(Parameters(me), PointWire(cr.suite.publicKey(me.privateKey)), list,
              Wire32(sig.x), Wire32(sig.y), UserId(me));
  }

  /** The first thirteen operations of either party. */
  function FirstOps<P>(cr: Crypto<P>, me: Input, peers: nat, i: nat): Op
    requires i < 13
  {
    if i < 8 then Exchanging(i, me) else FirstRound(cr, me, peers, i)
  }

  lemma FirstOuts<P>(cr: Crypto<P>, me: Input, peers: nat, i: nat)
    requires i < 13
    ensures var op := FirstOps(cr, me, peers, i);
      && (HasOut(op) <==> i < 4 || 8 <= i)
      && (i < 4 ==> Out(op) == FirstMessages(cr, me)[i])
      && (8 <= i ==> Out(op) == FirstMessages(cr, me)[i - 4])
  {
    if i < 4 {
      ParameterOuts(me, i);
      FirstParameterAt(cr, me, i);
    } else if i < 8 {
      ParameterOuts(me, i);
    } else {
      FirstRoundOut(cr, me, peers, i);
    }
  }

  lemma FirstParameterAt<P>(cr: Crypto<P>, me: Input, i: nat)
    requires i < 4
    ensures FirstMessages(cr, me)[i] == Parameters(me)[i]
  {
    FirstMessageParts(cr, me);
  }

  lemma FirstRoundOut<P>(cr: Crypto<P>, me: Input, peers: nat, i: nat)
    requires 8 <= i < 13
    ensures var op := FirstRound(cr, me, peers, i); HasOut(op) && Out(op) == FirstMessages(cr, me)[i - 4]
  {
    var list := BlindedList(cr, me);
    var sig := SignatureOf(cr, me, me.ephemeral, list);
    SwapOut(Parameters(me), PointWire(cr.suite.publicKey(me.privateKey)), list, Wire32(sig.x), Wire32(sig.y),
            UserId(me), peers, i);
  }

  lemma SwapOut(params: seq<Msg>, key: Msg, list: Msg, sigX: Msg, sigY: Msg, id: Msg, peers: nat, i: nat)
    requires |params| == 4 && 8 <= i < 13
    ensures var op := Swap(key, list, sigX, sigY, id, peers, i);
      HasOut(op) && Out(op) == Nine(params, key, list, sigX, sigY, id)[i - 4]
  {
  }

  lemma ParameterOuts(me: Input, i: nat)
    requires i < 8
    ensures HasOut(Exchanging(i, me)) <==> i < 4
    ensures i < 4 ==> Out(Exchanging(i, me)) == Parameters(me)[i]
  {
  }

  /** The nine lengths of the first round: parameters, key, list, signature and identity. */
  function FirstLens(list: nat): seq<nat> { [4, 4, 4, 4, POINT, list, HALF, HALF, 4] }

  lemma FirstIns<P>(cr: Crypto<P>, me: Input, peers: nat, i: nat)
    requires peers < 0x200_0000 && i < 13
    ensures var op := FirstOps(cr, me, peers, i);
      (HasIn(op) <==> i >= 4) && (i >= 4 ==> InLen(op) == FirstLens(POINT * peers)[i - 4])
  {
  }

  lemma LastOuts<P>(cr: Crypto<P>, server: Input, list2: seq<byte>, i: nat)
    requires 13 <= i < OPERATIONS
    ensures var op := SecondRoundServer(cr, server, list2, i);
      HasOut(op) && !HasIn(op) && Out(op) == LastMessages(cr, server, list2)[i - 13]
  {
  }

  lemma ClientIns<P(!new)>(cr: Crypto<P>, client: Input, server: Input, i: nat)
    requires Small(client, server) && i < OPERATIONS
    ensures var op := ClientScript(cr, client, server)[i];
      && (HasIn(op) <==> i >= 4)
      && (i >= 4 ==> InLen(op) == ClientLens(client, server)[i - 4])
  {
    if i < 13 {
      FirstIns(cr, client, |server.elements|, i);
      assert ClientLens(client, server)[..9] == FirstLens(POINT * |server.elements|);
    }
  }

  lemma ClientOuts<P(!new)>(cr: Crypto<P>, client: Input, server: Input, i: nat)
    requires i < OPERATIONS
    ensures var op := ClientScript(cr, client, server)[i];
      && (HasOut(op) <==> i < 4 || 8 <= i < 13)
      && (i < 4 ==> Out(op) == FirstMessages(cr, client)[i])
      && (8 <= i < 13 ==> Out(op) == FirstMessages(cr, client)[i - 4])
  {
    if i < 13 {
      FirstOuts(cr, client, |server.elements|, i);
      assert ClientScript(cr, client, server)[i] == FirstOps(cr, client, |server.elements|, i);
    }
  }

  lemma ClientShape<P(!new)>(cr: Crypto<P>, client: Input, server: Input, k: nat)
    requires Small(client, server) && k <= OPERATIONS
    ensures var c := ClientScript(cr, client, server);
      && Lens(c, k) == ClientLens(client, server)[..if k <= 4 then 0 else k - 4]
      && Sends(c, k) ==
         FirstMessages(cr, client)[..if k <= 4 then k else if k <= 8 then 4 else if k <= 13 then k - 4 else 9]
  {
    var c := ClientScript(cr, client, server);
    forall i | 0 <= i < OPERATIONS
      ensures (HasIn(c[i]) <==> i >= 4) && (i >= 4 ==> InLen(c[i]) == ClientLens(client, server)[i - 4])
    {
      ClientIns(cr, client, server, i);
    }
    forall i | 0 <= i < OPERATIONS
      ensures (HasOut(c[i]) <==> i < 4 || 8 <= i < 13)
      ensures i < 4 ==> Out(c[i]) == FirstMessages(cr, client)[i]
      ensures 8 <= i < 13 ==> Out(c[i]) == FirstMessages(cr, client)[i - 4]
    {
      ClientOuts(cr, client, server, i);
    }
    LensShape(c, 4, OPERATIONS, ClientLens(client, server), k);
    SendsShape(c, 13, FirstMessages(cr, client), k);
  }

  function ServerMessages<P>(cr: Crypto<P>, client: Input, server: Input): (r: seq<Msg>)
    ensures |r| == 13
  {
    FirstMessages(cr, server) + LastMessages(cr, server, List2(cr, client, server))
  }

  lemma ServerOp<P(!new)>(cr: Crypto<P>, client: Input, server: Input, i: nat)
    requires i < OPERATIONS
    ensures ServerScript(cr, client, server)[i] ==
      if i < 13 then FirstOps(cr, server, |client.elements|, i)
      else SecondRoundServer(cr, server, List2(cr, client, server), i)
  {
  }

  lemma ServerIns<P(!new)>(cr: Crypto<P>, client: Input, server: Input, i: nat)
    requires Small(client, server) && i < OPERATIONS
    ensures var op := ServerScript(cr, client, server)[i];
      && (HasIn(op) <==> 4 <= i < 13)
      && (4 <= i < 13 ==> InLen(op) == ServerLens(client)[i - 4])
  {
    ServerOp(cr, client, server, i);
    if i < 13 {
      FirstIns(cr, server, |client.elements|, i);
      assert ServerLens(client) == FirstLens(POINT * |client.elements|);
    } else {
      LastOuts(cr, server, List2(cr, client, server), i);
    }
  }

  lemma ServerOuts<P(!new)>(cr: Crypto<P>, client: Input, server: Input, i: nat)
    requires i < OPERATIONS
    ensures var op := ServerScript(cr, client, server)[i];
      && (HasOut(op) <==> i < 4 || 8 <= i)
      && (i < 4 ==> Out(op) == ServerMessages(cr, client, server)[i])
      && (8 <= i ==> Out(op) == ServerMessages(cr, client, server)[i - 4])
  {
    ServerOp(cr, client, server, i);
    if i < 13 {
      FirstOuts(cr, server, |client.elements|, i);
    } else {
      LastOuts(cr, server, List2(cr, client, server), i);
    }
  }

  lemma ServerShape<P(!new)>(cr: Crypto<P>, client: Input, server: Input, k: nat)
    requires Small(client, server) && k <= OPERATIONS
    ensures var s := ServerScript(cr, client, server);
      && Lens(s, k) == ServerLens(client)[..if k <= 4 then 0 else if k <= 13 then k - 4 else 9]
      && Sends(s, k) == ServerMessages(cr, client, server)[..if k <= 4 then k else if k <= 8 then 4 else k - 4]
  {
    var s := ServerScript(cr, client, server);
    forall i | 0 <= i < OPERATIONS
      ensures (HasIn(s[i]) <==> 4 <= i < 13) && (4 <= i < 13 ==> InLen(s[i]) == ServerLens(client)[i - 4])
    {
      ServerIns(cr, client, server, i);
    }
    forall i | 0 <= i < OPERATIONS
      ensures (HasOut(s[i]) <==> i < 4 || 8 <= i)
      ensures i < 4 ==> Out(s[i]) == ServerMessages(cr, client, server)[i]
      ensures 8 <= i ==> Out(s[i]) == ServerMessages(cr, client, server)[i - 4]
    {
      ServerOuts(cr, client, server, i);
    }
    LensShape(s, 4, 13, ServerLens(client), k);
    SendsShape(s, OPERATIONS, ServerMessages(cr, client, server), k);
  }

  lemma AllShapes<P(!new)>(cr: Crypto<P>, client: Input, server: Input)
    requires Small(client, server)
    ensures AllSends(ClientScript(cr, client, server)) == FirstMessages(cr, client)
    ensures AllSends(ServerScript(cr, client, server)) == ServerMessages(cr, client, server)
    ensures Lens(ClientScript(cr, client, server), OPERATIONS) == ClientLens(client, server)
    ensures Lens(ServerScript(cr, client, server), OPERATIONS) == ServerLens(client)
  {
    ClientShape(cr, client, server, OPERATIONS);
    ServerShape(cr, client, server, OPERATIONS);
    var ms, ns := FirstMessages(cr, client), ServerMessages(cr, client, server);
    assert ms[..9] == ms && ns[..13] == ns;
    assert ClientLens(client, server)[..13] == ClientLens(client, server);
    assert ServerLens(client)[..9] == ServerLens(client);
  }

  lemma ListSizes<P(!new)>(cr: Crypto<P>, client: Input, server: Input)
    requires GoodCrypto(cr) && GoodInput(cr, client) && GoodInput(cr, server)
    ensures |BlindedList(cr, client)| == POINT * |client.elements|
    ensures |BlindedList(cr, server)| == POINT * |server.elements|
    ensures |List2(cr, client, server)| == POINT * |client.elements|
  {
    BlindedListSize(cr, client);
    BlindedListSize(cr, server);
    ReblindedListSize(cr, server, client);
  }

  lemma FirstSizes<P>(cr: Crypto<P>, me: Input, i: nat)
    requires |BlindedList(cr, me)| == POINT * |me.elements| && i < 9
    ensures |FirstMessages(cr, me)[i]| == FirstLens(POINT * |me.elements|)[i]
  {
    FirstMessageParts(cr, me);
    SizesOfNine(me, FirstMessages(cr, me), POINT * |me.elements|, i);
  }

  lemma SizesOfNine(me: Input, ms: seq<Msg>, list: nat, i: nat)
    requires |ms| == 9 && ms[..4] == Parameters(me) && i < 9
    requires |ms[4]| == POINT && |ms[5]| == list && |ms[6]| == |ms[7]| == HALF && |ms[8]| == 4
    ensures |ms[i]| == FirstLens(list)[i]
  {
    if i < 4 {
      assert ms[i] == Parameters(me)[i];
    }
  }

  lemma LastSizes<P>(cr: Crypto<P>, server: Input, list2: seq<byte>, i: nat)
    requires i < 4
    ensures |LastMessages(cr, server, list2)[i]| == [|list2|, HALF, HALF, 4][i]
  {
  }

  lemma ServerListens<P(!new)>(cr: Crypto<P>, client: Input, server: Input)
    requires Small(client, server) && |BlindedList(cr, client)| == POINT * |client.elements|
    ensures LengthsAgree(ClientScript(cr, client, server), ServerScript(cr, client, server))
  {
    AllShapes(cr, client, server);
    forall i | 0 <= i < 9 ensures |FirstMessages(cr, client)[i]| == ServerLens(client)[i] {
      FirstSizes(cr, client, i);
    }
  }

  lemma ClientListens<P(!new)>(cr: Crypto<P>, client: Input, server: Input)
    requires Small(client, server) && |BlindedList(cr, server)| == POINT * |server.elements|
    requires |List2(cr, client, server)| == POINT * |client.elements|
    ensures LengthsAgree(ServerScript(cr, client, server), ClientScript(cr, client, server))
  {
    AllShapes(cr, client, server);
    forall i | 0 <= i < 13 ensures |ServerMessages(cr, client, server)[i]| == ClientLens(client, server)[i] {
      ServerMessageSize(cr, client, server, i);
    }
  }

  lemma ServerMessageSize<P(!new)>(cr: Crypto<P>, client: Input, server: Input, i: nat)
    requires |BlindedList(cr, server)| == POINT * |server.elements| && i < 13
    requires |List2(cr, client, server)| == POINT * |client.elements|
    ensures |ServerMessages(cr, client, server)[i]| == ClientLens(client, server)[i]
  {
    if i < 9 {
      FirstSizes(cr, server, i);
    } else {
      LastSizes(cr, server, List2(cr, client, server), i - 9);
    }
  }

  /* ---- Each program follows its script ---- */

  /** The signature that comes with the first list is accepted. */
  lemma FirstListAccepted<P(!new)>(cr: Crypto<P>, peer: Input)
    requires Correct(cr.suite) && FullWidthPoint(cr.suite.publicKey(peer.privateKey))
    requires FullWidthPoint(SignatureOf(cr, peer, peer.ephemeral, BlindedList(cr, peer)))
    ensures var ms := FirstMessages(cr, peer); Accepts(cr, ms[4], ms[5], ms[6], ms[7], ms[8])
  {
    HonestSignatureAccepted(cr.suite, peer.privateKey, peer.ephemeral, UserId(peer), BlindedList(cr, peer));
  }

  ghost predicate Begins(ms: seq<Msg>, m: nat, rcvd: seq<Msg>) {
    m <= |rcvd| && m <= |ms| && forall i :: 0 <= i < m ==> rcvd[i] == ms[i]
  }

  /** The parameters that a party receives are the peer's, so its assertions hold. */
  lemma ParametersReceived<P(!new)>(cr: Crypto<P>, me: Input, peer: Input, rcvd: seq<Msg>)
    requires SameParameters(me, peer) && |peer.elements| < 0x200_0000
    requires Begins(FirstMessages(cr, peer), 4, rcvd)
    ensures ParametersAgree(me, rcvd) && FromLe32(rcvd[0]) == |peer.elements|
  {
    ParameterSent(cr, peer, rcvd);
    Le32RoundTrip(U32(|peer.elements|));
    Le32RoundTrip(U32(peer.bytelen));
    Le32RoundTrip(U32(peer.secparam));
    Le32RoundTrip(U32(peer.nthreads));
  }

  lemma ParameterSent<P>(cr: Crypto<P>, peer: Input, rcvd: seq<Msg>)
    requires Begins(FirstMessages(cr, peer), 4, rcvd)
    ensures rcvd[0] == Le32(U32(|peer.elements|)) && rcvd[1] == Le32(U32(peer.bytelen))
    ensures rcvd[2] == Le32(U32(peer.secparam)) && rcvd[3] == Le32(U32(peer.nthreads))
  {
    ParameterParts(peer);
    FirstParameterAt(cr, peer, 0);
    FirstParameterAt(cr, peer, 1);
    FirstParameterAt(cr, peer, 2);
    FirstParameterAt(cr, peer, 3);
  }

  lemma ListReceived<P(!new)>(cr: Crypto<P>, peer: Input, rcvd: seq<Msg>)
    requires Correct(cr.suite) && FullWidthPoint(cr.suite.publicKey(peer.privateKey))
    requires FullWidthPoint(SignatureOf(cr, peer, peer.ephemeral, BlindedList(cr, peer)))
    requires Begins(FirstMessages(cr, peer), 9, rcvd)
    ensures Accepts(cr, rcvd[4], rcvd[5], rcvd[6], rcvd[7], rcvd[8])
    ensures rcvd[5] == BlindedList(cr, peer)
  {
    FirstListAccepted(cr, peer);
  }

  lemma FirstRoundOnScript<P(!new)>(cr: Crypto<P>, me: Input, role: Who, peer: Input, pc: nat, rcvd: seq<Msg>)
    requires SameParameters(me, peer) && |peer.elements| < 0x200_0000
    requires 8 <= pc < 13 && Begins(FirstMessages(cr, peer), 4, rcvd)
    ensures NextOp(cr, me, role, pc, rcvd) == FirstRound(cr, me, |peer.elements|, pc)
  {
    ParametersReceived(cr, me, peer, rcvd);
  }

  lemma SecondRoundOnScript<P(!new)>(cr: Crypto<P>, me: Input, role: Who, peer: Input, pc: nat, rcvd: seq<Msg>)
    requires SameParameters(me, peer) && |peer.elements| < 0x200_0000
    requires Correct(cr.suite) && FullWidthPoint(cr.suite.publicKey(peer.privateKey))
    requires FullWidthPoint(SignatureOf(cr, peer, peer.ephemeral, BlindedList(cr, peer)))
    requires 13 <= pc < OPERATIONS && Begins(FirstMessages(cr, peer), 9, rcvd)
    requires POINT * |peer.elements| <= |BlindedList(cr, peer)|
    ensures NextOp(cr, me, role, pc, rcvd) ==
      if role.Client? then SecondRoundClient(me, pc)
      else SecondRoundServer(cr, me, ReblindedList(cr, me, BlindedList(cr, peer), |peer.elements|), pc)
  {
    ParametersReceived(cr, me, peer, rcvd);
    ListReceived(cr, peer, rcvd);
  }

  /** The part of the assumptions that concerns what me receives from peer in the first round. */
  ghost predicate GoodPeer<P(!new)>(cr: Crypto<P>, me: Input, peer: Input) {
    && SameParameters(me, peer) && |peer.elements| < 0x200_0000
    && Correct(cr.suite) && FullWidthPoint(cr.suite.publicKey(peer.privateKey))
    && FullWidthPoint(SignatureOf(cr, peer, peer.ephemeral, BlindedList(cr, peer)))
    && |BlindedList(cr, peer)| == POINT * |peer.elements|
  }

  lemma HonestPeers<P(!new)>(cr: Crypto<P>, client: Input, server: Input)
    requires Honest(cr, client, server)
    ensures GoodPeer(cr, client, server) && GoodPeer(cr, server, client)
    ensures Small(client, server) && |List2(cr, client, server)| == POINT * |client.elements|
  {
    ListSizes(cr, client, server);
  }

  lemma ClientAt<P(!new)>(cr: Crypto<P>, client: Input, server: Input, k: nat, rcvd: seq<Msg>)
    requires GoodPeer(cr, client, server) && k < OPERATIONS
    requires k >= 8 ==> Begins(FirstMessages(cr, server), if k < 13 then 4 else 9, rcvd)
    ensures NextOp(cr, client, Client, k, rcvd) == ClientScript(cr, client, server)[k] != Halt
  {
    if 8 <= k < 13 {
      FirstRoundOnScript(cr, client, Client, server, k, rcvd);
    } else if k >= 13 {
      SecondRoundOnScript(cr, client, Client, server, k, rcvd);
    }
  }

  lemma ServerAt<P(!new)>(cr: Crypto<P>, client: Input, server: Input, k: nat, rcvd: seq<Msg>)
    requires GoodPeer(cr, server, client) && k < OPERATIONS
    requires k >= 8 ==> Begins(FirstMessages(cr, client), if k < 13 then 4 else 9, rcvd)
    ensures NextOp(cr, server, Server, k, rcvd) == ServerScript(cr, client, server)[k] != Halt
  {
    ServerOp(cr, client, server, k);
    if k < 8 {
    } else if k < 13 {
      FirstRoundOnScript(cr, server, Server, client, k, rcvd);
    } else {
      SecondRoundOnScript(cr, server, Server, client, k, rcvd);
    }
  }

  lemma PrefixBegins(ms: seq<Msg>, more: seq<Msg>, m: nat, n: nat)
    requires m <= n <= |ms + more| && m <= |ms|
    ensures Begins(ms, m, (ms + more)[..n])
  {
  }

  lemma ClientFollowsAt<P(!new)>(cr: Crypto<P>, client: Input, server: Input, k: nat)
    requires GoodPeer(cr, client, server) && Small(client, server) && k < OPERATIONS
    ensures FollowsAt(ProgramFor(cr, client, Client), ClientScript(cr, client, server),
                      ServerMessages(cr, client, server), k)
  {
    ClientShape(cr, client, server, k);
    var n := if k <= 4 then 0 else k - 4;
    var first, last := FirstMessages(cr, server), LastMessages(cr, server, List2(cr, client, server));
    if k >= 8 {
      PrefixBegins(first, last, if k < 13 then 4 else 9, n);
    }
    ClientAt(cr, client, server, k, (first + last)[..n]);
  }

  lemma ClientFollows<P(!new)>(cr: Crypto<P>, client: Input, server: Input)
    requires GoodPeer(cr, client, server) && Small(client, server)
    ensures Follows(ProgramFor(cr, client, Client), ClientScript(cr, client, server),
                    ServerMessages(cr, client, server))
  {
    AllShapes(cr, client, server);
    forall k: nat | k < OPERATIONS
      ensures FollowsAt(ProgramFor(cr, client, Client), ClientScript(cr, client, server),
                        ServerMessages(cr, client, server), k)
    {
      ClientFollowsAt(cr, client, server, k);
    }
  }

  lemma ServerFollowsAt<P(!new)>(cr: Crypto<P>, client: Input, server: Input, k: nat)
    requires GoodPeer(cr, server, client) && Small(client, server) && k < OPERATIONS
    ensures FollowsAt(ProgramFor(cr, server, Server), ServerScript(cr, client, server), FirstMessages(cr, client), k)
  {
    ServerShape(cr, client, server, k);
    var n := if k <= 4 then 0 else if k <= 13 then k - 4 else 9;
    var first := FirstMessages(cr, client);
    assert first + [] == first;
    if k >= 8 {
      PrefixBegins(first, [], if k < 13 then 4 else 9, n);
    }
    ServerAt(cr, client, server, k, first[..n]);
  }

  lemma ServerFollows<P(!new)>(cr: Crypto<P>, client: Input, server: Input)
    requires GoodPeer(cr, server, client) && Small(client, server)
    ensures Follows(ProgramFor(cr, server, Server), ServerScript(cr, client, server), FirstMessages(cr, client))
  {
    AllShapes(cr, client, server);
    forall k: nat | k < OPERATIONS
      ensures FollowsAt(ProgramFor(cr, server, Server), ServerScript(cr, client, server), FirstMessages(cr, client), k)
    {
      ServerFollowsAt(cr, client, server, k);
    }
  }

  /** The two programs of dh_psi realise the two scripts. */
  lemma ProgramsRealiseScripts<P(!new)>(cr: Crypto<P>, client: Input, server: Input, cap: nat)
    requires Honest(cr, client, server)
    ensures Realises(SystemFor(cr, client, server, cap), ClientScript(cr, client, server),
                     ServerScript(cr, client, server))
  {
    HonestPeers(cr, client, server);
    ServerListens(cr, client, server);
    ClientListens(cr, client, server);
    AllShapes(cr, client, server);
    ClientFollows(cr, client, server);
    ServerFollows(cr, client, server);
  }

  /* ---- The pace of the scripts ---- */

  /** Four parameters sent, four received, and then as much received in a step as the peer sends in it. */
  ghost predicate InStep(x: Script, y: Script, i: nat)
    requires i < |x| == |y|
  {
    && (i < 4 ==> |Out(x[i])| == 4 && InLen(x[i]) == 0)
    && (4 <= i < 8 ==> x[i] == Receive(4))
    && (i >= 8 ==> InLen(x[i]) == |Out(y[i])|)
  }

  lemma {:induction false} InStepSizes(x: Script, y: Script, k: nat)
    requires k <= |x| == |y| && forall i :: 0 <= i < |x| ==> InStep(x, y, i) && InStep(y, x, i)
    ensures k <= 4 ==> SentLen(x, k) == SentLen(y, k) == 4 * k && RecvLen(x, k) == RecvLen(y, k) == 0
    ensures 4 <= k <= 8 ==> SentLen(x, k) == SentLen(y, k) == 16 && RecvLen(x, k) == RecvLen(y, k) == 4 * (k - 4)
    ensures k >= 8 ==> RecvLen(x, k) == SentLen(y, k) && RecvLen(y, k) == SentLen(x, k)
  {
    if k == 0 {
    } else {
      InStepSizes(x, y, k - 1);
      assert InStep(x, y, k - 1) && InStep(y, x, k - 1);
    }
  }

  /** Scripts of this form keep the pace that Paced asks for as soon as 16 octets fit the channel. */
  lemma InStepPaced(x: Script, y: Script, cap: nat)
    requires |x| == |y| && forall i :: 0 <= i < |x| ==> InStep(x, y, i) && InStep(y, x, i)
    requires forall i :: 0 <= i < |x| ==> (x[i].Send? <==> i < 4)
    requires cap >= 16
    ensures Paced(x, y, cap)
  {
    forall k | 0 <= k < |x|
      ensures HasIn(x[k]) ==> RecvLen(x, k + 1) <= SentLen(y, k + 1)
      ensures x[k].Exchange? || x[k].SendAndJoin? ==> SentLen(x, k + 1) <= RecvLen(y, k + 1)
      ensures x[k].Send? ==> SentLen(x, k + 1) <= cap
    {
      InStepSizes(x, y, k + 1);
      assert InStep(x, y, k);
    }
  }

  lemma ClientInStep<P(!new)>(cr: Crypto<P>, client: Input, server: Input, i: nat)
    requires Small(client, server) && i < OPERATIONS
    requires |BlindedList(cr, server)| == POINT * |server.elements|
    requires |List2(cr, client, server)| == POINT * |client.elements|
    ensures InStep(ClientScript(cr, client, server), ServerScript(cr, client, server), i)
  {
    ClientIns(cr, client, server, i);
    ClientOuts(cr, client, server, i);
    if i >= 8 {
      ServerOuts(cr, client, server, i);
      ServerMessageSize(cr, client, server, i - 4);
    }
  }

  lemma ServerInStep<P(!new)>(cr: Crypto<P>, client: Input, server: Input, i: nat)
    requires Small(client, server) && i < OPERATIONS
    requires |BlindedList(cr, client)| == POINT * |client.elements|
    ensures InStep(ServerScript(cr, client, server), ClientScript(cr, client, server), i)
  {
    ServerIns(cr, client, server, i);
    ServerOuts(cr, client, server, i);
    ServerOp(cr, client, server, i);
    if i >= 8 {
      ClientOuts(cr, client, server, i);
      if i < 13 {
        FirstSizes(cr, client, i - 4);
      }
    }
  }

  lemma ScriptsPaced<P(!new)>(cr: Crypto<P>, client: Input, server: Input, cap: nat)
    requires Honest(cr, client, server) && cap >= 16
    ensures Paced(ClientScript(cr, client, server), ServerScript(cr, client, server), cap)
    ensures Paced(ServerScript(cr, client, server), ClientScript(cr, client, server), cap)
  {
    ListSizes(cr, client, server);
    PacedBySizes(cr, client, server, cap);
  }

  lemma PacedBySizes<P(!new)>(cr: Crypto<P>, client: Input, server: Input, cap: nat)
    requires Small(client, server) && cap >= 16
    requires |BlindedList(cr, client)| == POINT * |client.elements|
    requires |BlindedList(cr, server)| == POINT * |server.elements|
    requires |List2(cr, client, server)| == POINT * |client.elements|
    ensures Paced(ClientScript(cr, client, server), ServerScript(cr, client, server), cap)
    ensures Paced(ServerScript(cr, client, server), ClientScript(cr, client, server), cap)
  {
    var c, s := ClientScript(cr, client, server), ServerScript(cr, client, server);
    forall i | 0 <= i < OPERATIONS
      ensures InStep(c, s, i) && InStep(s, c, i) && (c[i].Send? <==> i < 4) && (s[i].Send? <==> i < 4)
    {
      ClientInStep(cr, client, server, i);
      ServerInStep(cr, client, server, i);
      SendsAreFirst(cr, client, server, i);
    }
    InStepPaced(c, s, cap);
    InStepPaced(s, c, cap);
  }

  lemma SendsAreFirst<P(!new)>(cr: Crypto<P>, client: Input, server: Input, i: nat)
    requires i < OPERATIONS
    ensures ClientScript(cr, client, server)[i].Send? <==> i < 4
    ensures ServerScript(cr, client, server)[i].Send? <==> i < 4
  {
  }
}
