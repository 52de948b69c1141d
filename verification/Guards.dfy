/**
 * What a party has checked before it goes on, whatever its peer does, and what the messages of an
 * honest run mean to the party that receives them.
 */
module Guards {
  import opened Bytes
  import opened Wrappers
  import opened Group
  import opened HashToPoint
  import opened Transport
  import opened Progress
  import opened Delivery
  import opened Sm2
  import opened DhPsi
  import opened HonestRun
  import opened HashJoin
  import opened Psi

  /* ---- Against any peer ---- */

  ghost predicate Started(p: Party, k: nat) { p.pc > k || (p.pc == k && !p.main.Ready?) }

  ghost predicate ParametersChecked(me: Input, rcvd: seq<Msg>) {
    && |rcvd| >= 4
    && FromLe32(rcvd[1]) == me.bytelen % 0x1_0000_0000
    && FromLe32(rcvd[2]) == me.secparam % 0x1_0000_0000
    && FromLe32(rcvd[3]) == me.nthreads % 0x1_0000_0000
  }

  /** This signature by this key over this list and identity, all as received, is valid. */
  ghost predicate Valid(suite: Suite, key: Msg, list: Msg, sigX: Msg, sigY: Msg, id: Msg) {
    |key| == 64 &&
    var pub := Affine(FromBigEndian(key[..32]), FromBigEndian(key[32..]));
    var digest := suite.sm3(suite.sm3(ZInput(id, pub)) + list);
    suite.verify(pub, FromBigEndian(digest), Affine(FromBigEndian(sigX), FromBigEndian(sigY)))
  }

  lemma AcceptsIsValid<P>(cr: Crypto<P>, key: Msg, list: Msg, sigX: Msg, sigY: Msg, id: Msg)
    ensures Accepts(cr, key, list, sigX, sigY, id) <==> Valid(cr.suite, key, list, sigX, sigY, id)
  {
    if |key| == 64 {
      ReceivedKeyFits(key);
    }
  }

  /** The coordinates of a key that was received are below 2^256. */
  lemma ReceivedKeyFits(key: Msg)
    requires |key| == 64
    ensures FitsField(PointFromWire(key))
  {
    FromBigEndianBound(key[..32]);
    FromBigEndianBound(key[32..]);
  }

  ghost predicate SignatureChecked(suite: Suite, rcvd: seq<Msg>) {
    |rcvd| >= 9 && Valid(suite, rcvd[4], rcvd[5], rcvd[6], rcvd[7], rcvd[8])
  }

  /** What a party knows of the messages it has received when it has started step 8, and step 13. */
  ghost predicate Checked<P>(cr: Crypto<P>, me: Input, p: Party) {
    && (Started(p, 8) ==> ParametersChecked(me, p.rcvd))
    && (Started(p, 13) ==> SignatureChecked(cr.suite, p.rcvd))
  }

  lemma CheckedByStart<P>(cr: Crypto<P>, me: Input, role: Who, cap: nat, v: View)
    requires Enabled(ProgramFor(cr, me, role), cap, v, Start) && Checked(cr, me, v.me)
    ensures Checked(cr, me, Apply(ProgramFor(cr, me, role), cap, v, Start).me)
  {
    var r := v.me.rcvd;
    if v.me.pc >= 13 && |r| >= 9 {
      AcceptsIsValid(cr, r[4], r[5], r[6], r[7], r[8]);
    }
  }

  lemma CheckedByOthers<P>(cr: Crypto<P>, me: Input, role: Who, cap: nat, v: View, ev: Event)
    requires Enabled(ProgramFor(cr, me, role), cap, v, ev) && Checked(cr, me, v.me) && !ev.Start?
    ensures Checked(cr, me, Apply(ProgramFor(cr, me, role), cap, v, ev).me)
  {
    var p' := Apply(ProgramFor(cr, me, role), cap, v, ev).me;
    assert v.me.rcvd <= p'.rcvd;
    assert forall k :: Started(p', k) && k > 0 ==> Started(v.me, k) || p'.pc == k;
  }

  lemma {:induction false} CheckedInRun<P>(cr: Crypto<P>, me: Input, role: Who, sys: System,
                                           actions: seq<Action>, w: World)
    requires ProgramOf(sys, role) == ProgramFor(cr, me, role) && Run(sys, actions) == Some(w)
    ensures Checked(cr, me, ViewOf(w, role).me)
  {
    if actions == [] {
    } else {
      var last := actions[|actions| - 1];
      var before := Run(sys, actions[..|actions| - 1]).value;
      CheckedInRun(cr, me, role, sys, actions[..|actions| - 1], before);
      if last.who != role {
      } else if last.ev.Start? {
        CheckedByStart(cr, me, role, sys.capacity, ViewOf(before, role));
      } else {
        CheckedByOthers(cr, me, role, sys.capacity, ViewOf(before, role), last.ev);
      }
    }
  }

  /**
   * Whatever program the peer runs: in every reachable state in which a party has gone beyond the
   * parameters, those it received are its own.
   */
  lemma NothingBeforeParameters<P>(cr: Crypto<P>, me: Input, role: Who, sys: System, w: World)
    requires ProgramOf(sys, role) == ProgramFor(cr, me, role) && Reachable(sys, w)
    requires var p := ViewOf(w, role).me; p.pc > 8 || (p.pc == 8 && !p.main.Ready?)
    ensures var r := ViewOf(w, role).me.rcvd;
      && |r| >= 4
      && FromLe32(r[1]) == me.bytelen % 0x1_0000_0000
      && FromLe32(r[2]) == me.secparam % 0x1_0000_0000
      && FromLe32(r[3]) == me.nthreads % 0x1_0000_0000
  {
    var actions :| Run(sys, actions) == Some(w);
    CheckedInRun(cr, me, role, sys, actions, w);
  }

  /**
   * Whatever program the peer runs: in every reachable state in which a party has gone beyond the
   * first list, the signature it received is valid for the key, list and identity it received.
   */
  lemma NothingBeforeSignature<P>(cr: Crypto<P>, me: Input, role: Who, sys: System, w: World)
    requires ProgramOf(sys, role) == ProgramFor(cr, me, role) && Reachable(sys, w)
    requires var p := ViewOf(w, role).me; p.pc > 13 || (p.pc == 13 && !p.main.Ready?)
    ensures var r := ViewOf(w, role).me.rcvd; |r| >= 9 && |r[4]| == 64
    ensures var r := ViewOf(w, role).me.rcvd;
      var pub := Affine(FromBigEndian(r[4][..32]), FromBigEndian(r[4][32..]));
      var digest := cr.suite.sm3(cr.suite.sm3(ZInput(r[8], pub)) + r[5]);
      cr.suite.verify(pub, FromBigEndian(digest), Affine(FromBigEndian(r[6]), FromBigEndian(r[7])))
  {
    var actions :| Run(sys, actions) == Some(w);
    CheckedInRun(cr, me, role, sys, actions, w);
  }

  /** The client rejects the second list exactly when its signature is not valid for the same key. */
  lemma RejectedExactly<P>(cr: Crypto<P>, hash: KeyHash, me: Input, rcvd: seq<Msg>)
    requires |rcvd| == 13 && |rcvd[4]| == 64
    requires POINT * FromLe32(rcvd[0]) <= |rcvd[5]| && POINT * |me.elements| <= |rcvd[9]|
    ensures var pub := Affine(FromBigEndian(rcvd[4][..32]), FromBigEndian(rcvd[4][32..]));
      var digest := cr.suite.sm3(cr.suite.sm3(ZInput(rcvd[12], pub)) + rcvd[9]);
      ClientOutcome(cr, hash, me, rcvd) == Rejected <==>
      !cr.suite.verify(pub, FromBigEndian(digest), Affine(FromBigEndian(rcvd[10]), FromBigEndian(rcvd[11])))
  {
    AcceptsIsValid(cr, rcvd[4], rcvd[9], rcvd[10], rcvd[11], rcvd[12]);
  }

  /** A party that has received a first list without a valid signature goes no further. */
  lemma HaltsWithoutSignature<P>(cr: Crypto<P>, me: Input, role: Who, rcvd: seq<Msg>)
    requires |rcvd| >= 9 && !Valid(cr.suite, rcvd[4], rcvd[5], rcvd[6], rcvd[7], rcvd[8])
    ensures NextOp(cr, me, role, 13, rcvd) == Halt
  {
    AcceptsIsValid(cr, rcvd[4], rcvd[5], rcvd[6], rcvd[7], rcvd[8]);
  }

  /* ---- Parameters that differ ---- */

  /** The run of a party up to the check of the parameters. */
  function Opening(me: Input): (r: Script)
    ensures |r| == 8
  {
    seq(8, (pc: int) requires 0 <= pc < 8 => Exchanging(pc, me))
  }

  lemma OpeningSends(me: Input)
    ensures AllSends(Opening(me)) == Parameters(me)
    ensures Lens(Opening(me), 8) == [4, 4, 4, 4]
    ensures forall k: nat :: k < 8 ==> |Lens(Opening(me), k)| <= 4
  {
    var ops, ms := Opening(me), Parameters(me);
    forall i | 0 <= i < 8
      ensures (HasIn(ops[i]) <==> i >= 4) && (i >= 4 ==> InLen(ops[i]) == [4, 4, 4, 4][i - 4])
      ensures (HasOut(ops[i]) <==> i < 4) && (i < 4 ==> Out(ops[i]) == ms[i])
    {
      ParameterOuts(me, i);
    }
    LensShape(ops, 4, 8, [4, 4, 4, 4], 8);
    forall k: nat | k < 8 ensures |Lens(ops, k)| <= 4 {
      LensShape(ops, 4, 8, [4, 4, 4, 4], k);
    }
    SendsShape4(ops, ms, 8);
  }

  lemma {:induction false} SendsShape4(ops: Script, ms: seq<Msg>, k: nat)
    requires |ms| == 4 && k <= |ops|
    requires forall i :: 0 <= i < |ops| ==> (HasOut(ops[i]) <==> i < 4) && (i < 4 ==> Out(ops[i]) == ms[i])
    ensures Sends(ops, k) == ms[..if k < 4 then k else 4]
  {
    if k == 0 {
    } else {
      SendsShape4(ops, ms, k - 1);
    }
  }

  ghost predicate ParametersDiffer(a: Input, b: Input) {
    || a.bytelen % 0x1_0000_0000 != b.bytelen % 0x1_0000_0000
    || a.secparam % 0x1_0000_0000 != b.secparam % 0x1_0000_0000
    || a.nthreads % 0x1_0000_0000 != b.nthreads % 0x1_0000_0000
  }

  lemma HaltsAtEight<P>(cr: Crypto<P>, me: Input, role: Who, peer: Input)
    requires ParametersDiffer(me, peer)
    ensures NextOp(cr, me, role, 8, Parameters(peer)) == Halt
  {
    Le32RoundTrip(U32(peer.bytelen));
    Le32RoundTrip(U32(peer.secparam));
    Le32RoundTrip(U32(peer.nthreads));
  }

  lemma OpeningFollowed<P>(cr: Crypto<P>, me: Input, role: Who, peer: Input)
    requires ParametersDiffer(me, peer)
    ensures Follows(ProgramFor(cr, me, role), Opening(me), Parameters(peer))
  {
    OpeningSends(me);
    HaltsAtEight(cr, me, role, peer);
    var prog, ops, ms := ProgramFor(cr, me, role), Opening(me), Parameters(peer);
    forall k: nat | k < 8 ensures FollowsAt(prog, ops, ms, k) {
    }
    assert ms[..4] == ms;
  }

  lemma OpeningsAgree(a: Input, b: Input)
    ensures LengthsAgree(Opening(a), Opening(b))
  {
    OpeningSends(a);
    OpeningSends(b);
  }

  /** Two parties whose parameters differ stop at the assertions: none of them ever starts step 8. */
  lemma DifferentParametersStop<P>(cr: Crypto<P>, client: Input, server: Input, cap: nat, w: World)
    requires ParametersDiffer(client, server) && Reachable(SystemFor(cr, client, server, cap), w)
    ensures w.client.pc <= 8 && (w.client.pc == 8 ==> w.client.main.Ready?)
    ensures w.server.pc <= 8 && (w.server.pc == 8 ==> w.server.main.Ready?)
  {
    OpeningFollowed(cr, client, Client, server);
    OpeningFollowed(cr, server, Server, client);
    OpeningsAgree(client, server);
    OpeningsAgree(server, client);
    OpeningSends(client);
    OpeningSends(server);
    ReachableInv(SystemFor(cr, client, server, cap), Opening(client), Opening(server), w);
  }

  lemma OpeningsPaced(a: Input, b: Input, cap: nat)
    requires cap >= 16
    ensures Paced(Opening(a), Opening(b), cap)
  {
    forall i | 0 <= i < 8 ensures InStep(Opening(a), Opening(b), i) && InStep(Opening(b), Opening(a), i) {
    }
    InStepPaced(Opening(a), Opening(b), cap);
  }

  /** And there they do stop: with sixteen octets of channel nothing can happen exactly when both are there. */
  lemma DifferentParametersEnd<P>(cr: Crypto<P>, client: Input, server: Input, cap: nat, w: World)
    requires ParametersDiffer(client, server) && cap >= 16
    requires Reachable(SystemFor(cr, client, server, cap), w)
    ensures Stopped(SystemFor(cr, client, server, cap), w) <==>
            w.client.pc == 8 && w.client.main.Ready? && w.server.pc == 8 && w.server.main.Ready?
  {
    OpeningFollowed(cr, client, Client, server);
    OpeningFollowed(cr, server, Server, client);
    OpeningsAgree(client, server);
    OpeningsAgree(server, client);
    OpeningSends(client);
    OpeningSends(server);
    OpeningsPaced(client, server, cap);
    OpeningsPaced(server, client, cap);
    StopsOnlyWhenDone(SystemFor(cr, client, server, cap), Opening(client), Opening(server), w);
  }

  /* ---- What the messages of an honest run mean ---- */

  lemma WordMeans(n: int)
    ensures FromLe32(Le32(U32(n))) == n % 0x1_0000_0000
  {
    Le32RoundTrip(U32(n));
  }

  /** The parameters and the identity, as the other party reads them. */
  lemma ParametersMean(me: Input)
    requires |me.elements| < 0x1_0000_0000
    ensures var ms := Parameters(me);
      && FromLe32(ms[0]) == |me.elements|
      && FromLe32(ms[1]) == me.bytelen % 0x1_0000_0000
      && FromLe32(ms[2]) == me.secparam % 0x1_0000_0000
      && FromLe32(ms[3]) == me.nthreads % 0x1_0000_0000
    ensures FromLe32(Le32(U32(me.userId))) == me.userId % 0x1_0000_0000
  {
    WordMeans(|me.elements|);
    WordMeans(me.bytelen);
    WordMeans(me.secparam);
    WordMeans(me.nthreads);
    WordMeans(me.userId);
  }

  /** A signature as it is read from the wire. */
  lemma SignatureMeans<P>(cr: Crypto<P>, me: Input, ephemeral: nat, list: Msg)
    requires FullWidthPoint(SignatureOf(cr, me, ephemeral, list))
    ensures var sig := SignatureOf(cr, me, ephemeral, list);
      var z := cr.suite.sm3(ZInput(UserId(me), cr.suite.publicKey(me.privateKey)));
      Affine(FromBigEndian(Wire32(sig.x)), FromBigEndian(Wire32(sig.y)))
      == cr.suite.sign(FromBigEndian(cr.suite.sm3(z + list)), me.privateKey, ephemeral)
  {
    var sig := SignatureOf(cr, me, ephemeral, list);
    WireRoundTrip(sig.x);
    WireRoundTrip(sig.y);
  }

  /** The point of an element is the library's answer to the first header that it accepts for it. */
  lemma HashedPointMeans<P(!new)>(cr: Crypto<P>, e: seq<byte>, p: P)
    requires FirstAnswer(cr.hashTo, e, p)
    ensures HashedPoint(cr, e) == p
  {
    FirstAnswerIsFound(cr.hashTo, e, p);
  }

  /** Record i of a blinded list: the encoding of the scalar times the element's point. */
  lemma BlindedRecordsMean<P(!new)>(cr: Crypto<P>, me: Input, i: nat)
    requires GoodCrypto(cr) && GoodInput(cr, me) && i < |me.elements|
    ensures POINT * i + POINT <= |BlindedList(cr, me)|
    ensures BlindedList(cr, me)[POINT * i..POINT * i + POINT]
         == cr.enc(Mul(cr.group, me.scalar, HashedPoint(cr, me.elements[i])))
  {
    BlindedListSize(cr, me);
    assert Unpack(BlindedList(cr, me), |me.elements|)[i] == Record(BlindedList(cr, me), i);
  }

  /** Record i of the list blinded twice: both scalars times the point of the owner's element. */
  lemma ReblindedRecordsMean<P(!new)>(cr: Crypto<P>, client: Input, server: Input, i: nat)
    requires GoodCrypto(cr) && GoodInput(cr, client) && GoodInput(cr, server) && i < |client.elements|
    ensures POINT * i + POINT <= |List2(cr, client, server)|
    ensures List2(cr, client, server)[POINT * i..POINT * i + POINT]
         == cr.enc(Mul(cr.group, server.scalar, Mul(cr.group, client.scalar, HashedPoint(cr, client.elements[i]))))
  {
    ReblindedListSize(cr, server, client);
    ReblindedRecord(cr, server.scalar, client, client.elements[i]);
    var list2 := List2(cr, client, server);
    assert Unpack(list2, |client.elements|)[i] == Record(list2, i);
  }

  /** Of these messages: parameters, public key, signature over the list, and identity of the sender. */
  ghost predicate SentBy<P>(cr: Crypto<P>, from: Input, ms: seq<Msg>)
    requires |ms| >= 9
  {
    && FromLe32(ms[0]) == |from.elements|
    && FromLe32(ms[1]) == from.bytelen % 0x1_0000_0000
    && FromLe32(ms[2]) == from.secparam % 0x1_0000_0000
    && FromLe32(ms[3]) == from.nthreads % 0x1_0000_0000
    && |ms[4]| == 64
    && var pub := Affine(FromBigEndian(ms[4][..32]), FromBigEndian(ms[4][32..]));
    && pub == cr.suite.publicKey(from.privateKey)
    && |ms[5]| == 64 * |from.elements|
    && (forall i :: 0 <= i < |from.elements| ==>
          ms[5][64 * i..64 * i + 64] == cr.enc(Mul(cr.group, from.scalar, HashedPoint(cr, from.elements[i]))))
    && Affine(FromBigEndian(ms[6]), FromBigEndian(ms[7]))
       == cr.suite.sign(FromBigEndian(cr.suite.sm3(cr.suite.sm3(ZInput(ms[8], pub)) + ms[5])),
                        from.privateKey, from.ephemeral)
    && FromLe32(ms[8]) == from.userId % 0x1_0000_0000
  }

  lemma FirstMessagesMean<P(!new)>(cr: Crypto<P>, me: Input)
    requires GoodCrypto(cr) && GoodInput(cr, me)
    requires FullWidthPoint(cr.suite.publicKey(me.privateKey))
    requires FullWidthPoint(SignatureOf(cr, me, me.ephemeral, BlindedList(cr, me)))
    ensures SentBy(cr, me, FirstMessages(cr, me))
  {
    FirstMessageParts(cr, me);
    ParametersMean(me);
    PointRoundTrip(cr.suite.publicKey(me.privateKey));
    SignatureMeans(cr, me, me.ephemeral, BlindedList(cr, me));
    BlindedListSize(cr, me);
    forall i | 0 <= i < |me.elements|
      ensures BlindedList(cr, me)[64 * i..64 * i + 64]
           == cr.enc(Mul(cr.group, me.scalar, HashedPoint(cr, me.elements[i])))
    {
      BlindedRecordsMean(cr, me, i);
    }
  }

  /** The server's second list: both scalars times the client's points, signed anew. */
  ghost predicate SentBack<P>(cr: Crypto<P>, client: Input, server: Input, ms: seq<Msg>)
    requires |ms| >= 13
  {
    && |ms[9]| == 64 * |client.elements|
    && (forall i :: 0 <= i < |client.elements| ==>
          ms[9][64 * i..64 * i + 64]
          == cr.enc(Mul(cr.group, server.scalar, Mul(cr.group, client.scalar, HashedPoint(cr, client.elements[i])))))
    && Affine(FromBigEndian(ms[10]), FromBigEndian(ms[11]))
       == cr.suite.sign(FromBigEndian(cr.suite.sm3(
            cr.suite.sm3(ZInput(ms[12], cr.suite.publicKey(server.privateKey))) + ms[9])),
                        server.privateKey, server.ephemeral2)
    && FromLe32(ms[12]) == server.userId % 0x1_0000_0000
  }

  lemma LastMessagesMean<P(!new)>(cr: Crypto<P>, client: Input, server: Input)
    requires Honest(cr, client, server)
    ensures SentBack(cr, client, server, ServerMessages(cr, client, server))
  {
    var list2 := List2(cr, client, server);
    ServerMessageParts(cr, client, server);
    WordMeans(server.userId);
    SignatureMeans(cr, server, server.ephemeral2, list2);
    ReblindedListSize(cr, server, client);
    forall i | 0 <= i < |client.elements|
      ensures list2[64 * i..64 * i + 64]
           == cr.enc(Mul(cr.group, server.scalar, Mul(cr.group, client.scalar, HashedPoint(cr, client.elements[i]))))
    {
      ReblindedRecordsMean(cr, client, server, i);
    }
  }

  lemma SentByPrefix<P>(cr: Crypto<P>, from: Input, ms: seq<Msg>, more: seq<Msg>)
    requires |ms| >= 9 && SentBy(cr, from, ms)
    ensures SentBy(cr, from, ms + more)
  {
  }

  /** In an honest run: what the server has received once it has nine messages ... */
  lemma ServerHas<P(!new)>(cr: Crypto<P>, client: Input, server: Input, cap: nat, w: World)
    requires Honest(cr, client, server) && Reachable(SystemFor(cr, client, server, cap), w)
    requires |w.server.rcvd| >= 9
    ensures SentBy(cr, client, w.server.rcvd)
  {
    EveryReceiveGetsItsSend(cr, client, server, cap, w);
    WholePrefix(w.server.rcvd, FirstMessages(cr, client));
    FirstMessagesMean(cr, client);
  }

  lemma WholePrefix(r: seq<Msg>, ms: seq<Msg>)
    requires |r| == |ms| && r == ms[..|r|]
    ensures r == ms
  {
  }

  /** ... and what a finished client has received. */
  lemma ClientHas<P(!new)>(cr: Crypto<P>, client: Input, server: Input, cap: nat, w: World)
    requires Honest(cr, client, server) && Reachable(SystemFor(cr, client, server, cap), w)
    requires w.client.pc == OPERATIONS
    ensures |w.client.rcvd| == 13
    ensures SentBy(cr, server, w.client.rcvd) && SentBack(cr, client, server, w.client.rcvd)
  {
    FinishedClientHasAll(cr, client, server, cap, w);
    FirstMessagesMean(cr, server);
    LastMessagesMean(cr, client, server);
    SentByPrefix(cr, server, FirstMessages(cr, server), LastMessages(cr, server, List2(cr, client, server)));
  }
}
