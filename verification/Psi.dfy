/** The results about the whole protocol: dh_psi on two machines, all interleavings. */
module Psi {
  import opened Bytes
  import opened Wrappers
  import opened Group
  import opened Transport
  import opened Delivery
  import opened Progress
  import opened Sm2
  import opened DhPsi
  import opened HonestRun
  import opened Permutations
  import opened HashJoin
  import opened Intersection
  import opened Duplicates

  /* ---- What the client returns ---- */

  datatype Outcome = Rejected | JoinAborted | Result(elements: seq<seq<byte>>)

  /** The hash code of a record: that of its first eight octets. */
  function RecordKey(hash: KeyHash): seq<byte> -> int {
    (r: seq<byte>) => hash(r[..Min(|r|, 8)])
  }

  /** The elements at the matches of own, the records that came back, in peer's records. */
  function Joined(hash: KeyHash, elements: seq<seq<byte>>, own: seq<seq<byte>>, peer: seq<seq<byte>>): Outcome
    requires |own| == |elements|
  {
    match SortedMatches(RecordKey(hash), own, peer)
    case AssertionFailed => JoinAborted
    case Found(at) =>
      MatchesBelow(RecordKey(hash), own, peer);
      Result(Pick(elements, at))
  }

  /** What dh_psi gives the client once everything is received. */
  function ClientOutcome<P>(cr: Crypto<P>, hash: KeyHash, me: Input, rcvd: seq<Msg>): Outcome
    requires |rcvd| == 13
    requires POINT * FromLe32(rcvd[0]) <= |rcvd[5]| && POINT * |me.elements| <= |rcvd[9]|
  {
    if !Accepts(cr, rcvd[4], rcvd[9], rcvd[10], rcvd[11], rcvd[12]) then Rejected
    else
      Joined(hash, me.elements, Unpack(rcvd[9], |me.elements|),
             ReblindAll(cr, me.scalar, Unpack(rcvd[5], FromLe32(rcvd[0]))))
  }

  /* ---- Matching records are equal elements ---- */

  /** No two of the elements in play hash to the same point. */
  ghost predicate HashInjective<P(!new)>(cr: Crypto<P>, xs: seq<seq<byte>>) {
    forall x, y {:trigger HashedPoint(cr, x), HashedPoint(cr, y)} ::
      x in xs && y in xs && HashedPoint(cr, x) == HashedPoint(cr, y) ==> x == y
  }

  lemma SameRecord<P(!new)>(cr: Crypto<P>, a: Input, x: seq<byte>, b: Input, y: seq<byte>)
    requires GoodCrypto(cr) && GoodInput(cr, a) && GoodInput(cr, b)
    requires x in a.elements && y in b.elements && HashInjective(cr, a.elements + b.elements)
    ensures Reblinded(cr, b.scalar, Blinded(cr, a.scalar, x)) == Reblinded(cr, a.scalar, Blinded(cr, b.scalar, y))
            <==> x == y
  {
    ReblindedRecord(cr, b.scalar, a, x);
    ReblindedRecord(cr, a.scalar, b, y);
    DoubleBlindingMatches(cr.group, cr.order, b.scalar, a.scalar, HashedPoint(cr, x), HashedPoint(cr, y));
    assert x in a.elements + b.elements && y in a.elements + b.elements;
  }

  lemma SameOwnRecord<P(!new)>(cr: Crypto<P>, k: nat, a: Input, x: seq<byte>, y: seq<byte>)
    requires GoodCrypto(cr) && GoodInput(cr, a) && k % cr.order != 0
    requires x in a.elements && y in a.elements && HashInjective(cr, a.elements)
    ensures Reblinded(cr, k, Blinded(cr, a.scalar, x)) == Reblinded(cr, k, Blinded(cr, a.scalar, y)) ==> x == y
  {
    ReblindedRecord(cr, k, a, x);
    ReblindedRecord(cr, k, a, y);
    var p, q := HashedPoint(cr, x), HashedPoint(cr, y);
    BlindingInjective(cr.group, cr.order, k, Mul(cr.group, a.scalar, p), Mul(cr.group, a.scalar, q));
    BlindingInjective(cr.group, cr.order, a.scalar, p, q);
  }

  lemma TwiceBlindedDistinct<P(!new)>(cr: Crypto<P>, k: nat, a: Input)
    requires GoodCrypto(cr) && GoodInput(cr, a) && k % cr.order != 0
    requires Distinct(a.elements) && HashInjective(cr, a.elements)
    ensures Distinct(TwiceBlinded(cr, k, a))
  {
    var r := TwiceBlinded(cr, k, a);
    forall i, j | 0 <= i < j < |r| ensures r[i] != r[j] {
      SameOwnRecord(cr, k, a, a.elements[i], a.elements[j]);
    }
  }

  /** A record of mine is among the peer's records exactly when my element is among the peer's. */
  lemma RecordInList<P(!new)>(cr: Crypto<P>, a: Input, b: Input, i: nat)
    requires GoodCrypto(cr) && GoodInput(cr, a) && GoodInput(cr, b)
    requires HashInjective(cr, a.elements + b.elements) && i < |a.elements|
    ensures TwiceBlinded(cr, b.scalar, a)[i] in TwiceBlinded(cr, a.scalar, b) <==> a.elements[i] in b.elements
  {
    var own, peer := TwiceBlinded(cr, b.scalar, a), TwiceBlinded(cr, a.scalar, b);
    forall j | 0 <= j < |peer| ensures own[i] == peer[j] <==> a.elements[i] == b.elements[j] {
      SameRecord(cr, a, a.elements[i], b, b.elements[j]);
    }
  }

  /* ---- The join of the records is the join of the elements ---- */

  /** The table key of an element: the hash code of its point multiplied by both scalars. */
  function ElementKey<P>(cr: Crypto<P>, hash: KeyHash, k: nat, m: nat): seq<byte> -> int {
    (e: seq<byte>) => RecordKey(hash)(cr.enc(Mul(cr.group, k, Mul(cr.group, m, HashedPoint(cr, e)))))
  }

  lemma CodesOfOwner<P(!new)>(cr: Crypto<P>, hash: KeyHash, k: nat, owner: Input)
    requires GoodCrypto(cr) && GoodInput(cr, owner) && k % cr.order != 0
    ensures MapCodes(RecordKey(hash), TwiceBlinded(cr, k, owner))
         == MapCodes(ElementKey(cr, hash, k, owner.scalar), owner.elements)
  {
    var records, es := TwiceBlinded(cr, k, owner), owner.elements;
    forall i | 0 <= i < |es|
      ensures RecordKey(hash)(records[i]) == ElementKey(cr, hash, k, owner.scalar)(es[i])
    {
      ReblindedRecord(cr, k, owner, es[i]);
    }
  }

  lemma KeysCommute<P(!new)>(cr: Crypto<P>, hash: KeyHash, k: nat, m: nat, es: seq<seq<byte>>)
    requires Abelian(cr.group)
    ensures MapCodes(ElementKey(cr, hash, k, m), es) == MapCodes(ElementKey(cr, hash, m, k), es)
  {
    forall i | 0 <= i < |es| ensures ElementKey(cr, hash, k, m)(es[i]) == ElementKey(cr, hash, m, k)(es[i]) {
      BlindingCommutes(cr.group, k, m, HashedPoint(cr, es[i]));
    }
  }

  /** Because blinding commutes, the records of both sides have the keys of their elements. */
  lemma RecordsMatchLikeElements<P(!new)>(cr: Crypto<P>, hash: KeyHash, a: Input, b: Input)
    requires GoodCrypto(cr) && GoodInput(cr, a) && GoodInput(cr, b)
    ensures SortedMatches(RecordKey(hash), TwiceBlinded(cr, b.scalar, a), TwiceBlinded(cr, a.scalar, b))
         == SortedMatches(ElementKey(cr, hash, b.scalar, a.scalar), a.elements, b.elements)
  {
    CodesOfOwner(cr, hash, b.scalar, a);
    CodesOfOwner(cr, hash, a.scalar, b);
    KeysCommute(cr, hash, a.scalar, b.scalar, b.elements);
  }

  function AsOutcome(matched: Option<seq<seq<byte>>>): Outcome {
    match matched
    case None => JoinAborted
    case Some(values) => Result(values)
  }

  lemma JoinedAreMatched<P(!new)>(cr: Crypto<P>, hash: KeyHash, a: Input, b: Input)
    requires GoodCrypto(cr) && GoodInput(cr, a) && GoodInput(cr, b)
    ensures Joined(hash, a.elements, TwiceBlinded(cr, b.scalar, a), TwiceBlinded(cr, a.scalar, b))
         == AsOutcome(Matched(ElementKey(cr, hash, b.scalar, a.scalar), a.elements, b.elements))
  {
    RecordsMatchLikeElements(cr, hash, a, b);
  }

  /**
   * The join of the doubly blinded records, for all lists: the values are the common elements, and
   * the matches the positions of the common elements, under exactly these conditions.
   */
  lemma JoinedIsIntersection<P(!new)>(cr: Crypto<P>, hash: KeyHash, a: Input, b: Input)
    requires GoodCrypto(cr) && GoodInput(cr, a) && GoodInput(cr, b)
    ensures var key := ElementKey(cr, hash, b.scalar, a.scalar);
      var own, peer := TwiceBlinded(cr, b.scalar, a), TwiceBlinded(cr, a.scalar, b);
      && (Joined(hash, a.elements, own, peer) == Result(Intersect(a.elements, b.elements)) <==>
          Delivers(key, a.elements, b.elements))
      && (SortedMatches(RecordKey(hash), own, peer) == Found(Positions(a.elements, b.elements)) <==>
          Harmless(key, a.elements, b.elements) && CommonOnce(a.elements, b.elements))
  {
    var key := ElementKey(cr, hash, b.scalar, a.scalar);
    RecordsMatchLikeElements(cr, hash, a, b);
    JoinedAreMatched(cr, hash, a, b);
    MatchedExactly(key, a.elements, b.elements);
    JoinIsIntersection(key, a.elements, b.elements);
  }

  /** When elements have points of their own, keys collide harmfully on elements exactly as on records. */
  lemma RecordsHarmless<P(!new)>(cr: Crypto<P>, hash: KeyHash, a: Input, b: Input)
    requires GoodCrypto(cr) && GoodInput(cr, a) && GoodInput(cr, b)
    requires HashInjective(cr, a.elements + b.elements)
    ensures Harmless(RecordKey(hash), TwiceBlinded(cr, b.scalar, a), TwiceBlinded(cr, a.scalar, b)) <==>
            Harmless(ElementKey(cr, hash, b.scalar, a.scalar), a.elements, b.elements)
  {
    var own, peer := TwiceBlinded(cr, b.scalar, a), TwiceBlinded(cr, a.scalar, b);
    var key := ElementKey(cr, hash, b.scalar, a.scalar);
    CodesOfOwner(cr, hash, b.scalar, a);
    CodesOfOwner(cr, hash, a.scalar, b);
    KeysCommute(cr, hash, a.scalar, b.scalar, b.elements);
    forall i, j | 0 <= i < |own| && 0 <= j < |peer|
      ensures own[i] == peer[j] <==> a.elements[i] == b.elements[j]
    {
      SameRecord(cr, a, a.elements[i], b, b.elements[j]);
    }
    HarmlessTransfers(RecordKey(hash), own, peer, key, a.elements, b.elements);
  }

  lemma HarmlessTransfers<S(!new), T(!new)>(key: S -> int, xs: seq<S>, ys: seq<S>,
                                            key': T -> int, xs': seq<T>, ys': seq<T>)
    requires |xs| == |xs'| && |ys| == |ys'|
    requires MapCodes(key, xs) == MapCodes(key', xs') && MapCodes(key, ys) == MapCodes(key', ys')
    requires forall i, j :: 0 <= i < |xs| && 0 <= j < |ys| ==> (xs[i] == ys[j] <==> xs'[i] == ys'[j])
    ensures Harmless(key, xs, ys) <==> Harmless(key', xs', ys')
  {
    HarmlessHits(key, xs, ys);
    HarmlessHits(key', xs', ys');
  }

  /* ---- The main results ---- */

  /** In every reachable state each party has received exactly the first messages of the other. */
  lemma EveryReceiveGetsItsSend<P(!new)>(cr: Crypto<P>, client: Input, server: Input, cap: nat, w: World)
    requires Honest(cr, client, server) && Reachable(SystemFor(cr, client, server, cap), w)
    ensures |w.client.rcvd| <= 13 && w.client.rcvd == ServerMessages(cr, client, server)[..|w.client.rcvd|]
    ensures |w.server.rcvd| <= 9 && w.server.rcvd == FirstMessages(cr, client)[..|w.server.rcvd|]
  {
    ProgramsRealiseScripts(cr, client, server, cap);
    HonestPeers(cr, client, server);
    AllShapes(cr, client, server);
    MessagesArriveInOrder(SystemFor(cr, client, server, cap), ClientScript(cr, client, server),
                          ServerScript(cr, client, server), w);
  }

  /** No assertion on the parameters fails and no signature is rejected before the last step. */
  lemma NobodyHaltsEarly<P(!new)>(cr: Crypto<P>, client: Input, server: Input, cap: nat, w: World)
    requires Honest(cr, client, server) && Reachable(SystemFor(cr, client, server, cap), w)
    ensures w.client.main.Ready? && w.client.pc < OPERATIONS ==>
              NextOp(cr, client, Client, w.client.pc, w.client.rcvd) != Halt
    ensures w.server.main.Ready? && w.server.pc < OPERATIONS ==>
              NextOp(cr, server, Server, w.server.pc, w.server.rcvd) != Halt
  {
    var sys := SystemFor(cr, client, server, cap);
    var c, s := ClientScript(cr, client, server), ServerScript(cr, client, server);
    ProgramsRealiseScripts(cr, client, server, cap);
    ReachableInv(sys, c, s, w);
    StaysOnScript(sys.client, s, w.server, w.toClient, c, w.client);
    StaysOnScript(sys.server, c, w.client, w.toServer, s, w.server);
  }

  /** The client has received its thirteen messages once it has finished its seventeen operations. */
  lemma FinishedClientHasAll<P(!new)>(cr: Crypto<P>, client: Input, server: Input, cap: nat, w: World)
    requires Honest(cr, client, server) && Reachable(SystemFor(cr, client, server, cap), w)
    requires w.client.pc == OPERATIONS
    ensures w.client.rcvd == ServerMessages(cr, client, server)
  {
    var sys := SystemFor(cr, client, server, cap);
    var c, s := ClientScript(cr, client, server), ServerScript(cr, client, server);
    EveryReceiveGetsItsSend(cr, client, server, cap, w);
    ProgramsRealiseScripts(cr, client, server, cap);
    HonestPeers(cr, client, server);
    AllShapes(cr, client, server);
    ReachableInv(sys, c, s, w);
    assert |w.client.rcvd| == 13;
  }

  lemma SecondListAccepted<P(!new)>(cr: Crypto<P>, server: Input, list2: seq<byte>)
    requires Correct(cr.suite) && FullWidthPoint(cr.suite.publicKey(server.privateKey))
    requires FullWidthPoint(SignatureOf(cr, server, server.ephemeral2, list2))
    ensures var last := LastMessages(cr, server, list2);
      Accepts(cr, PointWire(cr.suite.publicKey(server.privateKey)), last[0], last[1], last[2], last[3])
  {
    HonestSignatureAccepted(cr.suite, server.privateKey, server.ephemeral2, UserId(server), list2);
  }

  lemma ServerMessageParts<P(!new)>(cr: Crypto<P>, client: Input, server: Input)
    ensures var ms, last := ServerMessages(cr, client, server), LastMessages(cr, server, List2(cr, client, server));
      && ms[0] == FirstMessages(cr, server)[0]
      && ms[4] == PointWire(cr.suite.publicKey(server.privateKey))
      && ms[5] == BlindedList(cr, server)
      && ms[9] == last[0] == List2(cr, client, server)
      && ms[10] == last[1] && ms[11] == last[2] && ms[12] == last[3]
  {
    var list2 := List2(cr, client, server);
    FirstMessageParts(cr, server);
    LastMessageParts(cr, server, list2);
    ThirteenParts(FirstMessages(cr, server), LastMessages(cr, server, list2));
  }

  lemma LastMessageParts<P>(cr: Crypto<P>, server: Input, list2: seq<byte>)
    ensures LastMessages(cr, server, list2)[0] == list2
  {
  }

  lemma ThirteenParts(first: seq<Msg>, last: seq<Msg>)
    requires |first| == 9 && |last| == 4
    ensures var ms := first + last;
      && ms[0] == first[0] && ms[4] == first[4] && ms[5] == first[5]
      && ms[9] == last[0] && ms[10] == last[1] && ms[11] == last[2] && ms[12] == last[3]
  {
  }

  lemma PeersReceived<P(!new)>(cr: Crypto<P>, server: Input)
    requires |server.elements| < 0x200_0000
    ensures FromLe32(FirstMessages(cr, server)[0]) == |server.elements|
  {
    FirstParameterAt(cr, server, 0);
    ParameterParts(server);
    Le32RoundTrip(U32(|server.elements|));
  }

  lemma ListsOfMessages<P(!new)>(cr: Crypto<P>, client: Input, server: Input)
    requires GoodCrypto(cr) && GoodInput(cr, client) && GoodInput(cr, server)
    ensures |BlindedList(cr, server)| == POINT * |server.elements|
    ensures |List2(cr, client, server)| == POINT * |client.elements|
    ensures Unpack(List2(cr, client, server), |client.elements|) == TwiceBlinded(cr, server.scalar, client)
    ensures ReblindAll(cr, client.scalar, Unpack(BlindedList(cr, server), |server.elements|))
            == TwiceBlinded(cr, client.scalar, server)
  {
    ReblindedListSize(cr, server, client);
    BlindedListSize(cr, server);
  }

  /** The outcome computed from the server's messages. */
  lemma OutcomeFromMessages<P(!new)>(cr: Crypto<P>, hash: KeyHash, client: Input, server: Input)
    requires Honest(cr, client, server)
    ensures var ms := ServerMessages(cr, client, server);
      && POINT * FromLe32(ms[0]) <= |ms[5]| && POINT * |client.elements| <= |ms[9]|
      && ClientOutcome(cr, hash, client, ms)
         == Joined(hash, client.elements, TwiceBlinded(cr, server.scalar, client),
                   TwiceBlinded(cr, client.scalar, server))
  {
    ServerMessageParts(cr, client, server);
    ListsOfMessages(cr, client, server);
    PeersReceived(cr, server);
    SecondListAccepted(cr, server, List2(cr, client, server));
  }

  /** The outcome of a finished client is the join of the doubly blinded records. */
  lemma FinishedOutcome<P(!new)>(cr: Crypto<P>, hash: KeyHash, client: Input, server: Input, cap: nat, w: World)
    requires Honest(cr, client, server) && Reachable(SystemFor(cr, client, server, cap), w)
    requires w.client.pc == OPERATIONS
    ensures |w.client.rcvd| == 13
    ensures var r := w.client.rcvd; POINT * FromLe32(r[0]) <= |r[5]| && POINT * |client.elements| <= |r[9]|
    ensures ClientOutcome(cr, hash, client, w.client.rcvd)
         == Joined(hash, client.elements, TwiceBlinded(cr, server.scalar, client),
                   TwiceBlinded(cr, client.scalar, server))
  {
    FinishedClientHasAll(cr, client, server, cap, w);
    OutcomeFromMessages(cr, hash, client, server);
  }

  /**
   * Whatever the interleaving, when the client finishes, its signature check passes, and its result
   * is its own elements that the server also holds, in its own order, if and only if the keys and
   * lists satisfy Delivers. Without duplicates on its side that means: no collision of keys is
   * harmful and no common element is repeated. Without harmful collisions it means: each common
   * element occurs equally often on both sides, in the order of last occurrences.
   */
  lemma ClientGetsIntersection<P(!new)>(cr: Crypto<P>, hash: KeyHash, client: Input, server: Input, cap: nat, w: World)
    requires Honest(cr, client, server) && Reachable(SystemFor(cr, client, server, cap), w)
    requires w.client.pc == OPERATIONS
    ensures |w.client.rcvd| == 13
    ensures var r := w.client.rcvd; POINT * FromLe32(r[0]) <= |r[5]| && POINT * |client.elements| <= |r[9]|
    ensures ClientOutcome(cr, hash, client, w.client.rcvd) != Rejected
    ensures var key, xs, ys := ElementKey(cr, hash, server.scalar, client.scalar), client.elements, server.elements;
      var right := ClientOutcome(cr, hash, client, w.client.rcvd) == Result(Intersect(xs, ys));
      && (right <==> Delivers(key, xs, ys))
      && (Distinct(xs) ==> (right <==> Harmless(key, xs, ys) && CommonOnce(xs, ys)))
      && (Distinct(xs) && Distinct(ys) ==> (right <==> Harmless(key, xs, ys)))
      && (Harmless(key, xs, ys) ==> (right <==> EquallyOften(xs, ys) && InLastOrder(xs, ys)))
  {
    FinishedOutcome(cr, hash, client, server, cap, w);
    JoinedExactly(cr, hash, client, server);
  }

  lemma JoinedExactly<P(!new)>(cr: Crypto<P>, hash: KeyHash, a: Input, b: Input)
    requires GoodCrypto(cr) && GoodInput(cr, a) && GoodInput(cr, b)
    ensures var key, xs, ys := ElementKey(cr, hash, b.scalar, a.scalar), a.elements, b.elements;
      var own, peer := TwiceBlinded(cr, b.scalar, a), TwiceBlinded(cr, a.scalar, b);
      var right := Joined(hash, xs, own, peer) == Result(Intersect(xs, ys));
      && Joined(hash, xs, own, peer) != Rejected
      && (right <==> Delivers(key, xs, ys))
      && (Distinct(xs) ==> (right <==> Harmless(key, xs, ys) && CommonOnce(xs, ys)))
      && (Distinct(xs) && Distinct(ys) ==> (right <==> Harmless(key, xs, ys)))
      && (Harmless(key, xs, ys) ==> (right <==> EquallyOften(xs, ys) && InLastOrder(xs, ys)))
  {
    var key, xs, ys := ElementKey(cr, hash, b.scalar, a.scalar), a.elements, b.elements;
    JoinedAreMatched(cr, hash, a, b);
    MatchedExactly(key, xs, ys);
    if Distinct(xs) {
      DistinctMatched(key, xs, ys);
    }
    if Harmless(key, xs, ys) {
      HarmlessMatched(key, xs, ys);
    }
  }

  /** The table key tells the doubly blinded records in play apart. */
  ghost predicate KeysDistinct<P(!new)>(cr: Crypto<P>, hash: KeyHash, client: Input, server: Input) {
    var own, peer := TwiceBlinded(cr, server.scalar, client), TwiceBlinded(cr, client.scalar, server);
    forall r, t :: r in own && t in peer && RecordKey(hash)(r) == RecordKey(hash)(t) ==> r == t
  }

  lemma DistinctKeysHarmless<P(!new)>(cr: Crypto<P>, hash: KeyHash, client: Input, server: Input)
    requires GoodCrypto(cr) && GoodInput(cr, client) && GoodInput(cr, server)
    requires HashInjective(cr, client.elements + server.elements) && KeysDistinct(cr, hash, client, server)
    ensures Harmless(ElementKey(cr, hash, server.scalar, client.scalar), client.elements, server.elements)
  {
    InjectiveKeyHarmless(RecordKey(hash), TwiceBlinded(cr, server.scalar, client),
                         TwiceBlinded(cr, client.scalar, server));
    RecordsHarmless(cr, hash, client, server);
  }

  lemma DistinctKeysJoined<P(!new)>(cr: Crypto<P>, hash: KeyHash, a: Input, b: Input)
    requires GoodCrypto(cr) && GoodInput(cr, a) && GoodInput(cr, b)
    requires HashInjective(cr, a.elements + b.elements) && KeysDistinct(cr, hash, a, b)
    ensures var xs, ys := a.elements, b.elements;
      var joined := Joined(hash, xs, TwiceBlinded(cr, b.scalar, a), TwiceBlinded(cr, a.scalar, b));
      && (joined == Result(Intersect(xs, ys)) <==> EquallyOften(xs, ys) && InLastOrder(xs, ys))
      && (CommonOnce(xs, ys) ==> joined == Result(Intersect(xs, ys)))
  {
    var key := ElementKey(cr, hash, b.scalar, a.scalar);
    DistinctKeysHarmless(cr, hash, a, b);
    JoinedAreMatched(cr, hash, a, b);
    HarmlessMatched(key, a.elements, b.elements);
    if CommonOnce(a.elements, b.elements) {
      HarmlessOnce(key, a.elements, b.elements);
    }
  }

  /**
   * Keys and points that tell the elements in play apart: the finished client has exactly its own
   * elements that the server also holds if and only if each of them occurs equally often on both
   * sides and in the order of last occurrences; in particular if each occurs once.
   */
  lemma DistinctKeysGiveIntersection<P(!new)>(cr: Crypto<P>, hash: KeyHash, client: Input, server: Input,
                                              cap: nat, w: World)
    requires Honest(cr, client, server) && Reachable(SystemFor(cr, client, server, cap), w)
    requires HashInjective(cr, client.elements + server.elements)
    requires KeysDistinct(cr, hash, client, server)
    requires w.client.pc == OPERATIONS
    ensures |w.client.rcvd| == 13
    ensures var r := w.client.rcvd; POINT * FromLe32(r[0]) <= |r[5]| && POINT * |client.elements| <= |r[9]|
    ensures var xs, ys := client.elements, server.elements;
      var right := ClientOutcome(cr, hash, client, w.client.rcvd) == Result(Intersect(xs, ys));
      && (right <==> EquallyOften(xs, ys) && InLastOrder(xs, ys))
      && (CommonOnce(xs, ys) ==> right)
  {
    FinishedOutcome(cr, hash, client, server, cap, w);
    DistinctKeysJoined(cr, hash, client, server);
  }

  /** With at least sixteen octets of channel nothing stops before both parties are done. */
  lemma NoDeadlock<P(!new)>(cr: Crypto<P>, client: Input, server: Input, cap: nat, w: World)
    requires Honest(cr, client, server) && cap >= 16 && Reachable(SystemFor(cr, client, server, cap), w)
    ensures Stopped(SystemFor(cr, client, server, cap), w) <==>
            Done(w, ClientScript(cr, client, server), ServerScript(cr, client, server))
  {
    ProgramsRealiseScripts(cr, client, server, cap);
    ScriptsPaced(cr, client, server, cap);
    StopsOnlyWhenDone(SystemFor(cr, client, server, cap), ClientScript(cr, client, server),
                      ServerScript(cr, client, server), w);
  }

  /** The number of octets sent in step i, given the sizes that depend on the party. */
  function SizeOfStep(i: nat, list: nat, list2: nat, half: nat, id: nat): nat {
    if i < 4 then 4 else if i < 8 then 0
    else if i == 8 then POINT else if i == 9 then list else if i < 12 then HALF else if i == 12 then 4
    else if i == 13 then list2 else if i < 16 then half else id
  }

  ghost predicate StepSizes(ops: Script, list: nat, list2: nat, half: nat, id: nat) {
    |ops| == OPERATIONS && forall i :: 0 <= i < OPERATIONS ==> |Out(ops[i])| == SizeOfStep(i, list, list2, half, id)
  }

  lemma {:induction false} ParameterSizes(ops: Script, k: nat, list: nat, list2: nat, half: nat, id: nat)
    requires k <= 8 && StepSizes(ops, list, list2, half, id)
    ensures SentLen(ops, k) == if k <= 4 then 4 * k else 16
  {
    if k == 0 {
    } else {
      ParameterSizes(ops, k - 1, list, list2, half, id);
    }
  }

  lemma SizesBySteps(ops: Script, list: nat, list2: nat, half: nat, id: nat)
    requires StepSizes(ops, list, list2, half, id)
    ensures SentLen(ops, OPERATIONS) == 148 + list + list2 + 2 * half + id
  {
    ParameterSizes(ops, 8, list, list2, half, id);
    assert SentLen(ops, 10) == 16 + POINT + list;
    assert SentLen(ops, 12) == 16 + POINT + list + 2 * HALF;
    assert SentLen(ops, 14) == 148 + list + list2;
    assert SentLen(ops, 16) == 148 + list + list2 + 2 * half;
  }

  lemma ClientStepSizes<P(!new)>(cr: Crypto<P>, client: Input, server: Input)
    requires |BlindedList(cr, client)| == POINT * |client.elements|
    ensures StepSizes(ClientScript(cr, client, server), POINT * |client.elements|, 0, 0, 0)
  {
    forall i | 0 <= i < OPERATIONS
      ensures |Out(ClientScript(cr, client, server)[i])| == SizeOfStep(i, POINT * |client.elements|, 0, 0, 0)
    {
      ClientStepSize(cr, client, server, i);
    }
  }

  lemma ClientStepSize<P(!new)>(cr: Crypto<P>, client: Input, server: Input, i: nat)
    requires |BlindedList(cr, client)| == POINT * |client.elements| && i < OPERATIONS
    ensures |Out(ClientScript(cr, client, server)[i])| == SizeOfStep(i, POINT * |client.elements|, 0, 0, 0)
  {
    ClientOuts(cr, client, server, i);
    if i < 4 {
      FirstSizes(cr, client, i);
    } else if 8 <= i < 13 {
      FirstSizes(cr, client, i - 4);
    }
  }

  lemma ServerStepSize<P(!new)>(cr: Crypto<P>, client: Input, server: Input, i: nat)
    requires i < OPERATIONS
    requires |BlindedList(cr, server)| == POINT * |server.elements|
    requires |List2(cr, client, server)| == POINT * |client.elements|
    ensures |Out(ServerScript(cr, client, server)[i])|
            == SizeOfStep(i, POINT * |server.elements|, POINT * |client.elements|, HALF, 4)
  {
    ServerOuts(cr, client, server, i);
    if i >= 8 {
      ServerMessageSize(cr, client, server, i - 4);
      LensAreSizes(client, server, i);
    } else if i < 4 {
      FirstSizes(cr, server, i);
    }
  }

  lemma LensAreSizes(client: Input, server: Input, i: nat)
    requires 8 <= i < OPERATIONS
    ensures ClientLens(client, server)[i - 4]
         == SizeOfStep(i, POINT * |server.elements|, POINT * |client.elements|, HALF, 4)
  {
  }

  lemma ServerStepSizes<P(!new)>(cr: Crypto<P>, client: Input, server: Input)
    requires |BlindedList(cr, server)| == POINT * |server.elements|
    requires |List2(cr, client, server)| == POINT * |client.elements|
    ensures StepSizes(ServerScript(cr, client, server), POINT * |server.elements|, POINT * |client.elements|, HALF, 4)
  {
    forall i | 0 <= i < OPERATIONS
      ensures |Out(ServerScript(cr, client, server)[i])|
              == SizeOfStep(i, POINT * |server.elements|, POINT * |client.elements|, HALF, 4)
    {
      ServerStepSize(cr, client, server, i);
    }
  }

  lemma TotalSizes<P(!new)>(cr: Crypto<P>, client: Input, server: Input)
    requires Honest(cr, client, server)
    ensures SentLen(ClientScript(cr, client, server), OPERATIONS) == 64 * |client.elements| + 148
    ensures SentLen(ServerScript(cr, client, server), OPERATIONS)
            == 64 * |server.elements| + 64 * |client.elements| + 216
  {
    ListSizes(cr, client, server);
    ClientStepSizes(cr, client, server);
    ServerStepSizes(cr, client, server);
    SizesBySteps(ClientScript(cr, client, server), POINT * |client.elements|, 0, 0, 0);
    SizesBySteps(ServerScript(cr, client, server), POINT * |server.elements|, POINT * |client.elements|, HALF, 4);
  }

  /** Every run is finite, with an explicit bound on its number of steps. */
  lemma EveryRunEnds<P(!new)>(cr: Crypto<P>, client: Input, server: Input, cap: nat, actions: seq<Action>)
    requires Honest(cr, client, server) && Run(SystemFor(cr, client, server, cap), actions).Some?
    ensures |actions| <= 256 * |client.elements| + 128 * |server.elements| + 932
  {
    ProgramsRealiseScripts(cr, client, server, cap);
    TotalSizes(cr, client, server);
    RunsAreBounded(SystemFor(cr, client, server, cap), ClientScript(cr, client, server),
                   ServerScript(cr, client, server), actions, Run(SystemFor(cr, client, server, cap), actions).value);
  }

  /** Every run so far can be continued until both parties are done. */
  lemma EveryRunCanFinish<P(!new)>(cr: Crypto<P>, client: Input, server: Input, cap: nat, actions: seq<Action>)
      returns (more: seq<Action>, end: World)
    requires Honest(cr, client, server) && cap >= 16 && Run(SystemFor(cr, client, server, cap), actions).Some?
    ensures actions <= more && Run(SystemFor(cr, client, server, cap), more) == Some(end)
    ensures Done(end, ClientScript(cr, client, server), ServerScript(cr, client, server))
  {
    ProgramsRealiseScripts(cr, client, server, cap);
    ScriptsPaced(cr, client, server, cap);
    more, end := CanFinish(SystemFor(cr, client, server, cap), ClientScript(cr, client, server),
                           ServerScript(cr, client, server), actions,
                           Run(SystemFor(cr, client, server, cap), actions).value);
  }

  /** At the end the byte counters of the two sockets agree, and have these values. */
  lemma CountersAtTheEnd<P(!new)>(cr: Crypto<P>, client: Input, server: Input, cap: nat, w: World)
    requires Honest(cr, client, server) && Reachable(SystemFor(cr, client, server, cap), w)
    requires Done(w, ClientScript(cr, client, server), ServerScript(cr, client, server))
    ensures w.client.bytesSent == w.server.bytesReceived == 64 * |client.elements| + 148
    ensures w.server.bytesSent == w.client.bytesReceived == 64 * |server.elements| + 64 * |client.elements| + 216
    ensures w.toServer == [] && w.toClient == []
  {
    ProgramsRealiseScripts(cr, client, server, cap);
    TotalSizes(cr, client, server);
    AtTheEnd(SystemFor(cr, client, server, cap), ClientScript(cr, client, server), ServerScript(cr, client, server), w);
  }
}
