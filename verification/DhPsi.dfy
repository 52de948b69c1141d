/**
 * The program that each party of the intersection protocol runs (src/ecdh-psi/dh-psi.cpp, with
 * exchange_information of src/util/helpers.h in front of it), as an operation per step.
 */
module DhPsi {
  import opened Bytes
  import opened Group
  import opened HashToPoint
  import opened Transport
  import opened Sm2

  /** What both parties share: the curve, the hash functions and the signature scheme. */
  datatype Crypto<!P> = Crypto(group: Group<P>, order: nat, hashTo: PointHash<P>,
                               enc: P -> seq<byte>, dec: seq<byte> -> P, suite: Suite)

  /** What one party brings along. */
  datatype Input = Input(elements: seq<seq<byte>>, scalar: nat, userId: int, privateKey: nat,
                         ephemeral: nat, ephemeral2: nat, bytelen: int, secparam: int, nthreads: int)

  const POINT: int := 64

  /** A uint32_t length: what is left of n in 32 bits. */
  function U32(n: int): (r: nat)
    ensures r < TWO_32
  {
    n % TWO_32
  }

  /* ---- Blinding ---- */

  function HashedPoint<P>(cr: Crypto<P>, e: seq<byte>): P {
    match HashPoint(cr.hashTo, e)
    case Some(p) => p
    case None => cr.group.zero
  }

  function Blinded<P>(cr: Crypto<P>, k: nat, e: seq<byte>): seq<byte> {
    cr.enc(Mul(cr.group, k, HashedPoint(cr, e)))
  }

  function Reblinded<P>(cr: Crypto<P>, k: nat, record: seq<byte>): seq<byte> {
    cr.enc(Mul(cr.group, k, cr.dec(record)))
  }

  function BlindAll<P>(cr: Crypto<P>, k: nat, es: seq<seq<byte>>): (r: seq<seq<byte>>)
    ensures |r| == |es| && forall i :: 0 <= i < |r| ==> r[i] == Blinded(cr, k, es[i])
  {
    seq(|es|, (i: int) requires 0 <= i < |es| => Blinded(cr, k, es[i]))
  }

  function ReblindAll<P>(cr: Crypto<P>, k: nat, records: seq<seq<byte>>): (r: seq<seq<byte>>)
    ensures |r| == |records| && forall i :: 0 <= i < |r| ==> r[i] == Reblinded(cr, k, records[i])
  {
    seq(|records|, (i: int) requires 0 <= i < |records| => Reblinded(cr, k, records[i]))
  }

  /** Record number i of a flat buffer. */
  function Record(buf: seq<byte>, i: nat): seq<byte>
    requires POINT * i + POINT <= |buf|
  {
    buf[POINT * i..POINT * i + POINT]
  }

  function Unpack(buf: seq<byte>, n: nat): (r: seq<seq<byte>>)
    requires POINT * n <= |buf|
    ensures |r| == n && forall i :: 0 <= i < n ==> r[i] == Record(buf, i)
  {
    seq(n, (i: int) requires 0 <= i < n => Record(buf, i))
  }

  /* ---- The messages of one party ---- */

  function UserId(me: Input): seq<byte> { Le32(U32(me.userId)) }

  /** The blinded list, as sent. */
  function BlindedList<P>(cr: Crypto<P>, me: Input): seq<byte> {
    Flatten(BlindAll(cr, me.scalar, me.elements))
  }

  /** The records of the peer blinded once more, as sent. */
  function ReblindedList<P>(cr: Crypto<P>, me: Input, list: seq<byte>, n: nat): seq<byte>
    requires POINT * n <= |list|
  {
    Flatten(ReblindAll(cr, me.scalar, Unpack(list, n)))
  }

  function SignatureOf<P>(cr: Crypto<P>, me: Input, ephemeral: nat, list: seq<byte>): Affine {
    Signature(cr.suite, me.privateKey, ephemeral, UserId(me), list)
  }

  /* ---- The program ---- */

  /** The assertions of exchange_information, on the parameters received. */
  predicate ParametersAgree(me: Input, rcvd: seq<Msg>)
    requires |rcvd| >= 4
  {
    && FromLe32(rcvd[1]) == U32(me.bytelen)
    && FromLe32(rcvd[2]) == U32(me.secparam)
    && FromLe32(rcvd[3]) == U32(me.nthreads)
  }

  /** sign_and_verify accepts: key, message, signature and identity as received. */
  predicate Accepts<P>(cr: Crypto<P>, key: Msg, list: Msg, sigX: Msg, sigY: Msg, id: Msg) {
    |key| == 64 &&
    Verifies(cr.suite, PointFromWire(key), id, list, Affine(FromBigEndian(sigX), FromBigEndian(sigY)))
  }

  function Exchanging(pc: nat, me: Input): Op {
    if pc == 0 then Send(Le32(U32(|me.elements|)))
    else if pc == 1 then Send(Le32(U32(me.bytelen)))
    else if pc == 2 then Send(Le32(U32(me.secparam)))
    else if pc == 3 then Send(Le32(U32(me.nthreads)))
    else Receive(4)
  }

  /** sign_verify_init, the blinded lists, and the first sign_and_verify; peers is pneles. */
  function FirstRound<P>(cr: Crypto<P>, me: Input, peers: nat, pc: nat): Op {
    var list := BlindedList(cr, me);
    var sig := SignatureOf(cr, me, me.ephemeral, list);
    Swap(PointWire(cr.suite.publicKey(me.privateKey)), list, Wire32(sig.x), Wire32(sig.y), UserId(me), peers, pc)
  }

  /** Each of these messages is exchanged for one of the same kind. */
  function Swap(key: Msg, list: Msg, sigX: Msg, sigY: Msg, id: Msg, peers: nat, pc: nat): Op {
    if pc == 8 then Exchange(key, POINT)
    else if pc == 9 then Exchange(list, U32(peers * POINT))
    else if pc == 10 then Exchange(sigX, HALF)
    else if pc == 11 then Exchange(sigY, HALF)
    else Exchange(id, 4)
  }

  /** The server sends the client's list blinded twice, and signs it. */
  function SecondRoundServer<P>(cr: Crypto<P>, me: Input, list2: seq<byte>, pc: nat): Op {
    var sig := SignatureOf(cr, me, me.ephemeral2, list2);
    if pc == 13 then SendAndJoin(list2)
    else if pc == 14 then SendAndJoin(Wire32(sig.x))
    else if pc == 15 then SendAndJoin(Wire32(sig.y))
    else SendAndJoin(UserId(me))
  }

  function SecondRoundClient(me: Input, pc: nat): Op {
    if pc == 13 then Receive(U32(|me.elements| * POINT))
    else if pc == 14 || pc == 15 then Receive(HALF)
    else Receive(4)
  }

  const OPERATIONS: int := 17

  /**
   * The next operation of a party in step pc, computed from what it has received. It halts at the
   * end, when an assertion on the parameters fails, and when it rejects the peer's signature.
   */
  function NextOp<P>(cr: Crypto<P>, me: Input, role: Who, pc: nat, rcvd: seq<Msg>): Op {
    if pc < 8 then Exchanging(pc, me)
    else if pc >= OPERATIONS then Halt
    else if |rcvd| < 4 || !ParametersAgree(me, rcvd) then Halt
    else
      var peers := FromLe32(rcvd[0]);
      if pc < 13 then FirstRound(cr, me, peers, pc)
      else if |rcvd| < 9 || !Accepts(cr, rcvd[4], rcvd[5], rcvd[6], rcvd[7], rcvd[8]) then Halt
      else if role.Client? then SecondRoundClient(me, pc)
      else if POINT * peers > |rcvd[5]| then Halt
      else SecondRoundServer(cr, me, ReblindedList(cr, me, rcvd[5], peers), pc)
  }

  function ProgramFor<P>(cr: Crypto<P>, me: Input, role: Who): Program {
    (pc: nat, rcvd: seq<Msg>) => NextOp(cr, me, role, pc, rcvd)
  }

  function SystemFor<P>(cr: Crypto<P>, client: Input, server: Input, capacity: nat): System {
    System(ProgramFor(cr, client, Client), ProgramFor(cr, server, Server), capacity)
  }

  /* ---- The scripts of an honest run ---- */

  /** The messages of exchange_information. */
  function Parameters(me: Input): (r: seq<Msg>)
    ensures |r| == 4
  {
    [Le32(U32(|me.elements|)), Le32(U32(me.bytelen)), Le32(U32(me.secparam)), Le32(U32(me.nthreads))]
  }

  /** Parameters, public key, list, signature and identity. */
  function Nine(params: seq<Msg>, key: Msg, list: Msg, sigX: Msg, sigY: Msg, id: Msg): (r: seq<Msg>)
    requires |params| == 4
    ensures |r| == 9
  {
    params + [key, list, sigX, sigY, id]
  }

  /** The first nine messages of a party. */
  function FirstMessages<P>(cr: Crypto<P>, me: Input): (r: seq<Msg>)
    ensures |r| == 9
  {
    var list := BlindedList(cr, me);
    var sig := SignatureOf(cr, me, me.ephemeral, list);
    Nine(Parameters(me), PointWire(cr.suite.publicKey(me.privateKey)), list, Wire32(sig.x), Wire32(sig.y), UserId(me))
  }

  /** The four further messages of the server. */
  function LastMessages<P>(cr: Crypto<P>, server: Input, list2: seq<byte>): (r: seq<Msg>)
    ensures |r| == 4
  {
    var sig := SignatureOf(cr, server, server.ephemeral2, list2);
    [list2, Wire32(sig.x), Wire32(sig.y), UserId(server)]
  }

  function ClientLens(client: Input, server: Input): seq<nat> {
    [4, 4, 4, 4, POINT, POINT * |server.elements|, HALF, HALF, 4, POINT * |client.elements|, HALF, HALF, 4]
  }

  function ServerLens(client: Input): seq<nat> {
    [4, 4, 4, 4, POINT, POINT * |client.elements|, HALF, HALF, 4]
  }

  /** The client's list as the server blinds and sends it; without whole records there is none. */
  function List2<P>(cr: Crypto<P>, client: Input, server: Input): seq<byte> {
    var list := BlindedList(cr, client);
    if POINT * |client.elements| <= |list| then ReblindedList(cr, server, list, |client.elements|) else []
  }

  function ClientScript<P>(cr: Crypto<P>, client: Input, server: Input): (r: Script)
    ensures |r| == OPERATIONS
  {
    seq(OPERATIONS, (pc: int) requires 0 <= pc < OPERATIONS =>
      if pc < 8 then Exchanging(pc, client)
      else if pc < 13 then FirstRound(cr, client, |server.elements|, pc)
      else SecondRoundClient(client, pc))
  }

  function ServerScript<P>(cr: Crypto<P>, client: Input, server: Input): (r: Script)
    ensures |r| == OPERATIONS
  {
    var list2 := List2(cr, client, server);
    seq(OPERATIONS, (pc: int) requires 0 <= pc < OPERATIONS =>
      if pc < 8 then Exchanging(pc, server)
      else if pc < 13 then FirstRound(cr, server, |client.elements|, pc)
      else SecondRoundServer(cr, server, list2, pc))
  }

  /* ---- What is assumed ---- */

  /** The curve: a group of prime order, points other than infinity encoded in 64 octets. */
  ghost predicate GoodCrypto<P(!new)>(cr: Crypto<P>) {
    && PrimeOrder(cr.group, cr.order)
    && (forall p :: p != cr.group.zero ==> |cr.enc(p)| == POINT && cr.dec(cr.enc(p)) == p)
    && Correct(cr.suite)
  }

  /** Elements are fewer than 2^25 and hash to finite points; the scalar is not a multiple of the order. */
  ghost predicate GoodInput<P(!new)>(cr: Crypto<P>, me: Input) {
    && |me.elements| < 0x200_0000
    && cr.order > 0 && me.scalar % cr.order != 0
    && forall e :: e in me.elements ==>
         HashPoint(cr.hashTo, e).Some? && HashPoint(cr.hashTo, e).value != cr.group.zero
  }

  ghost predicate SameParameters(client: Input, server: Input) {
    && U32(client.bytelen) == U32(server.bytelen)
    && U32(client.secparam) == U32(server.secparam)
    && U32(client.nthreads) == U32(server.nthreads)
  }

  /** Public keys and signature values whose top words are not zero, so that 32 octets are sent. */
  ghost predicate FullWidthValues<P(!new)>(cr: Crypto<P>, client: Input, server: Input) {
    && FullWidthPoint(cr.suite.publicKey(client.privateKey))
    && FullWidthPoint(cr.suite.publicKey(server.privateKey))
    && FullWidthPoint(SignatureOf(cr, client, client.ephemeral, BlindedList(cr, client)))
    && FullWidthPoint(SignatureOf(cr, server, server.ephemeral, BlindedList(cr, server)))
    && FullWidthPoint(SignatureOf(cr, server, server.ephemeral2, List2(cr, client, server)))
  }

  ghost predicate Honest<P(!new)>(cr: Crypto<P>, client: Input, server: Input) {
    && GoodCrypto(cr) && GoodInput(cr, client) && GoodInput(cr, server)
    && SameParameters(client, server) && FullWidthValues(cr, client, server)
  }
}
