/** What every reachable state keeps: messages arrive in order and unchanged, bytes are conserved. */
module Delivery {
  import opened Wrappers
  import opened Transport

  /** The lengths of the messages that p has completely received. */
  ghost function Completed(ops: Script, p: Party): seq<nat>
    requires p.pc <= |ops|
  {
    Lens(ops, p.pc) + if p.main.Joining? && p.op.Exchange? then [p.op.len] else []
  }

  ghost predicate Phase(p: Party) {
    && (p.main.Calling? ==> p.op.Send? && p.sender.Writing?)
    && (p.main.Receiving? ==> HasIn(p.op) && |p.main.got| <= p.op.len && (p.sender.Idle? <==> p.op.Receive?))
    && (p.main.Joining? ==> (p.op.Exchange? || p.op.SendAndJoin?) && !p.sender.Idle?)
    && (p.sender.Writing? ==> |p.sender.rest| <= |Out(p.op)|
                              && p.sender.rest == Out(p.op)[|Out(p.op)| - |p.sender.rest|..])
  }

  ghost predicate PartyInv(ops: Script, p: Party) {
    && p.pc <= |ops|
    && (p.main.Ready? ==> p.sender.Idle?)
    && (!p.main.Ready? ==> p.pc < |ops| && p.op == ops[p.pc] && Phase(p))
    && |p.rcvd| == |Completed(ops, p)|
    && (forall i :: 0 <= i < |p.rcvd| ==> |p.rcvd[i]| == Completed(ops, p)[i])
    && p.bytesReceived == |Flatten(p.rcvd)|
    && p.bytesReceived == RecvLen(ops, p.pc) + (if p.main.Joining? then InLen(p.op) else 0)
    && p.bytesSent == SentLen(ops, p.pc) + (if p.sender.Writing? || p.sender.Exited? then |Out(p.op)| else 0)
  }

  /** What p has written of its current operation. */
  ghost function Partial(p: Party): Msg {
    match p.sender
    case Writing(rest) => if |rest| <= |Out(p.op)| then Out(p.op)[..|Out(p.op)| - |rest|] else []
    case Exited => Out(p.op)
    case _ => []
  }

  ghost function Got(p: Party): Msg { if p.main.Receiving? then p.main.got else [] }

  /** Every byte that p has put into its channel. */
  ghost function Written(ops: Script, p: Party): Msg
    requires p.pc <= |ops|
  {
    Flatten(Sends(ops, p.pc)) + Partial(p)
  }

  /** Every byte that p has taken out of its channel. */
  ghost function Consumed(p: Party): Msg { Flatten(p.rcvd) + Got(p) }

  ghost predicate Inv(sys: System, c: Script, s: Script, w: World) {
    && PartyInv(c, w.client) && PartyInv(s, w.server)
    && Written(c, w.client) == Consumed(w.server) + w.toServer
    && Written(s, w.server) == Consumed(w.client) + w.toClient
    && |w.toServer| <= sys.capacity && |w.toClient| <= sys.capacity
  }

  lemma FlattenSnoc(ms: seq<Msg>, m: Msg)
    ensures Flatten(ms + [m]) == Flatten(ms) + m
  {
    assert (ms + [m])[..|ms|] == ms;
  }

  lemma SendsStep(ops: Script, k: nat)
    requires k < |ops|
    ensures Flatten(Sends(ops, k + 1)) == Flatten(Sends(ops, k)) + Out(ops[k])
  {
    if HasOut(ops[k]) {
      FlattenSnoc(Sends(ops, k), Out(ops[k]));
    } else {
      assert Sends(ops, k + 1) == Sends(ops, k);
    }
  }

  ghost function Chunk(v: View, ev: Event): Msg {
    if ev.Write? && v.me.sender.Writing? && ev.n <= |v.me.sender.rest| then v.me.sender.rest[..ev.n] else []
  }

  /** The program's next operation is the script's. */
  ghost predicate OnScript(prog: Program, ops: Script, p: Party) {
    p.main.Ready? ==>
      if p.pc < |ops| then prog(p.pc, p.rcvd) == ops[p.pc] && ops[p.pc] != Halt
      else p.pc == |ops| && prog(p.pc, p.rcvd) == Halt
  }

  lemma PartyInvByReceived(prog: Program, cap: nat, ops: Script, v: View)
    requires Enabled(prog, cap, v, Received) && PartyInv(ops, v.me)
    ensures PartyInv(ops, Apply(prog, cap, v, Received).me)
  {
    FlattenSnoc(v.me.rcvd, v.me.main.got);
    if v.me.op.Exchange? {
      PartyInvByExchanged(prog, cap, ops, v);
    } else {
      PartyInvByReceive(prog, cap, ops, v);
    }
  }

  lemma PartyInvByExchanged(prog: Program, cap: nat, ops: Script, v: View)
    requires Enabled(prog, cap, v, Received) && PartyInv(ops, v.me) && v.me.op.Exchange?
    requires Flatten(v.me.rcvd + [v.me.main.got]) == Flatten(v.me.rcvd) + v.me.main.got
    ensures PartyInv(ops, Apply(prog, cap, v, Received).me)
  {
  }

  lemma PartyInvByReceive(prog: Program, cap: nat, ops: Script, v: View)
    requires Enabled(prog, cap, v, Received) && PartyInv(ops, v.me) && v.me.op.Receive?
    requires Flatten(v.me.rcvd + [v.me.main.got]) == Flatten(v.me.rcvd) + v.me.main.got
    ensures PartyInv(ops, Apply(prog, cap, v, Received).me)
  {
  }

  lemma SuffixOfSuffix(out: Msg, rest: Msg, n: nat)
    requires |rest| <= |out| && rest == out[|out| - |rest|..] && n <= |rest|
    ensures rest[n..] == out[|out| - |rest[n..]|..]
  {
  }

  lemma PartyInvByWrite(prog: Program, cap: nat, ops: Script, v: View, n: nat)
    requires Enabled(prog, cap, v, Write(n)) && PartyInv(ops, v.me)
    ensures PartyInv(ops, Apply(prog, cap, v, Write(n)).me)
  {
    SuffixOfSuffix(Out(v.me.op), v.me.sender.rest, n);
  }

  lemma PartyInvByEnter(prog: Program, cap: nat, ops: Script, v: View)
    requires Enabled(prog, cap, v, Enter) && PartyInv(ops, v.me)
    ensures PartyInv(ops, Apply(prog, cap, v, Enter).me)
  {
  }

  lemma PartyInvByExit(prog: Program, cap: nat, ops: Script, v: View)
    requires Enabled(prog, cap, v, Exit) && PartyInv(ops, v.me)
    ensures PartyInv(ops, Apply(prog, cap, v, Exit).me)
  {
  }

  lemma PartyInvByRead(prog: Program, cap: nat, ops: Script, v: View, n: nat)
    requires Enabled(prog, cap, v, Read(n)) && PartyInv(ops, v.me)
    ensures PartyInv(ops, Apply(prog, cap, v, Read(n)).me)
  {
  }

  lemma PartyInvByEnd(prog: Program, cap: nat, ops: Script, v: View, ev: Event)
    requires Enabled(prog, cap, v, ev) && PartyInv(ops, v.me) && (ev.Return? || ev.JoinThread?)
    ensures PartyInv(ops, Apply(prog, cap, v, ev).me)
  {
  }

  lemma PartyInvByStart(prog: Program, cap: nat, ops: Script, v: View)
    requires Enabled(prog, cap, v, Start) && PartyInv(ops, v.me) && OnScript(prog, ops, v.me)
    ensures PartyInv(ops, Apply(prog, cap, v, Start).me)
  {
  }

  lemma PartyInvKept(prog: Program, cap: nat, ops: Script, v: View, ev: Event)
    requires Enabled(prog, cap, v, ev) && PartyInv(ops, v.me) && OnScript(prog, ops, v.me)
    ensures PartyInv(ops, Apply(prog, cap, v, ev).me)
  {
    match ev
    case Start => PartyInvByStart(prog, cap, ops, v);
    case Enter => PartyInvByEnter(prog, cap, ops, v);
    case Write(n) => PartyInvByWrite(prog, cap, ops, v, n);
    case Exit => PartyInvByExit(prog, cap, ops, v);
    case Read(n) => PartyInvByRead(prog, cap, ops, v, n);
    case Received => PartyInvByReceived(prog, cap, ops, v);
    case Return => PartyInvByEnd(prog, cap, ops, v, ev);
    case JoinThread => PartyInvByEnd(prog, cap, ops, v, ev);
  }

  lemma WrittenByWrite(prog: Program, cap: nat, ops: Script, v: View, n: nat)
    requires Enabled(prog, cap, v, Write(n)) && PartyInv(ops, v.me)
    ensures Partial(Apply(prog, cap, v, Write(n)).me) == Partial(v.me) + Chunk(v, Write(n))
  {
    var out, rest := Out(v.me.op), v.me.sender.rest;
    assert out[..|out| - |rest|] + rest[..n] == out[..|out| - |rest[n..]|];
  }

  /** Events after which the operation is over. */
  predicate Finishes(p: Party, ev: Event) {
    ev.Return? || ev.JoinThread? || (ev.Received? && p.op.Receive?)
  }

  /** An operation ends only when all it has to send is in the channel. */
  lemma NothingLeftToWrite(prog: Program, cap: nat, ops: Script, v: View, ev: Event)
    requires Enabled(prog, cap, v, ev) && PartyInv(ops, v.me) && Finishes(v.me, ev)
    ensures v.me.pc < |ops| && Partial(v.me) == Out(ops[v.me.pc])
  {
  }

  lemma FinishMovesOn(prog: Program, cap: nat, v: View, ev: Event)
    requires Enabled(prog, cap, v, ev) && Finishes(v.me, ev)
    ensures var v' := Apply(prog, cap, v, ev);
      v'.me.pc == v.me.pc + 1 && Partial(v'.me) == [] && v'.outq == v.outq
  {
  }

  lemma WrittenByFinish(prog: Program, cap: nat, ops: Script, v: View, ev: Event)
    requires Enabled(prog, cap, v, ev) && PartyInv(ops, v.me) && Finishes(v.me, ev)
    ensures var v' := Apply(prog, cap, v, ev);
      && v'.me.pc == v.me.pc + 1 <= |ops| && Partial(v'.me) == [] && v'.outq == v.outq
      && Flatten(Sends(ops, v.me.pc + 1)) == Written(ops, v.me)
  {
    NothingLeftToWrite(prog, cap, ops, v, ev);
    FinishMovesOn(prog, cap, v, ev);
    SendsStep(ops, v.me.pc);
  }

  lemma WrittenByOthers(prog: Program, cap: nat, ops: Script, v: View, ev: Event)
    requires Enabled(prog, cap, v, ev) && PartyInv(ops, v.me) && !Finishes(v.me, ev) && !ev.Write?
    ensures var v' := Apply(prog, cap, v, ev);
      v'.me.pc == v.me.pc && Partial(v'.me) == Partial(v.me) && v'.outq == v.outq
  {
  }

  /** What a step writes goes to the end of the channel. */
  ghost predicate WritesChunk(prog: Program, cap: nat, ops: Script, v: View, ev: Event)
    requires Enabled(prog, cap, v, ev) && v.me.pc <= |ops|
  {
    var v' := Apply(prog, cap, v, ev);
    && v'.me.pc <= |ops|
    && Written(ops, v'.me) == Written(ops, v.me) + Chunk(v, ev)
    && v'.outq == v.outq + Chunk(v, ev)
    && (|v.outq| <= cap ==> |v'.outq| <= cap)
  }

  lemma WritesByWrite(prog: Program, cap: nat, ops: Script, v: View, n: nat)
    requires Enabled(prog, cap, v, Write(n)) && PartyInv(ops, v.me)
    ensures WritesChunk(prog, cap, ops, v, Write(n))
  {
    WrittenByWrite(prog, cap, ops, v, n);
    JoinPartial(Flatten(Sends(ops, v.me.pc)), Partial(v.me), Chunk(v, Write(n)));
  }

  lemma JoinPartial(sent: Msg, partial: Msg, chunk: Msg)
    ensures sent + (partial + chunk) == sent + partial + chunk
  {
  }

  lemma WritesByFinish(prog: Program, cap: nat, ops: Script, v: View, ev: Event)
    requires Enabled(prog, cap, v, ev) && PartyInv(ops, v.me) && Finishes(v.me, ev)
    ensures WritesChunk(prog, cap, ops, v, ev)
  {
    WrittenByFinish(prog, cap, ops, v, ev);
    assert Written(ops, Apply(prog, cap, v, ev).me) == Flatten(Sends(ops, v.me.pc + 1)) + [];
  }

  lemma WritesByOthers(prog: Program, cap: nat, ops: Script, v: View, ev: Event)
    requires Enabled(prog, cap, v, ev) && PartyInv(ops, v.me) && !Finishes(v.me, ev) && !ev.Write?
    ensures WritesChunk(prog, cap, ops, v, ev)
  {
    WrittenByOthers(prog, cap, ops, v, ev);
  }

  /** A step of a party writes to the end of one channel ... */
  lemma WrittenKept(prog: Program, cap: nat, ops: Script, v: View, ev: Event)
    requires Enabled(prog, cap, v, ev) && PartyInv(ops, v.me) && OnScript(prog, ops, v.me)
    ensures PartyInv(ops, Apply(prog, cap, v, ev).me) && WritesChunk(prog, cap, ops, v, ev)
  {
    PartyInvKept(prog, cap, ops, v, ev);
    if ev.Write? {
      WritesByWrite(prog, cap, ops, v, ev.n);
    } else if Finishes(v.me, ev) {
      WritesByFinish(prog, cap, ops, v, ev);
    } else {
      WritesByOthers(prog, cap, ops, v, ev);
    }
  }

  /** What a step takes comes from the front of the channel. */
  ghost predicate TakesFront(prog: Program, cap: nat, v: View, ev: Event)
    requires Enabled(prog, cap, v, ev)
  {
    var v' := Apply(prog, cap, v, ev);
    Consumed(v'.me) + v'.inq == Consumed(v.me) + v.inq && |v'.inq| <= |v.inq|
  }

  lemma MoveFront(taken: Msg, got: Msg, inq: Msg, n: nat)
    requires n <= |inq|
    ensures taken + (got + inq[..n]) + inq[n..] == taken + got + inq
  {
    assert inq == inq[..n] + inq[n..];
  }

  lemma ConsumedByRead(prog: Program, cap: nat, v: View, n: nat)
    requires Enabled(prog, cap, v, Read(n))
    ensures TakesFront(prog, cap, v, Read(n))
  {
    MoveFront(Flatten(v.me.rcvd), v.me.main.got, v.inq, n);
  }

  lemma ConsumedByReceived(prog: Program, cap: nat, v: View)
    requires Enabled(prog, cap, v, Received)
    ensures TakesFront(prog, cap, v, Received)
  {
    FlattenSnoc(v.me.rcvd, v.me.main.got);
    assert Consumed(Apply(prog, cap, v, Received).me) == Flatten(v.me.rcvd + [v.me.main.got]) + [];
  }

  lemma ConsumedByOthers(prog: Program, cap: nat, v: View, ev: Event)
    requires Enabled(prog, cap, v, ev) && !ev.Read? && !ev.Received?
    ensures var v' := Apply(prog, cap, v, ev);
      v'.me.rcvd == v.me.rcvd && Got(v'.me) == Got(v.me) && v'.inq == v.inq
  {
  }

  /** ... and takes from the front of the other. */
  lemma ConsumedKept(prog: Program, cap: nat, v: View, ev: Event)
    requires Enabled(prog, cap, v, ev)
    ensures TakesFront(prog, cap, v, ev)
  {
    match ev
    case Read(n) => ConsumedByRead(prog, cap, v, n);
    case Received => ConsumedByReceived(prog, cap, v);
    case _ => ConsumedByOthers(prog, cap, v, ev);
  }

  lemma {:induction false} FlattenPrefix(ms: seq<Msg>, k: nat)
    requires k <= |ms|
    ensures Flatten(ms[..k]) <= Flatten(ms)
  {
    if k < |ms| {
      FlattenPrefix(ms[..|ms| - 1], k);
      assert ms[..|ms| - 1][..k] == ms[..k];
    } else {
      assert ms[..k] == ms;
    }
  }

  /** A stream of messages of known lengths can be cut in one way only. */
  lemma {:induction false} SplitUnique(xs: seq<Msg>, ms: seq<Msg>)
    requires |xs| <= |ms| && forall i :: 0 <= i < |xs| ==> |xs[i]| == |ms[i]|
    requires Flatten(xs) <= Flatten(ms)
    ensures xs == ms[..|xs|]
  {
    if xs == [] {
    } else {
      var k := |xs| - 1;
      var init, last := xs[..k], xs[k];
      assert Flatten(xs) == Flatten(init) + last;
      assert Flatten(init) <= Flatten(xs);
      SplitUnique(init, ms);
      FlattenPrefix(ms, k + 1);
      assert ms[..k + 1][..k] == ms[..k];
      assert Flatten(ms[..k + 1]) == Flatten(init) + ms[k];
      SamePrefix(Flatten(init), last, ms[k], Flatten(ms));
    }
  }

  lemma SamePrefix(a: Msg, x: Msg, y: Msg, whole: Msg)
    requires |x| == |y| && a + x <= whole && a + y <= whole
    ensures x == y
  {
    assert x == whole[|a|..|a| + |x|];
    assert y == whole[|a|..|a| + |y|];
  }

  lemma {:induction false} SendsPrefix(ops: Script, k: nat, m: nat)
    requires k <= m <= |ops|
    ensures Sends(ops, k) <= Sends(ops, m)
  {
    if k == m {
    } else {
      SendsPrefix(ops, k, m - 1);
    }
  }

  lemma {:induction false} LensPrefix(ops: Script, k: nat, m: nat)
    requires k <= m <= |ops|
    ensures Lens(ops, k) <= Lens(ops, m)
  {
    if k == m {
    } else {
      LensPrefix(ops, k, m - 1);
    }
  }

  lemma LensStep(ops: Script, k: nat)
    requires k < |ops| && ops[k].Exchange?
    ensures Lens(ops, k + 1) == Lens(ops, k) + [ops[k].len]
  {
  }

  lemma CompletedIsLens(ops: Script, p: Party)
    requires p.pc <= |ops| && (p.main.Joining? ==> p.pc < |ops| && p.op == ops[p.pc])
    ensures exists k: nat :: k <= |ops| && Completed(ops, p) == Lens(ops, k)
  {
    var k := p.pc;
    if p.main.Joining? && p.op.Exchange? {
      LensStep(ops, k);
      k := k + 1;
    }
    assert Completed(ops, p) == Lens(ops, k);
  }

  lemma CompletedPrefix(ops: Script, p: Party)
    requires p.pc <= |ops| && (p.main.Joining? ==> p.pc < |ops| && p.op == ops[p.pc])
    ensures Completed(ops, p) <= Lens(ops, |ops|)
  {
    CompletedIsLens(ops, p);
    var k: nat :| k <= |ops| && Completed(ops, p) == Lens(ops, k);
    LensPrefix(ops, k, |ops|);
  }

  lemma FlattenSendsPrefix(ops: Script, k: nat)
    requires k <= |ops|
    ensures Flatten(Sends(ops, k)) <= Flatten(AllSends(ops))
  {
    SendsPrefix(ops, k, |ops|);
    assert AllSends(ops)[..|Sends(ops, k)|] == Sends(ops, k);
    FlattenPrefix(AllSends(ops), |Sends(ops, k)|);
  }

  lemma PartialIsPrefix(ops: Script, p: Party)
    requires PartyInv(ops, p)
    ensures if p.pc < |ops| then Partial(p) <= Out(ops[p.pc]) else Partial(p) == []
  {
  }

  lemma WrittenPrefix(ops: Script, p: Party)
    requires PartyInv(ops, p)
    ensures Written(ops, p) <= Flatten(AllSends(ops))
  {
    FlattenSendsPrefix(ops, p.pc);
    PartialIsPrefix(ops, p);
    if p.pc < |ops| {
      FlattenSendsPrefix(ops, p.pc + 1);
      SendsStep(ops, p.pc);
    }
  }

  /** One direction: all that y has completely received are the first messages of x, in order. */
  lemma Delivered(x: Script, px: Party, ch: Msg, y: Script, py: Party)
    requires PartyInv(x, px) && PartyInv(y, py) && LengthsAgree(x, y)
    requires Written(x, px) == Consumed(py) + ch
    ensures |py.rcvd| <= |AllSends(x)| && py.rcvd == AllSends(x)[..|py.rcvd|]
  {
    WrittenPrefix(x, px);
    CompletedPrefix(y, py);
    assert Flatten(py.rcvd) <= Written(x, px);
    SplitUnique(py.rcvd, AllSends(x));
  }

  lemma StaysOnScript(prog: Program, x: Script, px: Party, ch: Msg, y: Script, py: Party)
    requires PartyInv(x, px) && PartyInv(y, py) && LengthsAgree(x, y) && Follows(prog, y, AllSends(x))
    requires Written(x, px) == Consumed(py) + ch
    ensures OnScript(prog, y, py)
  {
    Delivered(x, px, ch, y, py);
    LensPrefix(y, py.pc, |y|);
    if py.main.Ready? && py.pc == |y| {
      assert py.rcvd == AllSends(x);
    } else if py.main.Ready? {
      assert FollowsAt(prog, y, AllSends(x), py.pc);
    }
  }

  lemma InvInitial(sys: System, c: Script, s: Script)
    ensures Inv(sys, c, s, INITIAL)
  {
  }

  /** The invariant seen from the party that acts; o is the other one. */
  ghost predicate InvView(cap: nat, mine: Script, v: View, yours: Script, o: Party) {
    && PartyInv(mine, v.me) && PartyInv(yours, o)
    && Written(mine, v.me) == Consumed(o) + v.outq
    && Written(yours, o) == Consumed(v.me) + v.inq
    && |v.outq| <= cap && |v.inq| <= cap
  }

  lemma AppendAssoc(written: Msg, consumed: Msg, inFlight: Msg, chunk: Msg)
    requires written == consumed + inFlight
    ensures written + chunk == consumed + (inFlight + chunk)
  {
  }

  lemma FlowKept(cap: nat, mine: Script, v: View, v': View, chunk: Msg, yours: Script, o: Party)
    requires InvView(cap, mine, v, yours, o) && PartyInv(mine, v'.me)
    requires Written(mine, v'.me) == Written(mine, v.me) + chunk && v'.outq == v.outq + chunk
    requires Consumed(v'.me) + v'.inq == Consumed(v.me) + v.inq
    requires |v'.outq| <= cap && |v'.inq| <= |v.inq|
    ensures InvView(cap, mine, v', yours, o)
  {
    AppendAssoc(Written(mine, v.me), Consumed(o), v.outq, chunk);
  }

  lemma InvViewKept(prog: Program, cap: nat, mine: Script, v: View, ev: Event, yours: Script, o: Party)
    requires InvView(cap, mine, v, yours, o) && OnScript(prog, mine, v.me) && Enabled(prog, cap, v, ev)
    ensures InvView(cap, mine, Apply(prog, cap, v, ev), yours, o)
  {
    WrittenKept(prog, cap, mine, v, ev);
    ConsumedKept(prog, cap, v, ev);
    FlowKept(cap, mine, v, Apply(prog, cap, v, ev), Chunk(v, ev), yours, o);
  }

  lemma InvStep(sys: System, c: Script, s: Script, w: World, who: Who, ev: Event)
    requires Realises(sys, c, s) && Inv(sys, c, s, w) && CanStep(sys, w, who, ev)
    ensures Inv(sys, c, s, Step(sys, w, who, ev))
  {
    match who
    case Client =>
      StaysOnScript(sys.client, s, w.server, w.toClient, c, w.client);
      InvViewKept(sys.client, sys.capacity, c, ViewOf(w, Client), ev, s, w.server);
    case Server =>
      StaysOnScript(sys.server, c, w.client, w.toServer, s, w.server);
      InvViewKept(sys.server, sys.capacity, s, ViewOf(w, Server), ev, c, w.client);
  }

  lemma {:induction false} InvRun(sys: System, c: Script, s: Script, actions: seq<Action>, w: World)
    requires Realises(sys, c, s) && Run(sys, actions) == Some(w)
    ensures Inv(sys, c, s, w)
  {
    if actions != [] {
      var last := actions[|actions| - 1];
      var before := Run(sys, actions[..|actions| - 1]).value;
      InvRun(sys, c, s, actions[..|actions| - 1], before);
      InvStep(sys, c, s, before, last.who, last.ev);
    } else {
      InvInitial(sys, c, s);
    }
  }

  lemma ReachableInv(sys: System, c: Script, s: Script, w: World)
    requires Realises(sys, c, s) && Reachable(sys, w)
    ensures Inv(sys, c, s, w)
  {
    var actions :| Run(sys, actions) == Some(w);
    InvRun(sys, c, s, actions, w);
  }

  /**
   * In every reachable state, whatever the interleaving and the chunks of recv, the k-th message
   * that a party has received is the k-th message of the other one.
   */
  lemma MessagesArriveInOrder(sys: System, c: Script, s: Script, w: World)
    requires Realises(sys, c, s) && Reachable(sys, w)
    ensures |w.client.rcvd| <= |AllSends(s)| && w.client.rcvd == AllSends(s)[..|w.client.rcvd|]
    ensures |w.server.rcvd| <= |AllSends(c)| && w.server.rcvd == AllSends(c)[..|w.server.rcvd|]
  {
    ReachableInv(sys, c, s, w);
    Delivered(s, w.server, w.toClient, c, w.client);
    Delivered(c, w.client, w.toServer, s, w.server);
  }
}
