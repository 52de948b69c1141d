/** No run gets stuck and every run ends; bytes are accounted for at each moment. */
module Progress {
  import opened Wrappers
  import opened Transport
  import opened Delivery

  /**
   * The pace that the two scripts keep: operation number k never waits for more than the other
   * party sends in its operations up to k, a sender thread never has to write more than the other
   * party receives by then, and what the main thread sends by itself fits into the channel.
   */
  ghost predicate Paced(x: Script, y: Script, cap: nat) {
    && |x| == |y|
    && forall k {:trigger x[k]} :: 0 <= k < |x| ==>
      && (HasIn(x[k]) ==> RecvLen(x, k + 1) <= SentLen(y, k + 1))
      && (x[k].Exchange? || x[k].SendAndJoin? ==> SentLen(x, k + 1) <= RecvLen(y, k + 1))
      && (x[k].Send? ==> SentLen(x, k + 1) <= cap)
  }

  lemma {:induction false} SizeOfSends(ops: Script, k: nat)
    requires k <= |ops|
    ensures |Flatten(Sends(ops, k))| == SentLen(ops, k)
  {
    if k == 0 {
    } else {
      SizeOfSends(ops, k - 1);
      SendsStep(ops, k - 1);
    }
  }

  lemma SizeWritten(ops: Script, p: Party)
    requires PartyInv(ops, p)
    ensures |Written(ops, p)| == SentLen(ops, p.pc) + |Partial(p)|
  {
    SizeOfSends(ops, p.pc);
  }

  lemma SizeConsumed(ops: Script, p: Party)
    requires PartyInv(ops, p)
    ensures |Consumed(p)| == p.bytesReceived + |Got(p)|
  {
  }

  /* ---- Byte counters ---- */

  ghost function Unwritten(p: Party): Msg { if p.sender.Writing? then p.sender.rest else [] }

  /**
   * Mid-run accounting: what x has announced is what y has counted, plus what y is still
   * collecting, plus what is in the channel, plus what x has not written yet.
   */
  lemma BytesAccounted(sys: System, c: Script, s: Script, w: World)
    requires Realises(sys, c, s) && Reachable(sys, w)
    ensures w.client.bytesSent == w.server.bytesReceived + |Got(w.server)| + |w.toServer| + |Unwritten(w.client)|
    ensures w.server.bytesSent == w.client.bytesReceived + |Got(w.client)| + |w.toClient| + |Unwritten(w.server)|
  {
    ReachableInv(sys, c, s, w);
    SizeWritten(c, w.client);
    SizeWritten(s, w.server);
    SizeConsumed(c, w.client);
    SizeConsumed(s, w.server);
  }

  function Sum(ns: seq<nat>): nat {
    if ns == [] then 0 else Sum(ns[..|ns| - 1]) + ns[|ns| - 1]
  }

  lemma {:induction false} SumOfLens(ops: Script, k: nat)
    requires k <= |ops|
    ensures Sum(Lens(ops, k)) == RecvLen(ops, k)
  {
    if k == 0 {
    } else {
      SumOfLens(ops, k - 1);
      if HasIn(ops[k - 1]) {
        assert Lens(ops, k)[..|Lens(ops, k)| - 1] == Lens(ops, k - 1);
      } else {
        assert Lens(ops, k) == Lens(ops, k - 1);
      }
    }
  }

  lemma {:induction false} SumOfSizes(ms: seq<Msg>, ns: seq<nat>)
    requires |ms| == |ns| && forall i :: 0 <= i < |ms| ==> |ms[i]| == ns[i]
    ensures |Flatten(ms)| == Sum(ns)
  {
    if ms == [] {
    } else {
      SumOfSizes(ms[..|ms| - 1], ns[..|ns| - 1]);
    }
  }

  lemma TotalsAgree(x: Script, y: Script)
    requires LengthsAgree(x, y)
    ensures SentLen(x, |x|) == RecvLen(y, |y|)
  {
    SizeOfSends(x, |x|);
    SumOfLens(y, |y|);
    SumOfSizes(AllSends(x), Lens(y, |y|));
  }

  /** At the end both channels are empty, all messages have arrived and the counters agree. */
  lemma AtTheEnd(sys: System, c: Script, s: Script, w: World)
    requires Realises(sys, c, s) && Reachable(sys, w) && Done(w, c, s)
    ensures w.client.rcvd == AllSends(s) && w.server.rcvd == AllSends(c)
    ensures w.toServer == [] && w.toClient == []
    ensures w.client.bytesSent == w.server.bytesReceived == SentLen(c, |c|)
    ensures w.server.bytesSent == w.client.bytesReceived == SentLen(s, |s|)
  {
    ReachableInv(sys, c, s, w);
    MessagesArriveInOrder(sys, c, s, w);
    BytesAccounted(sys, c, s, w);
    TotalsAgree(c, s);
    TotalsAgree(s, c);
    assert w.client.bytesReceived == RecvLen(c, |c|);
    assert w.server.bytesReceived == RecvLen(s, |s|);
  }

  /* ---- Freedom from deadlock ---- */

  ghost predicate StuckRead(v: View) {
    v.me.main.Receiving? && |v.me.main.got| < InLen(v.me.op) && v.inq == []
  }

  ghost predicate StuckWrite(v: View, cap: nat) {
    v.me.sender.Writing? && v.me.sender.rest != [] && |v.outq| == cap
  }

  /** Neither thread of this party can move. */
  ghost predicate Blocked(v: View, cap: nat) {
    || (StuckRead(v) && (v.me.sender.Idle? || v.me.sender.Exited? || StuckWrite(v, cap)))
    || (StuckWrite(v, cap) && !v.me.main.Receiving?)
  }

  lemma MovesOrBlocked(prog: Program, cap: nat, ops: Script, v: View) returns (ev: Event)
    requires PartyInv(ops, v.me) && OnScript(prog, ops, v.me) && |v.outq| <= cap
    requires v.me.pc < |ops|
    ensures Enabled(prog, cap, v, ev) || Blocked(v, cap)
  {
    var p := v.me;
    ev := Start;
    if p.main.Ready? {
    } else if p.sender.Spawned? {
      ev := Enter;
    } else if p.sender == Writing([]) {
      ev := if p.main.Calling? then Return else Exit;
    } else if p.sender.Writing? && |v.outq| < cap {
      ev := Write(1);
    } else if p.main.Joining? && p.sender.Exited? {
      ev := JoinThread;
    } else if p.main.Receiving? {
      ev := if |p.main.got| == InLen(p.op) then Received else Read(1);
    }
  }

  lemma BlockedSizes(cap: nat, ops: Script, v: View)
    requires PartyInv(ops, v.me) && Blocked(v, cap)
    ensures v.me.pc < |ops|
    ensures StuckRead(v) ==> |Consumed(v.me)| < RecvLen(ops, v.me.pc + 1)
    ensures StuckRead(v) ==> HasIn(ops[v.me.pc])
    ensures !StuckRead(v) ==> |Consumed(v.me)| == RecvLen(ops, v.me.pc + 1)
    ensures StuckWrite(v, cap) ==> |Written(ops, v.me)| < SentLen(ops, v.me.pc + 1)
    ensures StuckWrite(v, cap) ==> HasOut(ops[v.me.pc])
    ensures !StuckWrite(v, cap) ==> |Written(ops, v.me)| == SentLen(ops, v.me.pc + 1)
  {
    SizeWritten(ops, v.me);
    SizeConsumed(ops, v.me);
  }

  lemma {:induction false} SizesGrow(ops: Script, k: nat, m: nat)
    requires k <= m <= |ops|
    ensures SentLen(ops, k) <= SentLen(ops, m) && RecvLen(ops, k) <= RecvLen(ops, m)
  {
    if k == m {
    } else {
      SizesGrow(ops, k, m - 1);
    }
  }

  /** A blocked party whose peer has finished: impossible. */
  lemma NotBlockedByFinished(cap: nat, x: Script, v: View, y: Script, o: Party)
    requires InvView(cap, x, v, y, o) && LengthsAgree(x, y) && LengthsAgree(y, x)
    requires cap > 0 && o.pc == |y| && o.main.Ready?
    ensures !Blocked(v, cap)
  {
    SizeWritten(y, o);
    SizeConsumed(y, o);
    TotalsAgree(x, y);
    TotalsAgree(y, x);
    if Blocked(v, cap) {
      BlockedSizes(cap, x, v);
      SizesGrow(x, v.me.pc + 1, |x|);
      assert false;
    }
  }

  /** The flow of bytes, in sizes. */
  lemma FlowSizes(cap: nat, x: Script, v: View, y: Script, o: Party)
    requires InvView(cap, x, v, y, o)
    ensures |Written(x, v.me)| == |Consumed(o)| + |v.outq|
    ensures |Written(y, o)| == |Consumed(v.me)| + |v.inq|
  {
  }

  /** When the party behind waits for data, the other one has not written all it should by now. */
  lemma ReaderBehind(cap: nat, x: Script, v: View, y: Script, o: Party)
    requires InvView(cap, x, v, y, o) && Paced(x, y, cap) && v.me.pc <= o.pc < |y|
    requires Blocked(v, cap) && StuckRead(v)
    ensures |Written(y, o)| < SentLen(y, o.pc + 1)
  {
    FlowSizes(cap, x, v, y, o);
    BlockedSizes(cap, x, v);
    SizesGrow(y, v.me.pc + 1, o.pc + 1);
  }

  /** When the party behind waits for room, the other one has not received all it should by now. */
  lemma WriterBehind(cap: nat, x: Script, v: View, y: Script, o: Party)
    requires InvView(cap, x, v, y, o) && Paced(x, y, cap) && v.me.pc <= o.pc < |y|
    requires Blocked(v, cap) && StuckWrite(v, cap)
    ensures |Consumed(o)| < RecvLen(y, o.pc + 1)
  {
    FlowSizes(cap, x, v, y, o);
    BlockedSizes(cap, x, v);
    SizesGrow(y, v.me.pc + 1, o.pc + 1);
  }

  /** Two blocked parties, the first one not ahead of the second: impossible. */
  lemma NotBothBlocked(cap: nat, x: Script, v: View, y: Script, u: View)
    requires InvView(cap, x, v, y, u.me) && u.inq == v.outq && u.outq == v.inq
    requires Paced(x, y, cap) && cap > 0
    requires v.me.pc <= u.me.pc
    ensures !(Blocked(v, cap) && Blocked(u, cap))
  {
    if Blocked(v, cap) && Blocked(u, cap) {
      BlockedSizes(cap, y, u);
      if StuckRead(v) {
        ReaderBehind(cap, x, v, y, u.me);
      } else {
        WriterBehind(cap, x, v, y, u.me);
      }
    }
  }

  lemma SomeoneMoves(sys: System, c: Script, s: Script, w: World) returns (who: Who, ev: Event)
    requires Realises(sys, c, s) && Reachable(sys, w) && sys.capacity > 0
    requires Paced(c, s, sys.capacity) && Paced(s, c, sys.capacity)
    requires !Done(w, c, s)
    ensures CanStep(sys, w, who, ev)
  {
    ReachableInv(sys, c, s, w);
    StaysOnScript(sys.client, s, w.server, w.toClient, c, w.client);
    StaysOnScript(sys.server, c, w.client, w.toServer, s, w.server);
    var cap, v, u := sys.capacity, ViewOf(w, Client), ViewOf(w, Server);
    var cev, sev := Start, Start;
    if v.me.pc < |c| {
      cev := MovesOrBlocked(sys.client, cap, c, v);
    }
    if u.me.pc < |s| {
      sev := MovesOrBlocked(sys.server, cap, s, u);
    }
    if CanStep(sys, w, Client, cev) {
      who, ev := Client, cev;
    } else if CanStep(sys, w, Server, sev) {
      who, ev := Server, sev;
    } else if v.me.pc == |c| {
      NotBlockedByFinished(cap, s, u, c, v.me);
    } else if u.me.pc == |s| {
      NotBlockedByFinished(cap, c, v, s, u.me);
    } else if v.me.pc <= u.me.pc {
      NotBothBlocked(cap, c, v, s, u);
    } else {
      NotBothBlocked(cap, s, u, c, v);
    }
  }

  lemma FinishedIsIdle(prog: Program, cap: nat, ops: Script, v: View, ev: Event)
    requires PartyInv(ops, v.me) && OnScript(prog, ops, v.me)
    requires v.me.pc == |ops| && v.me.main.Ready?
    ensures !Enabled(prog, cap, v, ev)
  {
  }

  lemma DoneIsFinal(sys: System, c: Script, s: Script, w: World, who: Who, ev: Event)
    requires Realises(sys, c, s) && Reachable(sys, w) && Done(w, c, s)
    ensures !CanStep(sys, w, who, ev)
  {
    ReachableInv(sys, c, s, w);
    match who
    case Client =>
      StaysOnScript(sys.client, s, w.server, w.toClient, c, w.client);
      FinishedIsIdle(sys.client, sys.capacity, c, ViewOf(w, Client), ev);
    case Server =>
      StaysOnScript(sys.server, c, w.client, w.toServer, s, w.server);
      FinishedIsIdle(sys.server, sys.capacity, s, ViewOf(w, Server), ev);
  }

  ghost predicate Stopped(sys: System, w: World) {
    forall who, ev :: !CanStep(sys, w, who, ev)
  }

  /** Nothing can happen any more exactly when both parties have done everything. */
  lemma StopsOnlyWhenDone(sys: System, c: Script, s: Script, w: World)
    requires Realises(sys, c, s) && Reachable(sys, w) && sys.capacity > 0
    requires Paced(c, s, sys.capacity) && Paced(s, c, sys.capacity)
    ensures Stopped(sys, w) <==> Done(w, c, s)
  {
    if Done(w, c, s) {
      forall who, ev ensures !CanStep(sys, w, who, ev) {
        DoneIsFinal(sys, c, s, w, who, ev);
      }
    } else {
      var who, ev := SomeoneMoves(sys, c, s, w);
    }
  }

  /* ---- Termination ---- */

  ghost function Rank(p: Party): nat {
    (match p.main case Ready => 0 case Calling => 1 case Receiving(_) => 1 case Joining => 2) +
    (match p.sender case Idle => 0 case Spawned => 1 case Writing(_) => 2 case Exited => 3)
  }

  /** Steps that the threads of p still have to make, apart from moving bytes. */
  ghost function StepsLeft(ops: Script, p: Party): int { 6 * (|ops| - p.pc) - Rank(p) }

  ghost function Unsent(ops: Script, p: Party): int
    requires p.pc <= |ops|
  {
    SentLen(ops, |ops|) - |Written(ops, p)|
  }

  ghost function Measure(c: Script, s: Script, w: World): int
    requires w.client.pc <= |c| && w.server.pc <= |s|
  {
    StepsLeft(c, w.client) + StepsLeft(s, w.server) +
    2 * (Unsent(c, w.client) + Unsent(s, w.server)) + |w.toServer| + |w.toClient|
  }

  lemma MeasureBounded(c: Script, s: Script, w: World)
    requires PartyInv(c, w.client) && PartyInv(s, w.server)
    ensures Measure(c, s, w) >= 0
  {
    UnsentBounded(c, w.client);
    UnsentBounded(s, w.server);
  }

  lemma UnsentBounded(ops: Script, p: Party)
    requires PartyInv(ops, p)
    ensures Unsent(ops, p) >= 0 && StepsLeft(ops, p) >= 0
  {
    WrittenPrefix(ops, p);
    SizeOfSends(ops, |ops|);
  }

  lemma StepsLeftFalls(prog: Program, cap: nat, ops: Script, v: View, ev: Event)
    requires PartyInv(ops, v.me) && OnScript(prog, ops, v.me) && Enabled(prog, cap, v, ev)
    ensures var v' := Apply(prog, cap, v, ev);
            if ev.Write? || ev.Read? then StepsLeft(ops, v'.me) == StepsLeft(ops, v.me)
            else StepsLeft(ops, v'.me) < StepsLeft(ops, v.me)
  {
  }

  /** The part of the measure that a party can change. */
  ghost function Share(ops: Script, v: View): int
    requires v.me.pc <= |ops|
  {
    StepsLeft(ops, v.me) + 2 * Unsent(ops, v.me) + |v.outq| + |v.inq|
  }

  lemma InqOf(prog: Program, cap: nat, v: View, ev: Event)
    requires Enabled(prog, cap, v, ev)
    ensures |Apply(prog, cap, v, ev).inq| == |v.inq| - (if ev.Read? then ev.n else 0)
    ensures ev.Read? ==> ev.n >= 1
    ensures |Chunk(v, ev)| == (if ev.Write? then ev.n else 0) && (ev.Write? ==> ev.n >= 1)
  {
  }

  lemma ShareFalls(prog: Program, cap: nat, ops: Script, v: View, ev: Event)
    requires PartyInv(ops, v.me) && OnScript(prog, ops, v.me) && Enabled(prog, cap, v, ev)
    ensures Apply(prog, cap, v, ev).me.pc <= |ops|
    ensures Share(ops, Apply(prog, cap, v, ev)) < Share(ops, v)
  {
    WrittenKept(prog, cap, ops, v, ev);
    StepsLeftFalls(prog, cap, ops, v, ev);
    InqOf(prog, cap, v, ev);
  }

  lemma MeasureFalls(sys: System, c: Script, s: Script, w: World, who: Who, ev: Event)
    requires Realises(sys, c, s) && Inv(sys, c, s, w) && CanStep(sys, w, who, ev)
    ensures Inv(sys, c, s, Step(sys, w, who, ev))
    ensures Measure(c, s, Step(sys, w, who, ev)) < Measure(c, s, w)
  {
    InvStep(sys, c, s, w, who, ev);
    match who
    case Client =>
      StaysOnScript(sys.client, s, w.server, w.toClient, c, w.client);
      ShareFalls(sys.client, sys.capacity, c, ViewOf(w, Client), ev);
    case Server =>
      StaysOnScript(sys.server, c, w.client, w.toServer, s, w.server);
      ShareFalls(sys.server, sys.capacity, s, ViewOf(w, Server), ev);
  }

  /** Every run, however it is scheduled, has at most this many steps. */
  lemma {:induction false} RunsAreBounded(sys: System, c: Script, s: Script, actions: seq<Action>, w: World)
    requires Realises(sys, c, s) && Run(sys, actions) == Some(w)
    ensures Inv(sys, c, s, w)
    ensures |actions| + Measure(c, s, w) <= 12 * |c| + 2 * (SentLen(c, |c|) + SentLen(s, |s|))
    ensures |actions| <= 12 * |c| + 2 * (SentLen(c, |c|) + SentLen(s, |s|))
  {
    if actions == [] {
      InvInitial(sys, c, s);
      assert Written(c, w.client) == [] && Written(s, w.server) == [];
    } else {
      var last := actions[|actions| - 1];
      var before := Run(sys, actions[..|actions| - 1]).value;
      RunsAreBounded(sys, c, s, actions[..|actions| - 1], before);
      MeasureFalls(sys, c, s, before, last.who, last.ev);
    }
    MeasureBounded(c, s, w);
  }

  /** From every reachable state the run can be continued until both parties are done. */
  lemma {:induction false} CanFinish(sys: System, c: Script, s: Script, actions: seq<Action>, w: World)
      returns (more: seq<Action>, end: World)
    requires Realises(sys, c, s) && Run(sys, actions) == Some(w) && sys.capacity > 0
    requires Paced(c, s, sys.capacity) && Paced(s, c, sys.capacity)
    ensures actions <= more && Run(sys, more) == Some(end) && Done(end, c, s)
    decreases 12 * |c| + 2 * (SentLen(c, |c|) + SentLen(s, |s|)) - |actions|
  {
    if Done(w, c, s) {
      more, end := actions, w;
    } else {
      var who, ev := SomeoneMoves(sys, c, s, w);
      var next := actions + [Action(who, ev)];
      assert next[..|next| - 1] == actions;
      RunsAreBounded(sys, c, s, next, Step(sys, w, who, ev));
      more, end := CanFinish(sys, c, s, next, Step(sys, w, who, ev));
    }
  }
}
