/** Where deadlock-freedom ends: channels below sixteen octets, and exchanges without a sender thread. */
module Deadlock {
  import opened Wrappers
  import opened Transport
  import opened Delivery
  import opened Progress
  import opened DhPsi
  import opened Psi

  lemma ReachableStep(sys: System, w: World, who: Who, ev: Event)
    requires Reachable(sys, w) && CanStep(sys, w, who, ev)
    ensures Reachable(sys, Step(sys, w, who, ev))
  {
    var actions :| Run(sys, actions) == Some(w);
    var more := actions + [Action(who, ev)];
    assert more[..|more| - 1] == actions;
    assert Run(sys, more) == Some(Step(sys, w, who, ev));
  }

  lemma ReachableInitial(sys: System)
    ensures Reachable(sys, INITIAL)
  {
    assert Run(sys, []) == Some(INITIAL);
  }

  /* ---- Both parties inside their four parameter sends ---- */

  /** The program sends four messages of four octets before anything else. */
  ghost predicate SendsParameters(prog: Program) {
    forall k :: 0 <= k < 4 ==> prog(k, []).Send? && |prog(k, []).out| == 4
  }

  ghost function Parameter(prog: Program, t: nat): Msg
    requires SendsParameters(prog) && t < 16
    ensures |Parameter(prog, t)| == 4
  {
    prog(t / 4, []).out
  }

  /** The first t octets that the program sends. */
  ghost function FirstOctets(prog: Program, t: nat): (r: Msg)
    requires SendsParameters(prog) && t <= 16
    ensures |r| == t
  {
    if t == 0 then [] else FirstOctets(prog, t - 1) + [Parameter(prog, t - 1)[(t - 1) % 4]]
  }

  /** A party that has written t octets and is inside the Send of the next one. */
  ghost function Sending(prog: Program, t: nat): Party
    requires SendsParameters(prog) && t < 16
  {
    Party(t / 4, Send(Parameter(prog, t)), Calling, Writing(Parameter(prog, t)[t % 4..]), [], 4 * (t / 4) + 4, 0)
  }

  ghost function Both(sys: System, t: nat, u: nat): World
    requires SendsParameters(sys.client) && SendsParameters(sys.server) && t < 16 && u < 16
  {
    World(Sending(sys.client, t), Sending(sys.server, u), FirstOctets(sys.client, t), FirstOctets(sys.server, u))
  }

  /** One more octet: Write, and after every fourth one Return and Start. */
  ghost function Afterwards(prog: Program, cap: nat, v: View, t: nat): View
    requires SendsParameters(prog) && t < 15 && t < cap
    requires v.me == Sending(prog, t) && v.outq == FirstOctets(prog, t)
  {
    View(Sending(prog, t + 1), v.inq, FirstOctets(prog, t + 1))
  }

  lemma WriteOne(prog: Program, cap: nat, v: View, t: nat)
    requires SendsParameters(prog) && t < 15 && t < cap
    requires v.me == Sending(prog, t) && v.outq == FirstOctets(prog, t)
    ensures Enabled(prog, cap, v, Write(1))
    ensures var a := Apply(prog, cap, v, Write(1));
      && a.inq == v.inq && a.outq == FirstOctets(prog, t + 1)
      && a.me == v.me.(sender := Writing(Parameter(prog, t)[t % 4 + 1..]))
  {
    var rest := Parameter(prog, t)[t % 4..];
    assert rest[..1] == [Parameter(prog, t)[t % 4]];
    assert rest[1..] == Parameter(prog, t)[t % 4 + 1..];
  }

  lemma WithinWord(t: nat)
    ensures t % 4 < 3 ==> (t + 1) / 4 == t / 4 && (t + 1) % 4 == t % 4 + 1
    ensures t % 4 == 3 ==> (t + 1) / 4 == t / 4 + 1 && (t + 1) % 4 == 0
  {
  }

  lemma NextWord(prog: Program, cap: nat, v: View, t: nat)
    requires SendsParameters(prog) && t < 15 && t % 4 == 3
    requires v.me == Sending(prog, t).(sender := Writing([]))
    ensures Enabled(prog, cap, v, Return)
    ensures var b := Apply(prog, cap, v, Return);
      && Enabled(prog, cap, b, Start)
      && Apply(prog, cap, b, Start) == v.(me := Sending(prog, t + 1))
  {
    WithinWord(t);
    assert Parameter(prog, t + 1)[0..] == Parameter(prog, t + 1);
  }

  lemma AdvanceOne(sys: System, w: World, who: Who, t: nat, w': World)
    requires SendsParameters(sys.client) && SendsParameters(sys.server) && Reachable(sys, w)
    requires t < 15 && t < sys.capacity
    requires var v, prog := ViewOf(w, who), ProgramOf(sys, who);
      && v.me == Sending(prog, t) && v.outq == FirstOctets(prog, t)
      && w' == Update(w, who, Afterwards(prog, sys.capacity, v, t))
    ensures Reachable(sys, w')
  {
    var prog, v, cap := ProgramOf(sys, who), ViewOf(w, who), sys.capacity;
    WriteOne(prog, cap, v, t);
    WithinWord(t);
    var w1 := Step(sys, w, who, Write(1));
    ReachableStep(sys, w, who, Write(1));
    if t % 4 == 3 {
      var v1 := ViewOf(w1, who);
      assert Parameter(prog, t)[4..] == [];
      NextWord(prog, cap, v1, t);
      ReachableStep(sys, w1, who, Return);
      var w2 := Step(sys, w1, who, Return);
      ReachableStep(sys, w2, who, Start);
      assert Step(sys, w2, who, Start) == w';
    } else {
      assert w1 == w';
    }
  }

  lemma BothStarted(sys: System)
    requires SendsParameters(sys.client) && SendsParameters(sys.server)
    ensures Reachable(sys, Both(sys, 0, 0))
  {
    ReachableInitial(sys);
    ReachableStep(sys, INITIAL, Client, Start);
    var w1 := Step(sys, INITIAL, Client, Start);
    ReachableStep(sys, w1, Server, Start);
    assert Parameter(sys.client, 0)[0..] == Parameter(sys.client, 0);
    assert Parameter(sys.server, 0)[0..] == Parameter(sys.server, 0);
    assert Step(sys, w1, Server, Start) == Both(sys, 0, 0);
  }

  lemma ClientAdvances(sys: System, t: nat, u: nat)
    requires SendsParameters(sys.client) && SendsParameters(sys.server)
    requires t < 15 && u < 16 && t < sys.capacity && Reachable(sys, Both(sys, t, u))
    ensures Reachable(sys, Both(sys, t + 1, u))
  {
    AdvanceOne(sys, Both(sys, t, u), Client, t, Both(sys, t + 1, u));
  }

  lemma ServerAdvances(sys: System, t: nat, u: nat)
    requires SendsParameters(sys.client) && SendsParameters(sys.server)
    requires t < 16 && u < 15 && u < sys.capacity && Reachable(sys, Both(sys, t, u))
    ensures Reachable(sys, Both(sys, t, u + 1))
  {
    AdvanceOne(sys, Both(sys, t, u), Server, u, Both(sys, t, u + 1));
  }

  lemma {:induction false} BothReach(sys: System, t: nat, u: nat)
    requires SendsParameters(sys.client) && SendsParameters(sys.server)
    requires t < 16 && u < 16 && t <= sys.capacity && u <= sys.capacity
    ensures Reachable(sys, Both(sys, t, u))
    decreases t + u
  {
    if t > 0 {
      BothReach(sys, t - 1, u);
      ClientAdvances(sys, t - 1, u);
    } else if u > 0 {
      BothReach(sys, t, u - 1);
      ServerAdvances(sys, t, u - 1);
    } else {
      BothStarted(sys);
    }
  }

  lemma FullIsStuck(prog: Program, cap: nat, v: View, ev: Event)
    requires SendsParameters(prog) && cap < 16
    requires v.me == Sending(prog, cap) && v.outq == FirstOctets(prog, cap)
    ensures !Enabled(prog, cap, v, ev)
  {
  }

  /** With a smaller channel both parties can fill it with parameters and wait for ever. */
  lemma SmallChannelDeadlocks(sys: System) returns (w: World)
    requires SendsParameters(sys.client) && SendsParameters(sys.server) && sys.capacity < 16
    ensures Reachable(sys, w) && Stopped(sys, w) && w.client.pc < 4 && w.server.pc < 4
  {
    var cap := sys.capacity;
    w := Both(sys, cap, cap);
    BothReach(sys, cap, cap);
    forall who, ev ensures !CanStep(sys, w, who, ev) {
      FullIsStuck(ProgramOf(sys, who), cap, ViewOf(w, who), ev);
    }
  }

  ghost predicate NeverStuck<P(!new)>(cr: Crypto<P>, client: Input, server: Input, cap: nat) {
    forall w :: Reachable(SystemFor(cr, client, server, cap), w) && Stopped(SystemFor(cr, client, server, cap), w) ==>
      Done(w, ClientScript(cr, client, server), ServerScript(cr, client, server))
  }

  /** The four unthreaded parameters set the bound: sixteen octets of channel, and no fewer. */
  lemma SixteenIsExact<P(!new)>(cr: Crypto<P>, client: Input, server: Input, cap: nat)
    requires Honest(cr, client, server)
    ensures NeverStuck(cr, client, server, cap) <==> cap >= 16
  {
    var sys := SystemFor(cr, client, server, cap);
    if cap >= 16 {
      forall w | Reachable(sys, w) && Stopped(sys, w)
        ensures Done(w, ClientScript(cr, client, server), ServerScript(cr, client, server))
      {
        NoDeadlock(cr, client, server, cap, w);
      }
    } else {
      var w := SmallChannelDeadlocks(sys);
    }
  }

  /* ---- The sender thread ---- */

  /** Sending and then receiving on the main thread. */
  function InTurn(out: Msg, len: nat): Program {
    (pc: nat, rcvd: seq<Msg>) => if pc == 0 then Send(out) else if pc == 1 then Receive(len) else Halt
  }

  /** snd_and_rcv: a sender thread beside the main thread. */
  function Threaded(out: Msg, len: nat): Program {
    (pc: nat, rcvd: seq<Msg>) => if pc == 0 then Exchange(out, len) else Halt
  }

  /** A party of InTurn inside its Send, its channel full. */
  ghost function SendingFull(out: Msg, cap: nat): Party
    requires |out| > cap
  {
    Party(0, Send(out), Calling, Writing(out[cap..]), [], |out|, 0)
  }

  lemma FillsChannel(out: Msg, len: nat, cap: nat, inq: Msg)
    requires |out| > cap > 0
    ensures var prog, v := InTurn(out, len), View(NEW_PARTY, inq, []);
      && Enabled(prog, cap, v, Start)
      && Enabled(prog, cap, Apply(prog, cap, v, Start), Write(cap))
      && Apply(prog, cap, Apply(prog, cap, v, Start), Write(cap)) == View(SendingFull(out, cap), inq, out[..cap])
  {
  }

  lemma SendingFullIsStuck(out: Msg, len: nat, cap: nat, inq: Msg, ev: Event)
    requires |out| > cap
    ensures !Enabled(InTurn(out, len), cap, View(SendingFull(out, cap), inq, out[..cap]), ev)
  {
  }

  /** Without the thread two lists that both exceed the channel block each other. */
  lemma InTurnDeadlocks(a: Msg, b: Msg, cap: nat) returns (w: World)
    requires |a| > cap > 0 && |b| > cap
    ensures var sys := System(InTurn(a, |b|), InTurn(b, |a|), cap);
      Reachable(sys, w) && Stopped(sys, w) && w.client.pc == 0 && w.server.pc == 0
  {
    var sys := System(InTurn(a, |b|), InTurn(b, |a|), cap);
    ReachableInitial(sys);
    FillsChannel(a, |b|, cap, []);
    ReachableStep(sys, INITIAL, Client, Start);
    ReachableStep(sys, Step(sys, INITIAL, Client, Start), Client, Write(cap));
    var w1 := World(SendingFull(a, cap), NEW_PARTY, a[..cap], []);
    FillsChannel(b, |a|, cap, a[..cap]);
    ReachableStep(sys, w1, Server, Start);
    ReachableStep(sys, Step(sys, w1, Server, Start), Server, Write(cap));
    w := World(SendingFull(a, cap), SendingFull(b, cap), a[..cap], b[..cap]);
    forall who, ev ensures !CanStep(sys, w, who, ev) {
      SendingFullIsStuck(a, |b|, cap, b[..cap], ev);
      SendingFullIsStuck(b, |a|, cap, a[..cap], ev);
    }
  }

  function InTurnScript(out: Msg, len: nat): Script { [Send(out), Receive(len)] }

  lemma InTurnSizes(out: Msg, len: nat)
    ensures var ops := InTurnScript(out, len);
      && AllSends(ops) == [out] && Lens(ops, 0) == Lens(ops, 1) == [] && Lens(ops, 2) == [len]
      && SentLen(ops, 1) == SentLen(ops, 2) == |out| && RecvLen(ops, 1) == 0 && RecvLen(ops, 2) == len
  {
    var ops := InTurnScript(out, len);
    assert Sends(ops, 1) == Sends(ops, 0) + [out] == [out];
    assert Sends(ops, 2) == Sends(ops, 1) + [];
    assert Lens(ops, 1) == Lens(ops, 0) + [];
    assert Lens(ops, 2) == Lens(ops, 1) + [len] == [len];
  }

  lemma InTurnFollows(out: Msg, len: nat, peer: Msg)
    requires |peer| == len
    ensures Follows(InTurn(out, len), InTurnScript(out, len), [peer])
  {
    var prog, ops := InTurn(out, len), InTurnScript(out, len);
    InTurnSizes(out, len);
    forall k: nat | k < 2 ensures FollowsAt(prog, ops, [peer], k) {
      assert |Lens(ops, k)| == 0;
    }
  }

  lemma InTurnRealises(a: Msg, b: Msg, cap: nat)
    ensures Realises(System(InTurn(a, |b|), InTurn(b, |a|), cap), InTurnScript(a, |b|), InTurnScript(b, |a|))
  {
    InTurnSizes(a, |b|);
    InTurnSizes(b, |a|);
    InTurnFollows(a, |b|, b);
    InTurnFollows(b, |a|, a);
  }

  /** A party that cannot move: it has finished or is blocked. */
  ghost predicate Halted(cap: nat, ops: Script, v: View) { v.me.pc == |ops| || Blocked(v, cap) }

  /** A message that fits is written completely before its sender can halt. */
  lemma FittingIsWritten(cap: nat, a: Msg, v: View, b: Msg, o: Party)
    requires InvView(cap, InTurnScript(a, |b|), v, InTurnScript(b, |a|), o) && cap > 0
    requires Halted(cap, InTurnScript(a, |b|), v) && |a| <= cap
    ensures !StuckWrite(v, cap) && |Written(InTurnScript(a, |b|), v.me)| == |a|
  {
    var ops := InTurnScript(a, |b|);
    InTurnSizes(a, |b|);
    FlowSizes(cap, ops, v, InTurnScript(b, |a|), o);
    if v.me.pc == 2 {
      SizeWritten(ops, v.me);
    } else {
      BlockedSizes(cap, ops, v);
    }
  }

  /** When one of the messages fits, both parties halt only when both have finished. */
  lemma BothHalted(cap: nat, a: Msg, v: View, b: Msg, u: View)
    requires InvView(cap, InTurnScript(a, |b|), v, InTurnScript(b, |a|), u.me) && cap > 0
    requires u.inq == v.outq && u.outq == v.inq && |a| <= cap
    requires Halted(cap, InTurnScript(a, |b|), v) && Halted(cap, InTurnScript(b, |a|), u)
    ensures v.me.pc == u.me.pc == 2
  {
    var x, y := InTurnScript(a, |b|), InTurnScript(b, |a|);
    FittingIsWritten(cap, a, v, b, u.me);
    InTurnSizes(a, |b|);
    InTurnSizes(b, |a|);
    FlowSizes(cap, x, v, y, u.me);
    SizeConsumed(x, v.me);
    SizeConsumed(y, u.me);
    SizeWritten(y, u.me);
    if Blocked(v, cap) {
      BlockedSizes(cap, x, v);
    }
    if Blocked(u, cap) {
      BlockedSizes(cap, y, u);
    }
  }

  lemma StoppedIsHalted(prog: Program, cap: nat, ops: Script, v: View)
    requires PartyInv(ops, v.me) && OnScript(prog, ops, v.me) && |v.outq| <= cap
    requires forall ev :: !Enabled(prog, cap, v, ev)
    ensures Halted(cap, ops, v)
  {
    if v.me.pc < |ops| {
      var ev := MovesOrBlocked(prog, cap, ops, v);
    }
  }

  lemma FittingNeverStuck(a: Msg, b: Msg, cap: nat, w: World)
    requires cap > 0 && (|a| <= cap || |b| <= cap)
    requires Reachable(System(InTurn(a, |b|), InTurn(b, |a|), cap), w)
    requires Stopped(System(InTurn(a, |b|), InTurn(b, |a|), cap), w)
    ensures Done(w, InTurnScript(a, |b|), InTurnScript(b, |a|))
  {
    var sys, c, s := System(InTurn(a, |b|), InTurn(b, |a|), cap), InTurnScript(a, |b|), InTurnScript(b, |a|);
    InTurnRealises(a, b, cap);
    ReachableInv(sys, c, s, w);
    StaysOnScript(sys.client, s, w.server, w.toClient, c, w.client);
    StaysOnScript(sys.server, c, w.client, w.toServer, s, w.server);
    var v, u := ViewOf(w, Client), ViewOf(w, Server);
    forall ev ensures !Enabled(sys.client, cap, v, ev) && !Enabled(sys.server, cap, u, ev) {
      assert !CanStep(sys, w, Client, ev) && !CanStep(sys, w, Server, ev);
    }
    StoppedIsHalted(sys.client, cap, c, v);
    StoppedIsHalted(sys.server, cap, s, u);
    if |a| <= cap {
      BothHalted(cap, a, v, b, u);
    } else {
      BothHalted(cap, b, u, a, v);
    }
  }

  /** Without the thread the exchange can get stuck exactly when both messages exceed the channel. */
  lemma InTurnStuckExactly(a: Msg, b: Msg, cap: nat)
    requires cap > 0
    ensures var sys := System(InTurn(a, |b|), InTurn(b, |a|), cap);
      (exists w :: Reachable(sys, w) && Stopped(sys, w) && !Done(w, InTurnScript(a, |b|), InTurnScript(b, |a|)))
      <==> |a| > cap && |b| > cap
  {
    var sys := System(InTurn(a, |b|), InTurn(b, |a|), cap);
    if |a| > cap && |b| > cap {
      var w := InTurnDeadlocks(a, b, cap);
      assert !Done(w, InTurnScript(a, |b|), InTurnScript(b, |a|));
    } else {
      forall w | Reachable(sys, w) && Stopped(sys, w)
        ensures Done(w, InTurnScript(a, |b|), InTurnScript(b, |a|))
      {
        FittingNeverStuck(a, b, cap, w);
      }
    }
  }

  lemma ExchangeScripts(a: Msg, b: Msg)
    ensures AllSends([Exchange(a, |b|)]) == [a] && Lens([Exchange(a, |b|)], 1) == [|b|]
    ensures SentLen([Exchange(a, |b|)], 1) == |a| && RecvLen([Exchange(a, |b|)], 1) == |b|
  {
    var ops := [Exchange(a, |b|)];
    assert Sends(ops, 0) == [] && Lens(ops, 0) == [];
    assert Sends(ops, 1) == [] + [a] && Lens(ops, 1) == [] + [|b|];
  }

  /** With it any positive capacity will do. */
  lemma ThreadedNeverStuck(a: Msg, b: Msg, cap: nat, w: World)
    requires cap > 0
    requires Reachable(System(Threaded(a, |b|), Threaded(b, |a|), cap), w)
    ensures Stopped(System(Threaded(a, |b|), Threaded(b, |a|), cap), w) <==>
            Done(w, [Exchange(a, |b|)], [Exchange(b, |a|)])
  {
    var sys, c, s := System(Threaded(a, |b|), Threaded(b, |a|), cap), [Exchange(a, |b|)], [Exchange(b, |a|)];
    ExchangeScripts(a, b);
    ExchangeScripts(b, a);
    assert FollowsAt(sys.client, c, [b], 0) && FollowsAt(sys.server, s, [a], 0);
    StopsOnlyWhenDone(sys, c, s, w);
  }
}
