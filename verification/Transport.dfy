/**
 * Two parties joined by two bounded byte channels (src/util/helpers.h, src/util/socket.h).
 *
 * Each party is a main thread plus, while it exchanges data, one sender thread. A party runs a
 * program: in step pc, and from the messages it has received so far, the program picks the next
 * operation. A step of the system is one atomic action of one thread, so a run is an interleaving.
 */
module Transport {
  import opened Bytes
  import opened Wrappers

  type Msg = seq<byte>

  datatype Op =
    | Send(out: Msg)                   // sock.Send on the main thread
    | Receive(len: nat)                // sock->Receive on the main thread
    | Exchange(out: Msg, len: nat)     // snd_and_rcv without a role: a sender thread, Receive, join
    | SendAndJoin(out: Msg)            // snd_and_rcv of the server: a sender thread, join
    | Halt                             // nothing left to do

  function Out(op: Op): Msg {
    match op
    case Send(out) => out
    case Exchange(out, _) => out
    case SendAndJoin(out) => out
    case _ => []
  }

  predicate HasOut(op: Op) { op.Send? || op.Exchange? || op.SendAndJoin? }

  predicate HasIn(op: Op) { op.Receive? || op.Exchange? }

  function InLen(op: Op): nat { if HasIn(op) then op.len else 0 }

  datatype Main = Ready | Calling | Receiving(got: Msg) | Joining

  /** The call of send for the current operation; rest is what it has not written yet. */
  datatype Sender = Idle | Spawned | Writing(rest: Msg) | Exited

  datatype Party = Party(pc: nat, op: Op, main: Main, sender: Sender, rcvd: seq<Msg>,
                         bytesSent: nat, bytesReceived: nat)

  /** One party with the channel it reads and the channel it writes. */
  datatype View = View(me: Party, inq: Msg, outq: Msg)

  datatype World = World(client: Party, server: Party, toServer: Msg, toClient: Msg)

  type Program = (nat, seq<Msg>) -> Op

  datatype System = System(client: Program, server: Program, capacity: nat)

  datatype Event =
    | Start           // the main thread begins the next operation
    | Enter           // the sender thread calls Send
    | Write(n: nat)   // send hands n bytes to the channel
    | Return          // Send returns to the main thread
    | Exit            // the sender thread ends
    | Read(n: nat)    // recv hands n bytes to Receive
    | Received        // Receive returns
    | JoinThread      // the main thread joins the sender thread

  predicate Enabled(prog: Program, cap: nat, v: View, ev: Event) {
    var p := v.me;
    match ev
    case Start => p.main.Ready? && prog(p.pc, p.rcvd) != Halt
    case Enter => p.sender.Spawned?
    case Write(n) => p.sender.Writing? && 1 <= n <= |p.sender.rest| && |v.outq| + n <= cap
    case Return => p.main.Calling? && p.sender == Writing([])
    case Exit => !p.main.Calling? && p.sender == Writing([])
    case Read(n) => p.main.Receiving? && 1 <= n <= |v.inq| && |p.main.got| + n <= InLen(p.op)
    case Received => p.main.Receiving? && |p.main.got| == InLen(p.op)
    case JoinThread => p.main.Joining? && p.sender.Exited?
  }

  function Finish(p: Party): Party {
    p.(pc := p.pc + 1, op := Halt, main := Ready, sender := Idle)
  }

  function Begin(p: Party, op: Op): Party {
    match op
    case Send(out) => p.(op := op, main := Calling, sender := Writing(out), bytesSent := p.bytesSent + |out|)
    case Receive(_) => p.(op := op, main := Receiving([]))
    case Exchange(_, _) => p.(op := op, main := Receiving([]), sender := Spawned)
    case SendAndJoin(_) => p.(op := op, main := Joining, sender := Spawned)
    case Halt => p
  }

  function Apply(prog: Program, cap: nat, v: View, ev: Event): View
    requires Enabled(prog, cap, v, ev)
  {
    var p := v.me;
    match ev
    case Start => v.(me := Begin(p, prog(p.pc, p.rcvd)))
    case Enter => v.(me := p.(sender := Writing(Out(p.op)), bytesSent := p.bytesSent + |Out(p.op)|))
    case Write(n) => v.(me := p.(sender := Writing(p.sender.rest[n..])), outq := v.outq + p.sender.rest[..n])
    case Return => v.(me := Finish(p))
    case Exit => v.(me := p.(sender := Exited))
    case Read(n) => v.(me := p.(main := Receiving(p.main.got + v.inq[..n])), inq := v.inq[n..])
    case Received =>
      var q := p.(rcvd := p.rcvd + [p.main.got], bytesReceived := p.bytesReceived + |p.main.got|);
      v.(me := if p.op.Exchange? then q.(main := Joining) else Finish(q))
    case JoinThread => v.(me := Finish(p))
  }

  datatype Who = Client | Server

  function ViewOf(w: World, who: Who): View {
    match who
    case Client => View(w.client, w.toClient, w.toServer)
    case Server => View(w.server, w.toServer, w.toClient)
  }

  function ProgramOf(sys: System, who: Who): Program {
    match who case Client => sys.client case Server => sys.server
  }

  function Update(w: World, who: Who, v: View): World {
    match who
    case Client => World(v.me, w.server, v.outq, v.inq)
    case Server => World(w.client, v.me, v.inq, v.outq)
  }

  predicate CanStep(sys: System, w: World, who: Who, ev: Event) {
    Enabled(ProgramOf(sys, who), sys.capacity, ViewOf(w, who), ev)
  }

  function Step(sys: System, w: World, who: Who, ev: Event): World
    requires CanStep(sys, w, who, ev)
  {
    Update(w, who, Apply(ProgramOf(sys, who), sys.capacity, ViewOf(w, who), ev))
  }

  const NEW_PARTY := Party(0, Halt, Ready, Idle, [], 0, 0)
  const INITIAL := World(NEW_PARTY, NEW_PARTY, [], [])

  datatype Action = Action(who: Who, ev: Event)

  /** The world after a sequence of actions, None when one of them could not happen. */
  function Run(sys: System, actions: seq<Action>): Option<World> {
    if actions == [] then Some(INITIAL)
    else
      var last := actions[|actions| - 1];
      match Run(sys, actions[..|actions| - 1])
      case None => None
      case Some(w) => if CanStep(sys, w, last.who, last.ev) then Some(Step(sys, w, last.who, last.ev)) else None
  }

  ghost predicate Reachable(sys: System, w: World) {
    exists actions :: Run(sys, actions) == Some(w)
  }

  /* ---- Scripts: what a program does on a run in which its peer sends known messages ---- */

  type Script = seq<Op>

  function Flatten(ms: seq<Msg>): Msg {
    if ms == [] then [] else Flatten(ms[..|ms| - 1]) + ms[|ms| - 1]
  }

  /** The messages sent by the first k operations. */
  function Sends(ops: Script, k: nat): seq<Msg>
    requires k <= |ops|
  {
    if k == 0 then [] else Sends(ops, k - 1) + (if HasOut(ops[k - 1]) then [Out(ops[k - 1])] else [])
  }

  /** The lengths received by the first k operations. */
  function Lens(ops: Script, k: nat): seq<nat>
    requires k <= |ops|
  {
    if k == 0 then [] else Lens(ops, k - 1) + (if HasIn(ops[k - 1]) then [InLen(ops[k - 1])] else [])
  }

  function SentLen(ops: Script, k: nat): nat
    requires k <= |ops|
  {
    if k == 0 then 0 else SentLen(ops, k - 1) + |Out(ops[k - 1])|
  }

  function RecvLen(ops: Script, k: nat): nat
    requires k <= |ops|
  {
    if k == 0 then 0 else RecvLen(ops, k - 1) + InLen(ops[k - 1])
  }

  function AllSends(ops: Script): seq<Msg> { Sends(ops, |ops|) }

  /** The lengths that Y receives are, one by one, the lengths of the messages that X sends. */
  ghost predicate LengthsAgree(x: Script, y: Script) {
    && |AllSends(x)| == |Lens(y, |y|)|
    && forall i :: 0 <= i < |AllSends(x)| ==> |AllSends(x)[i]| == Lens(y, |y|)[i]
  }

  /** In step k, having received what ops has received by then, prog performs ops[k]. */
  ghost predicate FollowsAt(prog: Program, ops: Script, peer: seq<Msg>, k: nat) {
    && k < |ops| && |Lens(ops, k)| <= |peer|
    && prog(k, peer[..|Lens(ops, k)|]) == ops[k] && ops[k] != Halt
  }

  /** prog performs ops when it receives the messages of peer. */
  ghost predicate Follows(prog: Program, ops: Script, peer: seq<Msg>) {
    && |Lens(ops, |ops|)| == |peer|
    && (forall k: nat :: k < |ops| ==> FollowsAt(prog, ops, peer, k))
    && prog(|ops|, peer) == Halt
  }

  ghost predicate Realises(sys: System, c: Script, s: Script) {
    && |c| == |s|
    && LengthsAgree(c, s) && LengthsAgree(s, c)
    && Follows(sys.client, c, AllSends(s))
    && Follows(sys.server, s, AllSends(c))
  }

  predicate Done(w: World, c: Script, s: Script) {
    && w.client.pc == |c| && w.client.main.Ready?
    && w.server.pc == |s| && w.server.main.Ready?
  }
}
