/**
 * CEvent on pthreads (src/util/thread.h): a flag, a mutex and a condition variable, used by any
 * number of threads. Each action below is one atomic step of one thread.
 */
module EventMonitor {
  import opened Wrappers

  datatype Call = Set | Wait | Reset

  /** Where a thread is; those after a lock hold the mutex. */
  datatype Pc =
    | Idle
    | AtLock(call: Call)
    | SetTest | SetSignal | SetUnlock
    | WaitTest | WaitClear | WaitUnlock
    | Parked     // inside pthread_cond_wait, asleep
    | Woken      // inside pthread_cond_wait, about to take the mutex again
    | ResetClear | ResetUnlock

  /** The counters are what Set and Reset changed and what Wait completed. */
  datatype State = State(isSet: bool, owner: Option<nat>, threads: seq<Pc>, sets: nat, waits: nat, resets: nat)

  datatype Action =
    | Start(t: nat, call: Call)      // a thread calls Set, Wait or Reset
    | Acquire(t: nat)                // pthread_mutex_lock, or the re-lock of pthread_cond_wait, succeeds
    | Work(t: nat, wake: set<nat>)   // the owner of the mutex makes its next step
    | Spurious(t: nat)               // a parked thread wakes up without a signal

  predicate WantsMutex(pc: Pc) { pc.AtLock? || pc.Woken? }

  predicate HoldsMutex(pc: Pc) {
    pc in {SetTest, SetSignal, SetUnlock, WaitTest, WaitClear, WaitUnlock, ResetClear, ResetUnlock}
  }

  function ParkedThreads(s: State): set<nat> {
    set t | 0 <= t < |s.threads| && s.threads[t] == Parked
  }

  predicate Enabled(s: State, a: Action) {
    a.t < |s.threads| &&
    match a
    case Start(t, _) => s.threads[t] == Idle
    case Acquire(t) => WantsMutex(s.threads[t]) && s.owner == None
    case Work(t, wake) =>
      && s.owner == Some(t) && HoldsMutex(s.threads[t])
      // pthread_cond_signal wakes at least one of the parked threads, if there are any.
      && wake <= ParkedThreads(s)
      && (s.threads[t] == SetSignal && ParkedThreads(s) != {} ==> wake != {})
      && (s.threads[t] != SetSignal ==> wake == {})
    case Spurious(t) => s.threads[t] == Parked
  }

  function Move(s: State, t: nat, pc: Pc): State
    requires t < |s.threads|
  {
    s.(threads := s.threads[t := pc])
  }

  function AfterLock(pc: Pc): Pc {
    match pc
    case AtLock(Set) => SetTest
    case AtLock(Reset) => ResetClear
    case _ => WaitTest
  }

  /** The threads of wake leave the wait queue. */
  function Signalled(threads: seq<Pc>, wake: set<nat>): (r: seq<Pc>)
    ensures |r| == |threads|
    ensures forall i :: 0 <= i < |r| ==> r[i] == if i in wake then Woken else threads[i]
  {
    seq(|threads|, (i: int) requires 0 <= i < |threads| => if i in wake then Woken else threads[i])
  }

  function WorkStep(manual: bool, s: State, t: nat, wake: set<nat>): State
    requires t < |s.threads| && HoldsMutex(s.threads[t]) && t !in wake
  {
    match s.threads[t]
    case SetTest =>
      if s.isSet then Move(s, t, SetUnlock) else Move(s.(isSet := true, sets := s.sets + 1), t, SetSignal)
    case SetSignal => Move(s.(threads := Signalled(s.threads, wake)), t, SetUnlock)
    case WaitTest =>
      if s.isSet then Move(s, t, WaitClear) else Move(s.(owner := None), t, Parked)
    case WaitClear => Move(s.(isSet := manual, waits := s.waits + 1), t, WaitUnlock)
    case ResetClear => Move(s.(isSet := false, resets := s.resets + if s.isSet then 1 else 0), t, ResetUnlock)
    case _ => Move(s.(owner := None), t, Idle)
  }

  function Next(manual: bool, s: State, a: Action): State
    requires Enabled(s, a)
  {
    match a
    case Start(t, call) => Move(s, t, AtLock(call))
    case Acquire(t) => Move(s.(owner := Some(t)), t, AfterLock(s.threads[t]))
    case Work(t, wake) => WorkStep(manual, s, t, wake)
    case Spurious(t) => Move(s, t, Woken)
  }

  function Initial(n: nat, isSet: bool): State {
    State(isSet, None, seq(n, _ => Idle), 0, 0, 0)
  }

  function Run(manual: bool, n: nat, initial: bool, actions: seq<Action>): Option<State> {
    if actions == [] then Some(Initial(n, initial))
    else
      match Run(manual, n, initial, actions[..|actions| - 1])
      case None => None
      case Some(s) =>
        var a := actions[|actions| - 1];
        if Enabled(s, a) then Some(Next(manual, s, a)) else None
  }

  ghost predicate Reachable(manual: bool, n: nat, initial: bool, s: State) {
    exists actions :: Run(manual, n, initial, actions) == Some(s)
  }

  /* ---- Invariants ---- */

  /** Exactly the owner of the mutex is inside a critical section. */
  ghost predicate MutexInv(s: State) {
    && (s.owner.Some? ==> s.owner.value < |s.threads|)
    && forall t :: 0 <= t < |s.threads| ==> (HoldsMutex(s.threads[t]) <==> s.owner == Some(t))
  }

  /** The flag cannot change between the test of a thread and what it does next. */
  ghost predicate TestedInv(s: State) {
    forall t :: 0 <= t < |s.threads| && s.threads[t] in {SetSignal, WaitClear} ==> s.isSet
  }

  /** This thread will look at the flag, or wake one that will. */
  predicate Rescuer(pc: Pc) { pc in {Woken, WaitTest, WaitClear, SetSignal} }

  ghost predicate HasRescuer(s: State) { exists t :: 0 <= t < |s.threads| && Rescuer(s.threads[t]) }

  ghost predicate NobodyOverslept(s: State) {
    s.isSet && ParkedThreads(s) != {} ==> HasRescuer(s)
  }

  function One(b: bool): nat { if b then 1 else 0 }

  /** Each time the flag went up it was taken by one wait, or reset, or it is still up. */
  ghost predicate Balanced(initial: bool, s: State) {
    One(initial) + s.sets == s.waits + s.resets + One(s.isSet)
  }

  ghost predicate Inv(initial: bool, s: State) {
    MutexInv(s) && TestedInv(s) && NobodyOverslept(s) && Balanced(initial, s)
  }

  lemma MutexKept(manual: bool, s: State, a: Action)
    requires MutexInv(s) && Enabled(s, a)
    ensures MutexInv(Next(manual, s, a))
  {
    match a
    case Work(t, wake) => MutexKeptByWork(manual, s, t, wake);
    case _ =>
  }

  lemma MutexKeptByWork(manual: bool, s: State, t: nat, wake: set<nat>)
    requires MutexInv(s) && Enabled(s, Work(t, wake))
    ensures MutexInv(WorkStep(manual, s, t, wake))
  {
    if s.threads[t].SetSignal? {
      MutexKeptBySignal(manual, s, t, wake);
    }
  }

  lemma MutexKeptBySignal(manual: bool, s: State, t: nat, wake: set<nat>)
    requires MutexInv(s) && Enabled(s, Work(t, wake)) && s.threads[t].SetSignal?
    ensures MutexInv(WorkStep(manual, s, t, wake))
  {
    forall i | i in wake ensures s.threads[i] == Parked {
      assert i in ParkedThreads(s);
    }
  }

  lemma TestedKept(manual: bool, s: State, a: Action)
    requires MutexInv(s) && TestedInv(s) && Enabled(s, a)
    ensures TestedInv(Next(manual, s, a))
  {
  }

  lemma BalanceKept(initial: bool, s: State, a: Action)
    requires MutexInv(s) && TestedInv(s) && Balanced(initial, s) && Enabled(s, a)
    ensures Balanced(initial, Next(false, s, a))
  {
  }

  lemma RescuerAt(s: State, t: nat)
    requires t < |s.threads| && Rescuer(s.threads[t])
    ensures HasRescuer(s)
  {
  }

  lemma OversleptKeptByWork(s: State, t: nat, wake: set<nat>)
    requires MutexInv(s) && NobodyOverslept(s) && Enabled(s, Work(t, wake))
    ensures NobodyOverslept(WorkStep(false, s, t, wake))
  {
    var s' := WorkStep(false, s, t, wake);
    if s'.isSet && ParkedThreads(s') != {} {
      var p :| p in ParkedThreads(s');
      var pc := s.threads[t];
      if pc in {SetUnlock, WaitUnlock, ResetUnlock} || (pc.SetTest? && s.isSet) {
        assert p in ParkedThreads(s);
        var r :| 0 <= r < |s.threads| && Rescuer(s.threads[r]);
        RescuerAt(s', r);
      } else if pc.SetSignal? {
        assert p in ParkedThreads(s);
        var w :| w in wake;
        RescuerAt(s', w);
      } else if pc.SetTest? || pc.WaitTest? {
        RescuerAt(s', t);
      }
    }
  }

  lemma OversleptKept(s: State, a: Action)
    requires MutexInv(s) && NobodyOverslept(s) && Enabled(s, a)
    ensures NobodyOverslept(Next(false, s, a))
  {
    var s' := Next(false, s, a);
    if a.Work? {
      OversleptKeptByWork(s, a.t, a.wake);
    } else if s'.isSet && ParkedThreads(s') != {} {
      var p :| p in ParkedThreads(s');
      assert p in ParkedThreads(s);
      var r :| 0 <= r < |s.threads| && Rescuer(s.threads[r]);
      RescuerAt(s', r);
    }
  }

  lemma {:induction false} RunInv(n: nat, initial: bool, actions: seq<Action>, s: State)
    requires Run(false, n, initial, actions) == Some(s)
    ensures Inv(initial, s) && |s.threads| == n
  {
    if actions == [] {
    } else {
      var before := Run(false, n, initial, actions[..|actions| - 1]).value;
      var a := actions[|actions| - 1];
      RunInv(n, initial, actions[..|actions| - 1], before);
      InvKept(initial, before, a);
    }
  }

  lemma InvKept(initial: bool, s: State, a: Action)
    requires Inv(initial, s) && Enabled(s, a)
    ensures Inv(initial, Next(false, s, a)) && |Next(false, s, a).threads| == |s.threads|
  {
    MutexKept(false, s, a);
    TestedKept(false, s, a);
    OversleptKept(s, a);
    BalanceKept(initial, s, a);
  }

  /* ---- The results ---- */

  /**
   * Auto-reset events, any number of threads, any interleaving, spurious wake-ups included: in every
   * reachable state the flag is accounted for, and while it is up and a thread is parked, some thread
   * is on its way to look at it; that thread has been woken whenever the mutex is free.
   */
  lemma NoLostWakeup(n: nat, initial: bool, s: State)
    requires Reachable(false, n, initial, s)
    ensures Balanced(initial, s)
    ensures s.isSet && ParkedThreads(s) != {} ==> HasRescuer(s)
    ensures s.isSet && ParkedThreads(s) != {} && s.owner == None ==>
      exists t :: 0 <= t < |s.threads| && s.threads[t] == Woken
  {
    var actions :| Run(false, n, initial, actions) == Some(s);
    RunInv(n, initial, actions, s);
    if s.isSet && ParkedThreads(s) != {} && s.owner == None {
      var t :| 0 <= t < |s.threads| && Rescuer(s.threads[t]);
      assert s.threads[t] == Woken;
    }
  }

  /** Without new calls and without spurious wake-ups nothing can happen. */
  ghost predicate Quiet(s: State) {
    forall a: Action :: (a.Acquire? || a.Work?) ==> !Enabled(s, a)
  }

  /** A thread sleeps although the event is set, and nobody will ever wake it. */
  ghost predicate LostWakeup(s: State) {
    s.isSet && ParkedThreads(s) != {} && Quiet(s)
  }

  lemma AutoResetNeverLoses(n: nat, initial: bool, s: State)
    requires Reachable(false, n, initial, s)
    ensures !LostWakeup(s)
  {
    var actions :| Run(false, n, initial, actions) == Some(s);
    RunInv(n, initial, actions, s);
    if LostWakeup(s) {
      if s.owner == None {
        NoLostWakeup(n, initial, s);
        var t :| 0 <= t < |s.threads| && s.threads[t] == Woken;
        assert Enabled(s, Acquire(t));
      } else {
        var t := s.owner.value;
        var wake := if s.threads[t] == SetSignal then ParkedThreads(s) else {};
        assert Enabled(s, Work(t, wake));
      }
    }
  }

  lemma ReachableNext(manual: bool, n: nat, initial: bool, s: State, a: Action)
    requires Reachable(manual, n, initial, s) && Enabled(s, a)
    ensures Reachable(manual, n, initial, Next(manual, s, a))
  {
    var actions :| Run(manual, n, initial, actions) == Some(s);
    assert (actions + [a])[..|actions|] == actions;
    assert Run(manual, n, initial, actions + [a]) == Some(Next(manual, s, a));
  }

  /** An idle thread calls an operation and gets the mutex. */
  lemma Enters(manual: bool, n: nat, initial: bool, s: State, t: nat, call: Call)
    requires Reachable(manual, n, initial, s) && t < |s.threads| && s.threads[t] == Idle && s.owner == None
    ensures Reachable(manual, n, initial, Move(s.(owner := Some(t)), t, AfterLock(AtLock(call))))
  {
    ReachableNext(manual, n, initial, s, Start(t, call));
    var s1 := Move(s, t, AtLock(call));
    ReachableNext(manual, n, initial, s1, Acquire(t));
    assert Next(manual, s1, Acquire(t)) == Move(s.(owner := Some(t)), t, AfterLock(AtLock(call)));
  }

  /** The owner of the mutex makes a step. */
  lemma Works(manual: bool, n: nat, initial: bool, s: State, t: nat, wake: set<nat>, s': State)
    requires Reachable(manual, n, initial, s) && Enabled(s, Work(t, wake)) && s' == WorkStep(manual, s, t, wake)
    ensures Reachable(manual, n, initial, s')
  {
    ReachableNext(manual, n, initial, s, Work(t, wake));
  }

  /** An idle thread calls Wait while the event is not set. */
  lemma WaitParks(manual: bool, n: nat, initial: bool, s: State, t: nat)
    requires Reachable(manual, n, initial, s) && t < |s.threads| && s.threads[t] == Idle
    requires s.owner == None && !s.isSet
    ensures Reachable(manual, n, initial, Move(s, t, Parked))
  {
    Enters(manual, n, initial, s, t, Wait);
    Works(manual, n, initial, Move(s.(owner := Some(t)), t, WaitTest), t, {}, Move(s, t, Parked));
  }

  /** The owner of the mutex signals, waking only thread p, and leaves. */
  lemma SignalsOne(manual: bool, n: nat, initial: bool, s: State, t: nat, p: nat)
    requires Reachable(manual, n, initial, s) && t < |s.threads| && s.threads[t] == SetSignal && s.owner == Some(t)
    requires p < |s.threads| && s.threads[p] == Parked
    ensures Reachable(manual, n, initial, s.(owner := None, threads := s.threads[p := Woken][t := Idle]))
  {
    assert p in ParkedThreads(s);
    var s1 := s.(threads := s.threads[p := Woken][t := SetUnlock]);
    assert Signalled(s.threads, {p}) == s.threads[p := Woken];
    Works(manual, n, initial, s, t, {p}, s1);
    var s2 := s.(owner := None, threads := s.threads[p := Woken][t := Idle]);
    assert s1.threads[t := Idle] == s2.threads;
    Works(manual, n, initial, s1, t, {}, s2);
  }

  /** An idle thread calls Set, and its signal wakes only thread p. */
  lemma SetWakesOne(manual: bool, n: nat, initial: bool, s: State, t: nat, p: nat)
    requires Reachable(manual, n, initial, s) && t < |s.threads| && s.threads[t] == Idle
    requires p < |s.threads| && s.threads[p] == Parked && s.owner == None && !s.isSet
    ensures Reachable(manual, n, initial, Move(s.(isSet := true, sets := s.sets + 1), p, Woken))
  {
    Enters(manual, n, initial, s, t, Set);
    var s1 := Move(s.(owner := Some(t)), t, SetTest);
    var s2 := Move(s1.(isSet := true, sets := s.sets + 1), t, SetSignal);
    Works(manual, n, initial, s1, t, {}, s2);
    SignalsOne(manual, n, initial, s2, t, p);
    assert s2.threads[p := Woken][t := Idle] == s.threads[p := Woken];
  }

  /** A thread that holds the mutex and sees a manual-reset event set leaves it set. */
  lemma TesterTakes(n: nat, initial: bool, s: State, p: nat)
    requires Reachable(true, n, initial, s) && p < |s.threads| && s.threads[p] == WaitTest
    requires s.owner == Some(p) && s.isSet
    ensures Reachable(true, n, initial, Move(s.(waits := s.waits + 1), p, WaitUnlock))
  {
    var s1 := Move(s, p, WaitClear);
    Works(true, n, initial, s, p, {}, s1);
    var s2 := Move(s.(waits := s.waits + 1), p, WaitUnlock);
    assert s1.threads[p := WaitUnlock] == s2.threads;
    Works(true, n, initial, s1, p, {}, s2);
  }

  /** The owner of the mutex unlocks it and returns. */
  lemma Leaves(n: nat, initial: bool, s: State, t: nat)
    requires Reachable(true, n, initial, s) && t < |s.threads| && s.owner == Some(t)
    requires s.threads[t] in {WaitUnlock, ResetUnlock}
    ensures Reachable(true, n, initial, Move(s.(owner := None), t, Idle))
  {
    Works(true, n, initial, s, t, {}, Move(s.(owner := None), t, Idle));
  }

  lemma TesterReturns(n: nat, initial: bool, s: State, p: nat)
    requires Reachable(true, n, initial, s) && p < |s.threads| && s.threads[p] == WaitTest
    requires s.owner == Some(p) && s.isSet
    ensures Reachable(true, n, initial, Move(s.(owner := None, waits := s.waits + 1), p, Idle))
  {
    TesterTakes(n, initial, s, p);
    var s2 := Move(s.(waits := s.waits + 1), p, WaitUnlock);
    Leaves(n, initial, s2, p);
    assert s2.threads[p := Idle] == s.threads[p := Idle];
  }

  /** A woken thread takes the mutex again and tests the flag. */
  lemma Reacquires(n: nat, initial: bool, s: State, p: nat)
    requires Reachable(true, n, initial, s) && p < |s.threads| && s.threads[p] == Woken && s.owner == None
    ensures Reachable(true, n, initial, Move(s.(owner := Some(p)), p, WaitTest))
  {
    ReachableNext(true, n, initial, s, Acquire(p));
  }

  lemma WokenReturns(n: nat, initial: bool, s: State, p: nat)
    requires Reachable(true, n, initial, s) && p < |s.threads| && s.threads[p] == Woken
    requires s.owner == None && s.isSet
    ensures Reachable(true, n, initial, Move(s.(waits := s.waits + 1), p, Idle))
  {
    Reacquires(n, initial, s, p);
    var s1 := Move(s.(owner := Some(p)), p, WaitTest);
    TesterReturns(n, initial, s1, p);
    assert s1.threads[p := Idle] == s.threads[p := Idle];
    assert Move(s1.(owner := None, waits := s1.waits + 1), p, Idle) == Move(s.(waits := s.waits + 1), p, Idle);
  }

  /** What Reset leaves of a state. */
  function Cleared(s: State): State { s.(isSet := false, resets := s.resets + if s.isSet then 1 else 0) }

  /** A thread that holds the mutex inside Reset clears the flag and leaves. */
  lemma Clears(n: nat, initial: bool, s: State, t: nat)
    requires Reachable(true, n, initial, s) && t < |s.threads| && s.threads[t] == ResetClear && s.owner == Some(t)
    ensures Reachable(true, n, initial, Move(Cleared(s), t, ResetUnlock))
  {
    Works(true, n, initial, s, t, {}, Move(Cleared(s), t, ResetUnlock));
  }

  /** An idle thread calls Reset: afterwards the event is not set. */
  lemma ResetReturns(n: nat, initial: bool, s: State, t: nat)
    requires Reachable(true, n, initial, s) && t < |s.threads| && s.threads[t] == Idle && s.owner == None
    ensures Reachable(true, n, initial, Cleared(s))
  {
    Enters(true, n, initial, s, t, Reset);
    var s1 := Move(s.(owner := Some(t)), t, ResetClear);
    Clears(n, initial, s1, t);
    var s2 := Move(Cleared(s1), t, ResetUnlock);
    Leaves(n, initial, s2, t);
    assert s2.threads[t := Idle] == s.threads;
    assert Move(s2.(owner := None), t, Idle) == Cleared(s);
  }

  lemma TwoParked(n: nat, initial: bool) returns (s: State)
    requires n >= 3
    ensures Reachable(true, n, initial, s) && !s.isSet && s.owner == None
    ensures s.threads == seq(n, _ => Idle)[0 := Parked][1 := Parked]
  {
    s := Initial(n, initial);
    assert Run(true, n, initial, []) == Some(s);
    ResetReturns(n, initial, s, 0);
    s := Cleared(s);
    WaitParks(true, n, initial, s, 0);
    WaitParks(true, n, initial, Move(s, 0, Parked), 1);
    s := Move(Move(s, 0, Parked), 1, Parked);
  }

  /** Two threads wait on a manual-reset event, a third one sets it: one of the two sleeps on. */
  lemma ManualResetLoses(n: nat, initial: bool) returns (s: State)
    requires n >= 3
    ensures Reachable(true, n, initial, s) && LostWakeup(s)
  {
    var parked := TwoParked(n, initial);
    SetWakesOne(true, n, initial, parked, 2, 0);
    var woken := Move(parked.(isSet := true, sets := parked.sets + 1), 0, Woken);
    WokenReturns(n, initial, woken, 0);
    s := Move(woken.(waits := woken.waits + 1), 0, Idle);
    SleepsOn(s, 1);
  }

  /** One thread is parked, the others are idle, and the event is set. */
  lemma SleepsOn(s: State, p: nat)
    requires p < |s.threads| && s.threads[p] == Parked && s.isSet && s.owner == None
    requires forall t :: 0 <= t < |s.threads| && t != p ==> s.threads[t] == Idle
    ensures LostWakeup(s)
  {
    assert p in ParkedThreads(s);
  }

  /* ---- One or two threads ---- */

  ghost predicate HasSignaller(s: State) { exists t :: 0 <= t < |s.threads| && s.threads[t] == SetSignal }

  /** While a manual-reset event is set and somebody is parked, the other one is about to signal. */
  ghost predicate FewInv(s: State) {
    && |s.threads| <= 2 && MutexInv(s) && TestedInv(s)
    && (s.isSet && ParkedThreads(s) != {} ==> HasSignaller(s))
  }

  lemma SignallerAt(s: State, t: nat)
    requires t < |s.threads| && s.threads[t] == SetSignal
    ensures HasSignaller(s)
  {
  }

  /** After the signal of one of two threads nobody is parked. */
  lemma SignalEmpties(s: State, t: nat, wake: set<nat>)
    requires |s.threads| <= 2 && Enabled(s, Work(t, wake)) && s.threads[t] == SetSignal
    ensures ParkedThreads(WorkStep(true, s, t, wake)) == {}
  {
    var s' := WorkStep(true, s, t, wake);
    forall p | 0 <= p < |s.threads| ensures s'.threads[p] != Parked {
      if s.threads[p] == Parked {
        assert p in ParkedThreads(s);
        var q :| q in wake;
        assert q in ParkedThreads(s);
      }
    }
  }

  lemma FewKeptByWork(s: State, t: nat, wake: set<nat>)
    requires FewInv(s) && Enabled(s, Work(t, wake))
    ensures var s' := WorkStep(true, s, t, wake); s'.isSet && ParkedThreads(s') != {} ==> HasSignaller(s')
  {
    var s' := WorkStep(true, s, t, wake);
    if s'.isSet && ParkedThreads(s') != {} {
      var p :| p in ParkedThreads(s');
      if s.threads[t].SetSignal? {
        SignalEmpties(s, t, wake);
      } else if s.threads[t].SetTest? && !s.isSet {
        SignallerAt(s', t);
      }
    }
  }

  lemma FewKept(s: State, a: Action)
    requires FewInv(s) && Enabled(s, a)
    ensures FewInv(Next(true, s, a))
  {
    var s' := Next(true, s, a);
    MutexKept(true, s, a);
    TestedKept(true, s, a);
    if a.Work? {
      FewKeptByWork(s, a.t, a.wake);
    } else if s'.isSet && ParkedThreads(s') != {} {
      var p :| p in ParkedThreads(s');
      assert p in ParkedThreads(s);
      var r :| 0 <= r < |s.threads| && s.threads[r] == SetSignal;
      SignallerAt(s', r);
    }
  }

  lemma {:induction false} FewRunInv(n: nat, initial: bool, actions: seq<Action>, s: State)
    requires n <= 2 && Run(true, n, initial, actions) == Some(s)
    ensures FewInv(s)
  {
    if actions == [] {
      assert ParkedThreads(s) == {};
    } else {
      var before := Run(true, n, initial, actions[..|actions| - 1]).value;
      FewRunInv(n, initial, actions[..|actions| - 1], before);
      FewKept(before, actions[|actions| - 1]);
    }
  }

  lemma FewNeverLose(n: nat, initial: bool, s: State)
    requires n <= 2 && Reachable(true, n, initial, s)
    ensures !LostWakeup(s)
  {
    var actions :| Run(true, n, initial, actions) == Some(s);
    FewRunInv(n, initial, actions, s);
    if LostWakeup(s) {
      var t :| 0 <= t < |s.threads| && s.threads[t] == SetSignal;
      assert Enabled(s, Work(t, ParkedThreads(s)));
      assert false;
    }
  }

  /**
   * Because Set signals instead of broadcasting, wake-ups can be lost exactly when the event is a
   * manual-reset one and three or more threads use it.
   */
  lemma LosesExactlyIfManual(manual: bool, n: nat, initial: bool)
    ensures (exists s :: Reachable(manual, n, initial, s) && LostWakeup(s)) <==> manual && n >= 3
  {
    if manual && n >= 3 {
      var s := ManualResetLoses(n, initial);
    } else {
      forall s | Reachable(manual, n, initial, s) ensures !LostWakeup(s) {
        if manual {
          FewNeverLose(n, initial, s);
        } else {
          AutoResetNeverLoses(n, initial, s);
        }
      }
    }
  }

  /* ---- What a call has done when it returns ---- */

  /** Before it unlocks, Set leaves the event set, Reset not set, and Wait as its kind says. */
  ghost predicate UnlockInv(manual: bool, s: State) {
    forall t :: 0 <= t < |s.threads| ==>
      match s.threads[t]
      case SetUnlock => s.isSet
      case ResetUnlock => !s.isSet
      case WaitUnlock => s.isSet <==> manual
      case _ => true
  }

  lemma UnlockKeptByWork(manual: bool, s: State, t: nat, wake: set<nat>)
    requires MutexInv(s) && TestedInv(s) && UnlockInv(manual, s) && Enabled(s, Work(t, wake))
    ensures UnlockInv(manual, WorkStep(manual, s, t, wake))
  {
  }

  lemma UnlockKept(manual: bool, s: State, a: Action)
    requires MutexInv(s) && TestedInv(s) && UnlockInv(manual, s) && Enabled(s, a)
    ensures UnlockInv(manual, Next(manual, s, a))
  {
    match a
    case Work(t, wake) => UnlockKeptByWork(manual, s, t, wake);
    case _ =>
  }

  lemma {:induction false} UnlockRunInv(manual: bool, n: nat, initial: bool, actions: seq<Action>, s: State)
    requires Run(manual, n, initial, actions) == Some(s)
    ensures MutexInv(s) && TestedInv(s) && UnlockInv(manual, s)
  {
    if actions == [] {
    } else {
      var before := Run(manual, n, initial, actions[..|actions| - 1]).value;
      var a := actions[|actions| - 1];
      UnlockRunInv(manual, n, initial, actions[..|actions| - 1], before);
      MutexKept(manual, before, a);
      TestedKept(manual, before, a);
      UnlockKept(manual, before, a);
    }
  }

  /** In every reachable state of either kind of event, a call that is about to unlock has done its work. */
  lemma CallsDoTheirWork(manual: bool, n: nat, initial: bool, s: State, t: nat)
    requires Reachable(manual, n, initial, s) && t < |s.threads|
    ensures s.threads[t] == SetUnlock ==> s.isSet
    ensures s.threads[t] == ResetUnlock ==> !s.isSet
    ensures s.threads[t] == WaitUnlock ==> (s.isSet <==> manual)
  {
    var actions :| Run(manual, n, initial, actions) == Some(s);
    UnlockRunInv(manual, n, initial, actions, s);
  }

  /** The flag goes up only in Set, and down only in Reset and in Wait on an auto-reset event; each is counted. */
  lemma FlagMoves(manual: bool, s: State, a: Action)
    requires TestedInv(s) && Enabled(s, a)
    ensures var s' := Next(manual, s, a); var pc := s.threads[a.t];
      && (!s.isSet && s'.isSet <==> a.Work? && pc.SetTest? && !s.isSet)
      && (s.isSet && !s'.isSet <==> a.Work? && s.isSet && (pc.ResetClear? || (pc.WaitClear? && !manual)))
      && s'.sets == s.sets + One(a.Work? && pc.SetTest? && !s.isSet)
      && s'.resets == s.resets + One(a.Work? && pc.ResetClear? && s.isSet)
      && s'.waits == s.waits + One(a.Work? && pc.WaitClear?)
  {
  }

  /* ---- Calls that nobody disturbs ---- */

  /** The steps of a run that goes on from s. */
  function RunFrom(manual: bool, s: State, actions: seq<Action>): Option<State>
    decreases |actions|
  {
    if actions == [] then Some(s)
    else if Enabled(s, actions[0]) then RunFrom(manual, Next(manual, s, actions[0]), actions[1..])
    else None
  }

  lemma OneStep(manual: bool, s: State, a: Action, more: seq<Action>)
    requires Enabled(s, a)
    ensures RunFrom(manual, s, [a] + more) == RunFrom(manual, Next(manual, s, a), more)
  {
    assert ([a] + more)[1..] == more;
  }

  /** The state of a thread, the mutex and the flag. */
  ghost predicate At(s: State, t: nat, pc: Pc, isSet: bool) {
    && t < |s.threads| && s.threads[t] == pc && s.isSet == isSet
    && (if HoldsMutex(pc) then s.owner == Some(t) else s.owner == None)
  }

  /** A thread calls an operation while the mutex is free. */
  lemma Locks(manual: bool, s: State, t: nat, call: Call, more: seq<Action>) returns (s': State)
    requires At(s, t, Idle, s.isSet)
    ensures RunFrom(manual, s, [Start(t, call)] + ([Acquire(t)] + more)) == RunFrom(manual, s', more)
    ensures At(s', t, AfterLock(AtLock(call)), s.isSet) && ParkedThreads(s') == ParkedThreads(s)
  {
    OneStep(manual, s, Start(t, call), [Acquire(t)] + more);
    var s1 := Next(manual, s, Start(t, call));
    OneStep(manual, s1, Acquire(t), more);
    s' := Next(manual, s1, Acquire(t));
  }

  /** The last step of a call: the mutex is free again. */
  lemma Unlocks(manual: bool, s: State, t: nat, isSet: bool, more: seq<Action>) returns (s': State)
    requires t < |s.threads| && s.threads[t] in {SetUnlock, ResetUnlock, WaitUnlock}
    requires s.owner == Some(t) && s.isSet == isSet
    ensures RunFrom(manual, s, [Work(t, {})] + more) == RunFrom(manual, s', more) && At(s', t, Idle, isSet)
  {
    OneStep(manual, s, Work(t, {}), more);
    s' := Next(manual, s, Work(t, {}));
  }

  /** Set on an event that is set: it stays set. */
  lemma SetAgain(manual: bool, s: State, t: nat) returns (actions: seq<Action>, s': State)
    requires At(s, t, Idle, true)
    ensures RunFrom(manual, s, actions) == Some(s') && At(s', t, Idle, true)
    ensures forall a :: a in actions ==> a.t == t
  {
    var rest := [Work(t, {})] + ([Work(t, {})] + []);
    actions := [Start(t, Set)] + ([Acquire(t)] + rest);
    var s1 := Locks(manual, s, t, Set, rest);
    OneStep(manual, s1, Work(t, {}), [Work(t, {})] + []);
    s' := Unlocks(manual, Next(manual, s1, Work(t, {})), t, true, []);
  }

  /** The rest of Set once the flag is up. */
  lemma SignalsAndLeaves(manual: bool, s: State, t: nat, wake: set<nat>) returns (s': State)
    requires At(s, t, SetSignal, true) && Enabled(s, Work(t, wake))
    ensures RunFrom(manual, s, [Work(t, wake)] + ([Work(t, {})] + [])) == Some(s') && At(s', t, Idle, true)
    ensures forall p :: p in wake ==> p < |s'.threads| && s'.threads[p] == Woken
  {
    OneStep(manual, s, Work(t, wake), [Work(t, {})] + []);
    var s1 := Next(manual, s, Work(t, wake));
    OneStep(manual, s1, Work(t, {}), []);
    s' := Next(manual, s1, Work(t, {}));
  }

  /** Set on an event that is not set, whoever is woken: afterwards it is. */
  lemma SetSets(manual: bool, s: State, t: nat, wake: set<nat>) returns (actions: seq<Action>, s': State)
    requires At(s, t, Idle, false) && wake <= ParkedThreads(s) && (ParkedThreads(s) != {} ==> wake != {})
    ensures RunFrom(manual, s, actions) == Some(s') && At(s', t, Idle, true)
    ensures forall a :: a in actions ==> a.t == t
    ensures forall p :: p in wake ==> p < |s'.threads| && s'.threads[p] == Woken
  {
    var signal := [Work(t, wake)] + ([Work(t, {})] + []);
    actions := [Start(t, Set)] + ([Acquire(t)] + ([Work(t, {})] + signal));
    var s1 := Locks(manual, s, t, Set, [Work(t, {})] + signal);
    OneStep(manual, s1, Work(t, {}), signal);
    var s2 := Next(manual, s1, Work(t, {}));
    assert ParkedThreads(s2) == ParkedThreads(s1);
    s' := SignalsAndLeaves(manual, s2, t, wake);
  }

  /** Reset, from either state of the event: afterwards it is not set. */
  lemma ResetClears(manual: bool, s: State, t: nat) returns (actions: seq<Action>, s': State)
    requires At(s, t, Idle, s.isSet)
    ensures RunFrom(manual, s, actions) == Some(s') && At(s', t, Idle, false)
    ensures forall a :: a in actions ==> a.t == t
  {
    var rest := [Work(t, {})] + ([Work(t, {})] + []);
    actions := [Start(t, Reset)] + ([Acquire(t)] + rest);
    var s1 := Locks(manual, s, t, Reset, rest);
    OneStep(manual, s1, Work(t, {}), [Work(t, {})] + []);
    s' := Unlocks(manual, Next(manual, s1, Work(t, {})), t, false, []);
  }

  /** Wait on an event that is set returns, and leaves it set exactly if it is manual-reset. */
  lemma WaitTakes(manual: bool, s: State, t: nat) returns (actions: seq<Action>, s': State)
    requires At(s, t, Idle, true)
    ensures RunFrom(manual, s, actions) == Some(s') && At(s', t, Idle, manual)
    ensures forall a :: a in actions ==> a.t == t
  {
    var rest := [Work(t, {})] + ([Work(t, {})] + ([Work(t, {})] + []));
    actions := [Start(t, Wait)] + ([Acquire(t)] + rest);
    var s1 := Locks(manual, s, t, Wait, rest);
    OneStep(manual, s1, Work(t, {}), [Work(t, {})] + ([Work(t, {})] + []));
    var s2 := Next(manual, s1, Work(t, {}));
    OneStep(manual, s2, Work(t, {}), [Work(t, {})] + []);
    s' := Unlocks(manual, Next(manual, s2, Work(t, {})), t, manual, []);
  }

  /** Wait on an event that is not set goes to sleep and leaves the mutex free. */
  lemma WaitSleeps(manual: bool, s: State, t: nat) returns (actions: seq<Action>, s': State)
    requires At(s, t, Idle, false)
    ensures RunFrom(manual, s, actions) == Some(s') && At(s', t, Parked, false)
    ensures forall a :: a in actions ==> a.t == t
  {
    var rest := [Work(t, {})] + [];
    actions := [Start(t, Wait)] + ([Acquire(t)] + rest);
    var s1 := Locks(manual, s, t, Wait, rest);
    OneStep(manual, s1, Work(t, {}), []);
    s' := Next(manual, s1, Work(t, {}));
  }
}
