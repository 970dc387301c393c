/** The one-slot monitor of src_java/Drop.java under any number of threads, and the run of one Producer and one
    Consumer over it. Monitor entry, wait and notifyAll follow sections 17.1 and 17.2 of the Java Language
    Specification; a wait may end without a notification. */
module DropMonitor {
  import opened Basics

  type Message = string

  datatype Call = Put(msg: Message) | Take

  /** Where a thread is in a call: outside; waiting to get the monitor (on entry, or again after its wait has
      ended); about to test the guard; in the wait set; after toggling `empty`; after storing the message (put);
      after notifyAll. */
  datatype Pc =
    | Outside
    | Blocked(call: Call)
    | Testing(call: Call)
    | InWaitSet(call: Call)
    | Toggled(call: Call)
    | Stored(call: Call)
    | Notified(call: Call)

  /** `puts` and `takes` record the messages stored and returned so far. */
  datatype State = State(
    empty: bool,
    message: Message,
    lock: Option<nat>,
    pcs: seq<Pc>,
    puts: seq<Message>,
    takes: seq<Message>)

  /** Start begins a call, Wake ends a wait without notification (or by interruption), Run is any other step. */
  datatype Action = Start(t: nat, call: Call) | Wake(t: nat) | Run(t: nat)

  /** The loop guards: take waits while empty, put while not. */
  predicate MustWait(call: Call, empty: bool) {
    if call.Take? then empty else !empty
  }

  function Notify(pc: Pc): Pc {
    if pc.InWaitSet? then Blocked(pc.call) else pc
  }

  function NotifyAll(pcs: seq<Pc>): (r: seq<Pc>)
    ensures |r| == |pcs| && forall i :: 0 <= i < |pcs| ==> r[i] == Notify(pcs[i])
  {
    if pcs == [] then [] else [Notify(pcs[0])] + NotifyAll(pcs[1..])
  }

  function At(s: State, t: nat, pc: Pc): State
    requires t < |s.pcs|
  {
    s.(pcs := s.pcs[t := pc])
  }

  function Next(s: State, a: Action): Option<State> {
    if a.t >= |s.pcs| then None
    else
      var pc := s.pcs[a.t];
      match a
      case Start(t, call) => if pc == Outside then Some(At(s, t, Blocked(call))) else None
      case Wake(t) => if pc.InWaitSet? then Some(At(s, t, Blocked(pc.call))) else None
      case Run(t) =>
        match pc
        case Outside => None
        case InWaitSet(_) => None
        case Blocked(call) => if s.lock == None then Some(At(s.(lock := Some(t)), t, Testing(call))) else None
        case Testing(call) =>
          if MustWait(call, s.empty) then Some(At(s.(lock := None), t, InWaitSet(call)))
          else Some(At(s.(empty := call.Take?), t, Toggled(call)))
        case Toggled(call) =>
          if call.Put? then Some(At(s.(message := call.msg, puts := s.puts + [call.msg]), t, Stored(call)))
          else Some(At(s.(pcs := NotifyAll(s.pcs)), t, Notified(call)))
        case Stored(call) => Some(At(s.(pcs := NotifyAll(s.pcs)), t, Notified(call)))
        case Notified(call) =>
          var s' := At(s.(lock := None), t, Outside);
          Some(if call.Take? then s'.(takes := s.takes + [s.message]) else s')
  }

  function Init(n: nat, message: Message): State {
    State(true, message, None, seq(n, _ => Outside), [], [])
  }

  predicate HoldsMonitor(pc: Pc) {
    pc.Testing? || pc.Toggled? || pc.Stored? || pc.Notified?
  }

  /** The message stored and not yet returned, as the monitor's holder leaves it. */
  ghost predicate HistoryAgrees(s: State) {
    match if s.lock == None then Outside else if s.lock.value < |s.pcs| then s.pcs[s.lock.value] else Outside
    case Toggled(Put(_)) => !s.empty && s.puts == s.takes
    case Toggled(Take) => s.empty && s.puts == s.takes + [s.message]
    case Notified(Take) => s.empty && s.puts == s.takes + [s.message]
    case Stored(_) => !s.empty && s.puts == s.takes + [s.message]
    case Notified(Put(_)) => !s.empty && s.puts == s.takes + [s.message]
    case _ => s.puts == s.takes + if s.empty then [] else [s.message]
  }

  /** A call in the wait set has a guard that is false now, or the thread in the monitor is between its toggle and
      its notifyAll; in the second case only calls of the other kind are waiting. */
  predicate WaitIsJustified(s: State, t: nat)
    requires t < |s.pcs| && s.pcs[t].InWaitSet?
  {
    if s.lock.Some? && s.lock.value < |s.pcs| && (s.pcs[s.lock.value].Toggled? || s.pcs[s.lock.value].Stored?) then
      s.pcs[t].call.Take? <==> s.pcs[s.lock.value].call.Put?
    else MustWait(s.pcs[t].call, s.empty)
  }

  /** Exactly the thread the lock names is in the monitor. */
  ghost predicate LockAgrees(s: State) {
    && (forall t :: 0 <= t < |s.pcs| ==> (HoldsMonitor(s.pcs[t]) <==> s.lock == Some(t)))
    && (s.lock.Some? ==> s.lock.value < |s.pcs|)
    && (forall t :: 0 <= t < |s.pcs| && s.pcs[t].Stored? ==> s.pcs[t].call.Put?)
  }

  ghost predicate WaitsAreJustified(s: State) {
    forall t :: 0 <= t < |s.pcs| && s.pcs[t].InWaitSet? ==> WaitIsJustified(s, t)
  }

  ghost predicate Inv(s: State) {
    LockAgrees(s) && HistoryAgrees(s) && WaitsAreJustified(s)
  }

  /** A step moves its own thread and can end the waits of others; it does nothing else to them. */
  lemma OthersOnlyNotified(s: State, a: Action)
    requires Next(s, a) != None
    ensures var s' := Next(s, a).value;
      && a.t < |s.pcs| == |s'.pcs|
      && forall t :: 0 <= t < |s.pcs| && t != a.t ==> s'.pcs[t] == s.pcs[t] || s'.pcs[t] == Notify(s.pcs[t])
  {
  }

  /** The thread that moves and the lock. */
  lemma MoverAndLock(s: State, a: Action)
    requires LockAgrees(s) && Next(s, a) != None
    ensures var s' := Next(s, a).value;
      && (HoldsMonitor(s'.pcs[a.t]) <==> s'.lock == Some(a.t))
      && (s'.lock == s.lock || s'.lock == Some(a.t) || s'.lock == None)
      && (s.lock.Some? && s.lock.value != a.t ==> s'.lock == s.lock)
      && (s'.pcs[a.t].Stored? ==> s'.pcs[a.t].call.Put?)
  {
    assert HoldsMonitor(s.pcs[a.t]) <==> s.lock == Some(a.t);
    OthersOnlyNotified(s, a);
  }

  lemma StepLock(s: State, a: Action)
    requires LockAgrees(s) && Next(s, a) != None
    ensures LockAgrees(Next(s, a).value)
  {
    var s' := Next(s, a).value;
    MoverAndLock(s, a);
    OthersOnlyNotified(s, a);
    forall t | 0 <= t < |s'.pcs| && t != a.t
      ensures HoldsMonitor(s'.pcs[t]) <==> s'.lock == Some(t)
      ensures s'.pcs[t].Stored? ==> s'.pcs[t].call.Put?
    {
      assert HoldsMonitor(s.pcs[t]) <==> s.lock == Some(t);
    }
  }

  lemma StepHistory(s: State, a: Action)
    requires LockAgrees(s) && HistoryAgrees(s) && Next(s, a) != None
    ensures HistoryAgrees(Next(s, a).value)
  {
    StepLock(s, a);
    assert HoldsMonitor(s.pcs[a.t]) <==> s.lock == Some(a.t);
  }

  lemma StepWaits(s: State, a: Action)
    requires LockAgrees(s) && HistoryAgrees(s) && WaitsAreJustified(s) && Next(s, a) != None
    ensures WaitsAreJustified(Next(s, a).value)
  {
    var s' := Next(s, a).value;
    StepLock(s, a);
    assert HoldsMonitor(s.pcs[a.t]) <==> s.lock == Some(a.t);
    forall t | 0 <= t < |s'.pcs| && s'.pcs[t].InWaitSet?
      ensures WaitIsJustified(s', t)
    {
      assert t != a.t ==> s.pcs[t] == s'.pcs[t] && WaitIsJustified(s, t);
    }
  }

  lemma StepInv(s: State, a: Action)
    requires Inv(s) && Next(s, a) != None
    ensures Inv(Next(s, a).value)
  {
    StepLock(s, a);
    StepHistory(s, a);
    StepWaits(s, a);
  }

  ghost predicate Reaches(s: State, actions: seq<Action>, t: State)
    decreases |actions|
  {
    if actions == [] then s == t
    else Next(s, actions[0]) != None && Reaches(Next(s, actions[0]).value, actions[1..], t)
  }

  lemma {:induction false} RunInv(s: State, actions: seq<Action>, t: State)
    requires Inv(s) && Reaches(s, actions, t)
    ensures Inv(t)
    decreases |actions|
  {
    if actions != [] {
      StepInv(s, actions[0]);
      RunInv(Next(s, actions[0]).value, actions[1..], t);
    }
  }

  /** For any threads and any interleaving: the messages taken are the messages put, in order, none twice and none
      lost, except for at most the last one; and outside the monitor `empty` says whether one is pending. */
  lemma TakesFollowPuts(n: nat, message: Message, actions: seq<Action>, s: State)
    requires Reaches(Init(n, message), actions, s)
    ensures s.takes <= s.puts && |s.puts| <= |s.takes| + 1
    ensures s.lock == None ==> (s.empty <==> s.puts == s.takes)
    ensures s.lock == None && !s.empty ==> s.puts == s.takes + [s.message]
  {
    RunInv(Init(n, message), actions, s);
  }

  /** A thread has toggled `empty` and not yet called notifyAll. */
  predicate MidCall(s: State) {
    exists t :: 0 <= t < |s.pcs| && (s.pcs[t].Toggled? || s.pcs[t].Stored?)
  }

  /** No wake-up is lost: unless a thread is between its toggle and its notifyAll every waiting call has a guard that is
      false, and in every state the waiting calls are all puts or all takes. */
  lemma NoLostWakeup(n: nat, message: Message, actions: seq<Action>, s: State)
    requires Reaches(Init(n, message), actions, s)
    ensures forall t :: 0 <= t < |s.pcs| && s.pcs[t].InWaitSet? && !MidCall(s) ==> MustWait(s.pcs[t].call, s.empty)
    ensures MidCall(s) ==> s.lock.Some?
    ensures forall t, u :: 0 <= t < u < |s.pcs| && s.pcs[t].InWaitSet? && s.pcs[u].InWaitSet? ==>
      s.pcs[t].call.Take? == s.pcs[u].call.Take?
  {
    RunInv(Init(n, message), actions, s);
    forall t | 0 <= t < |s.pcs| && s.pcs[t].InWaitSet?
      ensures WaitIsJustified(s, t)
    {
    }
  }

  lemma HolderCanRun(s: State)
    requires LockAgrees(s) && s.lock.Some?
    ensures Next(s, Run(s.lock.value)) != None
  {
    assert HoldsMonitor(s.pcs[s.lock.value]);
  }

  /** While a call is in progress at least one thread can move without a spurious wake-up, unless all the threads
      in a call wait for a call of the other kind. */
  lemma SomeThreadRuns(n: nat, message: Message, actions: seq<Action>, s: State)
    requires Reaches(Init(n, message), actions, s)
    requires forall t :: Next(s, Run(t)) == None
    ensures s.lock == None
    ensures forall t :: 0 <= t < |s.pcs| ==>
      s.pcs[t] == Outside || (s.pcs[t].InWaitSet? && MustWait(s.pcs[t].call, s.empty))
  {
    RunInv(Init(n, message), actions, s);
    if s.lock.Some? {
      HolderCanRun(s);
    }
    forall t | 0 <= t < |s.pcs|
      ensures s.pcs[t] == Outside || (s.pcs[t].InWaitSet? && MustWait(s.pcs[t].call, s.empty))
    {
      var r := Next(s, Run(t));
      assert r == None;
    }
  }
}
