/** The two-friend program of src_java/Deadlock.java. Each thread enters its own friend's monitor in `bow`, then the
    other friend's in `bowBack`, and leaves both in the opposite order. Monitors are reentrant. */
module CrossedMonitors {
  import opened Basics

  datatype Friend = Alphonse | Gaston

  datatype Monitor = Monitor(owner: Option<Friend>, entries: nat)

  /** Program counter of a thread: before bow, inside bow, inside bowBack, back in bow, returned. */
  datatype Pc = Start | InBow | InBowBack | Returned | Finished

  datatype State = State(pcA: Pc, pcG: Pc, monitorA: Monitor, monitorG: Monitor) {
    function Pc(t: Friend): Pc {
      if t == Alphonse then pcA else pcG
    }

    function Monitor(f: Friend): Monitor {
      if f == Alphonse then monitorA else monitorG
    }

    function With(t: Friend, pc: Pc, f: Friend, m: Monitor): State {
      var s := if t == Alphonse then this.(pcA := pc) else this.(pcG := pc);
      if f == Alphonse then s.(monitorA := m) else s.(monitorG := m)
    }
  }

  function Other(f: Friend): Friend {
    if f == Alphonse then Gaston else Alphonse
  }

  /** The thread whose receiver is friend `t` is named `t`. */
  function Enter(m: Monitor, t: Friend): Option<Monitor> {
    if m.owner == None then Some(Monitor(Some(t), 1))
    else if m.owner == Some(t) then Some(m.(entries := m.entries + 1))
    else None
  }

  function Leave(m: Monitor, t: Friend): Option<Monitor> {
    if m.owner != Some(t) || m.entries == 0 then None
    else if m.entries == 1 then Some(Monitor(None, 0))
    else Some(m.(entries := m.entries - 1))
  }

  /** The next step of thread t; None when it is blocked or finished. */
  function Next(s: State, t: Friend): Option<State>
  {
    match s.Pc(t)
    case Start => Move(s, t, InBow, t, Enter(s.Monitor(t), t))
    case InBow => Move(s, t, InBowBack, Other(t), Enter(s.Monitor(Other(t)), t))
    case InBowBack => Move(s, t, Returned, Other(t), Leave(s.Monitor(Other(t)), t))
    case Returned => Move(s, t, Finished, t, Leave(s.Monitor(t), t))
    case Finished => None
  }

  function Move(s: State, t: Friend, pc: Pc, f: Friend, m: Option<Monitor>): Option<State> {
    if m == None then None else Some(s.With(t, pc, f, m.value))
  }

  const INIT: State := State(Start, Start, Monitor(None, 0), Monitor(None, 0))

  ghost predicate Runs(s: State, schedule: seq<Friend>)
    decreases |schedule|
  {
    schedule == [] || (Next(s, schedule[0]) != None && Runs(Next(s, schedule[0]).value, schedule[1..]))
  }

  ghost function After(s: State, schedule: seq<Friend>): State
    requires Runs(s, schedule)
    decreases |schedule|
  {
    if schedule == [] then s else After(Next(s, schedule[0]).value, schedule[1..])
  }

  predicate Stuck(s: State)
  {
    Next(s, Alphonse) == None && Next(s, Gaston) == None
  }

  predicate Final(s: State)
  {
    s.Pc(Alphonse) == Finished && s.Pc(Gaston) == Finished
  }

  /** Each thread holds its own friend's monitor and waits for the other's. */
  predicate Crossed(s: State)
  {
    && s.pcA == InBow && s.monitorA == Monitor(Some(Alphonse), 1)
    && s.pcG == InBow && s.monitorG == Monitor(Some(Gaston), 1)
  }

  predicate HoldsOwn(pc: Pc) {
    pc == InBow || pc == InBowBack || pc == Returned
  }

  /** Who is inside the monitor of f, as the two program counters tell. */
  predicate InvAt(s: State, f: Friend) {
    && !(HoldsOwn(s.Pc(f)) && s.Pc(Other(f)) == InBowBack)
    && s.Monitor(f) == if HoldsOwn(s.Pc(f)) then Monitor(Some(f), 1)
                       else if s.Pc(Other(f)) == InBowBack then Monitor(Some(Other(f)), 1)
                       else Monitor(None, 0)
  }

  predicate Inv(s: State) {
    InvAt(s, Alphonse) && InvAt(s, Gaston)
  }

  lemma StepInv(s: State, t: Friend)
    requires Inv(s) && Next(s, t) != None
    ensures Inv(Next(s, t).value)
    ensures Work(Next(s, t).value) == Work(s) - 1
  {
  }

  function Left(pc: Pc): nat {
    match pc
    case Start => 4
    case InBow => 3
    case InBowBack => 2
    case Returned => 1
    case Finished => 0
  }

  /** The steps still to be taken. */
  function Work(s: State): nat
  {
    Left(s.Pc(Alphonse)) + Left(s.Pc(Gaston))
  }

  lemma {:induction false} RunInv(s: State, schedule: seq<Friend>)
    requires Inv(s) && Runs(s, schedule)
    ensures Inv(After(s, schedule))
    ensures |schedule| + Work(After(s, schedule)) == Work(s)
    decreases |schedule|
  {
    if schedule != [] {
      StepInv(s, schedule[0]);
      RunInv(Next(s, schedule[0]).value, schedule[1..]);
    }
  }

  lemma StuckStates(s: State)
    requires Inv(s)
    ensures Stuck(s) <==> Final(s) || Crossed(s)
  {
  }

  /** Every run can be continued until all eight steps are done, unless it has come to the crossing state. */
  lemma RunsStopFinishedOrCrossed(schedule: seq<Friend>)
    requires Runs(INIT, schedule)
    ensures |schedule| <= 8
    ensures Stuck(After(INIT, schedule)) <==> Final(After(INIT, schedule)) || Crossed(After(INIT, schedule))
    ensures Final(After(INIT, schedule)) <==> |schedule| == 8
  {
    RunInv(INIT, schedule);
    StuckStates(After(INIT, schedule));
  }

  /** A thread that is first to take two steps in a row keeps the two threads apart for the rest of the run. */
  predicate Uncrossed(s: State)
  {
    Left(s.pcA) <= 2 || Left(s.pcG) <= 2
  }

  lemma {:induction false} UncrossedStays(s: State, schedule: seq<Friend>)
    requires Inv(s) && Uncrossed(s) && Runs(s, schedule)
    ensures Uncrossed(After(s, schedule))
    decreases |schedule|
  {
    if schedule != [] {
      StepInv(s, schedule[0]);
      UncrossedStays(Next(s, schedule[0]).value, schedule[1..]);
    }
  }

  lemma FirstTwoSteps(t: Friend, u: Friend)
    requires Runs(INIT, [t, u])
    ensures if t == u then Uncrossed(After(INIT, [t, u])) else Crossed(After(INIT, [t, u]))
  {
    var s1 := Next(INIT, t).value;
    assert [t, u][1..] == [u] && [u][1..] == [];
    assert After(INIT, [t, u]) == After(s1, [u]) == Next(s1, u).value;
  }

  lemma {:induction false} RunsInParts(s: State, xs: seq<Friend>, ys: seq<Friend>)
    requires Runs(s, xs + ys)
    ensures Runs(s, xs) && Runs(After(s, xs), ys) && After(s, xs + ys) == After(After(s, xs), ys)
    decreases |xs|
  {
    if xs == [] {
      assert xs + ys == ys;
    } else {
      assert (xs + ys)[1..] == xs[1..] + ys;
      RunsInParts(Next(s, xs[0]).value, xs[1..], ys);
    }
  }

  /** The program deadlocks exactly on the schedules whose first two steps are taken by different threads: a run
      that has stopped is crossed, and not finished, if and only if it began so. */
  lemma DeadlockIffCrossedStart(schedule: seq<Friend>)
    requires Runs(INIT, schedule) && Stuck(After(INIT, schedule))
    ensures |schedule| >= 2
    ensures Crossed(After(INIT, schedule)) <==> schedule[0] != schedule[1]
    ensures Final(After(INIT, schedule)) <==> schedule[0] == schedule[1]
  {
    RunInv(INIT, schedule);
    StuckStates(After(INIT, schedule));
    var first, rest := [schedule[0], schedule[1]], schedule[2..];
    assert schedule == first + rest;
    RunsInParts(INIT, first, rest);
    FirstTwoSteps(schedule[0], schedule[1]);
    RunInv(INIT, first);
    if schedule[0] == schedule[1] {
      UncrossedStays(After(INIT, first), rest);
    } else {
      StuckStates(After(INIT, first));
    }
  }

  lemma CrossingIsReachable()
    ensures Runs(INIT, [Alphonse, Gaston]) && Crossed(After(INIT, [Alphonse, Gaston]))
  {
    var s1 := Next(INIT, Alphonse).value;
    assert [Alphonse, Gaston][1..] == [Gaston] && [Gaston][1..] == [];
    assert Next(s1, Gaston) != None;
  }
}
