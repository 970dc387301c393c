/** src_java/Producer.java and src_java/Consumer.java over one Drop: thread 0 puts four messages and then DONE,
    thread 1 takes until it has taken DONE. */
module ProducerConsumer {
  import opened Basics
  import opened DropMonitor

  const DONE: Message := "DONE"

  const SCRIPT: seq<Message> := [
    "Mares eat oats",
    "Does eat oats",
    "Little lambs eat ivy",
    "A kid will eat ivy too",
    DONE
  ]

  const PRODUCER: nat := 0
  const CONSUMER: nat := 1

  /** Which calls the two `run` methods make: the loop index of the producer is the number of puts it has made. */
  predicate Allowed(s: State, a: Action) {
    a.Start? ==>
      if a.t == PRODUCER then |s.puts| < |SCRIPT| && a.call == Put(SCRIPT[|s.puts|])
      else a.t == CONSUMER && a.call == Take && (s.takes == [] || s.takes[|s.takes| - 1] != DONE)
  }

  ghost predicate Runs(s: State, actions: seq<Action>, t: State)
    decreases |actions|
  {
    if actions == [] then s == t
    else
      && Allowed(s, actions[0])
      && Next(s, actions[0]) != None
      && Runs(Next(s, actions[0]).value, actions[1..], t)
  }

  ghost predicate ProducerAgrees(s: State)
    requires |s.pcs| == 2
  {
    match s.pcs[PRODUCER]
    case Outside => s.puts <= SCRIPT
    case Stored(_) => s.puts <= SCRIPT
    case Notified(call) => call.Put? && s.puts <= SCRIPT
    case _ => |s.puts| < |SCRIPT| && s.puts <= SCRIPT && s.pcs[PRODUCER].call == Put(SCRIPT[|s.puts|])
  }

  /** The consumer is in a call only while it has not taken DONE. */
  ghost predicate ConsumerAgrees(s: State)
    requires |s.pcs| == 2
  {
    s.pcs[CONSUMER] != Outside ==> s.pcs[CONSUMER].call == Take && |s.takes| < |SCRIPT|
  }

  ghost predicate PairInv(s: State) {
    |s.pcs| == 2 && Inv(s) && ProducerAgrees(s) && ConsumerAgrees(s)
  }

  lemma DoneIsLast(i: nat)
    requires i < |SCRIPT|
    ensures SCRIPT[i] == DONE <==> i == |SCRIPT| - 1
  {
    assert |SCRIPT| == 5;
    assert |SCRIPT[0]| == 14 && |SCRIPT[1]| == 13 && |SCRIPT[2]| == 20 && |SCRIPT[3]| == 22 && |DONE| == 4;
  }

  lemma PairStep(s: State, a: Action)
    requires PairInv(s) && Allowed(s, a) && Next(s, a) != None
    ensures PairInv(Next(s, a).value)
  {
    StepInv(s, a);
    StepProducer(s, a);
    StepConsumer(s, a);
  }

  lemma StepProducer(s: State, a: Action)
    requires PairInv(s) && Allowed(s, a) && Next(s, a) != None
    ensures ProducerAgrees(Next(s, a).value)
  {
  }

  lemma StepConsumer(s: State, a: Action)
    requires PairInv(s) && Allowed(s, a) && Next(s, a) != None
    ensures ConsumerAgrees(Next(s, a).value)
  {
    assert s.takes <= s.puts;
    if 0 < |s.takes| <= |SCRIPT| {
      DoneIsLast(|s.takes| - 1);
    }
  }

  lemma StepRank(s: State, a: Action)
    requires PairInv(s) && Allowed(s, a) && Next(s, a) != None
    ensures Rank(Next(s, a).value) <= Rank(s) + if a.Wake? then 6 else -1
  {
    assert HoldsMonitor(s.pcs[a.t]) <==> s.lock == Some(a.t);
  }

  /** notifyAll calls still to come. */
  function NotifiesLeft(s: State): int
    requires |s.pcs| == 2
  {
    2 * |SCRIPT| - |s.puts| - |s.takes|
    + (if s.pcs[PRODUCER].Stored? then 1 else 0)
    - (if s.pcs[CONSUMER].Notified? then 1 else 0)
  }

  function PcRank(pc: Pc): nat {
    match pc
    case InWaitSet(_) => 0
    case Stored(_) => 3
    case Toggled(_) => 4
    case Testing(_) => 5
    case Blocked(_) => 6
    case Outside => 7
    case Notified(_) => 8
  }

  /** Goes down with every step but a spurious wake-up, which adds at most six. */
  function Rank(s: State): int
    requires |s.pcs| == 2
  {
    20 * NotifiesLeft(s) + PcRank(s.pcs[PRODUCER]) + PcRank(s.pcs[CONSUMER])
  }

  function Wakes(actions: seq<Action>): nat {
    if actions == [] then 0 else (if actions[0].Wake? then 1 else 0) + Wakes(actions[1..])
  }

  lemma {:induction false} RunRank(s: State, actions: seq<Action>, t: State)
    requires PairInv(s) && Runs(s, actions, t)
    ensures PairInv(t)
    ensures |actions| + Rank(t) <= Rank(s) + 7 * Wakes(actions)
    decreases |actions|
  {
    if actions != [] {
      PairStep(s, actions[0]);
      StepRank(s, actions[0]);
      RunRank(Next(s, actions[0]).value, actions[1..], t);
    }
  }

  lemma RankIsPositive(s: State)
    requires PairInv(s)
    ensures Rank(s) >= 0
  {
    assert |s.takes| <= |s.puts| <= 5;
  }

  /** No thread can move, spurious wake-ups aside. */
  ghost predicate Halted(s: State) {
    forall a: Action :: Allowed(s, a) && !a.Wake? ==> Next(s, a) == None
  }

  lemma ProducerCanStart(s: State)
    requires PairInv(s) && s.pcs[PRODUCER] == Outside && |s.puts| < |SCRIPT|
    ensures !Halted(s)
  {
    var a := Start(PRODUCER, Put(SCRIPT[|s.puts|]));
    assert Allowed(s, a) && Next(s, a) != None;
  }

  lemma ConsumerCanStart(s: State)
    requires PairInv(s) && s.pcs[CONSUMER] == Outside && |s.takes| < |SCRIPT| && s.takes <= SCRIPT
    ensures !Halted(s)
  {
    if s.takes != [] {
      DoneIsLast(|s.takes| - 1);
    }
    var a := Start(CONSUMER, Take);
    assert Allowed(s, a) && Next(s, a) != None;
  }

  lemma HaltedMeansDone(s: State)
    requires PairInv(s) && Halted(s)
    ensures s.takes == s.puts == SCRIPT && s.pcs == [Outside, Outside]
  {
    var p, c := Run(PRODUCER), Run(CONSUMER);
    assert Allowed(s, p) && Allowed(s, c);
    if s.lock.Some? {
      HolderCanRun(s);
    }
    if s.pcs[PRODUCER] == Outside && |s.puts| < |SCRIPT| {
      ProducerCanStart(s);
    }
    if s.pcs[CONSUMER] == Outside && |s.takes| < |SCRIPT| {
      ConsumerCanStart(s);
    }
  }

  /** Safety and liveness of the two threads: what the consumer has received is always a beginning of the four
      messages followed by DONE; a run with w spurious wake-ups has at most 214 + 7 w steps; and a run that cannot
      go on has delivered all five, in order, with both threads returned. */
  lemma ConsumerReceivesScript(actions: seq<Action>, message: Message, s: State)
    requires Runs(Init(2, message), actions, s)
    ensures s.takes <= SCRIPT
    ensures |actions| <= 214 + 7 * Wakes(actions)
    ensures Halted(s) <==> s.takes == SCRIPT && s.pcs == [Outside, Outside]
  {
    var s0 := Init(2, message);
    assert PairInv(s0);
    RunRank(s0, actions, s);
    RankIsPositive(s);
    if Halted(s) {
      HaltedMeansDone(s);
    }
    if s.takes == SCRIPT && s.pcs == [Outside, Outside] {
      DoneIsLast(4);
    }
  }

  // ----- any number of spurious wake-ups -----

  /** The thread whose turn it is: the one in the monitor after its toggle, otherwise the producer while the slot is
      empty and the consumer while it is full. */
  function Favoured(s: State): nat
    requires |s.pcs| == 2
  {
    if s.lock.Some? && s.lock.value < 2 && !s.pcs[s.lock.value].Testing? then s.lock.value
    else if s.empty then PRODUCER
    else CONSUMER
  }

  /** Until everything is delivered the favoured thread is not in the wait set, has work, and can take a step as soon
      as the monitor is free or its own. */
  lemma FavouredIsReady(s: State)
    requires PairInv(s) && s.takes != SCRIPT
    ensures !s.pcs[Favoured(s)].InWaitSet?
    ensures s.lock == None || s.lock == Some(Favoured(s)) ==>
      exists a: Action :: a.t == Favoured(s) && !a.Wake? && Allowed(s, a) && Next(s, a) != None
  {
    var f := Favoured(s);
    assert |s.takes| <= |s.puts| <= |SCRIPT|;
    assert s.pcs[f].InWaitSet? ==> WaitIsJustified(s, f);
    if s.lock == None || s.lock == Some(f) {
      if s.pcs[f] == Outside {
        assert s.lock == None;
        if f == PRODUCER {
          assert |s.puts| < |SCRIPT|;
          var a := Start(PRODUCER, Put(SCRIPT[|s.puts|]));
          assert Allowed(s, a) && Next(s, a) != None;
        } else {
          if s.takes != [] {
            DoneIsLast(|s.takes| - 1);
          }
          var a := Start(CONSUMER, Take);
          assert Allowed(s, a) && Next(s, a) != None;
        }
      } else {
        assert HoldsMonitor(s.pcs[f]) <==> s.lock == Some(f);
        assert Allowed(s, Run(f)) && Next(s, Run(f)) != None;
      }
    }
  }

  /** Goes down with every step of the favoured thread and up with none. */
  function Turns(s: State): int
    requires |s.pcs| == 2
  {
    12 * NotifiesLeft(s) + PcRank(s.pcs[Favoured(s)])
  }

  predicate TakesTurn(s: State, a: Action)
    requires |s.pcs| == 2
  {
    a.t == Favoured(s) && !a.Wake?
  }

  lemma StepTurns(s: State, a: Action)
    requires PairInv(s) && Allowed(s, a) && Next(s, a) != None
    ensures Turns(Next(s, a).value) <= Turns(s) - if TakesTurn(s, a) then 1 else 0
  {
    var s' := Next(s, a).value;
    PairStep(s, a);
    assert HoldsMonitor(s.pcs[a.t]) <==> s.lock == Some(a.t);
    assert s.pcs[Favoured(s)].InWaitSet? ==> WaitIsJustified(s, Favoured(s));
    assert s'.pcs[Favoured(s')].InWaitSet? ==> WaitIsJustified(s', Favoured(s'));
  }

  /** Scheduling that gives the favoured thread a step at least once in `bound` steps; `left` is what remains of the
      current stretch. Spurious wake-ups are not limited. */
  ghost predicate Fair(s: State, actions: seq<Action>, bound: nat, left: nat)
    decreases |actions|
  {
    actions == [] ||
    (&& |s.pcs| == 2 && Next(s, actions[0]) != None
     && if TakesTurn(s, actions[0]) then Fair(Next(s, actions[0]).value, actions[1..], bound, bound)
        else left > 0 && Fair(Next(s, actions[0]).value, actions[1..], bound, left - 1))
  }

  lemma TurnsArePositive(s: State)
    requires PairInv(s)
    ensures Turns(s) >= 0
  {
    assert |s.takes| <= |s.puts| <= 5;
  }

  /** bound + 1 steps for each of n turns. */
  function Budget(bound: nat, n: int): nat
    decreases n
  {
    if n <= 0 then 0 else bound + 1 + Budget(bound, n - 1)
  }

  lemma {:induction false} BudgetGrows(bound: nat, a: int, b: int)
    requires a <= b
    ensures Budget(bound, a) <= Budget(bound, b)
    decreases b - a
  {
    if a < b {
      BudgetGrows(bound, a, b - 1);
    }
  }

  lemma {:induction false} BudgetIsProduct(bound: nat, n: nat)
    ensures Budget(bound, n) == n * (bound + 1)
  {
    if n > 0 {
      BudgetIsProduct(bound, n - 1);
    }
  }

  lemma FairStep(s: State, a: Action, bound: nat)
    requires PairInv(s) && Allowed(s, a) && Next(s, a) != None
    ensures PairInv(Next(s, a).value)
    ensures Budget(bound, Turns(Next(s, a).value)) + (if TakesTurn(s, a) then bound + 1 else 0)
      <= Budget(bound, Turns(s))
  {
    var s' := Next(s, a).value;
    PairStep(s, a);
    StepTurns(s, a);
    TurnsArePositive(s');
    BudgetGrows(bound, Turns(s'), if TakesTurn(s, a) then Turns(s) - 1 else Turns(s));
  }

  lemma {:induction false} FairRunLength(s: State, actions: seq<Action>, t: State, bound: nat, left: nat)
    requires PairInv(s) && Runs(s, actions, t) && Fair(s, actions, bound, left)
    ensures |actions| <= Budget(bound, Turns(s)) + left
    decreases |actions|
  {
    if actions != [] {
      var s', rest := Next(s, actions[0]).value, actions[1..];
      FairStep(s, actions[0], bound);
      FairRunLength(s', rest, t, bound, if TakesTurn(s, actions[0]) then bound else left - 1);
    }
  }

  /** Every run that is fair to the favoured thread ends, however many wake-ups are spurious. */
  lemma FavouredRunsEnd(actions: seq<Action>, message: Message, s: State, bound: nat)
    requires Runs(Init(2, message), actions, s) && Fair(Init(2, message), actions, bound, bound)
    ensures |actions| < 128 * (bound + 1)
  {
    assert PairInv(Init(2, message));
    FairRunLength(Init(2, message), actions, s, bound, bound);
    BudgetIsProduct(bound, 127);
    BudgetGrows(bound, Turns(Init(2, message)), 127);
  }

  // ----- fairness to each thread -----

  /** Thread t has a step of its own to take, other than being woken. */
  ghost predicate Able(s: State, t: nat) {
    exists a: Action :: a.t == t && !a.Wake? && Allowed(s, a) && Next(s, a) != None
  }

  /** Fairness to thread t: it has taken a step before it was able to in more than `bound` states since its last one;
      `left` is what remains of them. Nothing is asked while t is not able to move, and spurious wake-ups of either
      thread are not limited. */
  ghost predicate FairTo(t: nat, s: State, actions: seq<Action>, bound: nat, left: nat)
    decreases |actions|
  {
    actions == [] ||
    (&& Next(s, actions[0]) != None
     && var s' := Next(s, actions[0]).value;
        if actions[0].t == t && !actions[0].Wake? then FairTo(t, s', actions[1..], bound, bound)
        else if Able(s, t) then left > 0 && FairTo(t, s', actions[1..], bound, left - 1)
        else FairTo(t, s', actions[1..], bound, left))
  }

  lemma {:induction false} FairWithMore(s: State, actions: seq<Action>, bound: nat, left: nat, more: nat)
    requires Fair(s, actions, bound, left) && left <= more
    ensures Fair(s, actions, bound, more)
    decreases |actions|
  {
    if actions != [] && !TakesTurn(s, actions[0]) {
      FairWithMore(Next(s, actions[0]).value, actions[1..], bound, left - 1, more - 1);
    }
  }

  /** A step that is not the favoured thread's leaves the turn where it is. */
  lemma TurnStays(s: State, a: Action)
    requires PairInv(s) && Allowed(s, a) && Next(s, a) != None && !TakesTurn(s, a)
    ensures Favoured(Next(s, a).value) == Favoured(s)
  {
    assert HoldsMonitor(s.pcs[a.t]) <==> s.lock == Some(a.t);
    assert s.pcs[Favoured(s)].InWaitSet? ==> WaitIsJustified(s, Favoured(s));
  }

  /** If the favoured thread is not able to move, the other one is about to leave the monitor: it is the only thread
      that can take a step, and after it the favoured thread is able. */
  lemma UnableIsBrief(s: State, a: Action)
    requires PairInv(s) && Allowed(s, a) && Next(s, a) != None && !Able(s, Favoured(s))
    ensures s.takes != SCRIPT
    ensures !TakesTurn(s, a) && Next(s, a).value.lock == None
  {
    var f := Favoured(s);
    if s.takes == SCRIPT {
      AllTakenIsHalted(s);
    } else {
      FavouredIsReady(s);
      assert s.lock != None && s.lock != Some(f);
      HolderWaits(s, a);
    }
  }

  /** With the five messages taken nobody can move. */
  lemma AllTakenIsHalted(s: State)
    requires PairInv(s) && s.takes == SCRIPT
    ensures forall a :: Allowed(s, a) ==> Next(s, a) == None
  {
    DoneIsLast(4);
    assert |s.puts| == 5 && s.puts == SCRIPT;
    assert HoldsMonitor(s.pcs[PRODUCER]) <==> s.lock == Some(PRODUCER);
    assert HoldsMonitor(s.pcs[CONSUMER]) <==> s.lock == Some(CONSUMER);
  }

  lemma HolderWaits(s: State, a: Action)
    requires PairInv(s) && Allowed(s, a) && Next(s, a) != None && !Able(s, Favoured(s)) && s.takes != SCRIPT
    requires s.lock.Some? && s.lock.value != Favoured(s)
    ensures !TakesTurn(s, a) && Next(s, a).value.lock == None
  {
    var f, h := Favoured(s), s.lock.value;
    FavouredIsReady(s);
    assert HoldsMonitor(s.pcs[h]) && !HoldsMonitor(s.pcs[f]);
    assert TakesTurn(s, a) ==> Able(s, f);
    assert a.t == h;
  }

  /** When the monitor is free the favoured thread is able. */
  lemma FreeMeansAble(s: State)
    requires PairInv(s) && s.takes != SCRIPT && s.lock == None
    ensures Able(s, Favoured(s))
  {
    FavouredIsReady(s);
  }

  /** How many steps the favoured thread can still be made to wait. */
  ghost function Waits(s: State, left: nat): nat
    requires |s.pcs| == 2
  {
    2 * left + if Able(s, Favoured(s)) then 0 else 1
  }

  /** What is left of the patience for thread t after the step a. */
  ghost function LeftAfter(s: State, a: Action, t: nat, bound: nat, left: nat): int {
    if a.t == t && !a.Wake? then bound else if Able(s, t) then left - 1 else left
  }

  lemma FairToStep(t: nat, s: State, actions: seq<Action>, bound: nat, left: nat)
    requires FairTo(t, s, actions, bound, left) && left <= bound && actions != []
    ensures Next(s, actions[0]) != None
    ensures 0 <= LeftAfter(s, actions[0], t, bound, left) <= bound
    ensures (actions[0].t != t || actions[0].Wake?) && Able(s, t) ==> left > 0
    ensures FairTo(t, Next(s, actions[0]).value, actions[1..], bound, LeftAfter(s, actions[0], t, bound, left))
  {
  }

  /** A step that is not the favoured thread's shortens its wait. */
  lemma StepWaits(s: State, a: Action, bound: nat, left: nat)
    requires PairInv(s) && Allowed(s, a) && Next(s, a) != None && !TakesTurn(s, a)
    requires Able(s, Favoured(s)) ==> left > 0
    ensures |Next(s, a).value.pcs| == 2
    ensures Waits(Next(s, a).value, LeftAfter(s, a, Favoured(s), bound, left)) < Waits(s, left)
  {
    PairStep(s, a);
    TurnStays(s, a);
    if !Able(s, Favoured(s)) {
      UnableIsBrief(s, a);
      NotAllTaken(s, a);
      FreeMeansAble(Next(s, a).value);
    }
  }

  lemma FairBefore(s: State, actions: seq<Action>, bound: nat, left: nat, waits: nat)
    requires actions != [] && |s.pcs| == 2 && Next(s, actions[0]) != None
    requires Fair(Next(s, actions[0]).value, actions[1..], bound, waits)
    requires waits <= if TakesTurn(s, actions[0]) then bound else left - 1
    ensures Fair(s, actions, bound, left)
  {
    var more := if TakesTurn(s, actions[0]) then bound else left - 1;
    FairWithMore(Next(s, actions[0]).value, actions[1..], bound, waits, more);
  }

  /** Fairness to each thread gives the thread whose turn it is a step in time: a state in which it is not able to move
      is followed by one in which it is. */
  lemma {:induction false} FairToEachIsFair(
    s: State, actions: seq<Action>, t: State, bound: nat, left0: nat, left1: nat
  )
    requires PairInv(s) && Runs(s, actions, t) && left0 <= bound && left1 <= bound
    requires FairTo(PRODUCER, s, actions, bound, left0) && FairTo(CONSUMER, s, actions, bound, left1)
    ensures Fair(s, actions, 2 * bound + 1, Waits(s, if Favoured(s) == PRODUCER then left0 else left1))
    decreases |actions|
  {
    if actions != [] {
      var a, s', rest := actions[0], Next(s, actions[0]).value, actions[1..];
      var n0, n1 := LeftAfter(s, a, PRODUCER, bound, left0), LeftAfter(s, a, CONSUMER, bound, left1);
      FairToStep(PRODUCER, s, actions, bound, left0);
      FairToStep(CONSUMER, s, actions, bound, left1);
      PairStep(s, a);
      FairToEachIsFair(s', rest, t, bound, n0, n1);
      var left := if Favoured(s) == PRODUCER then left0 else left1;
      if !TakesTurn(s, a) {
        TurnStays(s, a);
        StepWaits(s, a, bound, left);
      }
      FairBefore(s, actions, 2 * bound + 1, Waits(s, left), Waits(s', if Favoured(s') == PRODUCER then n0 else n1));
    }
  }

  /** Only a step of the favoured thread takes a message. */
  lemma NotAllTaken(s: State, a: Action)
    requires PairInv(s) && Allowed(s, a) && Next(s, a) != None && !TakesTurn(s, a)
    ensures Next(s, a).value.takes == s.takes
  {
    assert HoldsMonitor(s.pcs[a.t]) <==> s.lock == Some(a.t);
  }

  /** Delivery: with a scheduler that is fair to each of the two threads every run ends, however many wake-ups are
      spurious, after fewer than 256 (bound + 1) steps; what the consumer has is a beginning of the script all along;
      and a run has come to its end exactly when the whole script is delivered and both threads have returned. */
  lemma FairRunsDeliver(actions: seq<Action>, message: Message, s: State, bound: nat)
    requires Runs(Init(2, message), actions, s)
    requires FairTo(PRODUCER, Init(2, message), actions, bound, bound)
    requires FairTo(CONSUMER, Init(2, message), actions, bound, bound)
    ensures |actions| < 256 * (bound + 1)
    ensures s.takes <= SCRIPT
    ensures (forall a :: Allowed(s, a) ==> Next(s, a) == None) <==>
      s.takes == SCRIPT && s.pcs == [Outside, Outside]
  {
    var s0 := Init(2, message);
    assert PairInv(s0);
    FairToEachIsFair(s0, actions, s, bound, bound, bound);
    FairWithMore(s0, actions, 2 * bound + 1, Waits(s0, bound), 2 * bound + 1);
    FavouredRunsEnd(actions, message, s, 2 * bound + 1);
    ConsumerReceivesScript(actions, message, s);
    RunRank(s0, actions, s);
    if s.takes == SCRIPT {
      AllTakenIsHalted(s);
    }
  }
}
