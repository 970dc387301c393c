/** The thread counters of src_C/zgThds.c. An increment is not atomic: a thread locks the mutex, loads the counter,
    stores the sum and unlocks, and any other thread may run between these steps. */
module MutexCounters {
  import opened Basics

  /** How far a thread is inside a locked increment. */
  datatype Phase = Want | Locked | Loaded(tmp: int) | Stored

  datatype Counter = Counter(value: int, owner: Option<nat>)

  /** `k` is the loop index and `made` the number of successful pthread_create calls so far. */
  datatype Creator = Creator(k: nat, made: nat, pc: CreatorPc)

  datatype CreatorPc = Calling | Counting(success: bool, phase: Phase)

  datatype Worker = Starting(phase: Phase) | Working | Ending(phase: Phase) | Exited

  datatype State = State(
    workNum: nat,
    creators: seq<Creator>,
    workers: seq<Worker>,
    created: Counter,
    started: Counter,
    ended: Counter)

  /** What pthread_create returned: 0, EAGAIN (the call is repeated) or another error (it is not). */
  datatype CreateResult = Success | Eagain | Failed

  datatype Action =
    | CallCreate(i: nat, result: CreateResult)
    | CountCreated(i: nat)
    | RunWorker(j: nat)

  datatype Increment = Increment(counter: Counter, next: Option<Phase>)

  /** The next step of a locked increment, if it can be taken: locking waits for the mutex to be free, and the
      step that unlocks ends the increment. */
  function IncrementStep(c: Counter, me: nat, phase: Phase): Option<Increment> {
    match phase
    case Want => if c.owner == None then Some(Increment(c.(owner := Some(me)), Some(Locked))) else None
    case Locked => Some(Increment(c, Some(Loaded(c.value))))
    case Loaded(tmp) => Some(Increment(c.(value := tmp + 1), Some(Stored)))
    case Stored => Some(Increment(c.(owner := None), None))
  }

  function Next(s: State, a: Action): Option<State> {
    match a
    case CallCreate(i, result) =>
      if i < |s.creators| && s.creators[i].pc == Calling && s.creators[i].k < s.workNum then
        var c := s.creators[i];
        match result
        case Eagain => Some(s)
        case Failed => Some(s.(creators := s.creators[i := c.(pc := Counting(false, Want))]))
        case Success =>
          Some(s.(creators := s.creators[i := c.(made := c.made + 1, pc := Counting(true, Want))],
                  workers := s.workers + [Starting(Want)]))
      else None
    case CountCreated(i) =>
      if i < |s.creators| && s.creators[i].pc.Counting? then
        var c := s.creators[i];
        var inc := IncrementStep(s.created, i, c.pc.phase);
        if inc == None then None
        else
          var c' := if inc.value.next == None then c.(k := c.k + 1, pc := Calling)
                    else c.(pc := c.pc.(phase := inc.value.next.value));
          Some(s.(creators := s.creators[i := c'], created := inc.value.counter))
      else None
    case RunWorker(j) =>
      if j < |s.workers| then
        match s.workers[j]
        case Starting(phase) =>
          var inc := IncrementStep(s.started, j, phase);
          if inc == None then None
          else
            var w := if inc.value.next == None then Working else Starting(inc.value.next.value);
            Some(s.(workers := s.workers[j := w], started := inc.value.counter))
        case Working => Some(s.(workers := s.workers[j := Ending(Want)]))
        case Ending(phase) =>
          var inc := IncrementStep(s.ended, j, phase);
          if inc == None then None
          else
            var w := if inc.value.next == None then Exited else Ending(inc.value.next.value);
            Some(s.(workers := s.workers[j := w], ended := inc.value.counter))
        case Exited => None
      else None
  }

  function Init(creatorNum: nat, workNum: nat): State {
    State(workNum, seq(creatorNum, _ => Creator(0, 0, Calling)), [],
          Counter(0, None), Counter(0, None), Counter(0, None))
  }

  function Sum<T>(f: T -> int, s: seq<T>): int {
    if s == [] then 0 else f(s[0]) + Sum(f, s[1..])
  }

  lemma {:induction false} SumUpdate<T>(f: T -> int, s: seq<T>, i: nat, x: T)
    requires i < |s|
    ensures Sum(f, s[i := x]) == Sum(f, s) - f(s[i]) + f(x)
  {
    if i == 0 {
      assert s[0 := x][1..] == s[1..];
    } else {
      assert s[i := x][1..] == s[1..][i - 1 := x];
      SumUpdate(f, s[1..], i - 1, x);
    }
  }

  lemma {:induction false} SumAppend<T>(f: T -> int, s: seq<T>, x: T)
    ensures Sum(f, s + [x]) == Sum(f, s) + f(x)
  {
    if s == [] {
      assert [x][1..] == [];
    } else {
      assert (s + [x])[1..] == s[1..] + [x];
      SumAppend(f, s[1..], x);
    }
  }

  lemma {:induction false} SumCompare<T>(f: T -> int, g: T -> int, s: seq<T>)
    requires forall i :: 0 <= i < |s| ==> f(s[i]) <= g(s[i])
    ensures Sum(f, s) <= Sum(g, s)
  {
    if s != [] {
      SumCompare(f, g, s[1..]);
    }
  }

  function Incremented(phase: Phase): int {
    if phase == Stored then 1 else 0
  }

  function CountedBy(c: Creator): int {
    c.k + if c.pc.Counting? then Incremented(c.pc.phase) else 0
  }

  function MadeBy(c: Creator): int {
    c.made
  }

  /** 1 for a creator between a successful pthread_create and its counter update. */
  function InFlight(c: Creator): int {
    if c.pc.Counting? && c.pc.success && c.pc.phase != Stored then 1 else 0
  }

  function HasStarted(w: Worker): int {
    if w.Starting? then Incremented(w.phase) else 1
  }

  function HasEnded(w: Worker): int {
    match w
    case Exited => 1
    case Ending(phase) => Incremented(phase)
    case _ => 0
  }

  predicate Inside(phase: Phase) {
    phase != Want
  }

  /** The mutex is held by exactly the thread that is inside, and what that thread loaded is current. */
  predicate Consistent(c: Counter, me: nat, inside: bool, phase: Phase) {
    && (inside <==> c.owner == Some(me))
    && (inside && phase.Loaded? ==> phase.tmp == c.value)
  }

  predicate CreatorConsistent(s: State, i: nat)
    requires i < |s.creators|
  {
    var c := s.creators[i];
    && (if c.pc.Counting? then Consistent(s.created, i, Inside(c.pc.phase), c.pc.phase)
        else Consistent(s.created, i, false, Want))
    && c.k <= s.workNum && (c.pc.Counting? ==> c.k < s.workNum)
    && c.made <= c.k + (if c.pc.Counting? && c.pc.success then 1 else 0)
  }

  predicate WorkerConsistent(s: State, j: nat)
    requires j < |s.workers|
  {
    var w := s.workers[j];
    && (if w.Starting? then Consistent(s.started, j, Inside(w.phase), w.phase)
        else Consistent(s.started, j, false, Want))
    && (if w.Ending? then Consistent(s.ended, j, Inside(w.phase), w.phase)
        else Consistent(s.ended, j, false, Want))
  }

  predicate OwnerExists(c: Counter, n: nat) {
    c.owner != None ==> c.owner.value < n
  }

  ghost predicate Inv(s: State) {
    && (forall i :: 0 <= i < |s.creators| ==> CreatorConsistent(s, i))
    && (forall j :: 0 <= j < |s.workers| ==> WorkerConsistent(s, j))
    && OwnerExists(s.created, |s.creators|) && OwnerExists(s.started, |s.workers|) && OwnerExists(s.ended, |s.workers|)
    && s.created.value == Sum(CountedBy, s.creators)
    && |s.workers| == Sum(MadeBy, s.creators)
    && s.started.value == Sum(HasStarted, s.workers)
    && s.ended.value == Sum(HasEnded, s.workers)
  }

  lemma {:induction false} SumOfZeros<T>(f: T -> int, s: seq<T>)
    requires forall i :: 0 <= i < |s| ==> f(s[i]) == 0
    ensures Sum(f, s) == 0
  {
    if s != [] {
      SumOfZeros(f, s[1..]);
    }
  }

  lemma InitInv(creatorNum: nat, workNum: nat)
    ensures Inv(Init(creatorNum, workNum))
  {
    var s := Init(creatorNum, workNum);
    SumOfZeros(CountedBy, s.creators);
    SumOfZeros(MadeBy, s.creators);
  }

  lemma CreateStepInv(s: State, i: nat, result: CreateResult)
    requires Inv(s) && Next(s, CallCreate(i, result)) != None
    ensures Inv(Next(s, CallCreate(i, result)).value)
  {
    var s' := Next(s, CallCreate(i, result)).value;
    if result != Eagain {
      assert CreatorConsistent(s, i);
      SumUpdate(CountedBy, s.creators, i, s'.creators[i]);
      SumUpdate(MadeBy, s.creators, i, s'.creators[i]);
      if result == Success {
        SumAppend(HasStarted, s.workers, Starting(Want));
        SumAppend(HasEnded, s.workers, Starting(Want));
      }
      forall m | 0 <= m < |s'.creators|
        ensures CreatorConsistent(s', m)
      {
        assert CreatorConsistent(s, m);
      }
      forall m | 0 <= m < |s'.workers|
        ensures WorkerConsistent(s', m)
      {
        assert m < |s.workers| ==> WorkerConsistent(s, m);
      }
    }
  }

  lemma CountStepInv(s: State, i: nat)
    requires Inv(s) && Next(s, CountCreated(i)) != None
    ensures Inv(Next(s, CountCreated(i)).value)
  {
    var s' := Next(s, CountCreated(i)).value;
    assert CreatorConsistent(s, i);
    SumUpdate(CountedBy, s.creators, i, s'.creators[i]);
    SumUpdate(MadeBy, s.creators, i, s'.creators[i]);
    forall m | 0 <= m < |s'.creators|
      ensures CreatorConsistent(s', m)
    {
      assert CreatorConsistent(s, m);
    }
    forall m | 0 <= m < |s'.workers|
      ensures WorkerConsistent(s', m)
    {
      assert WorkerConsistent(s, m);
    }
  }

  lemma WorkerStepInv(s: State, j: nat)
    requires Inv(s) && Next(s, RunWorker(j)) != None
    ensures Inv(Next(s, RunWorker(j)).value)
  {
    var s' := Next(s, RunWorker(j)).value;
    assert WorkerConsistent(s, j);
    SumUpdate(HasStarted, s.workers, j, s'.workers[j]);
    SumUpdate(HasEnded, s.workers, j, s'.workers[j]);
    forall m | 0 <= m < |s'.creators|
      ensures CreatorConsistent(s', m)
    {
      assert CreatorConsistent(s, m);
    }
    forall m | 0 <= m < |s'.workers|
      ensures WorkerConsistent(s', m)
    {
      assert WorkerConsistent(s, m);
    }
  }

  /** The states some interleaving of the threads can reach. */
  ghost predicate Reaches(s: State, actions: seq<Action>, t: State)
    decreases |actions|
  {
    if actions == [] then s == t
    else Next(s, actions[0]) != None && Reaches(Next(s, actions[0]).value, actions[1..], t)
  }

  lemma {:induction false} RunInv(s: State, actions: seq<Action>, t: State)
    requires Inv(s) && Reaches(s, actions, t)
    ensures Inv(t) && |t.creators| == |s.creators| && t.workNum == s.workNum
    decreases |actions|
  {
    if actions != [] {
      var s' := Next(s, actions[0]).value;
      match actions[0] {
        case CallCreate(i, result) => CreateStepInv(s, i, result);
        case CountCreated(i) => CountStepInv(s, i);
        case RunWorker(j) => WorkerStepInv(s, j);
      }
      RunInv(s', actions[1..], t);
    }
  }

  lemma {:induction false} MadeIsCountedOrInFlight(cs: seq<Creator>)
    requires forall i :: 0 <= i < |cs| ==> MadeBy(cs[i]) <= CountedBy(cs[i]) + InFlight(cs[i])
    ensures Sum(MadeBy, cs) <= Sum(CountedBy, cs) + Sum(InFlight, cs)
  {
    if cs != [] {
      MadeIsCountedOrInFlight(cs[1..]);
    }
  }

  lemma {:induction false} SumOfOnes<T>(f: T -> int, s: seq<T>)
    requires forall i :: 0 <= i < |s| ==> f(s[i]) <= 1
    ensures Sum(f, s) <= |s|
    ensures (forall i :: 0 <= i < |s| ==> f(s[i]) == 1) ==> Sum(f, s) == |s|
  {
    if s != [] {
      SumOfOnes(f, s[1..]);
    }
  }

  /** In every interleaving: never more ends than starts, never more starts than threads created, and a thread
      that is created but not counted has its creator between pthread_create and the counter. */
  lemma CountersAreOrdered(creatorNum: nat, workNum: nat, actions: seq<Action>, s: State)
    requires Reaches(Init(creatorNum, workNum), actions, s)
    ensures s.ended.value <= s.started.value <= |s.workers|
    ensures s.started.value <= s.created.value + Sum(InFlight, s.creators)
    ensures s.created.value <= creatorNum * workNum
  {
    InitInv(creatorNum, workNum);
    RunInv(Init(creatorNum, workNum), actions, s);
    forall j | 0 <= j < |s.workers|
      ensures HasEnded(s.workers[j]) <= HasStarted(s.workers[j]) <= 1
    {
      assert WorkerConsistent(s, j);
    }
    SumCompare(HasEnded, HasStarted, s.workers);
    SumOfOnes(HasStarted, s.workers);
    forall i | 0 <= i < |s.creators|
      ensures MadeBy(s.creators[i]) <= CountedBy(s.creators[i]) + InFlight(s.creators[i])
      ensures CountedBy(s.creators[i]) <= workNum
    {
      assert CreatorConsistent(s, i);
    }
    MadeIsCountedOrInFlight(s.creators);
    SumBound(CountedBy, s.creators, workNum);
  }

  lemma {:induction false} SumBound<T>(f: T -> int, s: seq<T>, b: nat)
    requires forall i :: 0 <= i < |s| ==> f(s[i]) <= b
    ensures Sum(f, s) <= |s| * b
    ensures (forall i :: 0 <= i < |s| ==> f(s[i]) == b) ==> Sum(f, s) == |s| * b
  {
    if s != [] {
      SumBound(f, s[1..], b);
      assert |s| * b == b + (|s| - 1) * b;
    }
  }

  ghost predicate AllDone(s: State) {
    && (forall i :: 0 <= i < |s.creators| ==> s.creators[i].k == s.workNum && s.creators[i].pc == Calling)
    && (forall j :: 0 <= j < |s.workers| ==> s.workers[j] == Exited)
  }

  /** When every thread is done no update was lost: created is creatorNum * workNum whatever pthread_create
      answered, started and ended are the number of threads made, and all three agree exactly when every thread
      the creators asked for was made. */
  lemma FinalCounters(creatorNum: nat, workNum: nat, actions: seq<Action>, s: State)
    requires Reaches(Init(creatorNum, workNum), actions, s) && AllDone(s)
    ensures s.created.value == creatorNum * workNum
    ensures s.started.value == s.ended.value == |s.workers| <= creatorNum * workNum
    ensures s.started.value == creatorNum * workNum <==>
      forall i :: 0 <= i < |s.creators| ==> s.creators[i].made == workNum
  {
    InitInv(creatorNum, workNum);
    RunInv(Init(creatorNum, workNum), actions, s);
    forall i | 0 <= i < |s.creators|
      ensures CountedBy(s.creators[i]) == workNum && MadeBy(s.creators[i]) <= workNum
    {
      assert CreatorConsistent(s, i);
    }
    SumBound(CountedBy, s.creators, workNum);
    SumBound(MadeBy, s.creators, workNum);
    SumReachesBound(MadeBy, s.creators, workNum);
    SumOfOnes(HasStarted, s.workers);
    SumOfOnes(HasEnded, s.workers);
  }

  lemma {:induction false} SumReachesBound<T>(f: T -> int, s: seq<T>, b: nat)
    requires forall i :: 0 <= i < |s| ==> f(s[i]) <= b
    ensures Sum(f, s) == |s| * b ==> forall i :: 0 <= i < |s| ==> f(s[i]) == b
  {
    if s != [] {
      assert |s| * b == b + (|s| - 1) * b;
      SumBound(f, s[1..], b);
      SumReachesBound(f, s[1..], b);
      if Sum(f, s) == |s| * b {
        forall i | 0 <= i < |s|
          ensures f(s[i]) == b
        {
          assert i > 0 ==> s[i] == s[1..][i - 1];
        }
      }
    }
  }

  predicate Progress(a: Action) {
    !(a.CallCreate? && a.result == Eagain)
  }

  /** The mutexes never block everybody: a state in which no thread can move has finished. */
  lemma NoDeadlock(creatorNum: nat, workNum: nat, actions: seq<Action>, s: State)
    requires Reaches(Init(creatorNum, workNum), actions, s)
    ensures AllDone(s) <==> forall a :: Progress(a) ==> Next(s, a) == None
  {
    InitInv(creatorNum, workNum);
    RunInv(Init(creatorNum, workNum), actions, s);
    if !AllDone(s) {
      var a := SomeStep(s);
    }
  }

  lemma SomeStep(s: State) returns (a: Action)
    requires Inv(s) && !AllDone(s)
    ensures Progress(a) && Next(s, a) != None
  {
    forall i | 0 <= i < |s.creators|
      ensures s.creators[i].k <= s.workNum
    {
      assert CreatorConsistent(s, i);
    }
    if i :| 0 <= i < |s.creators| && s.creators[i].pc == Calling && s.creators[i].k < s.workNum {
      a := CallCreate(i, Success);
    } else if i :| 0 <= i < |s.creators| && s.creators[i].pc.Counting? {
      var o := if s.created.owner == None then i else s.created.owner.value;
      assert CreatorConsistent(s, o);
      a := CountCreated(o);
    } else {
      var j :| 0 <= j < |s.workers| && s.workers[j] != Exited;
      match s.workers[j]
      case Working =>
        a := RunWorker(j);
      case Starting(_) =>
        var o := if s.started.owner == None then j else s.started.owner.value;
        assert WorkerConsistent(s, o) && WorkerConsistent(s, j);
        a := RunWorker(o);
      case Ending(_) =>
        var o := if s.ended.owner == None then j else s.ended.owner.value;
        assert WorkerConsistent(s, o) && WorkerConsistent(s, j);
        a := RunWorker(o);
    }
  }

  // ----- how long a run can be -----

  /** Steps left of a locked increment. */
  function Left(phase: Phase): nat {
    match phase
    case Want => 4
    case Locked => 3
    case Loaded(_) => 2
    case Stored => 1
  }

  /** A thread that is created takes 9 steps, and its creator 5 to create and count it. */
  function WorkerLeft(w: Worker): int {
    match w
    case Starting(phase) => 5 + Left(phase)
    case Working => 5
    case Ending(phase) => Left(phase)
    case Exited => 0
  }

  function Spent(c: Creator): int {
    14 * c.k + if c.pc.Counting? then 14 - Left(c.pc.phase) else 0
  }

  /** Steps left if every creation still to come succeeds at once. */
  function Rank(s: State): int {
    |s.creators| * (14 * s.workNum) - Sum(Spent, s.creators) + Sum(WorkerLeft, s.workers)
  }

  function Weight(a: Action): nat {
    if !a.CallCreate? || a.result == Success then 1 else if a.result == Failed then 10 else 0
  }

  lemma CreateRank(s: State, i: nat, result: CreateResult)
    requires Next(s, CallCreate(i, result)) != None
    ensures Rank(Next(s, CallCreate(i, result)).value) == Rank(s) - Weight(CallCreate(i, result))
  {
    if result != Eagain {
      SumUpdate(Spent, s.creators, i, Next(s, CallCreate(i, result)).value.creators[i]);
      SumAppend(WorkerLeft, s.workers, Starting(Want));
    }
  }

  lemma CountRank(s: State, i: nat)
    requires Next(s, CountCreated(i)) != None
    ensures Rank(Next(s, CountCreated(i)).value) == Rank(s) - 1
  {
    SumUpdate(Spent, s.creators, i, Next(s, CountCreated(i)).value.creators[i]);
  }

  lemma WorkerRank(s: State, j: nat)
    requires Next(s, RunWorker(j)) != None
    ensures Rank(Next(s, RunWorker(j)).value) == Rank(s) - 1
  {
    SumUpdate(WorkerLeft, s.workers, j, Next(s, RunWorker(j)).value.workers[j]);
  }

  lemma StepRank(s: State, a: Action)
    requires Next(s, a) != None
    ensures Rank(Next(s, a).value) == Rank(s) - Weight(a)
  {
    match a
    case CallCreate(i, result) => CreateRank(s, i, result);
    case CountCreated(i) => CountRank(s, i);
    case RunWorker(j) => WorkerRank(s, j);
  }

  /** How many of the calls of pthread_create got the given result. */
  function Answers(actions: seq<Action>, result: CreateResult): nat {
    if actions == [] then 0
    else (if actions[0].CallCreate? && actions[0].result == result then 1 else 0) + Answers(actions[1..], result)
  }

  lemma {:induction false} RunRank(s: State, actions: seq<Action>, t: State)
    requires Reaches(s, actions, t)
    ensures |actions| + Rank(t) + 9 * Answers(actions, Failed) == Rank(s) + Answers(actions, Eagain)
    decreases |actions|
  {
    if actions != [] {
      StepRank(s, actions[0]);
      RunRank(Next(s, actions[0]).value, actions[1..], t);
    }
  }

  lemma {:induction false} SumIsZero<T>(f: T -> int, s: seq<T>)
    requires forall i :: 0 <= i < |s| ==> f(s[i]) >= 0
    ensures Sum(f, s) >= 0
    ensures Sum(f, s) == 0 ==> forall i :: 0 <= i < |s| ==> f(s[i]) == 0
  {
    if s != [] {
      SumIsZero(f, s[1..]);
      if Sum(f, s) == 0 {
        assert forall i :: 0 < i < |s| ==> s[i] == s[1..][i - 1];
      }
    }
  }

  /** The rank is never negative, and 0 exactly when every thread is done. */
  lemma RankIsZeroIffDone(s: State)
    requires Inv(s)
    ensures Rank(s) >= 0
    ensures Rank(s) == 0 <==> AllDone(s)
  {
    var b: nat := 14 * s.workNum;
    forall i | 0 <= i < |s.creators|
      ensures Spent(s.creators[i]) <= b
      ensures Spent(s.creators[i]) == b <==> s.creators[i].k == s.workNum && s.creators[i].pc == Calling
    {
      assert CreatorConsistent(s, i);
    }
    SumBound(Spent, s.creators, b);
    SumReachesBound(Spent, s.creators, b);
    SumIsZero(WorkerLeft, s.workers);
    if AllDone(s) {
      SumOfZeros(WorkerLeft, s.workers);
    }
  }

  /** A run with e repeated and f failed calls of pthread_create has at most 14 * creatorNum * workNum + e - 9 f steps,
      and every thread is done exactly when it has that many. */
  lemma RunsEnd(creatorNum: nat, workNum: nat, actions: seq<Action>, s: State)
    requires Reaches(Init(creatorNum, workNum), actions, s)
    ensures var bound := creatorNum * (14 * workNum) + Answers(actions, Eagain) - 9 * Answers(actions, Failed);
      |actions| <= bound && (|actions| == bound <==> AllDone(s))
  {
    var s0 := Init(creatorNum, workNum);
    InitInv(creatorNum, workNum);
    SumOfZeros(Spent, s0.creators);
    RunInv(s0, actions, s);
    RunRank(s0, actions, s);
    RankIsZeroIffDone(s);
  }
}
