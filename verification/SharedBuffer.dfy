/** The two semaphores that src_C/server.cpp and src_C/client.cpp keep around a shared memory segment, for one server
    that receives `rounds` messages and any number of clients that write one message each. */
module SharedBuffer {
  import opened Basics

  /** One sembuf: semaphore number, amount and whether IPC_NOWAIT is set. */
  datatype SemBuf = SemBuf(num: nat, op: int, nowait: bool)

  datatype SemResult = Done(sems: seq<int>) | Waits | Fails

  /** semop: the operations are applied in order, all or none. One that cannot be applied makes the whole call wait,
      or fail if it is marked IPC_NOWAIT. */
  function Semop(sems: seq<int>, ops: seq<SemBuf>): SemResult
    decreases |ops|
  {
    if ops == [] then Done(sems)
    else if ops[0].num >= |sems| then Fails
    else
      var v, o := sems[ops[0].num], ops[0].op;
      if (o == 0 && v != 0) || (o < 0 && v + o < 0) then (if ops[0].nowait then Fails else Waits)
      else Semop(sems[ops[0].num := v + o], ops[1..])
  }

  const SERVER_RECEIVE: seq<SemBuf> := [SemBuf(1, -1, false), SemBuf(0, 1, true)]
  const SERVER_RELEASE: seq<SemBuf> := [SemBuf(0, -1, true)]
  const CLIENT_ENTER: seq<SemBuf> := [SemBuf(0, 0, false), SemBuf(0, 1, false)]
  const CLIENT_LEAVE: seq<SemBuf> := [SemBuf(0, -1, false), SemBuf(1, 1, false)]

  /** `i` is the loop index; Stopped is a return after a failed semop, Removed the state after IPC_RMID. */
  datatype Server = Waiting(i: nat) | Reading(i: nat) | Removed | Stopped

  datatype Client = Before | Writing | Wrote | GaveUp

  datatype State = State(rounds: nat, sems: seq<int>, server: Server, clients: seq<Client>)

  datatype Action = ServerStep | ClientStep(j: nat)

  function ServerNext(s: State): Option<State> {
    match s.server
    case Waiting(i) =>
      if i == s.rounds then Some(s.(server := Removed))
      else (match Semop(s.sems, SERVER_RECEIVE)
            case Done(sems) => Some(s.(sems := sems, server := Reading(i)))
            case Waits => None
            case Fails => Some(s.(server := Stopped)))
    case Reading(i) =>
      (match Semop(s.sems, SERVER_RELEASE)
       case Done(sems) => Some(s.(sems := sems, server := Waiting(i + 1)))
       case Waits => None
       case Fails => Some(s.(server := Stopped)))
    case _ => None
  }

  /** Once the set is removed every semop of a client fails, waiting or not. */
  function ClientNext(s: State, j: nat): Option<State>
    requires j < |s.clients|
  {
    if s.clients[j] != Before && s.clients[j] != Writing then None
    else if s.server == Removed then Some(s.(clients := s.clients[j := GaveUp]))
    else
      var entering := s.clients[j] == Before;
      match Semop(s.sems, if entering then CLIENT_ENTER else CLIENT_LEAVE)
      case Done(sems) => Some(s.(sems := sems, clients := s.clients[j := if entering then Writing else Wrote]))
      case Waits => None
      case Fails => Some(s.(clients := s.clients[j := GaveUp]))
  }

  function Next(s: State, a: Action): Option<State> {
    match a
    case ServerStep => ServerNext(s)
    case ClientStep(j) => if j < |s.clients| then ClientNext(s, j) else None
  }

  function Init(rounds: nat, n: nat): State {
    State(rounds, [0, 0], Waiting(0), seq(n, _ => Before))
  }

  function Count(c: Client, s: seq<Client>): nat {
    if s == [] then 0 else (if s[0] == c then 1 else 0) + Count(c, s[1..])
  }

  lemma {:induction false} CountUpdate(c: Client, s: seq<Client>, j: nat, x: Client)
    requires j < |s|
    ensures Count(c, s[j := x]) == Count(c, s) - (if s[j] == c then 1 else 0) + (if x == c then 1 else 0)
  {
    if j == 0 {
      assert s[0 := x][1..] == s[1..];
    } else {
      assert s[j := x][1..] == s[1..][j - 1 := x];
      CountUpdate(c, s[1..], j - 1, x);
    }
  }

  lemma {:induction false} CountPositive(c: Client, s: seq<Client>)
    ensures Count(c, s) > 0 <==> c in s
    ensures Count(c, s) <= |s|
    ensures Count(c, s) == |s| <==> forall j :: 0 <= j < |s| ==> s[j] == c
  {
    if s != [] {
      CountPositive(c, s[1..]);
      assert s == [s[0]] + s[1..];
      if Count(c, s) == |s| {
        forall j | 0 <= j < |s| ensures s[j] == c {
          assert j > 0 ==> s[j] == s[1..][j - 1];
        }
      }
    }
  }

  function Receives(s: State): nat {
    match s.server
    case Waiting(i) => i
    case Reading(i) => i + 1
    case _ => s.rounds
  }

  /** Semaphore 0 counts the clients writing plus one while the server reads; semaphore 1 counts the messages
      written and not yet received. */
  ghost predicate Inv(s: State) {
    && |s.sems| == 2
    && s.server != Stopped
    && (s.server != Removed ==> s.sems[0] == Count(Writing, s.clients) + (if s.server.Reading? then 1 else 0))
    && s.sems[1] == Count(Wrote, s.clients) - Receives(s)
    && s.sems[1] >= 0
    && Count(Writing, s.clients) <= 1
    && Receives(s) <= s.rounds
    && (s.server.Reading? ==> s.server.i < s.rounds)
    && (s.server != Removed ==> GaveUp !in s.clients)
  }

  lemma {:induction false} InitCount(n: nat, c: Client)
    ensures Count(c, seq(n, _ => Before)) == if c == Before then n else 0
  {
    if n > 0 {
      assert seq(n, _ => Before)[1..] == seq(n - 1, _ => Before);
      InitCount(n - 1, c);
    }
  }

  lemma SemopPairs(a: int, b: int)
    ensures Semop([a, b], SERVER_RECEIVE) == if b < 1 then Waits else Done([a + 1, b - 1])
    ensures Semop([a, b], SERVER_RELEASE) == if a < 1 then Fails else Done([a - 1, b])
    ensures Semop([a, b], CLIENT_ENTER) == if a != 0 then Waits else Done([1, b])
    ensures Semop([a, b], CLIENT_LEAVE) == if a < 1 then Waits else Done([a - 1, b + 1])
  {
    assert SERVER_RECEIVE[1..] == [SemBuf(0, 1, true)] && [SemBuf(0, 1, true)][1..] == [];
    assert SERVER_RELEASE[1..] == [];
    assert CLIENT_ENTER[1..] == [SemBuf(0, 1, false)] && [SemBuf(0, 1, false)][1..] == [];
    assert CLIENT_LEAVE[1..] == [SemBuf(1, 1, false)] && [SemBuf(1, 1, false)][1..] == [];
    assert [a, b][1 := b - 1] == [a, b - 1] && [a, b - 1][0 := a + 1] == [a + 1, b - 1];
    assert [a, b][0 := a + 0] == [a, b] && [a, b][0 := a + 1] == [a + 1, b];
    assert [a, b][0 := a - 1] == [a - 1, b] && [a - 1, b][1 := b + 1] == [a - 1, b + 1];
    assert Semop([a, b - 1], [SemBuf(0, 1, true)]) == Semop([a + 1, b - 1], []);
    assert Semop([a, b], [SemBuf(0, 1, false)]) == Semop([a + 1, b], []);
    assert Semop([a - 1, b], [SemBuf(1, 1, false)]) == Semop([a - 1, b + 1], []);
  }

  /** Steps still possible. */
  function Work(s: State): nat {
    2 * Count(Before, s.clients) + Count(Writing, s.clients)
    + match s.server
      case Waiting(i) => (if i <= s.rounds then 2 * (s.rounds - i) else 0) + 1
      case Reading(i) => (if i <= s.rounds then 2 * (s.rounds - i) else 0)
      case _ => 0
  }

  lemma StepInv(s: State, a: Action)
    requires Inv(s) && Next(s, a) != None
    ensures Inv(Next(s, a).value)
    ensures Work(Next(s, a).value) < Work(s)
    ensures |Next(s, a).value.clients| == |s.clients| && Next(s, a).value.rounds == s.rounds
  {
    var s' := Next(s, a).value;
    assert s.sems == [s.sems[0], s.sems[1]];
    SemopPairs(s.sems[0], s.sems[1]);
    if a.ClientStep? {
      CountUpdate(Before, s.clients, a.j, s'.clients[a.j]);
      CountUpdate(Writing, s.clients, a.j, s'.clients[a.j]);
      CountUpdate(Wrote, s.clients, a.j, s'.clients[a.j]);
      CountPositive(Writing, s.clients);
    }
  }

  ghost predicate Reaches(s: State, actions: seq<Action>, t: State)
    decreases |actions|
  {
    if actions == [] then s == t
    else Next(s, actions[0]) != None && Reaches(Next(s, actions[0]).value, actions[1..], t)
  }

  lemma {:induction false} RunInv(s: State, actions: seq<Action>, t: State)
    requires Inv(s) && Reaches(s, actions, t)
    ensures Inv(t) && |actions| + Work(t) <= Work(s)
    ensures |t.clients| == |s.clients| && t.rounds == s.rounds
    decreases |actions|
  {
    if actions != [] {
      StepInv(s, actions[0]);
      RunInv(Next(s, actions[0]).value, actions[1..], t);
    }
  }

  lemma ReachableInv(rounds: nat, n: nat, actions: seq<Action>, s: State)
    requires Reaches(Init(rounds, n), actions, s)
    ensures Inv(s) && |s.clients| == n && s.rounds == rounds
    ensures |actions| <= 2 * n + 2 * rounds + 1
  {
    InitCount(n, Before);
    InitCount(n, Writing);
    InitCount(n, Wrote);
    assert forall j :: 0 <= j < n ==> Init(rounds, n).clients[j] == Before;
    RunInv(Init(rounds, n), actions, s);
  }

  /** In every reachable state: what the two semaphores count, at most one client writing, nobody enters to write
      while the server reads, and the server's release, which may not wait, is always granted. */
  lemma Safety(rounds: nat, n: nat, actions: seq<Action>, s: State)
    requires Reaches(Init(rounds, n), actions, s) && s.server != Removed
    ensures |s.sems| == 2 && |s.clients| == n
    ensures s.sems[0] == Count(Writing, s.clients) + (if s.server.Reading? then 1 else 0)
    ensures s.sems[1] == Count(Wrote, s.clients) - Receives(s) >= 0
    ensures Count(Writing, s.clients) <= 1
    ensures forall j :: 0 <= j < n && s.clients[j] == Before && (s.server.Reading? || Writing in s.clients) ==>
      Next(s, ClientStep(j)) == None
    ensures s.server.Reading? ==>
      Next(s, ServerStep).Some? && Next(s, ServerStep).value.server == Waiting(s.server.i + 1)
    ensures forall j :: 0 <= j < n && s.clients[j] == Writing ==> Next(s, ClientStep(j)).Some?
  {
    ReachableInv(rounds, n, actions, s);
    assert s.sems == [s.sems[0], s.sems[1]];
    SemopPairs(s.sems[0], s.sems[1]);
    CountPositive(Writing, s.clients);
  }

  /** The server reads while a client writes: its first semop does not look whether semaphore 0 is zero. */
  ghost predicate Torn(s: State) {
    s.server.Reading? && Writing in s.clients
  }

  /** The receive is what lets a read overlap a write: it does so exactly when semaphore 0 is not zero then. */
  lemma TornIffBusyAtReceive(rounds: nat, n: nat, actions: seq<Action>, s: State)
    requires Reaches(Init(rounds, n), actions, s)
    requires s.server.Waiting? && Next(s, ServerStep) != None && s.server.i < rounds
    ensures |s.sems| == 2 && (Torn(Next(s, ServerStep).value) <==> s.sems[0] != 0)
  {
    ReachableInv(rounds, n, actions, s);
    assert s.sems == [s.sems[0], s.sems[1]];
    SemopPairs(s.sems[0], s.sems[1]);
    CountPositive(Writing, s.clients);
  }

  lemma {:induction false} TwoCounts(s: seq<Client>)
    ensures Count(Writing, s) + Count(Wrote, s) <= |s|
  {
    if s != [] {
      TwoCounts(s[1..]);
    }
  }

  ghost predicate CanTear(rounds: nat, n: nat) {
    exists actions, s :: Reaches(Init(rounds, n), actions, s) && Torn(s)
  }

  /** A read can overlap a write exactly when there are two clients or more. */
  lemma TornReadNeedsTwoClients(rounds: nat, n: nat)
    requires rounds > 0
    ensures CanTear(rounds, n) <==> n >= 2
  {
    if n >= 2 {
      var actions, s := TornRun(rounds, n);
    }
    if CanTear(rounds, n) {
      var actions, s :| Reaches(Init(rounds, n), actions, s) && Torn(s);
      ReachableInv(rounds, n, actions, s);
      TwoCounts(s.clients);
      CountPositive(Writing, s.clients);
    }
  }

  lemma OneStep(s: State, a: Action, actions: seq<Action>, t: State)
    requires Next(s, a) != None && Reaches(Next(s, a).value, actions, t)
    ensures Reaches(s, [a] + actions, t)
  {
    assert ([a] + actions)[1..] == actions;
  }

  lemma TornRun(rounds: nat, n: nat) returns (actions: seq<Action>, s: State)
    requires rounds > 0 && n >= 2
    ensures Reaches(Init(rounds, n), actions, s) && Torn(s)
  {
    var s0 := Init(rounds, n);
    SemopPairs(0, 0);
    SemopPairs(1, 0);
    SemopPairs(0, 1);
    SemopPairs(1, 1);
    var s1 := Next(s0, ClientStep(0)).value;
    var s2 := Next(s1, ClientStep(0)).value;
    var s3 := Next(s2, ClientStep(1)).value;
    s := Next(s3, ServerStep).value;
    OneStep(s3, ServerStep, [], s);
    OneStep(s2, ClientStep(1), [ServerStep] + [], s);
    OneStep(s1, ClientStep(0), [ClientStep(1)] + ([ServerStep] + []), s);
    actions := [ClientStep(0)] + ([ClientStep(0)] + ([ClientStep(1)] + ([ServerStep] + [])));
    OneStep(s0, ClientStep(0), [ClientStep(0)] + ([ClientStep(1)] + ([ServerStep] + [])), s);
    assert s.clients[1] == Writing;
  }

  ghost predicate Stuck(s: State) {
    forall a :: Next(s, a) == None
  }

  /** Every run ends, after at most 2n + 2 rounds + 1 steps. It ends with the server finished if and only if there
      are at least as many clients as rounds; otherwise the server waits for ever after receiving every message. */
  lemma RunsEnd(rounds: nat, n: nat, actions: seq<Action>, s: State)
    requires Reaches(Init(rounds, n), actions, s)
    ensures |actions| <= 2 * n + 2 * rounds + 1
    ensures |s.clients| == n
    ensures Stuck(s) ==>
      && (forall j :: 0 <= j < n ==> s.clients[j] == Wrote || s.clients[j] == GaveUp)
      && (if n >= rounds then s.server == Removed
          else s.server == Waiting(n) && forall j :: 0 <= j < n ==> s.clients[j] == Wrote)
  {
    ReachableInv(rounds, n, actions, s);
    if Stuck(s) {
      assert s.sems == [s.sems[0], s.sems[1]];
      SemopPairs(s.sems[0], s.sems[1]);
      CountPositive(Writing, s.clients);
      CountPositive(Wrote, s.clients);
      assert Next(s, ServerStep) == None;
      assert !s.server.Reading?;
      forall j | 0 <= j < n
        ensures s.clients[j] == Wrote || s.clients[j] == GaveUp
        ensures s.server != Removed ==> s.clients[j] == Wrote
      {
        assert Next(s, ClientStep(j)) == None;
        if Writing in s.clients {
          var k :| 0 <= k < n && s.clients[k] == Writing;
          assert Next(s, ClientStep(k)) == None;
        }
      }
    }
  }
}
