/** The tryLock protocol of src_java/Safelock.java, for any number of friends and of endless bow loops. */
module BowLocks {
  import opened Basics

  /** A reentrant lock: who owns it and how many times. */
  datatype Lock = Lock(owner: Option<nat>, holds: nat)

  /** Where a thread is: outside bow; in impendingBow after the first tryLock, after both; in bowBack; in the two
      unlocks of bow. `mine` is the answer for the bowee's lock, `yours` for the bower's. */
  datatype Pc =
    | Outside
    | TriedMine(mine: bool)
    | TriedBoth(mine: bool, yours: bool)
    | InBowBack
    | UnlockMine
    | UnlockYours

  datatype Thread = Thread(bower: nat, bowee: nat, pc: Pc)

  /** `illegal` records an unlock by a thread that does not own the lock. */
  datatype State = State(locks: seq<Lock>, threads: seq<Thread>, illegal: bool)

  predicate CanTake(l: Lock, t: nat) {
    l.owner == None || l.owner == Some(t)
  }

  function TryLock(l: Lock, t: nat): Lock {
    if l.owner == None then Lock(Some(t), 1) else if l.owner == Some(t) then l.(holds := l.holds + 1) else l
  }

  predicate MayUnlock(l: Lock, t: nat) {
    l.owner == Some(t) && l.holds > 0
  }

  function Unlock(l: Lock, t: nat): Lock {
    if !MayUnlock(l, t) then l
    else if l.holds == 1 then Lock(None, 0)
    else l.(holds := l.holds - 1)
  }

  predicate WellFormed(s: State) {
    forall t :: 0 <= t < |s.threads| ==> s.threads[t].bower < |s.locks| && s.threads[t].bowee < |s.locks|
  }

  function Move(s: State, t: nat, pc: Pc): State
    requires t < |s.threads|
  {
    s.(threads := s.threads[t := s.threads[t].(pc := pc)])
  }

  function MoveUnlocking(s: State, t: nat, f: nat, pc: Pc): State
    requires t < |s.threads| && f < |s.locks|
  {
    Move(s.(locks := s.locks[f := Unlock(s.locks[f], t)], illegal := s.illegal || !MayUnlock(s.locks[f], t)), t, pc)
  }

  /** The next step of thread t. A thread always has one: tryLock answers at once. */
  function Next(s: State, t: nat): (s': State)
    requires WellFormed(s) && t < |s.threads|
    ensures |s'.threads| == |s.threads| && WellFormed(s')
  {
    var th := s.threads[t];
    match th.pc
    case Outside =>
      var l := s.locks[th.bowee];
      Move(s.(locks := s.locks[th.bowee := TryLock(l, t)]), t, TriedMine(CanTake(l, t)))
    case TriedMine(mine) =>
      var l := s.locks[th.bower];
      Move(s.(locks := s.locks[th.bower := TryLock(l, t)]), t, TriedBoth(mine, CanTake(l, t)))
    case TriedBoth(mine, yours) =>
      if mine && yours then Move(s, t, InBowBack)
      else if mine then MoveUnlocking(s, t, th.bowee, Outside)
      else if yours then MoveUnlocking(s, t, th.bower, Outside)
      else Move(s, t, Outside)
    case InBowBack => Move(s, t, UnlockMine)
    case UnlockMine => MoveUnlocking(s, t, th.bowee, UnlockYours)
    case UnlockYours => MoveUnlocking(s, t, th.bower, Outside)
  }

  /** How many times thread th has locked friend f in the bow it is in. */
  function Holds(th: Thread, f: nat): nat {
    var mine := match th.pc
      case TriedMine(m) => m
      case TriedBoth(m, _) => m
      case InBowBack => true
      case UnlockMine => true
      case _ => false;
    var yours := match th.pc
      case TriedBoth(_, y) => y
      case InBowBack => true
      case UnlockMine => true
      case UnlockYours => true
      case _ => false;
    (if mine && th.bowee == f then 1 else 0) + (if yours && th.bower == f then 1 else 0)
  }

  /** Lock f is owned by the thread that holds it, as often as that thread locked it, and by nobody otherwise. */
  ghost predicate LockAgrees(s: State, f: nat)
    requires f < |s.locks|
  {
    var l := s.locks[f];
    && (l.owner == None ==> l.holds == 0)
    && (l.owner.Some? ==> l.owner.value < |s.threads| && l.holds == Holds(s.threads[l.owner.value], f) > 0)
    && (forall t :: 0 <= t < |s.threads| && l.owner != Some(t) ==> Holds(s.threads[t], f) == 0)
  }

  ghost predicate Inv(s: State) {
    WellFormed(s) && !s.illegal && forall f :: 0 <= f < |s.locks| ==> LockAgrees(s, f)
  }

  /** s' differs from s at most in thread t and in locks. */
  ghost predicate OnlyThread(s: State, s': State, t: nat) {
    && t < |s.threads| == |s'.threads| && |s.locks| == |s'.locks|
    && forall u :: 0 <= u < |s.threads| && u != t ==> s'.threads[u] == s.threads[u]
  }

  lemma HolderOwns(s: State, t: nat, f: nat)
    requires t < |s.threads| && f < |s.locks| && LockAgrees(s, f) && Holds(s.threads[t], f) > 0
    ensures MayUnlock(s.locks[f], t) && s.locks[f].holds == Holds(s.threads[t], f)
  {
  }

  lemma LockUntouched(s: State, s': State, t: nat, f: nat)
    requires OnlyThread(s, s', t) && f < |s.locks| && LockAgrees(s, f)
    requires s'.locks[f] == s.locks[f] && Holds(s'.threads[t], f) == Holds(s.threads[t], f)
    ensures LockAgrees(s', f)
  {
  }

  lemma LockTaken(s: State, s': State, t: nat, f: nat)
    requires OnlyThread(s, s', t) && f < |s.locks| && LockAgrees(s, f)
    requires CanTake(s.locks[f], t) && s'.locks[f] == TryLock(s.locks[f], t)
    requires Holds(s'.threads[t], f) == Holds(s.threads[t], f) + 1
    ensures LockAgrees(s', f)
  {
  }

  lemma LockReleased(s: State, s': State, t: nat, f: nat)
    requires OnlyThread(s, s', t) && f < |s.locks| && LockAgrees(s, f)
    requires s'.locks[f] == Unlock(s.locks[f], t)
    requires Holds(s'.threads[t], f) + 1 == Holds(s.threads[t], f)
    ensures LockAgrees(s', f)
  {
    HolderOwns(s, t, f);
  }

  lemma LockStep(s: State, t: nat, f: nat)
    requires Inv(s) && t < |s.threads| && f < |s.locks|
    ensures OnlyThread(s, Next(s, t), t) && LockAgrees(Next(s, t), f)
  {
    var s', th := Next(s, t), s.threads[t];
    assert LockAgrees(s, f);
    var h, h' := Holds(th, f), Holds(s'.threads[t], f);
    if h' == h + 1 {
      LockTaken(s, s', t, f);
    } else if h' + 1 == h {
      LockReleased(s, s', t, f);
    } else {
      LockUntouched(s, s', t, f);
    }
  }

  lemma StepInv(s: State, t: nat)
    requires Inv(s) && t < |s.threads|
    ensures Inv(Next(s, t))
    ensures OnlyThread(s, Next(s, t), t)
  {
    var th := s.threads[t];
    forall f | 0 <= f < |s.locks|
      ensures LockAgrees(Next(s, t), f)
    {
      LockStep(s, t, f);
    }
    LockStep(s, t, th.bower);
    assert LockAgrees(s, th.bower) && LockAgrees(s, th.bowee);
    if Holds(th, th.bower) > 0 { HolderOwns(s, t, th.bower); }
    if Holds(th, th.bowee) > 0 { HolderOwns(s, t, th.bowee); }
  }

  predicate Schedule(s: State, schedule: seq<nat>) {
    forall i :: 0 <= i < |schedule| ==> schedule[i] < |s.threads|
  }

  function After(s: State, schedule: seq<nat>): (s': State)
    requires WellFormed(s) && Schedule(s, schedule)
    ensures |s'.threads| == |s.threads| && WellFormed(s')
    decreases |schedule|
  {
    if schedule == [] then s else After(Next(s, schedule[0]), schedule[1..])
  }

  /** All threads outside bow, all locks free. */
  predicate Initial(s: State) {
    && WellFormed(s) && !s.illegal
    && (forall t :: 0 <= t < |s.threads| ==> s.threads[t].pc == Outside)
    && (forall f :: 0 <= f < |s.locks| ==> s.locks[f] == Lock(None, 0))
  }

  lemma {:induction false} RunInv(s: State, schedule: seq<nat>)
    requires Inv(s) && Schedule(s, schedule)
    ensures Inv(After(s, schedule)) && |After(s, schedule).threads| == |s.threads|
    decreases |schedule|
  {
    if schedule != [] {
      StepInv(s, schedule[0]);
      RunInv(Next(s, schedule[0]), schedule[1..]);
    }
  }

  lemma InitialInv(s: State)
    requires Initial(s)
    ensures Inv(s)
  {
    forall f | 0 <= f < |s.locks|
      ensures LockAgrees(s, f)
    {
    }
  }

  predicate Bowing(th: Thread) {
    th.pc == InBowBack || th.pc == UnlockMine
  }

  predicate ShareFriend(a: Thread, b: Thread) {
    a.bower == b.bower || a.bower == b.bowee || a.bowee == b.bower || a.bowee == b.bowee
  }

  predicate Owns(s: State, t: nat, f: nat)
    requires f < |s.locks|
  {
    s.locks[f].owner == Some(t)
  }

  /** Safety in every reachable state, whatever the schedule: a thread in bowBack owns both locks, exchanges that
      share a friend do not overlap, no unlock was made by a thread that does not own the lock, and a thread
      outside bow holds nothing, so that every bow gives back exactly what it took. */
  lemma Safety(s0: State, schedule: seq<nat>)
    requires Initial(s0) && Schedule(s0, schedule)
    ensures var s := After(s0, schedule);
      && WellFormed(s) && !s.illegal
      && (forall t :: 0 <= t < |s.threads| && Bowing(s.threads[t]) ==>
            Owns(s, t, s.threads[t].bower) && Owns(s, t, s.threads[t].bowee))
      && (forall t, u :: 0 <= t < u < |s.threads| && Bowing(s.threads[t]) && Bowing(s.threads[u]) ==>
            !ShareFriend(s.threads[t], s.threads[u]))
      && (forall t, f :: 0 <= t < |s.threads| && 0 <= f < |s.locks| && s.threads[t].pc == Outside ==> !Owns(s, t, f))
  {
    InitialInv(s0);
    RunInv(s0, schedule);
    var s := After(s0, schedule);
    forall t | 0 <= t < |s.threads| && Bowing(s.threads[t])
      ensures Owns(s, t, s.threads[t].bower) && Owns(s, t, s.threads[t].bowee)
    {
      assert LockAgrees(s, s.threads[t].bower) && LockAgrees(s, s.threads[t].bowee);
      assert Holds(s.threads[t], s.threads[t].bower) > 0 && Holds(s.threads[t], s.threads[t].bowee) > 0;
    }
    forall t, f | 0 <= t < |s.threads| && 0 <= f < |s.locks| && s.threads[t].pc == Outside
      ensures !Owns(s, t, f)
    {
      assert LockAgrees(s, f);
      assert Holds(s.threads[t], f) == 0;
    }
  }

  /** A tryLock that answers false does so because another thread, inside a bow, holds that lock at that moment. */
  lemma RefusalHasAHolder(s: State, t: nat)
    requires Inv(s) && t < |s.threads|
    requires s.threads[t].pc == Outside || s.threads[t].pc.TriedMine?
    ensures var f := if s.threads[t].pc == Outside then s.threads[t].bowee else s.threads[t].bower;
      var pc := Next(s, t).threads[t].pc;
      var answer := if s.threads[t].pc == Outside then pc.mine else pc.yours;
      !answer <==> exists u :: 0 <= u < |s.threads| && u != t && Holds(s.threads[u], f) > 0
  {
    var f := if s.threads[t].pc == Outside then s.threads[t].bowee else s.threads[t].bower;
    assert LockAgrees(s, f);
  }

  /** How many steps of a schedule are t's. */
  function Steps(schedule: seq<nat>, t: nat): nat {
    if schedule == [] then 0 else (if schedule[0] == t then 1 else 0) + Steps(schedule[1..], t)
  }

  /** Steps a thread needs at most to come back out of its bow. */
  function ToOutside(pc: Pc): nat {
    match pc
    case Outside => 0
    case TriedMine(_) => 5
    case TriedBoth(mine, yours) => if mine && yours then 4 else 1
    case InBowBack => 3
    case UnlockMine => 2
    case UnlockYours => 1
  }

  ghost predicate OutsideAt(s: State, schedule: seq<nat>, t: nat, i: nat)
    requires WellFormed(s) && Schedule(s, schedule) && t < |s.threads| && i <= |schedule|
  {
    After(s, schedule[..i]).threads[t].pc == Outside
  }

  /** Nothing can keep a thread inside bow: whatever the other threads do between its steps, it has been outside after
      at most five of them. */
  lemma {:induction false} EveryBowReturns(s: State, schedule: seq<nat>, t: nat)
    requires Inv(s) && Schedule(s, schedule) && t < |s.threads|
    requires Steps(schedule, t) >= ToOutside(s.threads[t].pc)
    ensures exists i: nat :: i <= |schedule| && OutsideAt(s, schedule, t, i)
    decreases |schedule|
  {
    if s.threads[t].pc == Outside {
      assert OutsideAt(s, schedule, t, 0);
    } else {
      var s', rest := Next(s, schedule[0]), schedule[1..];
      StepInv(s, schedule[0]);
      EveryBowReturns(s', rest, t);
      var i: nat :| i <= |rest| && OutsideAt(s', rest, t, i);
      assert schedule[..i + 1][1..] == rest[..i];
      assert OutsideAt(s, schedule, t, i + 1);
    }
  }

  /** No other thread is inside a bow with a friend of t. */
  ghost predicate Undisturbed(s: State, t: nat)
    requires t < |s.threads|
  {
    forall u :: 0 <= u < |s.threads| && u != t && ShareFriend(s.threads[t], s.threads[u]) ==>
      s.threads[u].pc == Outside
  }

  /** Only t and threads that share no friend with it take steps. */
  ghost predicate Apart(s: State, schedule: seq<nat>, t: nat)
    requires Schedule(s, schedule) && t < |s.threads|
  {
    forall i :: 0 <= i < |schedule| && schedule[i] != t ==> !ShareFriend(s.threads[t], s.threads[schedule[i]])
  }

  lemma UndisturbedTries(s: State, t: nat)
    requires Inv(s) && t < |s.threads| && Undisturbed(s, t)
    ensures CanTake(s.locks[s.threads[t].bowee], t) && CanTake(s.locks[s.threads[t].bower], t)
  {
    var th := s.threads[t];
    assert LockAgrees(s, th.bowee) && LockAgrees(s, th.bower);
  }

  /** Friends do not change. */
  lemma FriendsStay(s: State, u: nat)
    requires WellFormed(s) && u < |s.threads|
    ensures forall v :: 0 <= v < |s.threads| ==>
      Next(s, u).threads[v].bower == s.threads[v].bower && Next(s, u).threads[v].bowee == s.threads[v].bowee
  {
  }

  lemma ApartStep(s: State, schedule: seq<nat>, t: nat)
    requires Inv(s) && Schedule(s, schedule) && t < |s.threads| && schedule != []
    requires Undisturbed(s, t) && Apart(s, schedule, t)
    ensures Schedule(Next(s, schedule[0]), schedule[1..])
    ensures Undisturbed(Next(s, schedule[0]), t) && Apart(Next(s, schedule[0]), schedule[1..], t)
  {
    StepInv(s, schedule[0]);
    FriendsStay(s, schedule[0]);
  }

  /** Steps from outside into bowBack when both tries succeed. */
  function ToBowBack(pc: Pc): Option<nat> {
    match pc
    case Outside => Some(3)
    case TriedMine(mine) => if mine then Some(2) else None
    case TriedBoth(mine, yours) => if mine && yours then Some(1) else None
    case InBowBack => Some(0)
    case _ => None
  }

  lemma TowardsBowBack(s: State, u: nat, t: nat)
    requires Inv(s) && t < |s.threads| && u < |s.threads| && Undisturbed(s, t)
    requires ToBowBack(s.threads[t].pc).Some? && s.threads[t].pc != InBowBack
    ensures ToBowBack(Next(s, u).threads[t].pc) ==
      Some(ToBowBack(s.threads[t].pc).value - if u == t then 1 else 0)
  {
    StepInv(s, u);
    UndisturbedTries(s, t);
  }

  /** A bow that meets no other bow on its two friends succeeds: its third step takes it into bowBack, whatever threads
      with other friends do meanwhile. */
  lemma {:induction false} UndisturbedBowSucceeds(s: State, schedule: seq<nat>, t: nat)
    requires Inv(s) && Schedule(s, schedule) && t < |s.threads| && Undisturbed(s, t) && Apart(s, schedule, t)
    requires ToBowBack(s.threads[t].pc) == Some(Steps(schedule, t))
    ensures After(s, schedule).threads[t].pc == InBowBack
    decreases |schedule|
  {
    if schedule != [] {
      var u := schedule[0];
      ApartStep(s, schedule, t);
      StepInv(s, u);
      if s.threads[t].pc != InBowBack {
        TowardsBowBack(s, u, t);
      }
      UndisturbedBowSucceeds(Next(s, u), schedule[1..], t);
    }
  }
}
