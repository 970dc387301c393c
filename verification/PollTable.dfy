/** The descriptor table of the poll loop in src_C/socket.srv.poll.c: appended to by accept, punched with -1 when
    a connection closes, squeezed by a compaction pass that skips the slot after each removal. */
module PollTable {
  import opened Basics

  const CLOSED: int := -1

  const MAXCONN: nat := 1000

  /** The open descriptors of a table, in table order. */
  function Live(t: seq<int>): seq<int> {
    if t == [] then [] else if t[0] == CLOSED then Live(t[1..]) else [t[0]] + Live(t[1..])
  }

  /** Lengths of the runs of closed entries: before the first open descriptor, between consecutive ones, and
      after the last one. */
  function Gaps(t: seq<int>): (g: seq<nat>)
    ensures |g| == |Live(t)| + 1
  {
    if t == [] then [0]
    else
      var g := Gaps(t[1..]);
      if t[0] == CLOSED then [g[0] + 1] + g[1..] else [0] + g
  }

  function Halve(g: seq<nat>): (h: seq<nat>)
    ensures |h| == |g| && forall i :: 0 <= i < |g| ==> h[i] == g[i] / 2
  {
    if g == [] then [] else [g[0] / 2] + Halve(g[1..])
  }

  /** One compaction pass: an entry that follows a removed one is kept without being looked at. */
  function Pass(t: seq<int>): seq<int> {
    if t == [] then []
    else if t[0] != CLOSED then [t[0]] + Pass(t[1..])
    else if |t| == 1 then []
    else [t[1]] + Pass(t[2..])
  }

  function Passes(t: seq<int>, n: nat): seq<int>
    decreases n
  {
    if n == 0 then t else Passes(Pass(t), n - 1)
  }

  lemma LivePrepend(x: int, t: seq<int>)
    ensures Live([x] + t) == if x == CLOSED then Live(t) else [x] + Live(t)
  {
    assert ([x] + t)[0] == x && ([x] + t)[1..] == t;
  }

  lemma GapsPrepend(x: int, t: seq<int>)
    ensures Gaps([x] + t) == if x == CLOSED then [Gaps(t)[0] + 1] + Gaps(t)[1..] else [0] + Gaps(t)
  {
    var u := [x] + t;
    assert u != [] && u[0] == x && u[1..] == t;
  }

  lemma Prepend(x: int, t: seq<int>)
    ensures Live([x] + t) == if x == CLOSED then Live(t) else [x] + Live(t)
    ensures Gaps([x] + t) == if x == CLOSED then [Gaps(t)[0] + 1] + Gaps(t)[1..] else [0] + Gaps(t)
  {
    LivePrepend(x, t);
    GapsPrepend(x, t);
  }

  lemma EmptyTable(t: seq<int>)
    requires Live(t) == [] && Gaps(t) == [0]
    ensures t == []
  {
  }

  /** Runs of closed entries and open descriptors together determine the table. */
  lemma {:induction false} TableIsDetermined(t: seq<int>, u: seq<int>)
    requires Live(t) == Live(u) && Gaps(t) == Gaps(u)
    ensures t == u
  {
    if t == [] {
      EmptyTable(u);
    } else if u == [] {
      EmptyTable(t);
    } else {
      var g, h := Gaps(t[1..]), Gaps(u[1..]);
      assert t[0] == CLOSED <==> Gaps(t)[0] > 0;
      assert u[0] == CLOSED <==> Gaps(u)[0] > 0;
      if t[0] == CLOSED {
        assert g == [Gaps(t)[0] - 1] + Gaps(t)[1..];
        assert h == [Gaps(u)[0] - 1] + Gaps(u)[1..];
      } else {
        assert Live(t[1..]) == Live(t)[1..] && Live(u[1..]) == Live(u)[1..];
        assert g == Gaps(t)[1..] && h == Gaps(u)[1..];
      }
      TableIsDetermined(t[1..], u[1..]);
    }
  }

  lemma HalvePrepend(k: nat, g: seq<nat>)
    ensures Halve([k] + g) == [k / 2] + Halve(g)
  {
    assert ([k] + g)[1..] == g;
  }

  ghost predicate Halved(t: seq<int>, u: seq<int>) {
    Live(u) == Live(t) && Gaps(u) == Halve(Gaps(t))
  }

  lemma OpenEntryIsKept(x: int, t: seq<int>)
    requires x != CLOSED && Halved(t, Pass(t))
    ensures Halved([x] + t, [x] + Pass(t))
  {
    Prepend(x, t);
    Prepend(x, Pass(t));
    HalvePrepend(0, Gaps(t));
  }

  lemma HalveOfPair(g: seq<nat>)
    requires g != []
    ensures Halve([g[0] + 2] + g[1..]) == [Halve(g)[0] + 1] + Halve(g)[1..]
  {
    HalvePrepend(g[0] + 2, g[1..]);
    assert Halve(g) == [g[0] / 2] + Halve(g[1..]);
  }

  lemma TwoClosed(t: seq<int>)
    ensures Live([CLOSED, CLOSED] + t) == Live(t)
    ensures Gaps([CLOSED, CLOSED] + t) == [Gaps(t)[0] + 2] + Gaps(t)[1..]
  {
    var u := [CLOSED] + t;
    assert [CLOSED, CLOSED] + t == [CLOSED] + u;
    Prepend(CLOSED, t);
    Prepend(CLOSED, u);
  }

  lemma ClosedPairLosesOne(t: seq<int>)
    requires Halved(t, Pass(t))
    ensures Halved([CLOSED, CLOSED] + t, [CLOSED] + Pass(t))
  {
    TwoClosed(t);
    HalveOfPair(Gaps(t));
    Prepend(CLOSED, Pass(t));
  }

  lemma ClosedBeforeOpenIsRemoved(x: int, t: seq<int>)
    requires x != CLOSED && Halved(t, Pass(t))
    ensures Halved([CLOSED, x] + t, [x] + Pass(t))
  {
    var u, g := [x] + t, Gaps(t);
    assert [CLOSED, x] + t == [CLOSED] + u;
    Prepend(x, t);
    Prepend(CLOSED, u);
    Prepend(x, Pass(t));
    assert [Gaps(u)[0] + 1] + Gaps(u)[1..] == [1] + g;
    HalvePrepend(1, g);
  }

  /** A pass loses, repeats and reorders no open descriptor, and takes ceil(k/2) entries out of every run of k
      closed ones. */
  lemma {:induction false} PassHalvesEveryGap(t: seq<int>)
    ensures Live(Pass(t)) == Live(t)
    ensures Gaps(Pass(t)) == Halve(Gaps(t))
  {
    if t == [] {
    } else if t[0] != CLOSED {
      PassHalvesEveryGap(t[1..]);
      OpenEntryIsKept(t[0], t[1..]);
      assert t == [t[0]] + t[1..];
    } else if |t| == 1 {
      assert t[1..] == [];
    } else {
      PassHalvesEveryGap(t[2..]);
      assert t == [CLOSED, t[1]] + t[2..];
      if t[1] == CLOSED {
        ClosedPairLosesOne(t[2..]);
      } else {
        ClosedBeforeOpenIsRemoved(t[1], t[2..]);
      }
    }
  }

  function FloorLog2(k: nat): nat
    requires k > 0
  {
    if k == 1 then 0 else 1 + FloorLog2(k / 2)
  }

  /** n halvings bring a run of k closed entries to nothing. */
  predicate Clears(n: nat, k: nat) {
    k > 0 ==> FloorLog2(k) + 1 <= n
  }

  lemma {:induction false} ClosedShowsInGaps(t: seq<int>)
    ensures CLOSED !in t <==> forall i :: 0 <= i < |Gaps(t)| ==> Gaps(t)[i] == 0
  {
    if t != [] {
      var g := Gaps(t[1..]);
      ClosedShowsInGaps(t[1..]);
      Prepend(t[0], t[1..]);
      assert t == [t[0]] + t[1..];
      if t[0] == CLOSED {
        assert Gaps(t)[0] > 0;
      } else if CLOSED in t {
        var i :| 0 <= i < |g| && g[i] != 0;
        assert Gaps(t)[i + 1] == g[i];
      }
    }
  }

  /** n passes clear the table exactly when n exceeds the binary logarithm of every run: floor(log2 k) + 1 passes
      are enough for a longest run of k closed entries, and no fewer are. */
  lemma {:induction false} PassesThatClear(t: seq<int>, n: nat)
    ensures Live(Passes(t, n)) == Live(t)
    ensures CLOSED !in Passes(t, n) <==> forall i :: 0 <= i < |Gaps(t)| ==> Clears(n, Gaps(t)[i])
    decreases n
  {
    if n == 0 {
      ClosedShowsInGaps(t);
      assert forall k: nat :: Clears(0, k) <==> k == 0;
    } else {
      PassHalvesEveryGap(t);
      PassesThatClear(Pass(t), n - 1);
      var g, h := Gaps(t), Gaps(Pass(t));
      assert |g| == |h|;
      forall i | 0 <= i < |g|
        ensures Clears(n, g[i]) <==> Clears(n - 1, h[i])
      {
        assert h[i] == g[i] / 2;
      }
    }
  }

  /** A table without its i-th entry. */
  function Dropped(t: seq<int>, i: nat): seq<int>
    requires i < |t|
  {
    t[..i] + t[i + 1..]
  }

  lemma DroppedAfter(done: seq<int>, rest: seq<int>)
    requires rest != []
    ensures Dropped(done + rest, |done|) == done + rest[1..]
  {
  }

  class Server {
    const listenfd: int
    var fds: array<int>
    var nfds: nat
    var compressArray: bool

    ghost predicate Valid()
      reads this
    {
      nfds <= fds.Length
    }

    ghost function Table(): seq<int>
      requires Valid()
      reads this, fds
    {
      fds[..nfds]
    }

    constructor (listenfd: int)
      requires listenfd != CLOSED
      ensures Valid() && fresh(fds) && this.listenfd == listenfd && fds.Length == MAXCONN
      ensures Table() == [listenfd] && !compressArray
    {
      this.listenfd := listenfd;
      fds := new int[MAXCONN](_ => 0);
      nfds := 1;
      compressArray := false;
      new;
      fds[0] := listenfd;
      assert fds[..1] == [listenfd];
    }

    method Accept(newSd: int)
      requires Valid() && nfds < fds.Length
      modifies this`nfds, fds
      ensures Valid() && Table() == old(Table()) + [newSd]
    {
      fds[nfds] := newSd;
      nfds := nfds + 1;
    }

    method MarkClosed(i: nat)
      requires Valid() && i < nfds
      modifies this`compressArray, fds
      ensures Valid() && Table() == old(Table())[i := CLOSED] && compressArray
    {
      fds[i] := CLOSED;
      compressArray := true;
    }

    /** What one event of a run does to the table. The source compresses when a connection was closed in the round. */
    method Handle(e: Event)
      requires Valid() && Possible(Table(), e)
      requires e.Closed? || nfds < fds.Length
      requires e.Compressed? ==> compressArray
      modifies this`nfds, this`compressArray, fds
      ensures Valid() && Table() == Apply(old(Table()), e)
      ensures compressArray == FlagAfter(old(compressArray), e)
      ensures nfds <= old(nfds) + 1
    {
      match e
      case Accepted(fd) => Accept(fd);
      case Closed(slot) => MarkClosed(slot);
      case Compressed => Compress();
    }

    /** The events of a run, with room in the array for every descriptor that is accepted. */
    method Serve(events: seq<Event>)
      requires Valid() && RunPossible(Table(), events) && Flagged(compressArray, events)
      requires nfds + |events| < fds.Length
      modifies this`nfds, this`compressArray, fds
      ensures Valid() && Table() == RunTable(old(Table()), events)
    {
      var k := 0;
      while k < |events|
        invariant k <= |events| && Valid() && nfds + |events| - k < fds.Length
        invariant RunPossible(Table(), events[k..]) && Flagged(compressArray, events[k..])
        invariant RunTable(Table(), events[k..]) == RunTable(old(Table()), events)
      {
        assert events[k..][0] == events[k] && events[k..][1..] == events[k + 1..];
        Handle(events[k]);
        k := k + 1;
      }
    }

    /** The inner loop: moves slots i+1 .. nfds one place down. */
    method ShiftDown(i: nat)
      requires Valid() && i < nfds < fds.Length
      modifies fds
      ensures fds[..nfds - 1] == Dropped(old(fds[..nfds]), i)
    {
      ghost var before := fds[..];
      var j := i;
      while j < nfds
        invariant i <= j <= nfds
        invariant forall k :: 0 <= k < i ==> fds[k] == before[k]
        invariant forall k :: i <= k < j ==> fds[k] == before[k + 1]
        invariant forall k :: j <= k < fds.Length ==> fds[k] == before[k]
      {
        fds[j] := fds[j + 1];
        j := j + 1;
      }
      ghost var after := Dropped(before[..nfds], i);
      assert forall k :: 0 <= k < nfds - 1 ==> fds[k] == after[k];
    }

    /** One round of the outer loop of the compaction. */
    method CompressAt(i: nat, ghost done0: seq<int>, ghost rest0: seq<int>)
      returns (ghost done: seq<int>, ghost rest: seq<int>)
      requires nfds < fds.Length && i < nfds && i == |done0| && fds[..nfds] == done0 + rest0
      modifies this`nfds, fds
      ensures nfds <= old(nfds) && fds[..nfds] == done + rest
      ensures done + Pass(rest) == done0 + Pass(rest0)
      ensures i + 1 == |done| || (rest == [] && i == |done|)
    {
      assert rest0 != [] && fds[i] == rest0[0];
      if fds[i] == CLOSED {
        ShiftDown(i);
        nfds := nfds - 1;
        DroppedAfter(done0, rest0);
        done, rest := SkipOne(done0, rest0);
      } else {
        done, rest := done0 + [rest0[0]], rest0[1..];
      }
    }

    /** The compaction block at the end of every round of the server loop. */
    method Compress()
      requires Valid() && nfds < fds.Length
      modifies this`nfds, this`compressArray, fds
      ensures Valid() && nfds < fds.Length && !compressArray && nfds <= old(nfds)
      ensures Table() == if old(compressArray) then Pass(old(Table())) else old(Table())
    {
      if compressArray {
        compressArray := false;
        ghost var done, rest := [], fds[..nfds];
        var i := 0;
        while i < nfds
          invariant nfds <= old(nfds) < fds.Length && fds[..nfds] == done + rest
          invariant i == |done| || (rest == [] && i == |done| + 1)
          invariant done + Pass(rest) == Pass(old(Table()))
          invariant !compressArray
          decreases nfds - i
        {
          done, rest := CompressAt(i, done, rest);
          i := i + 1;
        }
        assert rest == [];
      }
    }
  }

  /** How a pass moves on over a closed entry. */
  ghost method SkipOne(done0: seq<int>, rest0: seq<int>) returns (done: seq<int>, rest: seq<int>)
    requires rest0 != [] && rest0[0] == CLOSED
    ensures done + rest == done0 + rest0[1..]
    ensures done + Pass(rest) == done0 + Pass(rest0)
    ensures |rest0| == 1 ==> done == done0 && rest == []
    ensures |rest0| > 1 ==> |done| == |done0| + 1
  {
    if |rest0| == 1 {
      done, rest := done0, [];
    } else {
      done, rest := done0 + [rest0[1]], rest0[2..];
      assert rest0[1..] == [rest0[1]] + rest;
      Associate(done0, [rest0[1]], rest);
      Associate(done0, [rest0[1]], Pass(rest));
    }
  }

  /** What one round can do to the table. The kernel gives accept a number that is not in use. */
  datatype Event = Accepted(fd: int) | Closed(slot: nat) | Compressed

  /** compressArray after an event. */
  function FlagAfter(flag: bool, e: Event): bool {
    if e.Accepted? then flag else e.Closed?
  }

  /** Compaction only happens with compressArray set. */
  predicate Flagged(flag: bool, events: seq<Event>)
    decreases |events|
  {
    events == [] || ((events[0].Compressed? ==> flag) && Flagged(FlagAfter(flag, events[0]), events[1..]))
  }

  predicate Possible(t: seq<int>, e: Event) {
    match e
    case Accepted(fd) => fd >= 0 && fd !in t
    case Closed(slot) => slot < |t| && t[slot] != CLOSED
    case Compressed => true
  }

  function Apply(t: seq<int>, e: Event): seq<int>
    requires Possible(t, e)
  {
    match e
    case Accepted(fd) => t + [fd]
    case Closed(slot) => t[slot := CLOSED]
    case Compressed => Pass(t)
  }

  /** The open descriptors after an event, in order of arrival; the table only tells which one a slot holds. */
  function Open(open: seq<int>, t: seq<int>, e: Event): seq<int>
    requires Possible(t, e)
  {
    match e
    case Accepted(fd) => open + [fd]
    case Closed(slot) => Without(open, t[slot])
    case Compressed => open
  }

  function Without(s: seq<int>, x: int): seq<int> {
    if s == [] then [] else if s[0] == x then s[1..] else [s[0]] + Without(s[1..], x)
  }

  lemma {:induction false} LiveMembers(t: seq<int>)
    ensures forall x :: x in Live(t) <==> x in t && x != CLOSED
  {
    if t != [] {
      LiveMembers(t[1..]);
      assert t == [t[0]] + t[1..];
    }
  }

  lemma Associate(s: seq<int>, t: seq<int>, u: seq<int>)
    ensures (s + t) + u == s + (t + u)
  {
  }

  lemma {:induction false} LiveAppends(t: seq<int>, u: seq<int>)
    ensures Live(t + u) == Live(t) + Live(u)
  {
    if t == [] {
      assert t + u == u;
    } else {
      var x, rest := t[0], t[1..];
      LiveAppends(rest, u);
      assert t == [x] + rest;
      Associate([x], rest, u);
      LivePrepend(x, rest);
      LivePrepend(x, rest + u);
      Associate([x], Live(rest), Live(u));
    }
  }

  lemma {:induction false} LiveAfterClose(t: seq<int>, slot: nat)
    requires slot < |t| && t[slot] != CLOSED
    requires NoDuplicates(Live(t))
    ensures Live(t[slot := CLOSED]) == Without(Live(t), t[slot])
  {
    if slot == 0 {
      assert t[slot := CLOSED][1..] == t[1..];
    } else {
      assert t[slot := CLOSED][1..] == t[1..][slot - 1 := CLOSED];
      if t[0] != CLOSED {
        LiveMembers(t[1..]);
        assert t[1..][slot - 1] == t[slot];
        assert Live(t[1..]) == Live(t)[1..];
        NoDuplicatesInTail(Live(t));
      }
      LiveAfterClose(t[1..], slot - 1);
    }
  }

  lemma {:induction false} WithoutKeepsOrder(s: seq<int>, x: int)
    requires NoDuplicates(s)
    ensures NoDuplicates(Without(s, x))
    ensures forall y :: y in Without(s, x) <==> y in s && y != x
  {
    if s != [] {
      assert s == [s[0]] + s[1..];
      NoDuplicatesInTail(s);
      if s[0] != x {
        WithoutKeepsOrder(s[1..], x);
        var w := Without(s[1..], x);
        assert forall i :: 0 <= i < |w| ==> w[i] in w;
      }
    }
  }

  /** Every event changes the open descriptors of the table as the event says and in no other way, and the
      listening socket stays in slot 0 until slot 0 is closed. */
  lemma EventKeepsTable(t: seq<int>, e: Event, listenfd: int)
    requires NoDuplicates(Live(t)) && Possible(t, e)
    ensures Live(Apply(t, e)) == Open(Live(t), t, e)
    ensures NoDuplicates(Live(Apply(t, e)))
    ensures !e.Compressed? ==>
      && |Apply(t, e)| == |t| + (if e.Accepted? then 1 else 0)
      && forall i :: 0 <= i < |t| && e != Closed(i) ==> Apply(t, e)[i] == t[i]
    ensures t != [] && t[0] == listenfd != CLOSED && e != Closed(0) ==>
      Apply(t, e) != [] && Apply(t, e)[0] == listenfd
  {
    LiveMembers(t);
    match e
    case Accepted(fd) =>
      LiveAppends(t, [fd]);
    case Closed(slot) =>
      LiveAfterClose(t, slot);
      WithoutKeepsOrder(Live(t), t[slot]);
    case Compressed =>
      PassHalvesEveryGap(t);
  }

  ghost predicate RunPossible(t: seq<int>, events: seq<Event>)
    decreases |events|
  {
    events == [] || (Possible(t, events[0]) && RunPossible(Apply(t, events[0]), events[1..]))
  }

  function RunTable(t: seq<int>, events: seq<Event>): seq<int>
    requires RunPossible(t, events)
    decreases |events|
  {
    if events == [] then t else RunTable(Apply(t, events[0]), events[1..])
  }

  function RunOpen(open: seq<int>, t: seq<int>, events: seq<Event>): seq<int>
    requires RunPossible(t, events)
    decreases |events|
  {
    if events == [] then open else RunOpen(Open(open, t, events[0]), Apply(t, events[0]), events[1..])
  }

  /** Over a whole run of the server the table holds the descriptors that were accepted and not yet closed, each
      once, in order of arrival, with the listening socket in slot 0 as long as it is open. */
  lemma {:induction false} RunKeepsTable(t: seq<int>, events: seq<Event>, listenfd: int)
    requires NoDuplicates(Live(t)) && RunPossible(t, events)
    ensures Live(RunTable(t, events)) == RunOpen(Live(t), t, events)
    ensures NoDuplicates(Live(RunTable(t, events)))
    ensures t != [] && t[0] == listenfd != CLOSED && Closed(0) !in events ==>
      RunTable(t, events) != [] && RunTable(t, events)[0] == listenfd
    decreases |events|
  {
    if events != [] {
      EventKeepsTable(t, events[0], listenfd);
      RunKeepsTable(Apply(t, events[0]), events[1..], listenfd);
    }
  }
}
