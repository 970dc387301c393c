/** The repository directory of a management collection object (src_C/gaoshan.C): one persisted pointer array,
    shared by any number of handles that each keep a local array of primary repositories. A region between lockspace
    and unlockspace is one atomic step. */
module RepositoryDirectory {
  import opened Basics

  /** The characters a primary and its secondary have in common. */
  type Name = string

  /** A persisted pointer and what resolveName tells about it. */
  datatype Entry = Entry(name: Name, secondary: bool, pointer: nat)

  /** A local repository object: its name, its own pointer, and its secondary's once it knows one. */
  datatype Repository = Repository(name: Name, pointer: nat, secondary: Option<nat>)

  /** Capacities of the pointer array, slot 0 included. */
  const MAX_REPOSITORY_NUMBER: nat := 255
  const MAX_REPOSITORY_NUMBER_EXT: nat := 65535

  /** First index of a repository of that name, or the length. */
  function IndexOfName(local: seq<Repository>, name: Name): (i: nat)
    ensures i <= |local| && (i < |local| ==> local[i].name == name)
    ensures forall k :: 0 <= k < i ==> local[k].name != name
  {
    if local == [] || local[0].name == name then 0 else 1 + IndexOfName(local[1..], name)
  }

  function IndexOfPointer(local: seq<Repository>, pointer: nat): (i: nat)
    ensures i <= |local| && (i < |local| ==> local[i].pointer == pointer)
    ensures forall k :: 0 <= k < i ==> local[k].pointer != pointer
  {
    if local == [] || local[0].pointer == pointer then 0 else 1 + IndexOfPointer(local[1..], pointer)
  }

  /** A name that is known marks a secondary, a new one a primary. */
  function AddEntry(local: seq<Repository>, e: Entry): seq<Repository> {
    var i := IndexOfName(local, e.name);
    if i < |local| then local[i := local[i].(secondary := Some(e.pointer))]
    else local + [Repository(e.name, e.pointer, None)]
  }

  /** What open builds from the persisted entries. */
  function Rebuild(entries: seq<Entry>): seq<Repository> {
    if entries == [] then [] else AddEntry(Rebuild(entries[..|entries| - 1]), entries[|entries| - 1])
  }

  /** createRepository copies what is new in a freshly opened object. */
  function SyncedForCreate(local: seq<Repository>, fresh_: seq<Repository>): seq<Repository> {
    if |local| < |fresh_| then local + fresh_[|local|..] else local
  }

  /** openRepository does that and also takes over the length. */
  function SyncedForOpen(local: seq<Repository>, fresh_: seq<Repository>): seq<Repository> {
    if |local| < |fresh_| then local + fresh_[|local|..] else local[..|fresh_|]
  }

  /** The shared object: entries are slots 1 .. numberOfPtrs - 1 of the persisted array. */
  class Collection {
    var entries: seq<Entry>
    var maxRpPointers: nat

    constructor (extended: bool)
      ensures entries == []
      ensures maxRpPointers == if extended then MAX_REPOSITORY_NUMBER_EXT else MAX_REPOSITORY_NUMBER
    {
      entries := [];
      maxRpPointers := if extended then MAX_REPOSITORY_NUMBER_EXT else MAX_REPOSITORY_NUMBER;
    }
  }

  /** The loops over m_rpLocalArray that look for a name. */
  method FindName(local: seq<Repository>, name: Name) returns (idx: nat)
    ensures idx == IndexOfName(local, name)
  {
    idx := 0;
    while idx < |local| && local[idx].name != name
      invariant 0 <= idx <= |local|
      invariant forall k :: 0 <= k < idx ==> local[k].name != name
    {
      idx := idx + 1;
    }
  }

  /** One round of the loop of open. */
  method Load(local0: seq<Repository>, e: Entry) returns (local: seq<Repository>)
    ensures local == AddEntry(local0, e)
  {
    local := local0;
    var idx := FindName(local, e.name);
    if idx < |local| {
      local := local[idx := local[idx].(secondary := Some(e.pointer))];
    } else {
      local := local + [Repository(e.name, e.pointer, None)];
    }
  }

  /** The loop of open over the persisted array: slot 1 holds a primary; from slot 2 on the name decides. */
  method LoadAll(entries: seq<Entry>) returns (local: seq<Repository>)
    requires entries != []
    ensures local == Rebuild(entries)
  {
    var numPtrs := |entries| + 1;
    local := [Repository(entries[0].name, entries[0].pointer, None)];
    assert entries[..1][..0] == [] && entries[..1][0] == entries[0];
    var y := 2;
    while y < numPtrs
      invariant 2 <= y <= numPtrs && local == Rebuild(entries[..y - 1])
    {
      local := Load(local, entries[y - 1]);
      assert entries[..y][..y - 1] == entries[..y - 1];
      y := y + 1;
    }
    assert entries[..numPtrs - 1] == entries;
  }

  class Handle {
    const col: Collection
    var local: seq<Repository>

    constructor (col: Collection)
      ensures this.col == col && local == []
    {
      this.col := col;
      local := [];
    }

    method Open()
      modifies this, col`maxRpPointers
      ensures local == if col.entries == [] then old(local) else Rebuild(col.entries)
      ensures col.maxRpPointers ==
        if col.entries == [] || old(col.maxRpPointers) == MAX_REPOSITORY_NUMBER_EXT then old(col.maxRpPointers)
        else MAX_REPOSITORY_NUMBER
    {
      var numPtrs := |col.entries| + 1;
      if numPtrs > 1 {
        if col.maxRpPointers != MAX_REPOSITORY_NUMBER_EXT {
          col.maxRpPointers := MAX_REPOSITORY_NUMBER;
        }
        local := LoadAll(col.entries);
      }
    }

    /** `pointer` is what the system gives the new repository. */
    method CreateRepository(fullName: Name, pointer: nat) returns (created: bool)
      modifies this, col
      ensures (local, col.entries, created) == Created(old(local), old(col.entries), old(NewMax()), fullName, pointer)
      ensures col.maxRpPointers ==
        if old(col.maxRpPointers) == MAX_REPOSITORY_NUMBER_EXT || (old(col.entries) == [] && !created)
        then old(col.maxRpPointers) else MAX_REPOSITORY_NUMBER
    {
      var tmp := new Handle(col);
      tmp.Open();
      local := SyncedForCreate(local, tmp.local);
      var idx := FindName(local, fullName);
      if idx < |local| {
        return false;
      }
      created := |col.entries| + 1 < col.maxRpPointers;
      if created {
        local := local + [Repository(fullName, pointer, None)];
        col.entries := col.entries + [Entry(fullName, false, pointer)];
        ghost var found := OpenRepository(fullName);
      }
    }

    ghost function NewMax(): nat
      reads this, col
    {
      if col.entries == [] || col.maxRpPointers == MAX_REPOSITORY_NUMBER_EXT then col.maxRpPointers
      else MAX_REPOSITORY_NUMBER
    }

    method OpenRepository(fullName: Name) returns (found: Option<nat>)
      modifies this, col`maxRpPointers
      ensures local == SyncedForOpen(old(local), Rebuild(col.entries))
      ensures found == var i := IndexOfName(local, fullName); if i < |local| then Some(local[i].pointer) else None
      ensures col.maxRpPointers == old(NewMax())
    {
      var tmp := new Handle(col);
      tmp.Open();
      local := SyncedForOpen(local, tmp.local);
      var idx := FindName(local, fullName);
      if idx < |local| {
        return Some(local[idx].pointer);
      }
      return None;
    }

    /** `pointer` is what the system gives the new secondary. */
    method CreateSecondaryRepository(rpHandle: nat, pointer: nat) returns (created: bool)
      modifies this, col`entries
      ensures (local, col.entries, created) == SecondaryCreated(old(local), old(col.entries), rpHandle, pointer)
    {
      created := false;
      var idx := 0;
      while idx < |local| && local[idx].pointer != rpHandle
        invariant 0 <= idx <= |local|
        invariant forall k :: 0 <= k < idx ==> local[k].pointer != rpHandle
      {
        idx := idx + 1;
      }
      if idx < |local| && local[idx].secondary == None {
        local := local[idx := local[idx].(secondary := Some(pointer))];
        col.entries := col.entries + [Entry(local[idx].name, true, pointer)];
        created := true;
      }
    }
  }

  /** The directory half of copy: every entry is copied to a repository with a pointer of its own. */
  method CopyDirectory(from: Collection, to: Collection, pointers: seq<nat>)
    requires from != to && |pointers| == |from.entries|
    modifies to
    ensures to.entries == Copied(from.entries, pointers)
    ensures to.maxRpPointers ==
      if from.maxRpPointers == MAX_REPOSITORY_NUMBER_EXT then MAX_REPOSITORY_NUMBER_EXT else MAX_REPOSITORY_NUMBER
  {
    to.maxRpPointers :=
      if from.maxRpPointers == MAX_REPOSITORY_NUMBER_EXT then MAX_REPOSITORY_NUMBER_EXT else MAX_REPOSITORY_NUMBER;
    to.entries := [];
    var idx := 1;
    while idx < |from.entries| + 1
      invariant 1 <= idx <= |from.entries| + 1
      invariant to.entries == Copied(from.entries[..idx - 1], pointers[..idx - 1])
      invariant from.entries == old(from.entries)
      invariant to.maxRpPointers ==
        if from.maxRpPointers == MAX_REPOSITORY_NUMBER_EXT then MAX_REPOSITORY_NUMBER_EXT else MAX_REPOSITORY_NUMBER
    {
      var e := from.entries[idx - 1];
      to.entries := to.entries + [Entry(e.name, e.secondary, pointers[idx - 1])];
      assert from.entries[..idx][..idx - 1] == from.entries[..idx - 1];
      assert pointers[..idx][..idx - 1] == pointers[..idx - 1];
      idx := idx + 1;
    }
    assert from.entries[..idx - 1] == from.entries && pointers[..idx - 1] == pointers;
  }

  function Copied(entries: seq<Entry>, pointers: seq<nat>): (es: seq<Entry>)
    requires |pointers| == |entries|
    ensures |es| == |entries|
    ensures forall i :: 0 <= i < |es| ==> es[i] == Entry(entries[i].name, entries[i].secondary, pointers[i])
  {
    if entries == [] then []
    else
      var n := |entries| - 1;
      Copied(entries[..n], pointers[..n]) + [entries[n].(pointer := pointers[n])]
  }

  /** createRepository on a handle's list, the entries and the capacity. The nested openRepository resynchronises. */
  function Created(local: seq<Repository>, entries: seq<Entry>, max: nat, name: Name, pointer: nat)
    : (seq<Repository>, seq<Entry>, bool)
  {
    var l := SyncedForCreate(local, Rebuild(entries));
    if IndexOfName(l, name) < |l| || |entries| + 1 >= max then (l, entries, false)
    else
      var es := entries + [Entry(name, false, pointer)];
      (SyncedForOpen(l + [Repository(name, pointer, None)], Rebuild(es)), es, true)
  }

  function SecondaryCreated(local: seq<Repository>, entries: seq<Entry>, rpHandle: nat, pointer: nat)
    : (seq<Repository>, seq<Entry>, bool)
  {
    var i := IndexOfPointer(local, rpHandle);
    if i == |local| || local[i].secondary != None then (local, entries, false)
    else
      (local[i := local[i].(secondary := Some(pointer))], entries + [Entry(local[i].name, true, pointer)], true)
  }

  /** Any number of handles on one object. */
  datatype World = World(entries: seq<Entry>, max: nat, locals: seq<seq<Repository>>)

  datatype Action =
    | Open(h: nat)
    | Create(h: nat, name: Name, pointer: nat)
    | CreateSecondary(h: nat, rpHandle: nat, pointer: nat)
    | OpenRepository(h: nat, name: Name)

  function Next(w: World, a: Action): World
    requires a.h < |w.locals|
  {
    var local := w.locals[a.h];
    match a
    case Open(h) => w.(locals := w.locals[h := if w.entries == [] then local else Rebuild(w.entries)])
    case Create(h, name, pointer) =>
      var (l, es, _) := Created(local, w.entries, w.max, name, pointer);
      w.(entries := es, locals := w.locals[h := l])
    case CreateSecondary(h, rpHandle, pointer) =>
      var (l, es, _) := SecondaryCreated(local, w.entries, rpHandle, pointer);
      w.(entries := es, locals := w.locals[h := l])
    case OpenRepository(h, name) => w.(locals := w.locals[h := SyncedForOpen(local, Rebuild(w.entries))])
  }

  datatype Primary = Primary(name: Name, pointer: nat)

  /** The primaries among the entries, in persisted order. */
  function Primaries(entries: seq<Entry>): seq<Primary> {
    if entries == [] then []
    else
      var n := |entries| - 1;
      Primaries(entries[..n]) + if entries[n].secondary then [] else [Primary(entries[n].name, entries[n].pointer)]
  }

  /** A local list without what it knows about secondaries. */
  function Bare(local: seq<Repository>): (b: seq<Primary>)
    ensures |b| == |local|
    ensures forall i :: 0 <= i < |b| ==> b[i] == Primary(local[i].name, local[i].pointer)
  {
    if local == [] then []
    else [Primary(local[0].name, local[0].pointer)] + Bare(local[1..])
  }

  predicate HasName(ps: seq<Primary>, name: Name) {
    exists i :: 0 <= i < |ps| && ps[i].name == name
  }

  /** Each primary has a name of its own, and a secondary comes after its primary. */
  ghost predicate Ordered(entries: seq<Entry>) {
    entries == [] ||
    var n := |entries| - 1;
    Ordered(entries[..n]) && (HasName(Primaries(entries[..n]), entries[n].name) <==> entries[n].secondary)
  }

  lemma NoIndexNoName(local: seq<Repository>, name: Name)
    ensures IndexOfName(local, name) == |local| <==> !HasName(Bare(local), name)
  {
    var i := IndexOfName(local, name);
    if i < |local| {
      assert Bare(local)[i].name == name;
    }
  }

  /** An entry adds a primary exactly when its name is new. */
  lemma AddEntryBare(local: seq<Repository>, e: Entry)
    ensures Bare(AddEntry(local, e)) ==
      Bare(local) + if HasName(Bare(local), e.name) then [] else [Primary(e.name, e.pointer)]
  {
    var i := IndexOfName(local, e.name);
    NoIndexNoName(local, e.name);
    if i < |local| {
      assert Bare(local[i := local[i].(secondary := Some(e.pointer))]) == Bare(local);
    } else {
      assert Bare(local + [Repository(e.name, e.pointer, None)]) == Bare(local) + [Primary(e.name, e.pointer)];
    }
  }

  lemma {:induction false} RebuildFindsPrimaries(entries: seq<Entry>)
    requires Ordered(entries)
    ensures Bare(Rebuild(entries)) == Primaries(entries)
  {
    if entries != [] {
      var n := |entries| - 1;
      RebuildFindsPrimaries(entries[..n]);
      AddEntryBare(Rebuild(entries[..n]), entries[n]);
    }
  }

  ghost predicate Inv(w: World) {
    && Ordered(w.entries)
    && forall h :: 0 <= h < |w.locals| ==> Bare(w.locals[h]) <= Primaries(w.entries)
  }

  lemma SyncCatchesUp(local: seq<Repository>, entries: seq<Entry>)
    requires Ordered(entries) && Bare(local) <= Primaries(entries)
    ensures Bare(SyncedForCreate(local, Rebuild(entries))) == Primaries(entries)
    ensures Bare(SyncedForOpen(local, Rebuild(entries))) == Primaries(entries)
  {
    RebuildFindsPrimaries(entries);
    var fresh_ := Rebuild(entries);
    if |local| < |fresh_| {
      var l := local + fresh_[|local|..];
      assert forall i :: 0 <= i < |l| ==> Bare(l)[i] == Bare(fresh_)[i];
    } else {
      assert local[..|fresh_|] == local;
    }
  }

  lemma AppendEntry(entries: seq<Entry>, e: Entry)
    ensures Primaries(entries + [e]) == Primaries(entries) + if e.secondary then [] else [Primary(e.name, e.pointer)]
    ensures Ordered(entries + [e]) <==>
      Ordered(entries) && (HasName(Primaries(entries), e.name) <==> e.secondary)
  {
    assert (entries + [e])[..|entries|] == entries;
  }

  lemma CreateStep(local: seq<Repository>, entries: seq<Entry>, max: nat, name: Name, pointer: nat)
    requires Ordered(entries) && Bare(local) <= Primaries(entries)
    ensures var (l, es, created) := Created(local, entries, max, name, pointer);
      && Ordered(es) && Primaries(entries) <= Primaries(es) && Bare(l) == Primaries(es)
      && (created <==> !HasName(Primaries(entries), name) && |entries| + 1 < max)
  {
    var l := SyncedForCreate(local, Rebuild(entries));
    SyncCatchesUp(local, entries);
    NoIndexNoName(l, name);
    if IndexOfName(l, name) == |l| && |entries| + 1 < max {
      AppendPrimary(l, entries, name, pointer);
    }
  }

  lemma AppendPrimary(l: seq<Repository>, entries: seq<Entry>, name: Name, pointer: nat)
    requires Ordered(entries) && Bare(l) == Primaries(entries) && !HasName(Primaries(entries), name)
    ensures var es := entries + [Entry(name, false, pointer)];
      && Ordered(es) && Primaries(es) == Primaries(entries) + [Primary(name, pointer)]
      && Bare(SyncedForOpen(l + [Repository(name, pointer, None)], Rebuild(es))) == Primaries(es)
  {
    var es := entries + [Entry(name, false, pointer)];
    AppendEntry(entries, Entry(name, false, pointer));
    var l' := l + [Repository(name, pointer, None)];
    assert Bare(l') == Bare(l) + [Primary(name, pointer)];
    SyncCatchesUp(l', es);
  }

  lemma SecondaryStep(local: seq<Repository>, entries: seq<Entry>, rpHandle: nat, pointer: nat)
    requires Ordered(entries) && Bare(local) <= Primaries(entries)
    ensures var (l, es, created) := SecondaryCreated(local, entries, rpHandle, pointer);
      && Ordered(es) && Primaries(es) == Primaries(entries) && Bare(l) == Bare(local)
      && |es| == |entries| + if created then 1 else 0
  {
    var i := IndexOfPointer(local, rpHandle);
    if i < |local| && local[i].secondary == None {
      assert Primaries(entries)[i] == Bare(local)[i];
      AppendEntry(entries, Entry(local[i].name, true, pointer));
      assert Bare(local[i := local[i].(secondary := Some(pointer))]) == Bare(local);
    }
  }

  /** Every operation of every handle keeps all the lists coherent with the persisted entries, and the list of the
      handle that creates or opens is brought up to date. */
  lemma StepInv(w: World, a: Action)
    requires Inv(w) && a.h < |w.locals|
    ensures var w' := Next(w, a);
      && Inv(w') && |w'.locals| == |w.locals| && w'.max == w.max
      && Primaries(w.entries) <= Primaries(w'.entries)
      && (!a.CreateSecondary? ==> Bare(w'.locals[a.h]) == Primaries(w'.entries))
  {
    var w', local := Next(w, a), w.locals[a.h];
    match a {
      case Open(_) =>
        RebuildFindsPrimaries(w.entries);
      case Create(_, name, pointer) =>
        CreateStep(local, w.entries, w.max, name, pointer);
      case CreateSecondary(_, rpHandle, pointer) =>
        SecondaryStep(local, w.entries, rpHandle, pointer);
      case OpenRepository(_, _) =>
        SyncCatchesUp(local, w.entries);
    }
    forall h | 0 <= h < |w'.locals|
      ensures Bare(w'.locals[h]) <= Primaries(w'.entries)
    {
      assert h != a.h ==> Bare(w.locals[h]) <= Primaries(w.entries);
    }
  }

  predicate Legal(w: World, actions: seq<Action>) {
    forall i :: 0 <= i < |actions| ==> actions[i].h < |w.locals|
  }

  function Run(w: World, actions: seq<Action>): (w': World)
    requires Legal(w, actions)
    ensures |w'.locals| == |w.locals|
    decreases |actions|
  {
    if actions == [] then w else Run(Next(w, actions[0]), actions[1..])
  }

  lemma {:induction false} RunInv(w: World, actions: seq<Action>)
    requires Inv(w) && Legal(w, actions)
    ensures Inv(Run(w, actions))
    decreases |actions|
  {
    if actions != [] {
      StepInv(w, actions[0]);
      RunInv(Next(w, actions[0]), actions[1..]);
    }
  }

  function New(max: nat, handles: nat): World {
    World([], max, seq(handles, _ => []))
  }

  // ----- secondaries -----

  predicate IsSecondaryOf(entries: seq<Entry>, name: Name, j: int) {
    0 <= j < |entries| && entries[j].secondary && entries[j].name == name
  }

  /** The repository knows exactly what the entries say of its secondary: the pointer of the last entry that is marked
      as one and has its name, and none if there is no such entry. */
  ghost predicate SecondaryMatches(entries: seq<Entry>, r: Repository) {
    match r.secondary
    case None => forall j :: !IsSecondaryOf(entries, r.name, j)
    case Some(p) =>
      exists j :: IsSecondaryOf(entries, r.name, j) && entries[j].pointer == p
                  && forall k :: k > j ==> !IsSecondaryOf(entries, r.name, k)
  }

  lemma OtherEntryMatches(entries: seq<Entry>, e: Entry, r: Repository)
    requires SecondaryMatches(entries, r) && !(e.secondary && e.name == r.name)
    ensures SecondaryMatches(entries + [e], r)
  {
    var es := entries + [e];
    assert forall j :: IsSecondaryOf(es, r.name, j) <==> IsSecondaryOf(entries, r.name, j);
    if r.secondary.Some? {
      var j :| IsSecondaryOf(entries, r.name, j) && entries[j].pointer == r.secondary.value
               && forall k :: k > j ==> !IsSecondaryOf(entries, r.name, k);
      assert IsSecondaryOf(es, r.name, j) && es[j].pointer == r.secondary.value;
    }
  }

  lemma OwnEntryMatches(entries: seq<Entry>, e: Entry, r: Repository)
    requires e.secondary && e.name == r.name && r.secondary == Some(e.pointer)
    ensures SecondaryMatches(entries + [e], r)
  {
    assert IsSecondaryOf(entries + [e], r.name, |entries|);
  }

  lemma {:induction false} SecondaryHasPrimary(entries: seq<Entry>, j: nat)
    requires Ordered(entries) && j < |entries| && entries[j].secondary
    ensures HasName(Primaries(entries), entries[j].name)
    decreases |entries|
  {
    var n := |entries| - 1;
    var ps, qs := Primaries(entries[..n]), Primaries(entries);
    assert ps <= qs;
    if j < n {
      SecondaryHasPrimary(entries[..n], j);
    }
    var i :| 0 <= i < |ps| && ps[i].name == entries[j].name;
    assert qs[i] == ps[i];
  }

  /** open matches every secondary to its primary, and to no other repository. */
  lemma {:induction false} RebuildMatchesSecondaries(entries: seq<Entry>)
    requires Ordered(entries)
    ensures forall i :: 0 <= i < |Rebuild(entries)| ==> SecondaryMatches(entries, Rebuild(entries)[i])
  {
    if entries != [] {
      var n := |entries| - 1;
      var front, e := entries[..n], entries[n];
      var r := Rebuild(front);
      assert entries == front + [e];
      RebuildMatchesSecondaries(front);
      RebuildFindsPrimaries(front);
      NamesAreDistinct(front);
      NoIndexNoName(r, e.name);
      AddEntryMatches(front, e, r);
    }
  }

  lemma AddEntryMatches(front: seq<Entry>, e: Entry, r: seq<Repository>)
    requires Ordered(front) && Bare(r) == Primaries(front) && DistinctNames(Bare(r))
    requires e.secondary <==> HasName(Bare(r), e.name)
    requires forall i :: 0 <= i < |r| ==> SecondaryMatches(front, r[i])
    ensures forall i :: 0 <= i < |AddEntry(r, e)| ==> SecondaryMatches(front + [e], AddEntry(r, e)[i])
  {
    var r', at := AddEntry(r, e), IndexOfName(r, e.name);
    NoIndexNoName(r, e.name);
    forall i | 0 <= i < |r'|
      ensures SecondaryMatches(front + [e], r'[i])
    {
      if i == at && at < |r| {
        OwnEntryMatches(front, e, r'[i]);
      } else if i < |r| {
        assert at < |r| ==> Bare(r)[i].name != Bare(r)[at].name;
        OtherEntryMatches(front, e, r'[i]);
      } else {
        NewPrimaryHasNone(front, e.name);
        OtherEntryMatches(front, e, r'[i]);
      }
    }
  }

  lemma NewPrimaryHasNone(front: seq<Entry>, name: Name)
    requires Ordered(front) && !HasName(Primaries(front), name)
    ensures forall j :: !IsSecondaryOf(front, name, j)
  {
    forall j | IsSecondaryOf(front, name, j)
      ensures false
    {
      SecondaryHasPrimary(front, j);
    }
  }

  /** What createRepository persists and keeps: the new entry is the last one and carries the pointer; nothing is
      persisted when the name is taken or the array is full. */
  lemma CreatedEntry(local: seq<Repository>, entries: seq<Entry>, max: nat, name: Name, pointer: nat)
    requires Ordered(entries) && Bare(local) <= Primaries(entries)
    ensures var (l, es, created) := Created(local, entries, max, name, pointer);
      && (created <==> !HasName(Primaries(entries), name) && |entries| + 1 < max)
      && es == (if created then entries + [Entry(name, false, pointer)] else entries)
      && Bare(l) == (if created then Primaries(entries) + [Primary(name, pointer)] else Primaries(entries))
  {
    CreateStep(local, entries, max, name, pointer);
    var e := Entry(name, false, pointer);
    AppendEntry(entries, e);
  }

  /** What createSecondaryRepository persists and keeps: i is the first repository with the pointer of the handle, or
      the length if there is none. If it has no secondary yet it gets the new one; no other repository changes. */
  lemma SecondaryCreatedEntry(local: seq<Repository>, entries: seq<Entry>, rpHandle: nat, pointer: nat, i: nat)
    requires i <= |local| && forall k :: 0 <= k < i ==> local[k].pointer != rpHandle
    requires i < |local| ==> local[i].pointer == rpHandle
    ensures var (l, es, created) := SecondaryCreated(local, entries, rpHandle, pointer);
      && (created <==> i < |local| && local[i].secondary == None)
      && es == (if created then entries + [Entry(local[i].name, true, pointer)] else entries)
      && |l| == |local| && (forall k :: 0 <= k < |l| && k != i ==> l[k] == local[k])
      && (i < |l| ==> l[i] == if created then Repository(local[i].name, rpHandle, Some(pointer)) else local[i])
  {
    var at := IndexOfPointer(local, rpHandle);
    assert at <= i;
  }

  /** Catching up appends what is new, with the right secondaries, and changes nothing that was there: a secondary made
      through another handle stays unknown. */
  lemma SyncAppendsOnly(local: seq<Repository>, entries: seq<Entry>)
    requires Ordered(entries) && Bare(local) <= Primaries(entries)
    ensures var l := SyncedForCreate(local, Rebuild(entries));
      && l == SyncedForOpen(local, Rebuild(entries)) && local <= l && |l| == |Rebuild(entries)|
      && forall i :: |local| <= i < |l| ==> SecondaryMatches(entries, l[i])
  {
    RebuildFindsPrimaries(entries);
    RebuildMatchesSecondaries(entries);
  }

  /** Over any interleaving of the operations of any number of handles on a new object: every local list is a prefix
      of the primaries in persisted order; no two primaries have the same name; and a list that a handle has just
      created or opened with equals, secondaries aside, what a fresh open would build. */
  lemma HandlesStayCoherent(max: nat, handles: nat, actions: seq<Action>)
    requires Legal(New(max, handles), actions)
    ensures var w := Run(New(max, handles), actions);
      && (forall h :: 0 <= h < handles ==> Bare(w.locals[h]) <= Primaries(w.entries))
      && DistinctNames(Primaries(w.entries))
      && Bare(Rebuild(w.entries)) == Primaries(w.entries)
      && (forall a: Action :: a.h < handles && !a.CreateSecondary? ==>
            Bare(Next(w, a).locals[a.h]) == Bare(Rebuild(Next(w, a).entries)))
  {
    var w0 := New(max, handles);
    RunInv(w0, actions);
    var w := Run(w0, actions);
    NamesAreDistinct(w.entries);
    RebuildFindsPrimaries(w.entries);
    forall a: Action | a.h < handles && !a.CreateSecondary?
      ensures Bare(Next(w, a).locals[a.h]) == Bare(Rebuild(Next(w, a).entries))
    {
      StepInv(w, a);
      RebuildFindsPrimaries(Next(w, a).entries);
    }
  }

  ghost predicate DistinctNames(ps: seq<Primary>) {
    forall i, j :: 0 <= i < j < |ps| ==> ps[i].name != ps[j].name
  }

  lemma AppendDistinct(ps: seq<Primary>, p: Primary)
    requires DistinctNames(ps) && !HasName(ps, p.name)
    ensures DistinctNames(ps + [p])
  {
  }

  lemma {:induction false} NamesAreDistinct(entries: seq<Entry>)
    requires Ordered(entries)
    ensures DistinctNames(Primaries(entries))
  {
    if entries != [] {
      var n := |entries| - 1;
      NamesAreDistinct(entries[..n]);
      if !entries[n].secondary {
        AppendDistinct(Primaries(entries[..n]), Primary(entries[n].name, entries[n].pointer));
      }
    }
  }

  /** What makes createSecondaryRepository append an entry, as its caller can see it: the handle knows the repository
      and knows no secondary of it. */
  predicate MakesSecondary(local: seq<Repository>, rpHandle: nat) {
    var i := IndexOfPointer(local, rpHandle);
    i < |local| && local[i].secondary == None
  }

  predicate WithinCapacity(w: World) {
    |w.entries| + 1 <= w.max
  }

  /** The capacity of the pointer array is checked by createRepository but not by createSecondaryRepository: an
      operation overruns a directory that is within its capacity exactly when the array is full and the operation
      makes a secondary. */
  lemma CapacityIsOverrunIff(w: World, a: Action)
    requires a.h < |w.locals| && WithinCapacity(w)
    ensures !WithinCapacity(Next(w, a)) <==>
      |w.entries| + 1 == w.max && a.CreateSecondary? && MakesSecondary(w.locals[a.h], a.rpHandle)
  {
  }

  /** A run overruns the array at some step: it makes a secondary on a full array. */
  ghost predicate SecondaryOnFull(w: World, actions: seq<Action>)
    requires Legal(w, actions)
    decreases |actions|
  {
    actions != [] &&
    (|| (&& |w.entries| + 1 == w.max
         && actions[0].CreateSecondary?
         && MakesSecondary(w.locals[actions[0].h], actions[0].rpHandle))
     || SecondaryOnFull(Next(w, actions[0]), actions[1..]))
  }

  lemma EntriesGrow(w: World, a: Action)
    requires a.h < |w.locals|
    ensures w.entries <= Next(w, a).entries && Next(w, a).max == w.max
  {
  }

  lemma {:induction false} OverrunStays(w: World, actions: seq<Action>)
    requires Legal(w, actions) && !WithinCapacity(w)
    ensures !WithinCapacity(Run(w, actions)) && !SecondaryOnFull(w, actions)
    decreases |actions|
  {
    if actions != [] {
      EntriesGrow(w, actions[0]);
      OverrunStays(Next(w, actions[0]), actions[1..]);
    }
  }

  /** Over whole runs: a directory ends beyond its capacity exactly when, somewhere in the run, a secondary was made
      on a full array. */
  lemma {:induction false} RunOverrunsIff(w: World, actions: seq<Action>)
    requires Legal(w, actions) && WithinCapacity(w)
    ensures !WithinCapacity(Run(w, actions)) <==> SecondaryOnFull(w, actions)
    decreases |actions|
  {
    if actions != [] {
      var w' := Next(w, actions[0]);
      CapacityIsOverrunIff(w, actions[0]);
      EntriesGrow(w, actions[0]);
      if WithinCapacity(w') {
        RunOverrunsIff(w', actions[1..]);
      } else {
        OverrunStays(w', actions[1..]);
      }
    }
  }

  /** Some run of the handles on a new object overruns the array. */
  ghost predicate CanOverrun(max: nat, handles: nat) {
    exists actions :: Legal(New(max, handles), actions) && !WithinCapacity(Run(New(max, handles), actions))
  }

  /** The array can be overrun as soon as it has a slot for a repository at all and there is a handle; so both
      capacities that occur, MAX_REPOSITORY_NUMBER and MAX_REPOSITORY_NUMBER_EXT, can be overrun. */
  lemma EveryCapacityCanBeOverrun(max: nat, handles: nat)
    requires max >= 1
    ensures CanOverrun(max, handles) <==> max >= 2 && handles >= 1
  {
    if max >= 2 && handles >= 1 {
      var actions := OverrunningRun(max, handles);
    }
    if CanOverrun(max, handles) {
      var actions :| Legal(New(max, handles), actions) && !WithinCapacity(Run(New(max, handles), actions));
      assert actions != [];
      if max == 1 {
        NothingFitsIntoOne(New(max, handles), actions);
      }
    }
  }

  lemma {:induction false} NothingFitsIntoOne(w: World, actions: seq<Action>)
    requires Legal(w, actions) && w.max == 1 && w.entries == [] && forall h :: 0 <= h < |w.locals| ==> w.locals[h] == []
    ensures WithinCapacity(Run(w, actions))
    decreases |actions|
  {
    if actions != [] {
      NothingFitsIntoOne(Next(w, actions[0]), actions[1..]);
    }
  }

  /** A name of the given length. */
  function NameOf(n: nat): (name: Name)
    ensures |name| == n
  {
    if n == 0 then "" else ['A'] + NameOf(n - 1)
  }

  /** After k creations by handle 0: k primaries with names of length at most k, and no secondary. */
  ghost predicate Filled(w: World, k: nat, max: nat, handles: nat) {
    && handles >= 1 && |w.locals| == handles && w.max == max && Inv(w)
    && |w.entries| == |w.locals[0]| == |Primaries(w.entries)| == k
    && (forall i :: 0 <= i < k ==> |w.locals[0][i].name| <= k && w.locals[0][i].secondary == None)
  }

  lemma FillOneMore(w: World, k: nat, max: nat, handles: nat)
    requires Filled(w, k, max, handles) && k + 1 < max
    ensures Filled(Next(w, Create(0, NameOf(k + 1), k)), k + 1, max, handles)
  {
    var a, local := Create(0, NameOf(k + 1), k), w.locals[0];
    StepInv(w, a);
    RebuildFindsPrimaries(w.entries);
    assert SyncedForCreate(local, Rebuild(w.entries)) == local;
    assert IndexOfName(local, NameOf(k + 1)) == |local|;
    var e := Entry(NameOf(k + 1), false, k);
    AppendEntry(w.entries, e);
    RebuildFindsPrimaries(w.entries + [e]);
    var l := local + [Repository(NameOf(k + 1), k, None)];
    assert SyncedForOpen(l, Rebuild(w.entries + [e])) == l;
  }

  lemma {:induction false} RunOneMore(w: World, actions: seq<Action>, a: Action)
    requires Legal(w, actions) && a.h < |w.locals|
    ensures Legal(w, actions + [a]) && Run(w, actions + [a]) == Next(Run(w, actions), a)
    decreases |actions|
  {
    if actions == [] {
      assert [a][1..] == [];
    } else {
      assert (actions + [a])[1..] == actions[1..] + [a];
      RunOneMore(Next(w, actions[0]), actions[1..], a);
    }
  }

  lemma {:induction false} FillingRun(k: nat, max: nat, handles: nat) returns (actions: seq<Action>)
    requires handles >= 1 && k + 1 <= max
    ensures Legal(New(max, handles), actions) && Filled(Run(New(max, handles), actions), k, max, handles)
    decreases k
  {
    if k == 0 {
      actions := [];
    } else {
      var front := FillingRun(k - 1, max, handles);
      var a := Create(0, NameOf(k), k - 1);
      FillOneMore(Run(New(max, handles), front), k - 1, max, handles);
      RunOneMore(New(max, handles), front, a);
      actions := front + [a];
    }
  }

  /** Fill the array with primaries, then make a secondary of the first. */
  lemma OverrunningRun(max: nat, handles: nat) returns (actions: seq<Action>)
    requires max >= 2 && handles >= 1
    ensures Legal(New(max, handles), actions) && !WithinCapacity(Run(New(max, handles), actions))
  {
    var front := FillingRun(max - 1, max, handles);
    var w := Run(New(max, handles), front);
    var a := CreateSecondary(0, w.locals[0][0].pointer, max);
    RunOneMore(New(max, handles), front, a);
    actions := front + [a];
    assert MakesSecondary(w.locals[0], a.rpHandle);
    CapacityIsOverrunIff(w, a);
  }

  /** Name and presence of a secondary: all of a local list that does not depend on pointers. */
  function Shape(local: seq<Repository>): (s: seq<(Name, bool)>)
    ensures |s| == |local|
    ensures forall i :: 0 <= i < |s| ==> s[i] == (local[i].name, local[i].secondary.Some?)
  {
    if local == [] then [] else [(local[0].name, local[0].secondary.Some?)] + Shape(local[1..])
  }

  lemma {:induction false} IndexDependsOnShape(a: seq<Repository>, b: seq<Repository>, name: Name)
    requires Shape(a) == Shape(b)
    ensures IndexOfName(a, name) == IndexOfName(b, name)
  {
    if a != [] {
      assert Shape(a)[0] == Shape(b)[0];
      assert Shape(a[1..]) == Shape(a)[1..] && Shape(b[1..]) == Shape(b)[1..];
      IndexDependsOnShape(a[1..], b[1..], name);
    }
  }

  lemma AddEntryKeepsShape(a: seq<Repository>, b: seq<Repository>, e: Entry, pointer: nat)
    requires Shape(a) == Shape(b)
    ensures Shape(AddEntry(a, e)) == Shape(AddEntry(b, e.(pointer := pointer)))
  {
    IndexDependsOnShape(a, b, e.name);
    assert |Shape(a)| == |Shape(b)|;
    var i := IndexOfName(a, e.name);
    if i < |a| {
      ShapeOfUpdate(a, i, Some(e.pointer));
      ShapeOfUpdate(b, i, Some(pointer));
    } else {
      ShapeOfAppend(a, Repository(e.name, e.pointer, None));
      ShapeOfAppend(b, Repository(e.name, pointer, None));
    }
  }

  lemma ShapeOfUpdate(a: seq<Repository>, i: nat, secondary: Option<nat>)
    requires i < |a|
    ensures Shape(a[i := a[i].(secondary := secondary)]) == Shape(a)[i := (Shape(a)[i].0, secondary.Some?)]
  {
  }

  lemma ShapeOfAppend(a: seq<Repository>, r: Repository)
    ensures Shape(a + [r]) == Shape(a) + [(r.name, r.secondary.Some?)]
  {
  }

  /** An open of a copy builds the same list as an open of the original, on the copies. */
  lemma {:induction false} CopyRebuildsTheSame(entries: seq<Entry>, pointers: seq<nat>)
    requires |pointers| == |entries|
    ensures Shape(Rebuild(Copied(entries, pointers))) == Shape(Rebuild(entries))
    ensures |Copied(entries, pointers)| == |entries|
  {
    if entries != [] {
      var n := |entries| - 1;
      CopyRebuildsTheSame(entries[..n], pointers[..n]);
      var c, e := Copied(entries[..n], pointers[..n]), entries[n];
      var a, b := Rebuild(entries[..n]), Rebuild(c);
      assert (c + [e.(pointer := pointers[n])])[..n] == c;
      AddEntryKeepsShape(a, b, e, pointers[n]);
    }
  }
}
