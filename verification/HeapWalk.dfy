/** The heap of one arena as gdb.python/zcmd2.py sees it, and the walk of print_mstats along its fastbins and bins. */
module HeapWalk {
  import opened Basics
  import opened ChunkCodec
  import MallocBins

  const NFASTBINS: nat := 10
  const NBINS: nat := 128

  /** Offsets in struct malloc_state; the mutex is the four bytes at offset 0. */
  const FASTBINS: int := 0x8

  function TopOffset(w: nat): int {
    if w == 8 then 0x58 else 0x30
  }

  function LastRemainderOffset(w: nat): int {
    TopOffset(w) + w
  }

  function BinsOffset(w: nat): int {
    if w == 8 then 0x68 else 0x38
  }

  function NextOffset(w: nat): int {
    if w == 8 then 0x868 else 0x440
  }

  function MaxSystemMemOffset(w: nat): int {
    NextOffset(w) + 2 * w
  }

  function ArenaSize(w: nat): nat {
    if w == 8 then 0x880 else 0x44c
  }

  /** The fields of malloc_state follow one another: mutex and flags, the fastbins, top, last_remainder, the two words
      of each of 127 bins, four ints of binmap, next, system_mem and max_system_mem. */
  lemma ArenaLayout(w: nat)
    requires w == 4 || w == 8
    ensures FASTBINS == 4 + 4 && TopOffset(w) == FASTBINS + 10 * w
    ensures LastRemainderOffset(w) == TopOffset(w) + w && BinsOffset(w) == LastRemainderOffset(w) + w
    ensures NextOffset(w) == BinsOffset(w) + 127 * 2 * w + 4 * 4
    ensures MaxSystemMemOffset(w) == NextOffset(w) + 2 * w && ArenaSize(w) == MaxSystemMemOffset(w) + w
    ensures forall arena, i :: BinAt(arena, i, w) + 2 * w == arena + BinsOffset(w) + 2 * (i - 1) * w
  {
  }

  /** A word of memory, 0 if it cannot be read. */
  function Field(m: Memory, w: nat, a: int): int {
    if Mapped(m, a, w) then Word(m, a, w) else 0
  }

  function SizeAt(m: Memory, w: nat, a: int): int {
    Chunksize(Field(m, w, a + w))
  }

  function Fd(m: Memory, w: nat, a: int): int {
    Field(m, w, a + 2 * w)
  }

  function FastbinHead(m: Memory, w: nat, arena: int, i: nat): int {
    Field(m, w, arena + FASTBINS + (if w == 8 then 8 * i else 4 * i))
  }

  /** bin_at(m, i): where a chunk would start whose fd is the first word of bin i. */
  function BinAt(arena: int, i: int, w: nat): int {
    if w == 8 then arena + BinsOffset(w) + 16 * (i - 1) - 0x10
    else arena + BinsOffset(w) + 8 * (i - 1) - 0x8
  }

  /** What there is in a heap: its chunks in address order without top, and the members of its lists; bins[i] is bin
      i + 1. */
  datatype Layout = Layout(base: int, chunks: seq<int>, top: int, fast: seq<seq<int>>, bins: seq<seq<int>>)

  /** The chunks tile the memory from `a` to top. */
  predicate Tiles(m: Memory, w: nat, a: int, chunks: seq<int>, top: int)
    decreases |chunks|
  {
    if chunks == [] then a == top && HeaderReadable(m, w, a)
    else
      && chunks[0] == a && HeaderReadable(m, w, a) && SizeAt(m, w, a) > 0
      && Tiles(m, w, a + SizeAt(m, w, a), chunks[1..], top)
  }

  /** From p on the fd links go through `list` and end with null. */
  predicate FastList(m: Memory, w: nat, p: int, list: seq<int>)
    decreases |list|
  {
    if list == [] then p == 0
    else list[0] == p && Readable(m, w, p) && FastList(m, w, Fd(m, w, p), list[1..])
  }

  /** From p on the fd links go through `list` and come back to the bin header b. */
  predicate BinList(m: Memory, w: nat, b: int, p: int, list: seq<int>)
    decreases |list|
  {
    if list == [] then p == b
    else list[0] == p != b && Readable(m, w, p) && BinList(m, w, b, Fd(m, w, p), list[1..])
  }

  /** A bin is a circle of fd links from its header through its members. */
  predicate Bin(m: Memory, w: nat, b: int, list: seq<int>) {
    Readable(m, w, b) && BinList(m, w, b, Fd(m, w, b), list)
  }

  function Flat(lists: seq<seq<int>>): seq<int> {
    if lists == [] then [] else lists[0] + Flat(lists[1..])
  }

  function FreeChunks(l: Layout): seq<int> {
    Flat(l.fast) + Flat(l.bins)
  }

  /** Every fastbin and every bin is a proper list of its members. */
  ghost predicate Linked(m: Memory, w: nat, arena: int, l: Layout) {
    && |l.fast| == NFASTBINS && |l.bins| == NBINS - 1
    && (forall i :: 0 <= i < NFASTBINS ==> FastList(m, w, FastbinHead(m, w, arena, i), l.fast[i]))
    && (forall i :: 0 <= i < NBINS - 1 ==> Bin(m, w, BinAt(arena, i + 1, w), l.bins[i]))
  }

  /** A memory that holds a heap of the given layout: the chunks tile it, the lists are linked properly, and every
      list member is one of the chunks and is on one list once. */
  ghost predicate HeapLike(m: Memory, w: nat, arena: int, l: Layout) {
    && (w == 4 || w == 8)
    && Tiles(m, w, l.base, l.chunks, l.top)
    && Field(m, w, arena + TopOffset(w)) == l.top
    && Linked(m, w, arena, l)
    && NoDuplicates(FreeChunks(l))
    && (forall a :: a in FreeChunks(l) ==> a in l.chunks)
  }

  /** Memory without the mutex of the arena. */
  function Unlocked(m: Memory, arena: int): Memory {
    map a | a in m && !(arena <= a < arena + 4) :: m[a]
  }

  /** A debuggee with such a heap and a malloc_state that can be read, whatever its mutex says. */
  ghost predicate WellFormed(m: Memory, w: nat, arena: int, l: Layout) {
    Mapped(m, arena, ArenaSize(w)) && HeapLike(Unlocked(m, arena), w, arena, l)
  }

  // ----- reading through memory that is locked -----

  lemma StillMapped(m: Memory, arena: int, a: int, n: nat)
    requires Mapped(Unlocked(m, arena), a, n)
    ensures Mapped(m, a, n)
  {
    forall i | a <= i < a + n
      ensures i in m
    {
      assert i in Unlocked(m, arena);
    }
  }

  lemma ReadsAgree(m: Memory, arena: int, w: nat, a: int)
    requires Mapped(Unlocked(m, arena), a, w)
    ensures Mapped(m, a, w) && Field(m, w, a) == Field(Unlocked(m, arena), w, a)
  {
    StillMapped(m, arena, a, w);
    var u := Unlocked(m, arena);
    assert forall j :: a <= j < a + w ==> j in u && u[j] == m[j];
    assert Bytes(m, a, w) == Bytes(u, a, w);
  }

  /** A word off the mutex is the same with and without it. */
  lemma FieldUnaffected(m: Memory, arena: int, w: nat, a: int)
    requires a + w <= arena || arena + 4 <= a
    ensures Field(Unlocked(m, arena), w, a) == Field(m, w, a)
  {
    var u := Unlocked(m, arena);
    assert forall i :: a <= i < a + w ==> (i in u <==> i in m);
    if Mapped(m, a, w) {
      assert Mapped(u, a, w);
      ReadsAgree(m, arena, w, a);
    } else if Mapped(u, a, w) {
      StillMapped(m, arena, a, w);
    }
  }

  lemma HeaderReadsAgree(m: Memory, arena: int, w: nat, a: int)
    requires HeaderReadable(Unlocked(m, arena), w, a)
    ensures HeaderReadable(m, w, a)
    ensures Chunksize(ReadHeader(m, w, a).value.size) == SizeAt(Unlocked(m, arena), w, a)
  {
    StillMapped(m, arena, a, 2 * w);
    ReadsAgree(m, arena, w, a + w);
  }

  /** A chunk that can be read without the mutex reads the same with it. */
  lemma ChunkReadsAgree(m: Memory, arena: int, w: nat, a: int)
    requires Readable(Unlocked(m, arena), w, a)
    ensures Readable(m, w, a)
    ensures ReadChunk(m, w, a).value.address == a
    ensures Chunksize(ReadChunk(m, w, a).value.size) == SizeAt(Unlocked(m, arena), w, a)
    ensures ReadChunk(m, w, a).value.fd == Fd(Unlocked(m, arena), w, a)
  {
    StillMapped(m, arena, a, 6 * w);
    ChunkFields(m, w, a);
    ChunkFields(Unlocked(m, arena), w, a);
    ReadsAgree(m, arena, w, a + w);
    ReadsAgree(m, arena, w, a + 2 * w);
  }

  // ----- the sums -----

  function Sum(m: Memory, w: nat, s: seq<int>): int {
    if s == [] then 0 else SizeAt(m, w, s[0]) + Sum(m, w, s[1..])
  }

  function SumLists(m: Memory, w: nat, lists: seq<seq<int>>): int {
    if lists == [] then 0 else Sum(m, w, lists[0]) + SumLists(m, w, lists[1..])
  }

  function CountLists(lists: seq<seq<int>>): nat {
    if lists == [] then 0 else |lists[0]| + CountLists(lists[1..])
  }

  /** Total size of the members of s that are not in `out`. */
  function SumWithout(m: Memory, w: nat, s: seq<int>, out: seq<int>): int {
    if s == [] then 0 else (if s[0] in out then 0 else SizeAt(m, w, s[0])) + SumWithout(m, w, s[1..], out)
  }

  lemma {:induction false} SumAppend(m: Memory, w: nat, s: seq<int>, t: seq<int>)
    ensures Sum(m, w, s + t) == Sum(m, w, s) + Sum(m, w, t)
  {
    if s == [] {
      assert s + t == t;
    } else {
      assert (s + t)[1..] == s[1..] + t;
      SumAppend(m, w, s[1..], t);
    }
  }

  lemma {:induction false} SumFlat(m: Memory, w: nat, lists: seq<seq<int>>)
    ensures Sum(m, w, Flat(lists)) == SumLists(m, w, lists)
    ensures |Flat(lists)| == CountLists(lists)
  {
    if lists != [] {
      SumAppend(m, w, lists[0], Flat(lists[1..]));
      SumFlat(m, w, lists[1..]);
    }
  }

  lemma {:induction false} SumListsExtend(m: Memory, w: nat, lists: seq<seq<int>>, i: nat)
    requires i < |lists|
    ensures SumLists(m, w, lists[..i + 1]) == SumLists(m, w, lists[..i]) + Sum(m, w, lists[i])
    ensures CountLists(lists[..i + 1]) == CountLists(lists[..i]) + |lists[i]|
  {
    if i == 0 {
      assert lists[..1] == [lists[0]] && [lists[0]][1..] == [] && lists[..0] == [];
    } else {
      SumListsExtend(m, w, lists[1..], i - 1);
      assert lists[..i + 1][1..] == lists[1..][..i] && lists[..i][1..] == lists[1..][..i - 1];
    }
  }

  lemma {:induction false} SumWithoutNone(m: Memory, w: nat, s: seq<int>)
    ensures SumWithout(m, w, s, []) == Sum(m, w, s)
  {
    if s != [] {
      SumWithoutNone(m, w, s[1..]);
    }
  }

  lemma {:induction false} SumWithoutIrrelevant(m: Memory, w: nat, s: seq<int>, x: int, out: seq<int>)
    requires x !in s
    ensures SumWithout(m, w, s, [x] + out) == SumWithout(m, w, s, out)
  {
    if s != [] {
      assert s[0] in [x] + out <==> s[0] in out;
      SumWithoutIrrelevant(m, w, s[1..], x, out);
    }
  }

  lemma {:induction false} SumWithoutOneMore(m: Memory, w: nat, s: seq<int>, x: int, out: seq<int>)
    requires NoDuplicates(s) && x in s && x !in out
    ensures SumWithout(m, w, s, [x] + out) == SumWithout(m, w, s, out) - SizeAt(m, w, x)
  {
    assert s[0] in [x] + out <==> s[0] == x || s[0] in out;
    if s[0] == x {
      NoDuplicatesInTail(s);
      SumWithoutIrrelevant(m, w, s[1..], x, out);
    } else {
      SumWithoutOneMore(m, w, s[1..], x, out);
    }
  }

  /** What is not on the lists is the whole less what is. */
  lemma {:induction false} SumSplits(m: Memory, w: nat, s: seq<int>, out: seq<int>)
    requires NoDuplicates(s) && NoDuplicates(out) && forall x :: x in out ==> x in s
    ensures SumWithout(m, w, s, out) == Sum(m, w, s) - Sum(m, w, out)
  {
    if out == [] {
      SumWithoutNone(m, w, s);
    } else {
      assert out == [out[0]] + out[1..];
      NoDuplicatesInTail(out);
      SumSplits(m, w, s, out[1..]);
      SumWithoutOneMore(m, w, s, out[0], out[1..]);
    }
  }

  lemma {:induction false} TilesAscend(m: Memory, w: nat, a: int, chunks: seq<int>, top: int)
    requires Tiles(m, w, a, chunks, top)
    ensures NoDuplicates(chunks) && forall i :: 0 <= i < |chunks| ==> a <= chunks[i] < top
    ensures HeaderReadable(m, w, top) && a <= top
    ensures forall i :: 0 <= i < |chunks| ==> SizeAt(m, w, chunks[i]) > 0
    ensures Sum(m, w, chunks) == top - a
    decreases |chunks|
  {
    if chunks != [] {
      TilesAscend(m, w, a + SizeAt(m, w, a), chunks[1..], top);
      assert forall i :: 0 < i < |chunks| ==> chunks[i] == chunks[1..][i - 1];
    }
  }

  // ----- print_mstats -----

  datatype Stats = Stats(nblocks: nat, nfastblocks: nat, fastavail: int, avail: int, inUse: int, again: bool)

  method WalkFastbin(m: Memory, w: nat, arena: int, head: int, ghost list: seq<int>) returns (n: nat, total: int)
    requires FastList(Unlocked(m, arena), w, head, list)
    ensures n == |list| && total == Sum(Unlocked(m, arena), w, list)
  {
    var p := head;
    n, total := 0, 0;
    ghost var rest := list;
    ghost var u := Unlocked(m, arena);
    while p != 0
      invariant FastList(u, w, p, rest)
      invariant n + |rest| == |list| && total + Sum(u, w, rest) == Sum(u, w, list)
      decreases |rest|
    {
      ChunkReadsAgree(m, arena, w, p);
      var chunk := ReadChunk(m, w, p).value;
      n := n + 1;
      total := total + Chunksize(chunk.size);
      p := chunk.fd;
      rest := rest[1..];
    }
    assert rest == [];
  }

  method WalkBin(m: Memory, w: nat, arena: int, b: int, ghost list: seq<int>) returns (n: nat, total: int)
    requires Bin(Unlocked(m, arena), w, b, list)
    ensures n == |list| && total == Sum(Unlocked(m, arena), w, list)
  {
    n, total := 0, 0;
    ghost var rest := list;
    ghost var u := Unlocked(m, arena);
    ChunkReadsAgree(m, arena, w, b);
    var p := ReadChunk(m, w, b).value.fd;
    while p != b
      invariant BinList(u, w, b, p, rest)
      invariant n + |rest| == |list| && total + Sum(u, w, rest) == Sum(u, w, list)
      decreases |rest|
    {
      ChunkReadsAgree(m, arena, w, p);
      var chunk := ReadChunk(m, w, p).value;
      n := n + 1;
      total := total + Chunksize(chunk.size);
      p := chunk.fd;
      rest := rest[1..];
    }
    assert rest == [];
  }

  method WalkFastbins(m: Memory, w: nat, arena: int, heads: seq<int>, ghost l: Layout) returns (n: nat, total: int)
    requires |heads| == NFASTBINS == |l.fast|
    requires forall i :: 0 <= i < NFASTBINS ==> FastList(Unlocked(m, arena), w, heads[i], l.fast[i])
    ensures n == CountLists(l.fast) && total == SumLists(Unlocked(m, arena), w, l.fast)
  {
    n, total := 0, 0;
    ghost var u := Unlocked(m, arena);
    var i := 0;
    while i < NFASTBINS
      invariant 0 <= i <= NFASTBINS
      invariant n == CountLists(l.fast[..i]) && total == SumLists(u, w, l.fast[..i])
    {
      var k, t := WalkFastbin(m, w, arena, heads[i], l.fast[i]);
      SumListsExtend(u, w, l.fast, i);
      n, total := n + k, total + t;
      i := i + 1;
    }
    assert l.fast[..NFASTBINS] == l.fast;
  }

  method WalkBins(m: Memory, w: nat, arena: int, ghost l: Layout) returns (n: nat, total: int)
    requires |l.bins| == NBINS - 1
    requires forall i :: 0 <= i < NBINS - 1 ==> Bin(Unlocked(m, arena), w, BinAt(arena, i + 1, w), l.bins[i])
    ensures n == CountLists(l.bins) && total == SumLists(Unlocked(m, arena), w, l.bins)
  {
    n, total := 0, 0;
    ghost var u := Unlocked(m, arena);
    var i := 1;
    while i < NBINS
      invariant 1 <= i <= NBINS
      invariant n == CountLists(l.bins[..i - 1]) && total == SumLists(u, w, l.bins[..i - 1])
    {
      assert Bin(u, w, BinAt(arena, (i - 1) + 1, w), l.bins[i - 1]);
      var k, t := WalkBin(m, w, arena, BinAt(arena, i, w), l.bins[i - 1]);
      SumListsExtend(u, w, l.bins, i - 1);
      n, total := n + k, total + t;
      i := i + 1;
    }
    assert l.bins[..NBINS - 1] == l.bins;
  }

  /** What print_mstats reports for the arena. */
  ghost function Expected(m: Memory, w: nat, arena: int, l: Layout): Stats {
    var fastavail := SumLists(m, w, l.fast);
    var avail := SizeAt(m, w, l.top) + fastavail + SumLists(m, w, l.bins);
    Stats(1 + CountLists(l.bins), CountLists(l.fast), fastavail, avail,
          Field(m, w, arena + MaxSystemMemOffset(w)) - avail,
          Field(m, w, arena + NextOffset(w)) != arena)
  }

  lemma StoreKeepsUnlocked(m: Memory, arena: int, b: seq<Byte>)
    requires |b| == 4
    ensures Unlocked(Stored(m, arena, b), arena) == Unlocked(m, arena)
    ensures Stored(m, arena, b).Keys == m.Keys
  {
  }

  lemma SecondStoreWins(m: Memory, a: int, b: seq<Byte>, c: seq<Byte>)
    requires |b| == |c|
    ensures Stored(Stored(m, a, b), a, c) == Stored(m, a, c)
  {
  }

  class Debuggee {
    var mem: Memory
    const w: nat

    constructor (mem: Memory, w: nat)
      ensures this.mem == mem && this.w == w
    {
      this.mem := mem;
      this.w := w;
    }

    /** mutex_lock, with 1, and mutex_unlock, with 0. */
    method WriteMutex(arena: int, value: int)
      requires Mapped(mem, arena, 4)
      modifies this
      ensures mem == Stored(old(mem), arena, Pack(value, 4))
    {
      mem := Stored(mem, arena, Pack(value, 4));
    }

    /** One round of the loop of print_mstats, on the main arena: the statistics are those of the lists; memory is
        left as it was but for the mutex, which ends up free whatever it was before. */
    method MallocStats(arena: int, ghost l: Layout) returns (s: Stats)
      requires WellFormed(mem, w, arena, l)
      modifies this
      ensures s == Expected(Unlocked(old(mem), arena), w, arena, l)
      ensures mem == Stored(old(mem), arena, Pack(0, 4))
    {
      var fields := ReadArena(mem, w, arena);
      WriteMutex(arena, 1);
      StoreKeepsUnlocked(old(mem), arena, Pack(1, 4));
      TopIsReadable(Unlocked(mem, arena), w, arena, l);
      s := CollectStats(mem, w, arena, fields, l);
      WriteMutex(arena, 0);
      SecondStoreWins(old(mem), arena, Pack(1, 4), Pack(0, 4));
    }

    /** print_mstats, for at most k rounds of its loop. Every round reads the main arena again, so the loop ends in its
        first round or goes on for ever: it ends exactly when the main arena is its own successor, with the totals of
        that one arena, and otherwise adds the same arena to the totals once more in every round. */
    method PrintMstats(arena: int, mmapped: int, k: nat, ghost l: Layout)
      returns (rounds: nat, ended: bool, systemB: int, inUseB: int)
      requires WellFormed(mem, w, arena, l)
      modifies this
      ensures WellFormed(mem, w, arena, l) && Unlocked(mem, arena) == Unlocked(old(mem), arena)
      ensures var u := Unlocked(old(mem), arena);
        && (ended <==> k > 0 && Field(u, w, arena + NextOffset(w)) == arena)
        && rounds == (if ended then 1 else k)
        && inUseB == mmapped + rounds * Expected(u, w, arena, l).inUse
        && systemB == mmapped + rounds * Field(u, w, arena + MaxSystemMemOffset(w))
    {
      rounds, ended, systemB, inUseB := 0, false, mmapped, mmapped;
      ghost var u := Unlocked(mem, arena);
      while rounds < k && !ended
        invariant rounds <= k && WellFormed(mem, w, arena, l) && Unlocked(mem, arena) == u
        invariant ended ==> rounds == 1 && Field(u, w, arena + NextOffset(w)) == arena
        invariant !ended && rounds > 0 ==> Field(u, w, arena + NextOffset(w)) != arena
        invariant inUseB == mmapped + rounds * Expected(u, w, arena, l).inUse
        invariant systemB == mmapped + rounds * Field(u, w, arena + MaxSystemMemOffset(w))
        decreases k - rounds, !ended
      {
        ghost var before := mem;
        var s := MallocStats(arena, l);
        MutexKeepsWellFormed(before, w, arena, l);
        OneMore(rounds, Expected(u, w, arena, l).inUse);
        OneMore(rounds, Field(u, w, arena + MaxSystemMemOffset(w)));
        systemB := systemB + (s.inUse + s.avail);
        inUseB := inUseB + s.inUse;
        rounds := rounds + 1;
        ended := !s.again;
      }
    }
  }

  lemma OneMore(n: nat, x: int)
    ensures (n + 1) * x == n * x + x
  {
  }

  lemma MutexKeepsWellFormed(m: Memory, w: nat, arena: int, l: Layout)
    requires WellFormed(m, w, arena, l)
    ensures Unlocked(Stored(m, arena, Pack(0, 4)), arena) == Unlocked(m, arena)
    ensures WellFormed(Stored(m, arena, Pack(0, 4)), w, arena, l)
  {
    StoreKeepsUnlocked(m, arena, Pack(0, 4));
    assert Mapped(Stored(m, arena, Pack(0, 4)), arena, ArenaSize(w));
  }

  /** Reads the header of a chunk for its size. */
  method SizeOfChunk(m: Memory, w: nat, arena: int, a: int) returns (size: int)
    requires HeaderReadable(Unlocked(m, arena), w, a)
    ensures size == SizeAt(Unlocked(m, arena), w, a)
  {
    HeaderReadsAgree(m, arena, w, a);
    size := Chunksize(ReadHeader(m, w, a).value.size);
  }

  /** Fastbins, then bins. */
  method WalkLists(m: Memory, w: nat, arena: int, heads: seq<int>, ghost l: Layout)
    returns (nfastblocks: int, fastavail: int, nblocks: int, binavail: int)
    requires Linked(Unlocked(m, arena), w, arena, l) && |heads| == NFASTBINS
    requires forall i :: 0 <= i < NFASTBINS ==> heads[i] == FastbinHead(Unlocked(m, arena), w, arena, i)
    ensures nfastblocks == CountLists(l.fast) && fastavail == SumLists(Unlocked(m, arena), w, l.fast)
    ensures nblocks == CountLists(l.bins) && binavail == SumLists(Unlocked(m, arena), w, l.bins)
  {
    nfastblocks, fastavail := WalkFastbins(m, w, arena, heads, l);
    nblocks, binavail := WalkBins(m, w, arena, l);
  }

  /** The walk, while the mutex is held. */
  method CollectStats(m: Memory, w: nat, arena: int, fields: Arena, ghost l: Layout) returns (s: Stats)
    requires Linked(Unlocked(m, arena), w, arena, l)
    requires IsArena(fields, Unlocked(m, arena), w, arena)
    requires fields.top == l.top && HeaderReadable(Unlocked(m, arena), w, l.top)
    ensures s == Expected(Unlocked(m, arena), w, arena, l)
  {
    var avail := SizeOfChunk(m, w, arena, fields.top);
    var nfastblocks, fastavail, nblocks, binavail := WalkLists(m, w, arena, fields.fastbins, l);
    avail := avail + fastavail + binavail;
    s := Stats(1 + nblocks, nfastblocks, fastavail, avail, fields.maxSystemMem - avail, fields.next != arena);
  }

  lemma TopIsReadable(m: Memory, w: nat, arena: int, l: Layout)
    requires HeapLike(m, w, arena, l)
    ensures HeaderReadable(m, w, l.top)
  {
    TilesAscend(m, w, l.base, l.chunks, l.top);
  }

  /** The fields of malloc_state that the walk uses; they are read before the mutex is taken. */
  datatype Arena = Arena(fastbins: seq<int>, top: int, lastRemainder: int, next: int, maxSystemMem: int)

  predicate IsArena(a: Arena, m: Memory, w: nat, arena: int) {
    && |a.fastbins| == NFASTBINS
    && (forall i :: 0 <= i < NFASTBINS ==> a.fastbins[i] == FastbinHead(m, w, arena, i))
    && a.top == Field(m, w, arena + TopOffset(w))
    && a.lastRemainder == Field(m, w, arena + LastRemainderOffset(w))
    && a.next == Field(m, w, arena + NextOffset(w))
    && a.maxSystemMem == Field(m, w, arena + MaxSystemMemOffset(w))
  }

  function ReadArena(m: Memory, w: nat, arena: int): (a: Arena)
    requires Mapped(m, arena, ArenaSize(w)) && (w == 4 || w == 8)
    ensures IsArena(a, Unlocked(m, arena), w, arena)
  {
    FieldsAgree(m, w, arena);
    Arena(seq(NFASTBINS, i requires 0 <= i < NFASTBINS => FastbinHead(m, w, arena, i)),
          Field(m, w, arena + TopOffset(w)), Field(m, w, arena + LastRemainderOffset(w)),
          Field(m, w, arena + NextOffset(w)), Field(m, w, arena + MaxSystemMemOffset(w)))
  }

  lemma FieldsAgree(m: Memory, w: nat, arena: int)
    requires w == 4 || w == 8
    ensures var u := Unlocked(m, arena);
      && (forall i :: 0 <= i < NFASTBINS ==> FastbinHead(m, w, arena, i) == FastbinHead(u, w, arena, i))
      && Field(m, w, arena + TopOffset(w)) == Field(u, w, arena + TopOffset(w))
      && Field(m, w, arena + LastRemainderOffset(w)) == Field(u, w, arena + LastRemainderOffset(w))
      && Field(m, w, arena + NextOffset(w)) == Field(u, w, arena + NextOffset(w))
      && Field(m, w, arena + MaxSystemMemOffset(w)) == Field(u, w, arena + MaxSystemMemOffset(w))
  {
    forall i | 0 <= i < NFASTBINS
      ensures FastbinHead(m, w, arena, i) == FastbinHead(Unlocked(m, arena), w, arena, i)
    {
      FieldUnaffected(m, arena, w, arena + FASTBINS + (if w == 8 then 8 * i else 4 * i));
    }
    FieldUnaffected(m, arena, w, arena + TopOffset(w));
    FieldUnaffected(m, arena, w, arena + LastRemainderOffset(w));
    FieldUnaffected(m, arena, w, arena + NextOffset(w));
    FieldUnaffected(m, arena, w, arena + MaxSystemMemOffset(w));
  }

  /** The list view and the physical view agree: when max_system_mem is the size of the tiled memory, the in-use bytes
      print_mstats reports are the sizes of the chunks that are neither top nor on any list. */
  lemma StatsAgreeWithTiling(m: Memory, w: nat, arena: int, l: Layout)
    requires HeapLike(m, w, arena, l)
    requires Field(m, w, arena + MaxSystemMemOffset(w)) == l.top + SizeAt(m, w, l.top) - l.base
    ensures Expected(m, w, arena, l).inUse == SumWithout(m, w, l.chunks, FreeChunks(l))
  {
    TilesAscend(m, w, l.base, l.chunks, l.top);
    SumSplits(m, w, l.chunks, FreeChunks(l));
    SumAppend(m, w, Flat(l.fast), Flat(l.bins));
    SumFlat(m, w, l.fast);
    SumFlat(m, w, l.bins);
  }

  /** The block counts are those of the chunks on lists, and top is counted with the bins. */
  lemma StatsCountFreeChunks(m: Memory, w: nat, arena: int, l: Layout)
    ensures Expected(m, w, arena, l).nfastblocks == |Flat(l.fast)|
    ensures Expected(m, w, arena, l).nblocks == 1 + |Flat(l.bins)|
    ensures Expected(m, w, arena, l).fastavail == Sum(m, w, Flat(l.fast))
    ensures Expected(m, w, arena, l).avail == SizeAt(m, w, l.top) + Sum(m, w, FreeChunks(l))
  {
    SumFlat(m, w, l.fast);
    SumFlat(m, w, l.bins);
    SumAppend(m, w, Flat(l.fast), Flat(l.bins));
  }
}
