/** Heaps that meet the requirements of HeapWalk and HeapListing, for both word sizes: one free chunk of eight words on
    the unsorted bin, and top. The next field of the arena can be anything, the arena itself or another one. */
module SampleHeap {
  import opened ChunkCodec
  import opened HeapListing
  import opened HeapWalk

  const ARENA: int := 4096

  function Base(w: nat): int {
    ARENA + ArenaSize(w)
  }

  function TopOf(w: nat): int {
    Base(w) + (if w == 8 then 64 else 32)
  }

  /** Number of words from the arena to the sixth of top. */
  function WordCount(w: nat): nat {
    if w == 8 then 286 else 289
  }

  /** The word at an offset from the arena. */
  function WordAt(off: int, w: nat, next: int): int {
    if off == TopOffset(w) then TopOf(w)
    else if off == BinsOffset(w) then Base(w)
    else if BinsOffset(w) < off < BinsOffset(w) + (if w == 8 then 2032 else 1016) then
      BinAt(ARENA, (off - BinsOffset(w)) / (if w == 8 then 16 else 8) + 1, w)
    else if off == NextOffset(w) then next
    else if off == MaxSystemMemOffset(w) then TopOf(w) - Base(w)
    else if off == ArenaSize(w) + w then TopOf(w) - Base(w) + 1
    else if off == ArenaSize(w) + 2 * w || off == ArenaSize(w) + 3 * w then BinAt(ARENA, 1, w)
    else 0
  }

  function Slot(j: int, w: nat): int {
    if w == 8 then 8 * j else 4 * j
  }

  function SampleWords(w: nat, next: int): (ws: seq<int>)
    ensures |ws| == WordCount(w)
  {
    seq(WordCount(w), j => WordAt(Slot(j, w), w, next))
  }

  /** Memory that holds the given bytes from `a` on. */
  function Holding(a: int, b: seq<Byte>): Memory {
    map i | a <= i < a + |b| :: ByteAt(a, b, i)
  }

  function ByteAt(a: int, b: seq<Byte>, i: int): Byte {
    if a <= i < a + |b| then b[i - a] else 0
  }

  lemma HoldingBytes(a: int, b: seq<Byte>)
    ensures Mapped(Holding(a, b), a, |b|) && Bytes(Holding(a, b), a, |b|) == b
  {
  }

  /** Packed words can be read one by one. */
  lemma HoldingWords(a: int, ws: seq<int>, w: nat, j: nat)
    requires j < |ws| && forall i :: 0 <= i < |ws| ==> WordSized(ws[i], w)
    ensures Field(Holding(a, PackWords(ws, w)), w, a + j * w) == ws[j]
  {
    var b := PackWords(ws, w);
    HoldingBytes(a, b);
    ReadPackedWords(Holding(a, b), a, w, ws);
    WordInside(Holding(a, b), a, w, |ws|, j);
  }

  lemma SmallWord(v: int, w: nat)
    requires 0 <= v < 0x1_0000 && w >= 2
    ensures WordSized(v, w)
  {
    var p := Power256(w - 2);
    assert Power256(w) == 256 * (256 * p) && p >= 1;
  }

  function Sample(w: nat, next: int): Memory {
    Holding(ARENA, PackWords(SampleWords(w, next), w))
  }

  predicate Parameters(w: nat, next: int) {
    (w == 4 || w == 8) && 0 <= next < 0x1_0000
  }

  /** All that the proof needs to know about the memory without the mutex. */
  ghost predicate IsSample(u: Memory, w: nat, next: int) {
    && (w == 4 || w == 8)
    && (forall j :: 2 <= j < WordCount(w) ==> Field(u, w, ARENA + Slot(j, w)) == WordAt(Slot(j, w), w, next))
    && (w == 8 ==> Field(u, w, ARENA + Slot(1, w)) == WordAt(Slot(1, w), w, next))
    && (forall a :: ARENA + 8 <= a <= TopOf(w) ==> Readable(u, w, a))
  }

  lemma SlotIsMultiple(j: nat, w: nat)
    requires w == 4 || w == 8
    ensures j * w == Slot(j, w)
  {
  }

  lemma SampleWord(w: nat, next: int, j: nat)
    requires Parameters(w, next) && j < WordCount(w)
    ensures Field(Sample(w, next), w, ARENA + Slot(j, w)) == WordAt(Slot(j, w), w, next)
  {
    var ws := SampleWords(w, next);
    forall i | 0 <= i < |ws|
      ensures WordSized(ws[i], w)
    {
      SmallWord(ws[i], w);
    }
    SlotIsMultiple(j, w);
    HoldingWords(ARENA, ws, w, j);
  }

  lemma SampleMapped(w: nat, next: int)
    requires Parameters(w, next)
    ensures Mapped(Sample(w, next), ARENA, ArenaSize(w))
    ensures forall a :: ARENA + 8 <= a <= TopOf(w) ==> Readable(Unlocked(Sample(w, next), ARENA), w, a)
  {
    HoldingBytes(ARENA, PackWords(SampleWords(w, next), w));
    var m := Sample(w, next);
    assert |PackWords(SampleWords(w, next), w)| == WordCount(w) * w == TopOf(w) + 6 * w - ARENA;
    forall a | ARENA + 8 <= a <= TopOf(w)
      ensures Readable(Unlocked(m, ARENA), w, a)
    {
      assert forall i :: a <= i < a + 6 * w ==> i in m;
    }
  }

  lemma SampleIsSample(w: nat, next: int)
    requires Parameters(w, next)
    ensures IsSample(Unlocked(Sample(w, next), ARENA), w, next)
  {
    forall j: nat | 1 <= j < WordCount(w) && (w == 8 || j >= 2)
      ensures Field(Unlocked(Sample(w, next), ARENA), w, ARENA + Slot(j, w)) == WordAt(Slot(j, w), w, next)
    {
      SampleWord(w, next, j);
      FieldUnaffected(Sample(w, next), ARENA, w, ARENA + Slot(j, w));
    }
    SampleMapped(w, next);
  }

  lemma SampleField(u: Memory, off: int, j: nat, w: nat, next: int)
    requires IsSample(u, w, next) && j < WordCount(w) && off == Slot(j, w) >= 8
    ensures Field(u, w, ARENA + off) == WordAt(off, w, next)
  {
  }

  lemma EmptyBin(m: Memory, w: nat, b: int)
    requires Readable(m, w, b) && Fd(m, w, b) == b
    ensures HeapWalk.Bin(m, w, b, [])
  {
  }

  lemma BinOfOne(m: Memory, w: nat, b: int, p: int)
    requires Readable(m, w, b) && Fd(m, w, b) == p != b && Readable(m, w, p) && Fd(m, w, p) == b
    ensures HeapWalk.Bin(m, w, b, [p])
  {
    assert [p][1..] == [];
    assert BinList(m, w, b, b, []);
  }

  function BinOffset(i: nat, w: nat): int {
    BinsOffset(w) + (if w == 8 then 16 * i else 8 * i)
  }

  lemma WordAtBin(i: nat, w: nat, next: int)
    requires (w == 4 || w == 8) && i < NBINS - 1
    ensures WordAt(BinOffset(i, w), w, next) == if i == 0 then Base(w) else BinAt(ARENA, i + 1, w)
    ensures BinAt(ARENA, i + 1, w) + 2 * w == ARENA + BinOffset(i, w)
  {
  }

  lemma SampleBinFd(u: Memory, i: nat, w: nat, next: int)
    requires IsSample(u, w, next) && i < NBINS - 1
    ensures Fd(u, w, BinAt(ARENA, i + 1, w)) == if i == 0 then Base(w) else BinAt(ARENA, i + 1, w)
  {
    WordAtBin(i, w, next);
    SampleField(u, BinOffset(i, w), (if w == 8 then 13 else 14) + 2 * i, w, next);
  }

  lemma SampleBin(u: Memory, i: nat, w: nat, next: int)
    requires IsSample(u, w, next) && i < NBINS - 1
    ensures HeapWalk.Bin(u, w, BinAt(ARENA, i + 1, w), if i == 0 then [Base(w)] else [])
  {
    var b := BinAt(ARENA, i + 1, w);
    SampleBinFd(u, i, w, next);
    if i == 0 {
      SampleField(u, ArenaSize(w) + 2 * w, if w == 8 then 274 else 277, w, next);
      BinOfOne(u, w, b, Base(w));
    } else {
      EmptyBin(u, w, b);
    }
  }

  lemma TilesOfOne(m: Memory, w: nat, a: int, top: int)
    requires Readable(m, w, a) && Readable(m, w, top) && SizeAt(m, w, a) == top - a > 0
    ensures Tiles(m, w, a, [a], top)
  {
    assert [a][1..] == [];
    assert HeaderReadable(m, w, a) && HeaderReadable(m, w, top);
    assert Tiles(m, w, top, [], top);
  }

  lemma SampleSize(u: Memory, w: nat, next: int)
    requires IsSample(u, w, next)
    ensures SizeAt(u, w, Base(w)) == TopOf(w) - Base(w) > 0
  {
    SampleField(u, ArenaSize(w) + w, if w == 8 then 273 else 276, w, next);
  }

  lemma SampleTiles(u: Memory, w: nat, next: int)
    requires IsSample(u, w, next)
    ensures Tiles(u, w, Base(w), [Base(w)], TopOf(w)) && CanList(u, w, [Base(w)])
  {
    SampleSize(u, w, next);
    TilesOfOne(u, w, Base(w), TopOf(w));
  }

  function Empties(n: nat): (r: seq<seq<int>>)
    ensures |r| == n
  {
    seq(n, _ => [])
  }

  lemma {:induction false} FlatOfEmpty(n: nat)
    ensures Flat(Empties(n)) == []
  {
    if n > 0 {
      assert Empties(n)[1..] == Empties(n - 1);
      FlatOfEmpty(n - 1);
    }
  }

  function SampleLayout(w: nat): Layout {
    Layout(Base(w), [Base(w)], TopOf(w), Empties(NFASTBINS), [[Base(w)]] + Empties(NBINS - 2))
  }

  lemma SampleFastbin(u: Memory, i: nat, w: nat, next: int)
    requires IsSample(u, w, next) && i < NFASTBINS
    ensures FastbinHead(u, w, ARENA, i) == 0
  {
    SampleField(u, FASTBINS + (if w == 8 then 8 * i else 4 * i), if w == 8 then 1 + i else 2 + i, w, next);
  }

  lemma SampleLists(u: Memory, w: nat, next: int, l: Layout)
    requires IsSample(u, w, next) && l == SampleLayout(w)
    ensures Linked(u, w, ARENA, l)
  {
    forall i: nat | i < NFASTBINS
      ensures FastList(u, w, FastbinHead(u, w, ARENA, i), l.fast[i])
    {
      SampleFastbin(u, i, w, next);
    }
    forall i: nat | i < NBINS - 1
      ensures HeapWalk.Bin(u, w, BinAt(ARENA, i + 1, w), l.bins[i])
    {
      SampleBin(u, i, w, next);
    }
  }

  lemma SampleFree(l: Layout, w: nat)
    requires l == SampleLayout(w)
    ensures Flat(l.bins) == [Base(w)] && FreeChunks(l) == [Base(w)]
  {
    FlatOfEmpty(NFASTBINS);
    FlatOfEmpty(NBINS - 2);
    assert l.bins[1..] == Empties(NBINS - 2);
  }

  lemma OneChunkBits(m: Memory, w: nat, l: Layout, a: int, top: int)
    requires l.chunks == [a] && Flat(l.bins) == [a] && a + SizeAt(m, w, a) == top && Field(m, w, top + w) == 0
    ensures BitsAgree(m, w, l)
  {
  }

  lemma SampleBits(u: Memory, w: nat, next: int, l: Layout)
    requires IsSample(u, w, next) && l == SampleLayout(w)
    ensures BitsAgree(u, w, l)
  {
    SampleSize(u, w, next);
    SampleFree(l, w);
    SampleField(u, TopOf(w) + w - ARENA, if w == 8 then 281 else 284, w, next);
    OneChunkBits(u, w, l, Base(w), TopOf(w));
  }

  lemma SampleIsHeapLike(u: Memory, w: nat, next: int, l: Layout)
    requires IsSample(u, w, next) && l == SampleLayout(w)
    ensures HeapLike(u, w, ARENA, l)
  {
    SampleTiles(u, w, next);
    SampleLists(u, w, next, l);
    SampleFree(l, w);
    SampleField(u, TopOffset(w), if w == 8 then 11 else 12, w, next);
  }

  /** The requirements of the walks can be met, with a free chunk on a list, whatever arena is next. */
  lemma SampleIsWellFormed(w: nat, next: int)
    requires Parameters(w, next)
    ensures WellFormed(Sample(w, next), w, ARENA, SampleLayout(w))
  {
    SampleMapped(w, next);
    SampleIsSample(w, next);
    SampleIsHeapLike(Unlocked(Sample(w, next), ARENA), w, next, SampleLayout(w));
  }

  /** The requirements of the listings can be met too. */
  lemma SampleCanBeListed(w: nat, next: int)
    requires Parameters(w, next)
    ensures var u := Unlocked(Sample(w, next), ARENA);
      BitsAgree(u, w, SampleLayout(w)) && CanList(u, w, SampleLayout(w).chunks)
  {
    var u := Unlocked(Sample(w, next), ARENA);
    SampleIsSample(w, next);
    SampleBits(u, w, next, SampleLayout(w));
    SampleTiles(u, w, next);
  }

  lemma SampleArena(w: nat, next: int)
    requires Parameters(w, next)
    ensures var u := Unlocked(Sample(w, next), ARENA);
      && Field(u, w, ARENA + NextOffset(w)) == next
      && Field(u, w, ARENA + MaxSystemMemOffset(w)) == TopOf(w) - Base(w)
  {
    var u := Unlocked(Sample(w, next), ARENA);
    SampleIsSample(w, next);
    SampleField(u, NextOffset(w), if w == 8 then 269 else 272, w, next);
    SampleField(u, MaxSystemMemOffset(w), if w == 8 then 271 else 274, w, next);
  }

  /** print_mstats on a sample heap whose main arena has another successor: k rounds do not end it, however large k is,
      and the same arena is added to the totals in each of them. */
  method SecondArenaNeverEnds(d: Debuggee, next: int, k: nat)
    returns (rounds: nat, ended: bool, systemB: int, inUseB: int)
    requires Parameters(d.w, next) && next != ARENA && d.mem == Sample(d.w, next)
    modifies d
    ensures !ended && rounds == k && systemB == k * (TopOf(d.w) - Base(d.w))
  {
    SampleIsWellFormed(d.w, next);
    SampleArena(d.w, next);
    rounds, ended, systemB, inUseB := d.PrintMstats(ARENA, 0, k, SampleLayout(d.w));
  }
}
