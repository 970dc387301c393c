/** The flat and the compact listing of gdb.python/zcmd2.py, which walk the heap from chunk to chunk in address order,
    and how they agree with print_mstats. */
module HeapListing {
  import opened Basics
  import opened ChunkCodec
  import opened HeapWalk
  import MallocBins

  datatype Status = Top | Fence | InUse | Free(fd: int, bk: int, mark: Mark)

  datatype Mark = LastRemainder | Lonely | NoMark

  datatype Line = Line(address: int, size: int, status: Status)

  /** What the flat listing says of the chunk at a. */
  function LineAt(m: Memory, w: nat, a: int, top: int, lastRemainder: int): Line {
    var size := SizeAt(m, w, a);
    if a == top then Line(a, size, Top)
    else if Field(m, w, a + w) == 1 then Line(a, size, Fence)
    else if Field(m, w, a + size + w) % 2 == 1 then Line(a, size, InUse)
    else
      var fd, bk := Fd(m, w, a), Field(m, w, a + 3 * w);
      Line(a, size, Free(fd, bk,
        if fd == lastRemainder && bk == lastRemainder && lastRemainder != 0 then LastRemainder
        else if fd == bk then Lonely
        else NoMark))
  }

  function LinesOf(m: Memory, w: nat, chunks: seq<int>, top: int, lastRemainder: int): (r: seq<Line>)
    ensures |r| == |chunks|
  {
    if chunks == [] then []
    else [LineAt(m, w, chunks[0], top, lastRemainder)] + LinesOf(m, w, chunks[1..], top, lastRemainder)
  }

  lemma ReadFields(m: Memory, w: nat, a: int)
    requires Readable(m, w, a)
    ensures var c := ReadChunk(m, w, a).value;
      && c.address == a && c.size == Field(m, w, a + w) && c.fd == Fd(m, w, a) && c.bk == Field(m, w, a + 3 * w)
  {
    ChunkFields(m, w, a);
    assert a + w + w + w == a + 3 * w;
    var w3 := ReadWords(m, a + w + w + w, w, 3);
    assert ReadWords(m, a, w, 6) == [Word(m, a, w)] + ReadWords(m, a + w, w, 5);
    assert ReadWords(m, a + w, w, 5) == [Word(m, a + w, w)] + ReadWords(m, a + w + w, w, 4);
    assert ReadWords(m, a + w + w, w, 4) == [Word(m, a + w + w, w)] + w3;
    assert w3[0] == Word(m, a + 3 * w, w);
  }

  /** What a listing reads of a chunk below top: its header, all six words of the next chunk for the in-use bit, and its
      own six words if it is free. */
  predicate ListReads(m: Memory, w: nat, a: int) {
    && HeaderReadable(m, w, a)
    && Readable(m, w, a + SizeAt(m, w, a))
    && (Field(m, w, a + SizeAt(m, w, a) + w) % 2 == 0 ==> Readable(m, w, a))
  }

  predicate CanList(m: Memory, w: nat, chunks: seq<int>) {
    forall i :: 0 <= i < |chunks| ==> ListReads(m, w, chunks[i])
  }

  /** inuse(p), for a chunk whose next chunk can be read. */
  method InuseBit(m: Memory, w: nat, next: int) returns (bit: int)
    requires Readable(m, w, next)
    ensures bit == Field(m, w, next + w) % 2
  {
    ReadFields(m, w, next);
    bit := ReadChunk(m, w, next).value.size % 2;
  }

  /** One line of the flat listing. */
  method ListChunk(m: Memory, w: nat, p: int, top: int, lastRemainder: int) returns (line: Line)
    requires HeaderReadable(m, w, p) && (p != top && Field(m, w, p + w) != 1 ==> ListReads(m, w, p))
    ensures line == LineAt(m, w, p, top, lastRemainder)
  {
    var header := ReadHeader(m, w, p).value;
    var size := Chunksize(header.size);
    if p == top {
      return Line(p, size, Top);
    }
    if header.size == 1 {
      return Line(p, size, Fence);
    }
    var bit := InuseBit(m, w, p + size);
    if bit == 1 {
      return Line(p, size, InUse);
    }
    ReadFields(m, w, p);
    var chunk := ReadChunk(m, w, p).value;
    var mark := NoMark;
    if chunk.fd == lastRemainder && chunk.bk == lastRemainder && lastRemainder != 0 {
      mark := LastRemainder;
    } else if chunk.fd == chunk.bk {
      mark := Lonely;
    }
    line := Line(p, size, Free(chunk.fd, chunk.bk, mark));
  }

  lemma TilesFront(m: Memory, w: nat, a: int, chunks: seq<int>, top: int)
    requires Tiles(m, w, a, chunks, top)
    ensures HeaderReadable(m, w, a)
    ensures a == top <==> chunks == []
    ensures chunks != [] ==>
      chunks[0] == a && Field(m, w, a + w) != 1 && Tiles(m, w, a + SizeAt(m, w, a), chunks[1..], top)
  {
    if chunks != [] {
      TilesAscend(m, w, a, chunks, top);
      assert Tiles(m, w, a + SizeAt(m, w, a), chunks[1..], top);
    }
  }

  lemma CanListRest(m: Memory, w: nat, chunks: seq<int>)
    requires CanList(m, w, chunks) && chunks != []
    ensures ListReads(m, w, chunks[0]) && CanList(m, w, chunks[1..])
  {
  }

  /** What the walk knows at the chunk at p, with the chunks `rest` to go. */
  ghost predicate At(m: Memory, w: nat, p: int, rest: seq<int>, top: int) {
    && Tiles(m, w, p, rest, top) && CanList(m, w, rest)
    && (p == top <==> rest == []) && (rest != [] ==> rest[0] == p && Field(m, w, p + w) != 1 && ListReads(m, w, p))
    && HeaderReadable(m, w, p)
  }

  lemma AtFirst(m: Memory, w: nat, p: int, chunks: seq<int>, top: int)
    requires Tiles(m, w, p, chunks, top) && CanList(m, w, chunks)
    ensures At(m, w, p, chunks, top)
  {
    TilesFront(m, w, p, chunks, top);
  }

  lemma AtNext(m: Memory, w: nat, p: int, rest: seq<int>, top: int)
    requires At(m, w, p, rest, top) && rest != []
    ensures At(m, w, p + SizeAt(m, w, p), rest[1..], top)
  {
    TilesFront(m, w, p, rest, top);
    CanListRest(m, w, rest);
    AtFirst(m, w, p + SizeAt(m, w, p), rest[1..], top);
  }

  lemma FirstLine(m: Memory, w: nat, rest: seq<int>, top: int, lr: int, lines: seq<Line>)
    requires rest != []
    ensures lines + LinesOf(m, w, rest, top, lr) ==
      (lines + [LineAt(m, w, rest[0], top, lr)]) + LinesOf(m, w, rest[1..], top, lr)
  {
  }

  /** The line for the chunk the walk is at. */
  method LineHere(m: Memory, w: nat, p: int, top: int, lastRemainder: int, ghost rest: seq<int>) returns (line: Line)
    requires At(m, w, p, rest, top)
    ensures line == LineAt(m, w, p, top, lastRemainder) && line.size == SizeAt(m, w, p)
    ensures line.status != Fence && (line.status == Top <==> rest == [])
  {
    line := ListChunk(m, w, p, top, lastRemainder);
  }

  /** What the flat listing has printed before the chunk at p. */
  ghost predicate Listed(m: Memory, w: nat, rest: seq<int>, top: int, lr: int, lines: seq<Line>, all: seq<Line>) {
    lines + LinesOf(m, w, rest, top, lr) == all
  }

  lemma ListOneMore(m: Memory, w: nat, p: int, rest: seq<int>, top: int, lr: int, lines: seq<Line>, all: seq<Line>)
    requires At(m, w, p, rest, top) && rest != [] && Listed(m, w, rest, top, lr, lines, all)
    ensures At(m, w, p + SizeAt(m, w, p), rest[1..], top)
    ensures Listed(m, w, rest[1..], top, lr, lines + [LineAt(m, w, p, top, lr)], all)
  {
    AtNext(m, w, p, rest, top);
    FirstLine(m, w, rest, top, lr, lines);
  }

  lemma ListedAll(m: Memory, w: nat, p: int, rest: seq<int>, top: int, lr: int, lines: seq<Line>, all: seq<Line>)
    requires At(m, w, p, rest, top) && rest == [] && Listed(m, w, rest, top, lr, lines, all)
    ensures p == top && lines == all
  {
  }

  /** print_flat_listing: it ends, at top, after one line for every chunk of the tiling in order. A chunk of a tiling
      never looks like a fence. */
  method FlatListing(m: Memory, w: nat, base: int, top: int, lastRemainder: int, ghost chunks: seq<int>)
    returns (lines: seq<Line>)
    requires Tiles(m, w, base, chunks, top) && CanList(m, w, chunks)
    ensures lines == LinesOf(m, w, chunks, top, lastRemainder) + [LineAt(m, w, top, top, lastRemainder)]
  {
    lines := [];
    var p := base;
    ghost var rest, all := chunks, LinesOf(m, w, chunks, top, lastRemainder);
    AtFirst(m, w, p, rest, top);
    var line := LineHere(m, w, p, top, lastRemainder, rest);
    while line.status != Top && line.status != Fence
      invariant At(m, w, p, rest, top) && Listed(m, w, rest, top, lastRemainder, lines, all)
      invariant line == LineAt(m, w, p, top, lastRemainder) && line.size == SizeAt(m, w, p)
      invariant line.status != Fence && (line.status == Top <==> rest == [])
      decreases |rest|
    {
      ListOneMore(m, w, p, rest, top, lastRemainder, lines, all);
      lines, p, rest := lines + [line], p + line.size, rest[1..];
      line := LineHere(m, w, p, top, lastRemainder, rest);
    }
    ListedAll(m, w, p, rest, top, lastRemainder, lines, all);
    lines := lines + [line];
  }

  /** A cell of the compact listing: top, in use, last remainder, or the bin of a free chunk. */
  datatype Cell = T | A | L | Bin(index: int)

  /** The cell that goes with a line of the flat listing. */
  function CellOf(line: Line, w: nat): Cell {
    match line.status
    case Top => T
    case Fence => A
    case InUse => A
    case Free(_, _, mark) => if mark == LastRemainder then L else Bin(MallocBins.BinIndex(line.size, w))
  }

  function CellsOf(lines: seq<Line>, w: nat): seq<Cell> {
    if lines == [] then [] else [CellOf(lines[0], w)] + CellsOf(lines[1..], w)
  }

  /** The source passes the raw size word to bin_index; its status bits do not matter. */
  lemma RawSizeHasSameBin(m: Memory, w: nat, a: int)
    requires MallocBins.IsSizeSz(w)
    ensures MallocBins.BinIndex(Field(m, w, a + w), w) == MallocBins.BinIndex(SizeAt(m, w, a), w)
  {
    MallocBins.StatusBitsDoNotMatter(Field(m, w, a + w), w);
  }

  /** The cell of a free chunk. */
  method FreeCell(m: Memory, w: nat, p: int, lastRemainder: int) returns (cell: Cell)
    requires MallocBins.IsSizeSz(w) && Readable(m, w, p)
    ensures cell ==
      if Fd(m, w, p) == lastRemainder && Field(m, w, p + 3 * w) == lastRemainder && lastRemainder != 0 then L
      else Bin(MallocBins.BinIndex(SizeAt(m, w, p), w))
  {
    ReadFields(m, w, p);
    var chunk := ReadChunk(m, w, p).value;
    if chunk.fd == lastRemainder && chunk.bk == lastRemainder && lastRemainder != 0 {
      cell := L;
    } else {
      RawSizeHasSameBin(m, w, p);
      cell := Bin(MallocBins.BinIndex(chunk.size, w));
    }
  }

  lemma CellAt(m: Memory, w: nat, a: int, top: int, lr: int)
    requires a != top && Field(m, w, a + w) != 1
    ensures CellOf(LineAt(m, w, a, top, lr), w) ==
      if Field(m, w, a + SizeAt(m, w, a) + w) % 2 == 1 then A
      else if Fd(m, w, a) == lr && Field(m, w, a + 3 * w) == lr && lr != 0 then L
      else Bin(MallocBins.BinIndex(SizeAt(m, w, a), w))
  {
  }

  /** One cell of the compact listing. */
  method CompactCell(m: Memory, w: nat, p: int, top: int, lastRemainder: int) returns (cell: Cell, size: int)
    requires MallocBins.IsSizeSz(w) && HeaderReadable(m, w, p)
    requires p != top ==> Field(m, w, p + w) != 1 && ListReads(m, w, p)
    ensures cell == CellOf(LineAt(m, w, p, top, lastRemainder), w) && size == SizeAt(m, w, p)
  {
    size := Chunksize(ReadHeader(m, w, p).value.size);
    if p == top {
      cell := T;
      return;
    }
    CellAt(m, w, p, top, lastRemainder);
    var bit := InuseBit(m, w, p + size);
    if bit == 1 {
      cell := A;
      return;
    }
    cell := FreeCell(m, w, p, lastRemainder);
  }

  /** The cells of the chunks still to be walked. */
  function Remaining(m: Memory, w: nat, rest: seq<int>, top: int, lr: int): seq<Cell> {
    CellsOf(LinesOf(m, w, rest, top, lr), w)
  }

  lemma FirstCell(m: Memory, w: nat, rest: seq<int>, top: int, lr: int)
    requires rest != []
    ensures Remaining(m, w, rest, top, lr) ==
      [CellOf(LineAt(m, w, rest[0], top, lr), w)] + Remaining(m, w, rest[1..], top, lr)
  {
    var lines := LinesOf(m, w, rest, top, lr);
    assert lines[0] == LineAt(m, w, rest[0], top, lr) && lines[1..] == LinesOf(m, w, rest[1..], top, lr);
  }

  /** The cell for the chunk the walk is at. */
  method CellHere(m: Memory, w: nat, p: int, top: int, lastRemainder: int, ghost rest: seq<int>)
    returns (cell: Cell, size: int)
    requires MallocBins.IsSizeSz(w) && At(m, w, p, rest, top)
    ensures cell == CellOf(LineAt(m, w, p, top, lastRemainder), w) && size == SizeAt(m, w, p)
    ensures cell == T <==> rest == []
  {
    cell, size := CompactCell(m, w, p, top, lastRemainder);
  }

  lemma Regroup(cells: seq<Cell>, cell: Cell, rest: seq<Cell>)
    ensures cells + ([cell] + rest) == (cells + [cell]) + rest
  {
  }

  /** What the compact listing has printed before the chunk at p. */
  ghost predicate Compacted(m: Memory, w: nat, rest: seq<int>, top: int, lr: int, cells: seq<Cell>, all: seq<Cell>) {
    cells + Remaining(m, w, rest, top, lr) == all
  }

  lemma CompactOneMore(m: Memory, w: nat, p: int, rest: seq<int>, top: int, lr: int, cells: seq<Cell>, all: seq<Cell>)
    requires At(m, w, p, rest, top) && rest != [] && Compacted(m, w, rest, top, lr, cells, all)
    ensures At(m, w, p + SizeAt(m, w, p), rest[1..], top)
    ensures Compacted(m, w, rest[1..], top, lr, cells + [CellOf(LineAt(m, w, p, top, lr), w)], all)
  {
    AtNext(m, w, p, rest, top);
    FirstCell(m, w, rest, top, lr);
    Regroup(cells, CellOf(LineAt(m, w, p, top, lr), w), Remaining(m, w, rest[1..], top, lr));
  }

  lemma CompactedAll(m: Memory, w: nat, rest: seq<int>, top: int, lr: int, cells: seq<Cell>, all: seq<Cell>)
    requires rest == [] && Compacted(m, w, rest, top, lr, cells, all)
    ensures cells == all
  {
  }

  /** print_compact_listing: it ends, at top, with one cell for every line of the flat listing. */
  method CompactListing(m: Memory, w: nat, base: int, top: int, lastRemainder: int, ghost chunks: seq<int>)
    returns (cells: seq<Cell>)
    requires MallocBins.IsSizeSz(w) && Tiles(m, w, base, chunks, top) && CanList(m, w, chunks)
    ensures cells == CellsOf(LinesOf(m, w, chunks, top, lastRemainder), w) + [T]
  {
    cells := [];
    var p := base;
    ghost var rest, all := chunks, Remaining(m, w, chunks, top, lastRemainder);
    AtFirst(m, w, p, rest, top);
    var cell, size := CellHere(m, w, p, top, lastRemainder, rest);
    while cell != T
      invariant At(m, w, p, rest, top) && Compacted(m, w, rest, top, lastRemainder, cells, all)
      invariant cell == CellOf(LineAt(m, w, p, top, lastRemainder), w) && size == SizeAt(m, w, p)
      invariant cell == T <==> rest == []
      decreases |rest|
    {
      CompactOneMore(m, w, p, rest, top, lastRemainder, cells, all);
      cells, p, rest := cells + [cell], p + size, rest[1..];
      cell, size := CellHere(m, w, p, top, lastRemainder, rest);
    }
    CompactedAll(m, w, rest, top, lastRemainder, cells, all);
    cells := cells + [cell];
  }

  function SumInUse(lines: seq<Line>): int {
    if lines == [] then 0 else (if lines[0].status == InUse then lines[0].size else 0) + SumInUse(lines[1..])
  }

  /** The in-use bit of a chunk, kept in the next one, is clear exactly for the chunks on a bin. Chunks on a fastbin
      keep it set. */
  ghost predicate BitsAgree(m: Memory, w: nat, l: Layout) {
    forall a :: a in l.chunks ==> (Field(m, w, a + SizeAt(m, w, a) + w) % 2 == 0 <==> a in Flat(l.bins))
  }

  lemma {:induction false} SumInUseWithout(m: Memory, w: nat, chunks: seq<int>, top: int, lr: int, out: seq<int>)
    requires top !in chunks && forall a :: a in chunks ==> SizeAt(m, w, a) > 0
    requires forall a :: a in chunks ==> (Field(m, w, a + SizeAt(m, w, a) + w) % 2 == 0 <==> a in out)
    ensures SumInUse(LinesOf(m, w, chunks, top, lr)) == SumWithout(m, w, chunks, out)
  {
    if chunks != [] {
      var a := chunks[0];
      assert a in chunks && a != top && Field(m, w, a + w) != 1;
      assert LineAt(m, w, a, top, lr).status == InUse <==> a !in out;
      SumInUseWithout(m, w, chunks[1..], top, lr, out);
    }
  }

  lemma BinsAreFree(l: Layout)
    requires NoDuplicates(FreeChunks(l))
    ensures NoDuplicates(Flat(l.bins)) && forall a :: a in Flat(l.bins) ==> a in FreeChunks(l)
  {
    var free, bins, n := FreeChunks(l), Flat(l.bins), |Flat(l.fast)|;
    assert forall i :: 0 <= i < |bins| ==> bins[i] == free[n + i];
  }

  /** The chunks the flat listing marks in use are those print_mstats counts as in use and those on fastbins. */
  lemma ListingAgreesWithStats(m: Memory, w: nat, arena: int, l: Layout, lr: int)
    requires HeapLike(m, w, arena, l) && BitsAgree(m, w, l)
    requires Field(m, w, arena + MaxSystemMemOffset(w)) == l.top + SizeAt(m, w, l.top) - l.base
    ensures SumInUse(LinesOf(m, w, l.chunks, l.top, lr)) ==
      Expected(m, w, arena, l).inUse + Expected(m, w, arena, l).fastavail
  {
    TilesAscend(m, w, l.base, l.chunks, l.top);
    SumInUseWithout(m, w, l.chunks, l.top, lr, Flat(l.bins));
    BinsAreFree(l);
    SumSplits(m, w, l.chunks, Flat(l.bins));
    SumFlat(m, w, l.fast);
    SumFlat(m, w, l.bins);
  }

  lemma {:induction false} LinesAt(m: Memory, w: nat, chunks: seq<int>, top: int, lr: int, i: nat)
    requires i < |chunks|
    ensures LinesOf(m, w, chunks, top, lr)[i] == LineAt(m, w, chunks[i], top, lr)
    decreases |chunks|
  {
    if i > 0 {
      LinesAt(m, w, chunks[1..], top, lr, i - 1);
    }
  }

  lemma {:induction false} TilesStrictlyAscend(m: Memory, w: nat, a: int, chunks: seq<int>, top: int)
    requires Tiles(m, w, a, chunks, top)
    ensures forall i, j :: 0 <= i < j < |chunks| ==> chunks[i] < chunks[j]
    decreases |chunks|
  {
    if chunks != [] {
      var next := a + SizeAt(m, w, a);
      TilesStrictlyAscend(m, w, next, chunks[1..], top);
      TilesAscend(m, w, next, chunks[1..], top);
      assert forall i :: 0 < i < |chunks| ==> chunks[i] == chunks[1..][i - 1];
    }
  }

  lemma LineOfChunk(m: Memory, w: nat, a: int, top: int, lr: int)
    requires SizeAt(m, w, a) > 0 && a != top
    ensures var line := LineAt(m, w, a, top, lr);
      line.address == a && line.status != Top && line.status != Fence
  {
    assert Chunksize(1) == 0;
  }

  /** A fence is a size word with PREV_INUSE and no size. */
  lemma FenceIsShown(m: Memory, w: nat, a: int, top: int, lr: int)
    ensures LineAt(m, w, a, top, lr).status == Fence <==>
      a != top && SizeAt(m, w, a) == 0 && Field(m, w, a + w) == 1
  {
    assert Chunksize(1) == 0;
  }

  /** The flat listing shows each chunk of the tiling, and nothing else, exactly once and in address order, and top
      last. */
  lemma EachChunkIsListedOnce(m: Memory, w: nat, base: int, chunks: seq<int>, top: int, lr: int)
    requires Tiles(m, w, base, chunks, top)
    ensures var lines := LinesOf(m, w, chunks, top, lr) + [LineAt(m, w, top, top, lr)];
      && |lines| == |chunks| + 1
      && (forall i :: 0 <= i < |chunks| ==> lines[i].address == chunks[i] && lines[i].status != Top)
      && (forall i :: 0 <= i < |chunks| ==> lines[i].status != Fence)
      && lines[|chunks|] == Line(top, SizeAt(m, w, top), Top)
      && forall i, j :: 0 <= i < j < |lines| ==> lines[i].address < lines[j].address
  {
    var lines := LinesOf(m, w, chunks, top, lr) + [LineAt(m, w, top, top, lr)];
    TilesAscend(m, w, base, chunks, top);
    TilesStrictlyAscend(m, w, base, chunks, top);
    forall i | 0 <= i < |chunks|
      ensures lines[i].address == chunks[i] < top && lines[i].status != Top && lines[i].status != Fence
    {
      LinesAt(m, w, chunks, top, lr, i);
      LineOfChunk(m, w, chunks[i], top, lr);
    }
  }

  /** The fd links of a bin. */
  lemma {:induction false} NextInBin(m: Memory, w: nat, b: int, p: int, list: seq<int>, k: nat)
    requires BinList(m, w, b, p, list) && k < |list|
    ensures list[0] == p
    ensures Fd(m, w, list[k]) == if k + 1 < |list| then list[k + 1] else b
    decreases |list|
  {
    var rest := list[1..];
    if rest != [] {
      NextInBin(m, w, b, Fd(m, w, p), rest, if k > 0 then k - 1 else 0);
    }
  }

  lemma {:induction false} MemberOfFlat(lists: seq<seq<int>>, i: nat, a: int)
    requires i < |lists| && a in lists[i]
    ensures a in Flat(lists)
  {
    if i > 0 {
      MemberOfFlat(lists[1..], i - 1, a);
    }
  }

  lemma BinMemberIsChunk(m: Memory, w: nat, arena: int, l: Layout, i: nat, a: int)
    requires HeapLike(m, w, arena, l) && i < |l.bins| && a in l.bins[i]
    ensures a in l.chunks && a in Flat(l.bins) && SizeAt(m, w, a) > 0 && a < l.top
    ensures Linked(m, w, arena, l)
  {
    MemberOfFlat(l.bins, i, a);
    assert a in FreeChunks(l);
    TilesAscend(m, w, l.base, l.chunks, l.top);
  }

  lemma BinMemberIsFree(m: Memory, w: nat, arena: int, l: Layout, i: nat, a: int)
    requires HeapLike(m, w, arena, l) && BitsAgree(m, w, l) && i < |l.bins| && a in l.bins[i]
    ensures Linked(m, w, arena, l) && a != l.top && SizeAt(m, w, a) > 0
    ensures Field(m, w, a + SizeAt(m, w, a) + w) % 2 == 0
  {
    BinMemberIsChunk(m, w, arena, l, i, a);
  }

  lemma NextOfMember(m: Memory, w: nat, arena: int, l: Layout, i: nat, k: nat)
    requires Linked(m, w, arena, l) && i < |l.bins| && k < |l.bins[i]|
    ensures Fd(m, w, l.bins[i][k]) == if k + 1 < |l.bins[i]| then l.bins[i][k + 1] else BinAt(arena, i + 1, w)
  {
    var b := BinAt(arena, i + 1, w);
    assert HeapWalk.Bin(m, w, b, l.bins[i]);
    NextInBin(m, w, b, Fd(m, w, b), l.bins[i], k);
  }

  /** A line for a free chunk that shows fd and bk: it is marked as last remainder if both are the last remainder, and
      otherwise as lonely exactly if both are the same. */
  predicate ShowsLinks(line: Line, a: int, size: int, fd: int, bk: int, lr: int) {
    && line.address == a && line.size == size && line.status.Free? && line.status.fd == fd && line.status.bk == bk
    && (line.status.mark == LastRemainder <==> lr != 0 && fd == lr && bk == lr)
    && (line.status.mark == Lonely <==> fd == bk && (lr == 0 || fd != lr))
  }

  lemma FreeLine(m: Memory, w: nat, a: int, top: int, lr: int)
    requires a != top && SizeAt(m, w, a) > 0 && Field(m, w, a + SizeAt(m, w, a) + w) % 2 == 0
    ensures ShowsLinks(LineAt(m, w, a, top, lr), a, SizeAt(m, w, a), Fd(m, w, a), Field(m, w, a + 3 * w), lr)
  {
    LineOfChunk(m, w, a, top, lr);
  }

  /** The line of the k-th member of bin i + 1: FD is the next member, or the header of the bin for the last one, and BK
      the fourth word of the chunk. */
  lemma FreeLineShowsLinks(m: Memory, w: nat, arena: int, l: Layout, lr: int, i: nat, k: nat)
    requires HeapLike(m, w, arena, l) && BitsAgree(m, w, l) && i < |l.bins| && k < |l.bins[i]|
    ensures var a, bin := l.bins[i][k], l.bins[i];
      ShowsLinks(LineAt(m, w, a, l.top, lr), a, SizeAt(m, w, a),
                 if k + 1 < |bin| then bin[k + 1] else BinAt(arena, i + 1, w), Field(m, w, a + 3 * w), lr)
  {
    var a := l.bins[i][k];
    BinMemberIsFree(m, w, arena, l, i, a);
    NextOfMember(m, w, arena, l, i, k);
    FreeLine(m, w, a, l.top, lr);
  }
}
