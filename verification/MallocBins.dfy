/** The size and bin arithmetic of gdb.python/zcmd2.py, for SIZE_SZ 4 and 8. Shifts are divisions that round down. */
module MallocBins {

  const NBINS: int := 128
  const NSMALLBINS: int := 64

  predicate IsSizeSz(w: int) {
    w == 4 || w == 8
  }

  function MallocAlignment(w: int): int {
    2 * w
  }

  function MinChunkSize(w: int): int {
    4 * w
  }

  function RoundDown(x: int, m: int): int
    requires m > 0
  {
    x - x % m
  }

  function Minsize(w: int): int
    requires IsSizeSz(w)
  {
    RoundDown(MinChunkSize(w) + MallocAlignment(w) - 1, MallocAlignment(w))
  }

  function Request2Size(req: int, w: int): int
    requires IsSizeSz(w)
  {
    if req + w + (MallocAlignment(w) - 1) < Minsize(w) then Minsize(w)
    else RoundDown(req + w + (MallocAlignment(w) - 1), MallocAlignment(w))
  }

  /** A chunk size that serves a request: aligned, not below the minimum, and with room for the request beside the
      size word (the chunk's last word lies in the next chunk). */
  predicate Serves(size: int, req: int, w: int)
    requires IsSizeSz(w)
  {
    size % MallocAlignment(w) == 0 && size >= Minsize(w) && size >= req + w
  }

  lemma RoundDownIsLeast8(x: int, size: int)
    requires size % 8 == 0 && size > x - 8
    ensures RoundDown(x, 8) <= size && RoundDown(x, 8) % 8 == 0
  {
  }

  lemma RoundDownIsLeast16(x: int, size: int)
    requires size % 16 == 0 && size > x - 16
    ensures RoundDown(x, 16) <= size && RoundDown(x, 16) % 16 == 0
  {
  }

  /** request2size is the smallest chunk size that serves the request. */
  lemma RequestIsServedBest(req: int, w: int)
    requires IsSizeSz(w)
    ensures Serves(Request2Size(req, w), req, w)
    ensures forall size :: Serves(size, req, w) ==> Request2Size(req, w) <= size
  {
    assert Minsize(w) == 4 * w;
    var x := req + w + (MallocAlignment(w) - 1);
    forall size | Serves(size, req, w)
      ensures Request2Size(req, w) <= size
    {
      if w == 8 {
        RoundDownIsLeast16(x, size);
      } else {
        RoundDownIsLeast8(x, size);
      }
    }
    if w == 8 {
      RoundDownIsLeast16(x, 16 * (x / 16 + 1));
    } else {
      RoundDownIsLeast8(x, 8 * (x / 8 + 1));
    }
  }

  function SmallbinIndex(sz: int, w: int): int {
    if MallocAlignment(w) == 16 then sz / 16 else sz / 8
  }

  function LargebinIndex32(sz: int): int {
    if sz / 64 <= 38 then 56 + sz / 64
    else if sz / 512 <= 20 then 91 + sz / 512
    else if sz / 4096 <= 10 then 110 + sz / 4096
    else if sz / 32768 <= 4 then 119 + sz / 32768
    else if sz / 262144 <= 2 then 124 + sz / 262144
    else 126
  }

  function LargebinIndex64(sz: int): int {
    if sz / 64 <= 48 then 48 + sz / 64
    else if sz / 512 <= 20 then 91 + sz / 512
    else if sz / 4096 <= 10 then 110 + sz / 4096
    else if sz / 32768 <= 4 then 119 + sz / 32768
    else if sz / 262144 <= 2 then 124 + sz / 262144
    else 126
  }

  function BinIndex(sz: int, w: int): int {
    if sz < NSMALLBINS * MallocAlignment(w) then SmallbinIndex(sz, w)
    else if w == 8 then LargebinIndex64(sz)
    else LargebinIndex32(sz)
  }

  /** The smallest size of bin i. */
  function BinStart(i: int, w: int): int {
    if i < 64 then i * MallocAlignment(w)
    else if w == 8 && i <= 97 then (i - 48) * 64
    else if w == 4 && i <= 95 then (i - 56) * 64
    else if i <= 112 then (i - 91) * 512
    else if i <= 120 then (i - 110) * 4096
    else if i == 121 then 2 * 32768
    else if i <= 124 then (i - 119) * 32768
    else (i - 124) * 262144
  }

  /** Sizes fall into the bins 0 .. 126 by the boundaries BinStart: each bin is one range of sizes, with none empty
      and none skipped, and bin 126 has no upper end. */
  lemma BinsAreRanges(sz: int, i: int, w: int)
    requires IsSizeSz(w) && sz >= 0 && 0 <= i <= 126
    ensures BinIndex(sz, w) == i <==> BinStart(i, w) <= sz && (i < 126 ==> sz < BinStart(i + 1, w))
    ensures BinStart(0, w) == 0 && (i < 126 ==> BinStart(i, w) < BinStart(i + 1, w))
  {
  }

  /** Hence the index never goes down with the size, and every bin from 0 to 126 is the index of some size. */
  lemma BinIndexIsMonotoneAndOnto(w: int)
    requires IsSizeSz(w)
    ensures forall a, b :: 0 <= a <= b ==> 0 <= BinIndex(a, w) <= BinIndex(b, w) <= 126
    ensures forall i :: 0 <= i <= 126 ==> BinIndex(BinStart(i, w), w) == i
  {
    forall a, b | 0 <= a <= b
      ensures 0 <= BinIndex(a, w) <= BinIndex(b, w) <= 126
    {
    }
    forall i | 0 <= i <= 126
      ensures BinIndex(BinStart(i, w), w) == i
    {
      BinsAreRanges(BinStart(i, w), i, w);
    }
  }

  lemma IndexInRange(sz: int, w: int)
    requires IsSizeSz(w) && sz >= 0
    ensures 0 <= BinIndex(sz, w) <= 126
  {
  }

  lemma BinStartIsAligned(i: int, w: int)
    requires IsSizeSz(w)
    ensures BinStart(i, w) % 8 == 0
  {
  }

  lemma AlignedBelow(start: int, size: int)
    requires start % 8 == 0 && start <= size
    ensures start <= RoundDown(size, 8) <= size
  {
  }

  lemma SameBin(size: int, other: int, i: int, w: int)
    requires IsSizeSz(w) && 0 <= other <= size && 0 <= i <= 126
    requires BinIndex(size, w) == i && BinStart(i, w) <= other
    ensures BinIndex(other, w) == i
  {
    BinsAreRanges(size, i, w);
    BinsAreRanges(other, i, w);
  }

  /** The three status bits of a size word do not change its bin. */
  lemma StatusBitsDoNotMatter(size: int, w: int)
    requires IsSizeSz(w) && size >= 0
    ensures BinIndex(size, w) == BinIndex(RoundDown(size, 8), w)
  {
    var i := BinIndex(size, w);
    IndexInRange(size, w);
    BinsAreRanges(size, i, w);
    BinStartIsAligned(i, w);
    AlignedBelow(BinStart(i, w), size);
    SameBin(size, RoundDown(size, 8), i, w);
  }

  function FastbinIndex(sz: int, w: int): int {
    if w == 8 then sz / 16 - 2 else sz / 8 - 2
  }

  function MaxFastSize(w: int): int {
    80 * w / 4
  }

  function NFastbins(w: int): int
    requires IsSizeSz(w)
  {
    FastbinIndex(Request2Size(MaxFastSize(w), w), w) + 1
  }

  /** The size print_fastbins shows for fastbin i. */
  function FastbinSize(i: int, w: int): int {
    MinChunkSize(w) + MallocAlignment(w) * i
  }

  /** There are ten fastbins, and chunk sizes and fastbins correspond one to one. */
  lemma FastbinsMatchSizes(w: int, size: int, i: int)
    requires IsSizeSz(w)
    ensures NFastbins(w) == 10
    ensures size % MallocAlignment(w) == 0 ==> FastbinSize(FastbinIndex(size, w), w) == size
    ensures FastbinIndex(FastbinSize(i, w), w) == i
  {
    if w == 8 {
      assert NFastbins(8) == 10;
    } else {
      assert NFastbins(4) == 10;
    }
  }

  /** A request gets a chunk of one of the ten fastbin sizes exactly when it exceeds MAX_FAST_SIZE by at most one
      word. */
  lemma FastbinOfRequest(w: int, req: int)
    requires IsSizeSz(w)
    ensures 0 <= FastbinIndex(Request2Size(req, w), w)
    ensures FastbinIndex(Request2Size(req, w), w) < 10 <==> req <= MaxFastSize(w) + w
  {
    RequestIsServedBest(req, w);
    if w == 8 {
      assert Request2Size(req, 8) == if req <= 24 then 32 else RoundDown(req + 23, 16);
    } else {
      assert Request2Size(req, 4) == if req <= 12 then 16 else RoundDown(req + 11, 8);
    }
  }
}
