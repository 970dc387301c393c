/** The wrapping bump allocator of src_C/zgHeap.cpp.

    Pointers are integers. `allocatedsize` is a C int, so its additions are reduced to 32 bits. */
module BumpHeap {

  const MAXHEAP: int := 1024 * 1024

  predicate IsInt32(x: int) {
    -0x8000_0000 <= x < 0x8000_0000
  }

  /** Reduction of a mathematical integer to a 32-bit C int. */
  function Int32(x: int): (r: int)
    ensures IsInt32(r)
    ensures IsInt32(x) ==> r == x
    ensures (r - x) % 0x1_0000_0000 == 0
  {
    (x + 0x8000_0000) % 0x1_0000_0000 - 0x8000_0000
  }

  datatype State = State(heap: int, free: int, allocatedsize: int)

  datatype Block = Block(pos: int, size: int)

  predicate Wraps(s: State, size: int) {
    s.free + size > s.heap + MAXHEAP
  }

  function Position(s: State, size: int): int {
    if Wraps(s, size) then s.heap else s.free
  }

  function Next(s: State, size: int): State {
    if Wraps(s, size) then s.(free := s.heap + size, allocatedsize := size)
    else s.(free := s.free + size, allocatedsize := Int32(s.allocatedsize + size))
  }

  class ZgHeap {
    var heap: int
    var free: int
    var allocatedsize: int

    function View(): State
      reads this
    {
      State(heap, free, allocatedsize)
    }

    constructor ()
      ensures View() == State(0, 0, 0)
    {
      heap, free, allocatedsize := 0, 0, 0;
    }

    /** `base` is what malloc returned. */
    method Initialize(base: int)
      modifies this
      ensures View() == State(base, base, 0)
    {
      heap := base;
      free := heap;
      allocatedsize := 0;
    }

    method Allocate(size: int) returns (pos: int)
      requires IsInt32(size)
      modifies this
      ensures pos == Position(old(View()), size)
      ensures View() == Next(old(View()), size)
    {
      pos := free;
      free := free + size;
      allocatedsize := Int32(allocatedsize + size);
      if free > heap + MAXHEAP {
        pos := heap;
        free := heap + size;
        allocatedsize := size;
      }
    }

    /** A run of consecutive calls on one heap object returns exactly the blocks of the specification. */
    method AllocateAll(sizes: seq<int>) returns (blocks: seq<Block>)
      requires forall i :: 0 <= i < |sizes| ==> IsInt32(sizes[i])
      modifies this
      ensures blocks == Blocks(old(View()), sizes)
      ensures View() == Final(old(View()), sizes)
    {
      blocks := [];
      var k := 0;
      while k < |sizes|
        invariant 0 <= k <= |sizes|
        invariant blocks + Blocks(View(), sizes[k..]) == Blocks(old(View()), sizes)
        invariant Final(View(), sizes[k..]) == Final(old(View()), sizes)
      {
        var pos := Allocate(sizes[k]);
        blocks := blocks + [Block(pos, sizes[k])];
        assert sizes[k..][1..] == sizes[k + 1..];
        k := k + 1;
      }
    }
  }

  function Blocks(s: State, sizes: seq<int>): seq<Block>
    decreases |sizes|
  {
    if sizes == [] then [] else [Block(Position(s, sizes[0]), sizes[0])] + Blocks(Next(s, sizes[0]), sizes[1..])
  }

  function Final(s: State, sizes: seq<int>): State
    decreases |sizes|
  {
    if sizes == [] then s else Final(Next(s, sizes[0]), sizes[1..])
  }

  function Sum(sizes: seq<int>): int {
    if sizes == [] then 0 else sizes[0] + Sum(sizes[1..])
  }

  predicate Within(b: Block, lo: int, hi: int) {
    lo <= b.pos && b.pos + b.size <= hi
  }

  predicate Disjoint(a: Block, b: Block) {
    a.pos + a.size <= b.pos || b.pos + b.size <= a.pos
  }

  ghost predicate PairwiseDisjoint(bs: seq<Block>) {
    forall i, j :: 0 <= i < j < |bs| ==> Disjoint(bs[i], bs[j])
  }

  /** Sizes a caller may pass: not negative and no larger than `largest`. */
  ghost predicate Bounded(sizes: seq<int>, largest: int) {
    forall i :: 0 <= i < |sizes| ==> 0 <= sizes[i] <= largest
  }

  ghost predicate NonNegative(sizes: seq<int>) {
    forall i :: 0 <= i < |sizes| ==> sizes[i] >= 0
  }

  lemma {:induction false} SumIsNonNegative(sizes: seq<int>)
    requires NonNegative(sizes)
    ensures Sum(sizes) >= 0
  {
    if sizes != [] {
      SumIsNonNegative(sizes[1..]);
    }
  }

  /** While the arena is not exhausted the blocks are laid out one behind the other. */
  lemma {:induction false} SequentialLayout(s: State, sizes: seq<int>)
    requires NonNegative(sizes)
    requires s.free + Sum(sizes) <= s.heap + MAXHEAP
    ensures var bs := Blocks(s, sizes);
      && |bs| == |sizes|
      && PairwiseDisjoint(bs)
      && forall i :: 0 <= i < |bs| ==> Within(bs[i], s.free, s.free + Sum(sizes))
    decreases |sizes|
  {
    if sizes != [] {
      SumIsNonNegative(sizes[1..]);
      SequentialLayout(Next(s, sizes[0]), sizes[1..]);
    }
  }

  /** The blocks of a run lie at or above the pointer the run starts from or, after the wrap, below `low`. */
  lemma {:induction false} LayoutAcrossWrap(s: State, sizes: seq<int>, low: int)
    requires NonNegative(sizes)
    requires s.heap <= low <= s.free
    requires Sum(sizes) + (s.free - low) <= MAXHEAP
    requires forall j :: 0 <= j < |sizes| ==> Sum(sizes) + sizes[j] + (s.free - low) <= MAXHEAP + 1
    ensures var bs := Blocks(s, sizes);
      && |bs| == |sizes|
      && PairwiseDisjoint(bs)
      && forall i :: 0 <= i < |bs| ==>
          Within(bs[i], s.free, s.heap + MAXHEAP) || Within(bs[i], s.heap, low)
    decreases |sizes|
  {
    if sizes != [] {
      var rest, s' := sizes[1..], Next(s, sizes[0]);
      SumIsNonNegative(rest);
      if Wraps(s, sizes[0]) {
        SequentialLayout(s', rest);
      } else {
        LayoutAcrossWrap(s', rest, low);
      }
    }
  }

  /** A run of calls whose sizes and largest size add up to at most MAXHEAP + 1 hands out disjoint blocks of
      the arena, wherever `free` stood before the run and whether or not the run wraps. */
  lemma RunIsDisjoint(s: State, sizes: seq<int>, largest: int)
    requires s.heap <= s.free
    requires 1 <= largest && Bounded(sizes, largest)
    requires Sum(sizes) + largest <= MAXHEAP + 1
    ensures var bs := Blocks(s, sizes);
      && |bs| == |sizes|
      && (forall i :: 0 <= i < |bs| ==> Within(bs[i], s.heap, s.heap + MAXHEAP))
      && PairwiseDisjoint(bs)
  {
    if s.free <= s.heap + MAXHEAP {
      LayoutAcrossWrap(s, sizes, s.free);
    } else if sizes != [] {
      SumIsNonNegative(sizes[1..]);
      SequentialLayout(Next(s, sizes[0]), sizes[1..]);
    }
  }

  /** Sizes of real blocks that fit into the arena. */
  ghost predicate Allocatable(sizes: seq<int>) {
    forall i :: 0 <= i < |sizes| ==> 0 < sizes[i] <= MAXHEAP
  }

  /** Wherever in the arena `free` stands, the run returns disjoint blocks. */
  ghost predicate AlwaysDisjoint(sizes: seq<int>) {
    forall s: State :: s.heap <= s.free <= s.heap + MAXHEAP ==> PairwiseDisjoint(Blocks(s, sizes))
  }

  /** Each size but the first can be given up at the end of the arena and still leave room for the whole run. */
  ghost predicate RoomToWrap(sizes: seq<int>) {
    forall j :: 1 <= j < |sizes| ==> Sum(sizes) + sizes[j] <= MAXHEAP + 1
  }

  /** A run of allocatable sizes is disjoint from every start exactly when there is room to wrap at each call after
      the first. */
  lemma DisjointIffRoomToWrap(sizes: seq<int>)
    requires Allocatable(sizes)
    ensures AlwaysDisjoint(sizes) <==> RoomToWrap(sizes)
  {
    if RoomToWrap(sizes) {
      forall s: State | s.heap <= s.free <= s.heap + MAXHEAP
        ensures PairwiseDisjoint(Blocks(s, sizes))
      {
        RoomMeansDisjoint(s, sizes);
      }
    } else {
      var j :| 1 <= j < |sizes| && Sum(sizes) + sizes[j] > MAXHEAP + 1;
      if Sum(sizes) > MAXHEAP {
        var i := OverlapAtHeap(sizes);
      } else {
        OverlapAfterWrap(sizes, j);
      }
    }
  }

  lemma RoomMeansDisjoint(s: State, sizes: seq<int>)
    requires Allocatable(sizes) && RoomToWrap(sizes) && s.heap <= s.free <= s.heap + MAXHEAP
    ensures PairwiseDisjoint(Blocks(s, sizes))
  {
    if sizes != [] {
      var rest, s' := sizes[1..], Next(s, sizes[0]);
      SumIsNonNegative(rest);
      assert forall j :: 0 <= j < |rest| ==> rest[j] == sizes[j + 1];
      if rest != [] {
        assert Sum(sizes) + rest[0] <= MAXHEAP + 1;
        if Wraps(s, sizes[0]) {
          SequentialLayout(s', rest);
        } else {
          LayoutAcrossWrap(s', rest, s.free);
        }
      }
    }
  }

  /** A run that does not fit behind `free` returns a block at the start of the arena. */
  lemma {:induction false} SomeBlockAtHeap(s: State, sizes: seq<int>) returns (k: nat)
    requires NonNegative(sizes) && s.free <= s.heap + MAXHEAP < s.free + Sum(sizes)
    ensures |Blocks(s, sizes)| == |sizes| && k < |sizes| && Blocks(s, sizes)[k] == Block(s.heap, sizes[k])
    decreases |sizes|
  {
    BlocksMatchSizes(s, sizes);
    if Wraps(s, sizes[0]) {
      k := 0;
    } else {
      k := SomeBlockAtHeap(Next(s, sizes[0]), sizes[1..]);
      k := k + 1;
    }
  }

  lemma {:induction false} BlocksMatchSizes(s: State, sizes: seq<int>)
    ensures |Blocks(s, sizes)| == |sizes|
    ensures forall i :: 0 <= i < |sizes| ==> Blocks(s, sizes)[i].size == sizes[i]
    decreases |sizes|
  {
    if sizes != [] {
      BlocksMatchSizes(Next(s, sizes[0]), sizes[1..]);
    }
  }

  /** A run larger than the arena, started on an empty one, returns a second block at the start of the arena. */
  lemma OverlapAtHeap(sizes: seq<int>) returns (i: nat)
    requires Allocatable(sizes) && Sum(sizes) > MAXHEAP
    ensures 0 < i < |Blocks(State(0, 0, 0), sizes)|
    ensures !Disjoint(Blocks(State(0, 0, 0), sizes)[0], Blocks(State(0, 0, 0), sizes)[i])
    ensures !AlwaysDisjoint(sizes)
  {
    var s := State(0, 0, 0);
    BlocksMatchSizes(s, sizes);
    i := SomeBlockAtHeap(Next(s, sizes[0]), sizes[1..]);
    i := i + 1;
    var bs := Blocks(s, sizes);
    assert bs[0] == Block(0, sizes[0]) && bs[i] == Block(0, sizes[i]);
    assert !PairwiseDisjoint(bs);
  }

  /** Blocks laid out one behind the other leave no address between them uncovered. */
  lemma {:induction false} SequentialCovers(s: State, sizes: seq<int>, x: int) returns (i: nat)
    requires NonNegative(sizes) && s.free + Sum(sizes) <= s.heap + MAXHEAP
    requires s.free <= x < s.free + Sum(sizes)
    ensures i < |Blocks(s, sizes)| && Blocks(s, sizes)[i].pos <= x < Blocks(s, sizes)[i].pos + Blocks(s, sizes)[i].size
    decreases |sizes|
  {
    SumIsNonNegative(sizes[1..]);
    if x < s.free + sizes[0] {
      i := 0;
    } else {
      i := SequentialCovers(Next(s, sizes[0]), sizes[1..], x);
      i := i + 1;
    }
  }

  /** When call j is the first to wrap, it and the calls after it cover the start of the arena. */
  lemma {:induction false} WrapCovers(s: State, sizes: seq<int>, j: nat, x: int) returns (i: nat)
    requires NonNegative(sizes) && j < |sizes|
    requires s.free + Sum(sizes[..j]) <= s.heap + MAXHEAP < s.free + Sum(sizes[..j]) + sizes[j]
    requires Sum(sizes[j..]) <= MAXHEAP && s.heap <= x < s.heap + Sum(sizes[j..])
    ensures j <= i < |Blocks(s, sizes)|
    ensures Blocks(s, sizes)[i].pos <= x < Blocks(s, sizes)[i].pos + Blocks(s, sizes)[i].size
    decreases |sizes|
  {
    var rest, s' := sizes[1..], Next(s, sizes[0]);
    if j == 0 {
      assert sizes[..0] == [] && sizes[0..] == sizes;
      if x < s.heap + sizes[0] {
        i := 0;
      } else {
        i := SequentialCovers(s', rest, x);
        i := i + 1;
      }
    } else {
      assert sizes[..j][1..] == rest[..j - 1] && sizes[j..] == rest[j - 1..];
      SumIsNonNegative(rest[..j - 1]);
      i := WrapCovers(s', rest, j - 1, x);
      i := i + 1;
    }
  }

  lemma {:induction false} SumInParts(sizes: seq<int>, j: nat)
    requires j <= |sizes|
    ensures Sum(sizes) == Sum(sizes[..j]) + Sum(sizes[j..])
  {
    if j == 0 {
      assert sizes[..0] == [] && sizes[0..] == sizes;
    } else {
      assert sizes[..j][1..] == sizes[1..][..j - 1] && sizes[j..] == sizes[1..][j - 1..];
      SumInParts(sizes[1..], j - 1);
    }
  }

  /** Without room to wrap at call j, a start just high enough that j is the first call to wrap makes the blocks
      after it run into the first one. */
  lemma OverlapAfterWrap(sizes: seq<int>, j: nat)
    requires Allocatable(sizes) && Sum(sizes) <= MAXHEAP
    requires 1 <= j < |sizes| && Sum(sizes) + sizes[j] > MAXHEAP + 1
    ensures !AlwaysDisjoint(sizes)
  {
    var before := Sum(sizes[..j]);
    var start := MAXHEAP + 1 - before - sizes[j];
    SumInParts(sizes, j);
    assert sizes[j..][1..] == sizes[j + 1..];
    SumIsNonNegative(sizes[j + 1..]);
    assert sizes[..j][1..] == sizes[1..j];
    SumIsNonNegative(sizes[1..j]);
    var s := State(0, start, start);
    var i := WrapCovers(s, sizes, j, start);
    var bs := Blocks(s, sizes);
    assert bs[0] == Block(start, sizes[0]);
    assert !Disjoint(bs[0], bs[i]);
    assert !PairwiseDisjoint(bs);
  }

  /** The bound of RunIsDisjoint cannot be raised: a run of one byte more can overlap. */
  lemma BoundIsTight()
    ensures var s, sizes := State(0, MAXHEAP / 2 - 1, MAXHEAP / 2 - 1), [2, MAXHEAP / 2];
      && Bounded(sizes, MAXHEAP / 2)
      && Sum(sizes) + MAXHEAP / 2 == MAXHEAP + 2
      && !PairwiseDisjoint(Blocks(s, sizes))
  {
    var s, sizes := State(0, MAXHEAP / 2 - 1, MAXHEAP / 2 - 1), [2, MAXHEAP / 2];
    var s' := Next(s, 2);
    assert sizes[1..] == [MAXHEAP / 2] && [MAXHEAP / 2][1..] == [];
    assert Sum(sizes) == 2 + Sum([MAXHEAP / 2]) && Sum([MAXHEAP / 2]) == MAXHEAP / 2;
    assert Blocks(s', [MAXHEAP / 2]) == [Block(0, MAXHEAP / 2)];
    var bs := Blocks(s, sizes);
    assert bs == [Block(MAXHEAP / 2 - 1, 2)] + Blocks(s', [MAXHEAP / 2]);
    assert !Disjoint(bs[0], bs[1]);
  }

  lemma Int32Adds(x: int, y: int)
    ensures Int32(Int32(x) + y) == Int32(x + y)
  {
    var k := (x - Int32(x)) / 0x1_0000_0000;
    assert x == Int32(x) + 0x1_0000_0000 * k;
  }

  /** Whatever the sizes, `allocatedsize` is the distance from `heap` to `free` reduced to an int; so it is that
      distance exactly when the distance is an int. */
  lemma {:induction false} AccountingIsExact(s: State, sizes: seq<int>)
    requires forall i :: 0 <= i < |sizes| ==> IsInt32(sizes[i])
    requires s.allocatedsize == Int32(s.free - s.heap)
    ensures var f := Final(s, sizes);
      && f.heap == s.heap
      && f.allocatedsize == Int32(f.free - f.heap)
      && (f.allocatedsize == f.free - f.heap <==> IsInt32(f.free - f.heap))
    decreases |sizes|
  {
    if sizes != [] {
      Int32Adds(s.free - s.heap, sizes[0]);
      AccountingIsExact(Next(s, sizes[0]), sizes[1..]);
    }
  }

  /** With sizes that are not negative the distance stays an int, so `allocatedsize` equals it for ever. */
  lemma {:induction false} AccountingHolds(s: State, sizes: seq<int>)
    requires forall i :: 0 <= i < |sizes| ==> 0 <= sizes[i] && IsInt32(sizes[i])
    requires s.heap <= s.free && IsInt32(s.free - s.heap)
    requires s.allocatedsize == s.free - s.heap
    ensures var f := Final(s, sizes);
      f.heap <= f.free && IsInt32(f.free - f.heap) && f.allocatedsize == f.free - f.heap
    decreases |sizes|
  {
    if sizes != [] {
      AccountingHolds(Next(s, sizes[0]), sizes[1..]);
    }
  }

  /** Every block starts where the one before it ends, and the first one at `free`, unless it would end behind the
      arena; then it starts at `heap`. */
  lemma {:induction false} BlocksAreConsecutive(s: State, sizes: seq<int>, i: nat)
    requires i < |sizes|
    ensures |Blocks(s, sizes)| == |sizes|
    ensures var bs := Blocks(s, sizes);
      var at := if i == 0 then s.free else bs[i - 1].pos + bs[i - 1].size;
      bs[i] == Block(if at + sizes[i] <= s.heap + MAXHEAP then at else s.heap, sizes[i])
    decreases |sizes|
  {
    var s' := Next(s, sizes[0]);
    assert s'.free == Position(s, sizes[0]) + sizes[0];
    if i > 0 {
      BlocksAreConsecutive(s', sizes[1..], i - 1);
    } else if |sizes| > 1 {
      BlocksAreConsecutive(s', sizes[1..], 0);
    }
  }
}
