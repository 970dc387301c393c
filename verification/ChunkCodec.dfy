/** The malloc_chunk reader and writer of gdb.python/zcmd2.py over the memory of a debuggee, and the functions that
    set and clear the in-use bit of a chunk. Words are unsigned and little-endian; `w` is SIZE_SZ, 4 or 8. */
module ChunkCodec {
  import opened Basics

  type Byte = b: int | 0 <= b < 256

  /** The readable and writable bytes of the debuggee. */
  type Memory = map<int, Byte>

  function Power256(n: nat): (p: int)
    ensures p >= 1
  {
    if n == 0 then 1 else 256 * Power256(n - 1)
  }

  /** struct.pack of one word. */
  function Pack(v: int, n: nat): (b: seq<Byte>)
    ensures |b| == n
    decreases n
  {
    if n == 0 then [] else [v % 256] + Pack(v / 256, n - 1)
  }

  /** struct.unpack of one word. */
  function Unpack(b: seq<Byte>): (v: int)
    ensures 0 <= v < Power256(|b|)
  {
    if b == [] then 0 else b[0] + 256 * Unpack(b[1..])
  }

  lemma {:induction false} UnpackPack(v: int, n: nat)
    requires 0 <= v < Power256(n)
    ensures Unpack(Pack(v, n)) == v
    decreases n
  {
    if n > 0 {
      UnpackPack(v / 256, n - 1);
    }
  }

  lemma {:induction false} PackUnpack(b: seq<Byte>)
    ensures Pack(Unpack(b), |b|) == b
  {
    if b != [] {
      PackUnpack(b[1..]);
      assert Unpack(b) % 256 == b[0] && Unpack(b) / 256 == Unpack(b[1..]);
    }
  }

  /** read_memory: None stands for the exception raised when a byte cannot be read. */
  predicate Mapped(m: Memory, a: int, n: nat) {
    forall i :: a <= i < a + n ==> i in m
  }

  function Bytes(m: Memory, a: int, n: nat): (b: seq<Byte>)
    requires Mapped(m, a, n)
    ensures |b| == n
  {
    seq(n, i requires 0 <= i < n => m[a + i])
  }

  /** write_memory, of bytes that are all mapped. */
  function Stored(m: Memory, a: int, b: seq<Byte>): Memory {
    map i | i in m :: if a <= i < a + |b| then b[i - a] else m[i]
  }

  function Word(m: Memory, a: int, w: nat): (v: int)
    requires Mapped(m, a, w)
    ensures 0 <= v < Power256(w)
  {
    Unpack(Bytes(m, a, w))
  }

  datatype Chunk = Chunk(address: int, prevSize: int, size: int, fd: int, bk: int, fdNextsize: int, bkNextsize: int)

  /** struct.unpack of n consecutive words. */
  function ReadWords(m: Memory, a: int, w: nat, n: nat): (ws: seq<int>)
    requires Mapped(m, a, n * w)
    ensures |ws| == n && forall i :: 0 <= i < n ==> WordSized(ws[i], w)
    decreases n
  {
    if n == 0 then []
    else
      assert n * w == w + (n - 1) * w;
      [Word(m, a, w)] + ReadWords(m, a + w, w, n - 1)
  }

  /** struct.pack of consecutive words. */
  function PackWords(ws: seq<int>, w: nat): (b: seq<Byte>)
    ensures |b| == |ws| * w
  {
    if ws == [] then []
    else
      assert |ws| * w == w + (|ws| - 1) * w;
      Pack(ws[0], w) + PackWords(ws[1..], w)
  }

  function Words(c: Chunk): (ws: seq<int>)
    ensures |ws| == 6
  {
    [c.prevSize, c.size, c.fd, c.bk, c.fdNextsize, c.bkNextsize]
  }

  predicate Readable(m: Memory, w: nat, a: int) {
    a != 0 && Mapped(m, a, 6 * w)
  }

  /** malloc_chunk(addr, inuse=False): reads the six words of a free chunk. */
  function ReadChunk(m: Memory, w: nat, a: int): Option<Chunk> {
    if !Readable(m, w, a) then None
    else
      var ws := ReadWords(m, a, w, 6);
      Some(Chunk(a, ws[0], ws[1], ws[2], ws[3], ws[4], ws[5]))
  }

  datatype Header = Header(address: int, prevSize: int, size: int)

  predicate HeaderReadable(m: Memory, w: nat, a: int) {
    a != 0 && Mapped(m, a, 2 * w)
  }

  /** malloc_chunk(addr, inuse=True, read_data=False): reads the two header words only. */
  function ReadHeader(m: Memory, w: nat, a: int): Option<Header> {
    if !HeaderReadable(m, w, a) then None else Some(Header(a, Word(m, a, w), Word(m, a + w, w)))
  }

  /** The bytes malloc_chunk.write packs for a chunk read that way. */
  function PackChunk(c: Chunk, w: nat): (b: seq<Byte>)
    ensures |b| == 6 * w
  {
    PackWords(Words(c), w)
  }

  predicate WordSized(v: int, w: nat) {
    0 <= v < Power256(w)
  }

  /** `size & ~SIZE_BITS`: the three status bits cleared. */
  function Chunksize(size: int): (c: int)
    ensures c % 8 == 0 && c <= size < c + 8
  {
    size - size % 8
  }

  /** `size |= PREV_INUSE` and `size &= ~PREV_INUSE`. */
  datatype BitOp = Set | Clear

  function Changed(v: int, op: BitOp): int {
    match op
    case Set => if v % 2 == 0 then v + 1 else v
    case Clear => v - v % 2
  }

  lemma WordBytes(m: Memory, a: int, w: nat)
    requires Mapped(m, a, w)
    ensures Pack(Word(m, a, w), w) == Bytes(m, a, w)
  {
    PackUnpack(Bytes(m, a, w));
  }

  lemma BytesInParts(m: Memory, a: int, n: nat, k: nat)
    requires Mapped(m, a, n + k)
    ensures Bytes(m, a, n + k) == Bytes(m, a, n) + Bytes(m, a + n, k)
  {
  }

  lemma {:induction false} PackReadWords(m: Memory, a: int, w: nat, n: nat)
    requires Mapped(m, a, n * w)
    ensures PackWords(ReadWords(m, a, w, n), w) == Bytes(m, a, n * w)
    decreases n
  {
    if n > 0 {
      assert n * w == w + (n - 1) * w;
      PackReadWords(m, a + w, w, n - 1);
      WordBytes(m, a, w);
      BytesInParts(m, a, w, (n - 1) * w);
      assert ReadWords(m, a, w, n)[1..] == ReadWords(m, a + w, w, n - 1);
    }
  }

  lemma OneWordLess(n: nat, w: nat) returns (k: nat)
    requires n > 0
    ensures k == (n - 1) * w && n * w == w + k
  {
    k := (n - 1) * w;
  }

  lemma FirstPackedWord(m: Memory, a: int, w: nat, ws: seq<int>, k: nat)
    requires ws != [] && k == (|ws| - 1) * w && |ws| * w == w + k
    requires Mapped(m, a, w + k) && Bytes(m, a, w + k) == PackWords(ws, w)
    ensures Bytes(m, a, w) == Pack(ws[0], w) && Bytes(m, a + w, k) == PackWords(ws[1..], w)
  {
    BytesInParts(m, a, w, k);
    var b := PackWords(ws, w);
    assert b[..w] == Pack(ws[0], w) == Bytes(m, a, w);
    assert b[w..] == PackWords(ws[1..], w) == Bytes(m, a + w, k);
  }

  lemma {:induction false} ReadPackedWords(m: Memory, a: int, w: nat, ws: seq<int>)
    requires forall i :: 0 <= i < |ws| ==> WordSized(ws[i], w)
    requires Mapped(m, a, |ws| * w) && Bytes(m, a, |ws| * w) == PackWords(ws, w)
    ensures ReadWords(m, a, w, |ws|) == ws
    decreases |ws|
  {
    if ws != [] {
      var k := OneWordLess(|ws|, w);
      FirstPackedWord(m, a, w, ws, k);
      UnpackPack(ws[0], w);
      assert |ws[1..]| * w == k;
      ReadPackedWords(m, a + w, w, ws[1..]);
    }
  }

  /** Writing back a chunk that was read gives the bytes that were read. */
  lemma WriteReadChunk(m: Memory, w: nat, a: int)
    requires ReadChunk(m, w, a) != None
    ensures PackChunk(ReadChunk(m, w, a).value, w) == Bytes(m, a, 6 * w)
  {
    PackReadWords(m, a, w, 6);
    assert Words(ReadChunk(m, w, a).value) == ReadWords(m, a, w, 6);
  }

  predicate Fits(c: Chunk, w: nat) {
    forall i :: 0 <= i < 6 ==> WordSized(Words(c)[i], w)
  }

  /** Reading a chunk that was written gives the chunk that was written. */
  lemma ReadWrittenChunk(m: Memory, w: nat, c: Chunk)
    requires Fits(c, w) && Readable(m, w, c.address)
    ensures ReadChunk(Stored(m, c.address, PackChunk(c, w)), w, c.address) == Some(c)
  {
    var b := PackChunk(c, w);
    var m' := Stored(m, c.address, b);
    assert m'.Keys == m.Keys;
    assert Mapped(m', c.address, 6 * w);
    assert Bytes(m', c.address, 6 * w) == b;
    ReadPackedWords(m', c.address, w, Words(c));
  }

  /** Where the words of a chunk are in memory. */
  lemma ChunkFields(m: Memory, w: nat, a: int)
    requires Readable(m, w, a)
    ensures Mapped(m, a + w, w) && Mapped(m, a + 2 * w, w)
    ensures ReadChunk(m, w, a).value.address == a
    ensures ReadChunk(m, w, a).value.size == Word(m, a + w, w)
    ensures ReadChunk(m, w, a).value.fd == Word(m, a + 2 * w, w)
  {
    var w5, w4 := ReadWords(m, a + w, w, 5), ReadWords(m, a + w + w, w, 4);
    assert ReadWords(m, a, w, 6) == [Word(m, a, w)] + w5;
    assert w5 == [Word(m, a + w, w)] + w4;
    assert w4 == [Word(m, a + w + w, w)] + ReadWords(m, a + w + w + w, w, 3);
    assert a + w + w == a + 2 * w;
  }

  lemma {:induction false} WordInside(m: Memory, a: int, w: nat, n: nat, j: nat)
    requires Mapped(m, a, n * w) && j < n
    ensures Mapped(m, a + j * w, w) && ReadWords(m, a, w, n)[j] == Word(m, a + j * w, w)
    decreases j
  {
    assert n * w == w + (n - 1) * w && (n - 1) * w >= 0;
    if j > 0 {
      WordInside(m, a + w, w, n - 1, j - 1);
      assert j * w == w + (j - 1) * w;
    } else {
      assert 0 * w == 0;
    }
  }

  /** Where malloc_chunk finds its fields. */
  lemma FieldsInMemory(m: Memory, w: nat, a: int)
    requires Readable(m, w, a)
    ensures forall j :: 0 <= j < 6 ==> Mapped(m, a + j * w, w)
    ensures ReadChunk(m, w, a) == Some(Chunk(a, Word(m, a + 0 * w, w), Word(m, a + 1 * w, w), Word(m, a + 2 * w, w),
                                             Word(m, a + 3 * w, w), Word(m, a + 4 * w, w), Word(m, a + 5 * w, w)))
  {
    forall j: nat | j < 6
      ensures Mapped(m, a + j * w, w) && ReadWords(m, a, w, 6)[j] == Word(m, a + j * w, w)
    {
      WordInside(m, a, w, 6, j);
    }
  }

  lemma DivideByProduct(b: int, x: int, p: int)
    requires 0 <= b < 256 && p >= 1
    ensures (b + 256 * x) / (256 * p) == x / p
  {
    var q, r := x / p, x % p;
    assert x == p * q + r && 0 <= r < p;
    assert b + 256 * x == (256 * p) * q + (256 * r + b);
    QuotientIs(b + 256 * x, 256 * p, q, 256 * r + b);
  }

  lemma QuotientIs(n: int, d: int, q: int, r: int)
    requires 0 <= r < d && n == d * q + r
    ensures n / d == q
  {
    var k, t := n / d, n % d;
    assert n == d * k + t && 0 <= t < d;
    assert d * (q - k) == t - r;
    assert q - k >= 1 ==> d * (q - k) >= d;
    assert q - k <= -1 ==> d * (q - k) <= -d;
  }

  /** Words are little-endian: digit k of a word to the base 256 is its byte k. */
  lemma {:induction false} ByteOfWord(b: seq<Byte>, k: nat)
    requires k < |b|
    ensures Unpack(b) / Power256(k) % 256 == b[k]
    decreases k
  {
    if k > 0 {
      DivideByProduct(b[0], Unpack(b[1..]), Power256(k - 1));
      ByteOfWord(b[1..], k - 1);
    }
  }

  /** Changing bit 0 of a word changes its first byte only. */
  lemma BitInPack(v: int, w: nat, op: BitOp)
    requires v >= 0 && w > 0
    ensures Pack(Changed(v, op), w) == Pack(v, w)[0 := Changed(Pack(v, w)[0], op)]
  {
    LowByte(v, op);
    assert Pack(v, w) == [v % 256] + Pack(v / 256, w - 1);
    assert Pack(Changed(v, op), w) == [Changed(v, op) % 256] + Pack(Changed(v, op) / 256, w - 1);
  }

  lemma SplitByte(q: int, r: int)
    requires 0 <= r < 256
    ensures (256 * q + r) / 256 == q && (256 * q + r) % 256 == r
  {
  }

  lemma ByteParity(q: int, r: int)
    ensures (256 * q + r) % 2 == r % 2
  {
    assert 256 * q == 2 * (128 * q);
  }

  lemma ChangedByte(r: int, op: BitOp)
    requires 0 <= r < 256
    ensures 0 <= Changed(r, op) < 256
  {
    assert r % 2 == 0 ==> r != 255;
  }

  lemma LowByte(v: int, op: BitOp)
    requires v >= 0
    ensures Changed(v, op) / 256 == v / 256 && Changed(v, op) % 256 == Changed(v % 256, op)
  {
    var q, r := v / 256, v % 256;
    ByteParity(q, r);
    ChangedByte(r, op);
    assert Changed(v, op) == 256 * q + Changed(r, op);
    SplitByte(q, Changed(r, op));
  }

  lemma PackTwo(ws: seq<int>, w: nat)
    requires |ws| >= 2
    ensures PackWords(ws, w) == Pack(ws[0], w) + (Pack(ws[1], w) + PackWords(ws[2..], w))
  {
    assert ws[1..][1..] == ws[2..];
  }

  lemma UpdateInMiddle(p: seq<Byte>, q: seq<Byte>, r: seq<Byte>, byte: Byte)
    requires q != []
    ensures p + (q[0 := byte] + r) == (p + (q + r))[|p| := byte]
  {
  }

  lemma SecondWordByte(ws: seq<int>, w: nat, v: int, byte: Byte)
    requires w > 0 && |ws| >= 2 && Pack(v, w) == Pack(ws[1], w)[0 := byte]
    ensures |PackWords(ws, w)| > w && PackWords(ws[1 := v], w) == PackWords(ws, w)[w := byte]
  {
    PackTwo(ws, w);
    PackTwo(ws[1 := v], w);
    assert ws[1 := v][2..] == ws[2..];
    UpdateInMiddle(Pack(ws[0], w), Pack(ws[1], w), PackWords(ws[2..], w), byte);
  }

  lemma PackedSizeByte(c: Chunk, w: nat, size: int, byte: Byte)
    requires w > 0 && Pack(size, w) == Pack(c.size, w)[0 := byte]
    ensures PackChunk(c.(size := size), w) == PackChunk(c, w)[w := byte]
  {
    SecondWordByte(Words(c), w, size, byte);
    assert Words(c.(size := size)) == Words(c)[1 := size];
  }

  /** Writing back a chunk whose size word got another first byte changes one byte of memory. */
  lemma SizeByteWrite(m: Memory, w: nat, c: Chunk, size: int, byte: Byte)
    requires w > 0 && ReadChunk(m, w, c.address) == Some(c)
    requires Pack(size, w) == Pack(c.size, w)[0 := byte]
    ensures Stored(m, c.address, PackChunk(c.(size := size), w)) == m[c.address + w := byte]
  {
    WriteReadChunk(m, w, c.address);
    var b := PackChunk(c, w);
    assert Mapped(m, c.address, |b|) && b == Bytes(m, c.address, |b|) && w < |b|;
    StoreOneByte(m, c.address, b, w, byte);
    PackedSizeByte(c, w, size, byte);
  }

  lemma StoreOneByte(m: Memory, a: int, b: seq<Byte>, k: nat, byte: Byte)
    requires Mapped(m, a, |b|) && b == Bytes(m, a, |b|) && k < |b|
    ensures Stored(m, a, b[k := byte]) == m[a + k := byte]
  {
    var m' := Stored(m, a, b[k := byte]);
    assert m'.Keys == m.Keys;
    forall i | i in m
      ensures m'[i] == m[a + k := byte][i]
    {
      assert a <= i < a + |b| ==> b[i - a] == m[i];
    }
  }

  lemma {:induction false} PowerIsEven(w: nat)
    requires w > 0
    ensures Power256(w) % 2 == 0
  {
    assert Power256(w) == 2 * (128 * Power256(w - 1));
  }

  lemma ChangedFits(v: int, w: nat, op: BitOp)
    requires w > 0 && WordSized(v, w)
    ensures WordSized(Changed(v, op), w) && Changed(v, op) % 2 == if op == Set then 1 else 0
  {
    PowerIsEven(w);
  }

  lemma ChangedChunk(m: Memory, w: nat, c: Chunk, size: int)
    requires ReadChunk(m, w, c.address) == Some(c) && WordSized(size, w)
    ensures Fits(c.(size := size), w)
  {
    assert Words(c) == ReadWords(m, c.address, w, 6);
    assert Words(c.(size := size)) == Words(c)[1 := size];
  }

  /** The chunk after p, with the in-use bit of p changed. */
  function ChangedNext(m: Memory, w: nat, p: Chunk, op: BitOp): Chunk
    requires Readable(m, w, NextAddress(p))
  {
    var c := ReadChunk(m, w, NextAddress(p)).value;
    c.(size := Changed(c.size, op))
  }

  function NextAddress(p: Chunk): (a: int)
    ensures (a - p.address) % 8 == 0 && a <= p.address + p.size < a + 8
  {
    p.address + Chunksize(p.size)
  }

  /** inuse(p) for a chunk object p. The reader raises an exception (None) if it can read the two header words but not
      all six; if it cannot read the header either it prints an error and leaves the size 0. */
  function Inuse(m: Memory, w: nat, p: Chunk): Option<int> {
    if !HeaderReadable(m, w, NextAddress(p)) then Some(0)
    else if !Readable(m, w, NextAddress(p)) then None
    else Some(ReadChunk(m, w, NextAddress(p)).value.size % 2)
  }

  /** Memory after set_inuse(p) or clear_inuse(p): bit 0 of one byte. */
  function AfterChange(m: Memory, w: nat, p: Chunk, op: BitOp): Memory {
    var a := NextAddress(p) + w;
    if !Readable(m, w, NextAddress(p)) || a !in m then m else m[a := Changed(m[a], op)]
  }

  lemma WriteBackIsOneByte(m: Memory, w: nat, a: int, op: BitOp)
    requires w > 0 && Readable(m, w, a)
    ensures a + w in m
    ensures var c := ReadChunk(m, w, a).value;
      Stored(m, a, PackChunk(c.(size := Changed(c.size, op)), w)) == m[a + w := Changed(m[a + w], op)]
  {
    var c := ReadChunk(m, w, a).value;
    ChunkFields(m, w, a);
    BitInPack(c.size, w, op);
    WordBytes(m, a + w, w);
    assert Bytes(m, a + w, w)[0] == m[a + w];
    SizeByteWrite(m, w, c, Changed(c.size, op), Changed(m[a + w], op));
  }

  lemma WriteBackReadsBack(m: Memory, w: nat, a: int, op: BitOp)
    requires w > 0 && Readable(m, w, a)
    ensures var c := ReadChunk(m, w, a).value;
      var c' := c.(size := Changed(c.size, op));
      ReadChunk(Stored(m, a, PackChunk(c', w)), w, a) == Some(c') && c'.size % 2 == if op == Set then 1 else 0
  {
    var c := ReadChunk(m, w, a).value;
    ChunkFields(m, w, a);
    ChangedFits(c.size, w, op);
    ChangedChunk(m, w, c, Changed(c.size, op));
    ReadWrittenChunk(m, w, c.(size := Changed(c.size, op)));
  }

  /** Nothing but bit 0 of the byte at a differs, and it is `bit` afterwards. */
  ghost predicate OnlyBitDiffers(before: Memory, after: Memory, a: int, bit: int) {
    && a in before && after.Keys == before.Keys
    && (forall i :: i in before && i != a ==> after[i] == before[i])
    && after[a] / 2 == before[a] / 2 && after[a] % 2 == bit
  }

  lemma ChangedBit(v: int, op: BitOp)
    ensures Changed(v, op) / 2 == v / 2 && Changed(v, op) % 2 == if op == Set then 1 else 0
  {
  }

  lemma AfterChangeIsOneBit(m: Memory, w: nat, p: Chunk, op: BitOp)
    requires w > 0 && Readable(m, w, NextAddress(p))
    ensures OnlyBitDiffers(m, AfterChange(m, w, p, op), NextAddress(p) + w, if op == Set then 1 else 0)
  {
    var a := NextAddress(p) + w;
    assert a in m;
    ChangedBit(m[a], op);
  }

  lemma InuseReadsNext(m: Memory, w: nat, p: Chunk, c: Chunk)
    requires ReadChunk(m, w, NextAddress(p)) == Some(c)
    ensures Inuse(m, w, p) == Some(c.size % 2)
  {
    assert HeaderReadable(m, w, NextAddress(p));
  }

  /** inuse reads bit 0 of the size word of the next chunk. */
  lemma InuseIsOneBit(m: Memory, w: nat, p: Chunk)
    requires w > 0 && Readable(m, w, NextAddress(p))
    ensures NextAddress(p) + w in m && Inuse(m, w, p) == Some(m[NextAddress(p) + w] % 2)
  {
    var a := NextAddress(p);
    ChunkFields(m, w, a);
    assert Word(m, a + w, w) == m[a + w] + 256 * Unpack(Bytes(m, a + w, w)[1..]);
    ByteParity(Unpack(Bytes(m, a + w, w)[1..]), m[a + w]);
    InuseReadsNext(m, w, p, ReadChunk(m, w, a).value);
  }

  /** Although six words are written back, the only bit of memory that changes is PREV_INUSE of the next chunk, and
      reading it afterwards gives what was set. */
  lemma WriteBackChangesOneBit(m: Memory, w: nat, p: Chunk, op: BitOp)
    requires w > 0 && Readable(m, w, NextAddress(p))
    ensures NextAddress(p) + w in m
    ensures Stored(m, NextAddress(p), PackChunk(ChangedNext(m, w, p, op), w)) == AfterChange(m, w, p, op)
    ensures Inuse(AfterChange(m, w, p, op), w, p) == Some(if op == Set then 1 else 0)
    ensures OnlyBitDiffers(m, Stored(m, NextAddress(p), PackChunk(ChangedNext(m, w, p, op), w)), NextAddress(p) + w,
                           if op == Set then 1 else 0)
  {
    var c := ChangedNext(m, w, p, op);
    var m' := Stored(m, NextAddress(p), PackChunk(c, w));
    WriteBackIsOneByte(m, w, NextAddress(p), op);
    assert m' == AfterChange(m, w, p, op);
    WriteBackReadsBack(m, w, NextAddress(p), op);
    InuseReadsNext(m', w, p, c);
    AfterChangeIsOneBit(m, w, p, op);
  }

  class Inferior {
    var mem: Memory
    const sizeSz: nat

    constructor (mem: Memory, sizeSz: nat)
      requires sizeSz == 4 || sizeSz == 8
      ensures this.mem == mem && this.sizeSz == sizeSz
    {
      this.mem := mem;
      this.sizeSz := sizeSz;
    }

    /** malloc_chunk.write; an exception, when not all bytes can be written, leaves memory alone. */
    method WriteChunk(c: Chunk) returns (ok: bool)
      modifies this`mem
      ensures ok == Mapped(old(mem), c.address, 6 * sizeSz)
      ensures mem == if ok then Stored(old(mem), c.address, PackChunk(c, sizeSz)) else old(mem)
    {
      ok := Mapped(mem, c.address, 6 * sizeSz);
      if ok {
        mem := Stored(mem, c.address, PackChunk(c, sizeSz));
      }
    }

    /** set_inuse(p), for Set, and clear_inuse(p), for Clear. A next chunk that cannot be read cannot be written
        back either: the call ends in an exception and memory stays as it was. */
    method ChangeInuse(p: Chunk, op: BitOp) returns (ok: bool)
      requires sizeSz == 4 || sizeSz == 8
      modifies this`mem
      ensures ok <==> old(Readable(mem, sizeSz, NextAddress(p)))
      ensures mem == AfterChange(old(mem), sizeSz, p, op)
      ensures ok ==> Inuse(mem, sizeSz, p) == Some(if op == Set then 1 else 0)
      ensures ok ==>
        OnlyBitDiffers(old(mem), mem, NextAddress(p) + sizeSz, if op == Set then 1 else 0)
      ensures !ok ==> mem == old(mem)
    {
      ok := Readable(mem, sizeSz, NextAddress(p));
      if ok {
        var chunk := ChangedNext(mem, sizeSz, p, op);
        WriteBackChangesOneBit(mem, sizeSz, p, op);
        ok := WriteChunk(chunk);
      }
    }
  }

  /** The later of two calls on a chunk decides, and of a set and a clear exactly one changes memory. */
  lemma LastCallDecides(m: Memory, w: nat, p: Chunk, op1: BitOp, op2: BitOp)
    requires w > 0
    ensures AfterChange(AfterChange(m, w, p, op1), w, p, op2) == AfterChange(m, w, p, op2)
    ensures Readable(m, w, NextAddress(p)) ==> (AfterChange(m, w, p, Set) == m <==> AfterChange(m, w, p, Clear) != m)
  {
    var a := NextAddress(p) + w;
    if Readable(m, w, NextAddress(p)) {
      assert a in m;
      var m1 := AfterChange(m, w, p, op1);
      assert Readable(m1, w, NextAddress(p));
      assert m1[a := Changed(m1[a], op2)] == m[a := Changed(m[a], op2)];
      assert m[a := m[a]] == m;
      assert m[a := Changed(m[a], Set)][a] != m[a := Changed(m[a], Clear)][a];
      assert Changed(m[a], Set) == m[a] || Changed(m[a], Clear) == m[a];
    }
  }
}
