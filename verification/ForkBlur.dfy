/** The fork/join blur of src_java/ForkBlur.java. A pixel is an unsigned 32-bit value; the channel averages are added up
    in binary32 floats, rounded to nearest with ties to even. */
module ForkBlur {
  import opened Floats

  const THRESHOLD: int := 10000
  const BLUR_WIDTH: int := 15
  const SIDE_PIXELS: int := (BLUR_WIDTH - 1) / 2

  type Pixel = p: int | 0 <= p < 0x1_0000_0000

  datatype Channel = Red | Green | Blue

  /** `(pixel & 0x00ff0000) >> 16` and the like. */
  function Get(c: Channel, pixel: Pixel): (v: int)
    ensures 0 <= v < 256
  {
    match c
    case Red => (pixel / 0x1_0000) % 0x100
    case Green => (pixel / 0x100) % 0x100
    case Blue => pixel % 0x100
  }

  /** `0xff000000 | r << 16 | g << 8 | b`. */
  function Opaque(r: int, g: int, b: int): Pixel
    requires 0 <= r < 256 && 0 <= g < 256 && 0 <= b < 256
  {
    0xff00_0000 + r * 0x1_0000 + g * 0x100 + b
  }

  lemma GetOpaque(r: int, g: int, b: int)
    requires 0 <= r < 256 && 0 <= g < 256 && 0 <= b < 256
    ensures Get(Red, Opaque(r, g, b)) == r && Get(Green, Opaque(r, g, b)) == g && Get(Blue, Opaque(r, g, b)) == b
  {
    var p := Opaque(r, g, b);
    var low := g * 0x100 + b;
    assert p == (0xff00 + r) * 0x1_0000 + low && 0 <= low < 0x1_0000;
    assert p / 0x1_0000 == 0xff00 + r;
    assert p == (0xff_0000 + r * 0x100 + g) * 0x100 + b;
    assert p / 0x100 == 0xff_0000 + r * 0x100 + g && p % 0x100 == b;
  }

  /** A pixel is its four bytes: alpha, red, green and blue, from the highest down. */
  lemma PixelBytes(pixel: Pixel)
    ensures pixel == pixel / 0x100_0000 * 0x100_0000
      + Get(Red, pixel) * 0x1_0000 + Get(Green, pixel) * 0x100 + Get(Blue, pixel)
  {
    var a, b := pixel / 0x100, pixel / 0x1_0000;
    assert pixel == a * 0x100 + Get(Blue, pixel);
    assert b == a / 0x100 && a == b * 0x100 + Get(Green, pixel);
    assert pixel / 0x100_0000 == b / 0x100 && b == b / 0x100 * 0x100 + Get(Red, pixel);
  }

  /** Index of the window clamped to the picture. */
  function Clamp(i: int, n: int): (k: int)
    requires n > 0
    ensures 0 <= k < n && (0 <= i < n ==> k == i)
  {
    var lower := if i > 0 then i else 0;
    if lower < n - 1 then lower else n - 1
  }

  /** A channel of the k-th of the 15 window positions around `index`. */
  function InWindow(src: seq<Pixel>, c: Channel, index: int, k: int): (v: int)
    requires src != []
    ensures 0 <= v < 256
  {
    Get(c, src[Clamp(index - SIDE_PIXELS + k, |src|)])
  }

  /** Sum of a channel over the first m of the 15 window positions around `index`. */
  function WindowSum(src: seq<Pixel>, c: Channel, index: int, m: nat): int
    requires src != []
  {
    if m == 0 then 0
    else WindowSum(src, c, index, m - 1) + InWindow(src, c, index, m - 1)
  }

  lemma {:induction false} WindowSumBounds(src: seq<Pixel>, c: Channel, index: int, m: nat, lo: int, hi: int)
    requires src != []
    requires forall k :: 0 <= k < m ==> lo <= InWindow(src, c, index, k) <= hi
    ensures m * lo <= WindowSum(src, c, index, m) <= m * hi
  {
    if m > 0 {
      WindowSumBounds(src, c, index, m - 1, lo, hi);
      assert m * lo == (m - 1) * lo + lo && m * hi == (m - 1) * hi + hi;
    }
  }

  // ----- averages in floats -----

  /** `(float) v / 15`. */
  function Fifteenth(v: nat): nat {
    Rounded(v * ONE, 15)
  }

  lemma FifteenthIsClose(v: nat)
    requires v < 256
    ensures -0x1e00 <= 30 * Fifteenth(v) - 2 * v * ONE <= 0x1e00
  {
    RoundedIsClose(v * ONE, 15, 512);
  }

  lemma FloatAddIsClose(a: nat, b: nat)
    requires a + b < 256 * ONE
    ensures -0x800 <= 2 * FloatAdd(a, b) - 2 * (a + b) <= 0x800
  {
    RoundedIsClose(a + b, 1, 2048);
  }

  /** The float total of a channel over the first m of the 15 window positions around `index`. */
  function FloatSum(src: seq<Pixel>, c: Channel, index: int, m: nat): nat
    requires src != []
  {
    if m == 0 then 0
    else FloatAdd(FloatSum(src, c, index, m - 1), Fifteenth(InWindow(src, c, index, m - 1)))
  }

  /** One more float adds an error of at most 0x9600 / 30 units, which is 2^-16 and less. */
  lemma OneMoreIsClose(total: nat, v: nat, sum: nat, m: nat)
    requires v < 256 && sum <= 255 * m && m < BLUR_WIDTH
    requires -0x9600 * m <= 30 * total - 2 * ONE * sum <= 0x9600 * m
    ensures var next := FloatAdd(total, Fifteenth(v));
      -0x9600 * (m + 1) <= 30 * next - 2 * ONE * (sum + v) <= 0x9600 * (m + 1)
  {
    var f := Fifteenth(v);
    FifteenthIsClose(v);
    FloatAddIsClose(total, f);
  }

  lemma {:induction false} FloatSumIsClose(src: seq<Pixel>, c: Channel, index: int, m: nat)
    requires src != [] && m <= BLUR_WIDTH
    ensures -0x9600 * m <= 30 * FloatSum(src, c, index, m) - 2 * ONE * WindowSum(src, c, index, m) <= 0x9600 * m
  {
    if m > 0 {
      var v := InWindow(src, c, index, m - 1);
      FloatSumIsClose(src, c, index, m - 1);
      WindowSumBounds(src, c, index, m - 1, 0, 255);
      OneMoreIsClose(FloatSum(src, c, index, m - 1), v, WindowSum(src, c, index, m - 1), m - 1);
    }
  }

  /** What is written for a channel: the float total, truncated. */
  function Average(src: seq<Pixel>, c: Channel, index: int): (v: int)
    requires src != []
    ensures 0 <= v < 256
  {
    AverageIsExactOrOneLess(src, c, index);
    WindowSumBounds(src, c, index, BLUR_WIDTH, 0, 255);
    FloatSum(src, c, index, BLUR_WIDTH) / ONE
  }

  /** Truncating the float total gives the integer average of the 15 channel values, except that it may give one less
      when their sum is a multiple of 15. */
  lemma AverageIsExactOrOneLess(src: seq<Pixel>, c: Channel, index: int)
    requires src != []
    ensures var sum := WindowSum(src, c, index, BLUR_WIDTH);
      var v := FloatSum(src, c, index, BLUR_WIDTH) / ONE;
      v == sum / 15 || (sum % 15 == 0 && v == sum / 15 - 1)
  {
    FloatSumIsClose(src, c, index, BLUR_WIDTH);
  }

  /** The blurred pixel at `index`. */
  function Blurred(src: seq<Pixel>, index: int): Pixel
    requires src != []
  {
    Opaque(Average(src, Red, index), Average(src, Green, index), Average(src, Blue, index))
  }

  lemma ChannelOfBlurred(src: seq<Pixel>, c: Channel, index: int)
    requires src != []
    ensures Get(c, Blurred(src, index)) == Average(src, c, index)
  {
    GetOpaque(Average(src, Red, index), Average(src, Green, index), Average(src, Blue, index));
  }

  // ----- windows of one value -----

  /** The float total of m equal channel values. */
  function FlatSum(v: nat, m: nat): nat {
    if m == 0 then 0 else FloatAdd(FlatSum(v, m - 1), Fifteenth(v))
  }

  /** Fifteen times the float v / 15 add up to less than v. */
  predicate Loses(v: int) {
    v >= 0 && FlatSum(v, BLUR_WIDTH) < v * ONE
  }

  lemma {:induction false} FlatWindow(src: seq<Pixel>, c: Channel, index: int, v: nat, m: nat)
    requires src != [] && forall k :: 0 <= k < m ==> InWindow(src, c, index, k) == v
    ensures FloatSum(src, c, index, m) == FlatSum(v, m)
  {
    if m > 0 {
      FlatWindow(src, c, index, v, m - 1);
    }
  }

  lemma {:induction false} LeastSumIsFlat(src: seq<Pixel>, c: Channel, index: int, m: nat, lo: int)
    requires src != [] && forall k :: 0 <= k < m ==> lo <= InWindow(src, c, index, k)
    requires WindowSum(src, c, index, m) <= m * lo
    ensures forall k :: 0 <= k < m ==> InWindow(src, c, index, k) == lo
  {
    if m > 0 {
      assert m * lo == (m - 1) * lo + lo;
      WindowSumBounds(src, c, index, m - 1, lo, 255);
      LeastSumIsFlat(src, c, index, m - 1, lo);
    }
  }

  /** Every output channel lies between any bounds of that channel over the 15 pixels of the clamped window, hence
      between their minimum and maximum, except in one case: where the whole window has one value that loses, it comes
      out as one less. */
  lemma BlurStaysInWindow(src: seq<Pixel>, c: Channel, index: int, lo: int, hi: int)
    requires src != []
    requires forall k :: 0 <= k < BLUR_WIDTH ==> lo <= InWindow(src, c, index, k) <= hi
    ensures lo - 1 <= Get(c, Blurred(src, index)) <= hi
    ensures lo <= Get(c, Blurred(src, index)) <==>
      !((forall k :: 0 <= k < BLUR_WIDTH ==> InWindow(src, c, index, k) == lo) && Loses(lo))
  {
    WindowSumBounds(src, c, index, BLUR_WIDTH, lo, hi);
    ChannelOfBlurred(src, c, index);
    AverageIsExactOrOneLess(src, c, index);
    if Average(src, c, index) < lo {
      LeastSumIsFlat(src, c, index, BLUR_WIDTH, lo);
      assert InWindow(src, c, index, 0) == lo;
    }
    if forall k :: 0 <= k < BLUR_WIDTH ==> InWindow(src, c, index, k) == lo {
      assert InWindow(src, c, index, 0) == lo;
      FlatWindow(src, c, index, lo, BLUR_WIDTH);
    }
  }

  /** What the window around `index` holds: the pixels at most 7 away, the outermost ones repeated at an edge of the
      picture. */
  lemma WindowPixels(src: seq<Pixel>, c: Channel, index: int, lo: int, hi: int)
    requires 0 <= index < |src|
    ensures (forall k :: 0 <= k < 15 ==> lo <= InWindow(src, c, index, k) <= hi) <==>
      forall j :: 0 <= j < |src| && index - 7 <= j <= index + 7 ==> lo <= Get(c, src[j]) <= hi
  {
    if forall k :: 0 <= k < 15 ==> lo <= InWindow(src, c, index, k) <= hi {
      forall j | 0 <= j < |src| && index - 7 <= j <= index + 7
        ensures lo <= Get(c, src[j]) <= hi
      {
        assert InWindow(src, c, index, j - index + 7) == Get(c, src[j]);
      }
    }
    if forall j :: 0 <= j < |src| && index - 7 <= j <= index + 7 ==> lo <= Get(c, src[j]) <= hi {
      forall k | 0 <= k < 15
        ensures lo <= InWindow(src, c, index, k) <= hi
      {
        var j := Clamp(index - 7 + k, |src|);
        assert index - 7 <= j <= index + 7;
      }
    }
  }

  /** Every output channel lies between any bounds of that channel over the pixels of the picture at most 7 away, hence
      between their minimum and maximum, except in one case: where all of them have one value that loses, it comes out
      as one less. */
  lemma BlurStaysNear(src: seq<Pixel>, c: Channel, index: int, lo: int, hi: int)
    requires 0 <= index < |src|
    requires forall j :: 0 <= j < |src| && index - 7 <= j <= index + 7 ==> lo <= Get(c, src[j]) <= hi
    ensures lo - 1 <= Get(c, Blurred(src, index)) <= hi
    ensures lo <= Get(c, Blurred(src, index)) <==>
      !(Loses(lo) && forall j :: 0 <= j < |src| && index - 7 <= j <= index + 7 ==> Get(c, src[j]) == lo)
  {
    WindowPixels(src, c, index, lo, hi);
    WindowPixels(src, c, index, lo, lo);
    BlurStaysInWindow(src, c, index, lo, hi);
    assert (forall k :: 0 <= k < 15 ==> lo <= InWindow(src, c, index, k) <= lo) <==>
      forall k :: 0 <= k < 15 ==> InWindow(src, c, index, k) == lo;
  }

  function Repeat(pixel: Pixel, n: nat): (r: seq<Pixel>)
    ensures |r| == n && forall i :: 0 <= i < n ==> r[i] == pixel
  {
    seq(n, _ => pixel)
  }

  /** The picture with its first and its last pixel repeated seven times. */
  function Padded(src: seq<Pixel>): (r: seq<Pixel>)
    requires src != []
  {
    Repeat(src[0], 7) + src + Repeat(src[|src| - 1], 7)
  }

  function ChannelSum(ps: seq<Pixel>, c: Channel): int {
    if ps == [] then 0 else ChannelSum(ps[..|ps| - 1], c) + Get(c, ps[|ps| - 1])
  }

  lemma PaddedAt(src: seq<Pixel>, i: nat)
    requires src != [] && i < |src| + 14
    ensures |Padded(src)| == |src| + 14
    ensures Padded(src)[i] == src[Clamp(i - 7, |src|)]
  {
    var j := Clamp(i - 7, |src|);
    assert j == if i < 7 then 0 else if i - 7 < |src| then i - 7 else |src| - 1;
  }

  lemma {:induction false} WindowSumIsPlain(src: seq<Pixel>, c: Channel, index: int, m: nat)
    requires 0 <= index < |src| && m <= 15
    ensures WindowSum(src, c, index, m) == ChannelSum(Padded(src)[index..index + m], c)
  {
    if m > 0 {
      var p := Padded(src);
      WindowSumIsPlain(src, c, index, m - 1);
      assert p[index..index + m][..m - 1] == p[index..index + m - 1];
      PaddedAt(src, index + m - 1);
    }
  }

  /** What is written at `index`, from the 15 pixels of the padded picture there: for each channel their sum divided by
      15, or one less if it is a multiple of 15; and no transparency. */
  lemma BlurIsWindowAverage(src: seq<Pixel>, c: Channel, index: int)
    requires 0 <= index < |src|
    ensures var sum, v := ChannelSum(Padded(src)[index..index + 15], c), Get(c, Blurred(src, index));
      v == sum / 15 || (sum % 15 == 0 && v == sum / 15 - 1)
    ensures Blurred(src, index) >= 0xff00_0000
  {
    WindowSumIsPlain(src, c, index, 15);
    ChannelOfBlurred(src, c, index);
    AverageIsExactOrOneLess(src, c, index);
  }

  /** A channel of a picture of one colour stays as it is exactly when its value does not lose, and otherwise goes down
      by one. */
  lemma BlurKeepsFlatPictures(src: seq<Pixel>, index: int, c: Channel)
    requires src != [] && forall i :: 0 <= i < |src| ==> src[i] == src[0]
    ensures var v := Get(c, src[0]);
      Get(c, Blurred(src, index)) == if Loses(v) then v - 1 else v
  {
    BlurStaysInWindow(src, c, index, Get(c, src[0]), Get(c, src[0]));
  }

  /** Whole numbers need no rounding. */
  lemma WholeIsExact(k: nat)
    requires k < 256
    ensures Rounded(k * ONE, 1) == k * ONE
    ensures Fifteenth(15 * k) == k * ONE
  {
    var y := 0x1_0000 * k;
    assert k * ONE == 2048 * y;
    RoundedIsExact(1, 2048, y);
    RoundedIsExact(15, 2048, y);
  }

  lemma {:induction false} WholeSum(k: nat, m: nat)
    requires k < 18 && m <= BLUR_WIDTH && m * k < 256
    ensures FlatSum(15 * k, m) == m * k * ONE
  {
    if m > 0 {
      assert m * k == (m - 1) * k + k;
      WholeSum(k, m - 1);
      WholeIsExact(k);
      WholeIsExact(m * k);
    }
  }

  /** Multiples of 15, among them black 0 and white 255, do not lose. */
  lemma MultiplesDoNotLose(v: nat)
    requires v < 256 && v % 15 == 0
    ensures !Loses(v)
  {
    WholeSum(v / 15, BLUR_WIDTH);
  }

  lemma FifteenthIsNormal(v: nat)
    requires 0 < v < 256
    ensures Fifteenth(v) >= 0x80_0000
  {
    FifteenthIsClose(v);
  }

  lemma {:induction false} DoubleSum(v: nat, m: nat)
    requires 0 < v < 128
    ensures FlatSum(2 * v, m) == 2 * FlatSum(v, m)
  {
    assert 2 * v * ONE == 2 * (v * ONE);
    RoundedDouble(v * ONE, 15);
    if m > 0 {
      DoubleSum(v, m - 1);
      FifteenthIsNormal(v);
      RoundedDouble(FlatSum(v, m - 1) + Fifteenth(v), 1);
    }
  }

  /** A value loses exactly when its double does: which odd values lose decides it for all. */
  lemma LosesLikeItsDouble(v: nat)
    requires 0 < v < 128
    ensures Loses(2 * v) <==> Loses(v)
  {
    DoubleSum(v, BLUR_WIDTH);
  }

  lemma FifteenthOf19()
    ensures Fifteenth(19) == 170009120
  {
    RoundedIs(19 * ONE, 15, 16, 10625570);
  }

  lemma FiveNineteens()
    ensures FloatAdd(0, 170009120) == 170009120
    ensures FloatAdd(170009120, 170009120) == 340018240
    ensures FloatAdd(340018240, 170009120) == 510027360
    ensures FloatAdd(510027360, 170009120) == 680036480
    ensures FloatAdd(680036480, 170009120) == 850045568
  {
    FloatAddIs(0, 170009120, 16, 10625570);
    FloatAddIs(170009120, 170009120, 32, 10625570);
    FloatAddIs(340018240, 170009120, 32, 15938355);
    FloatAddIs(510027360, 170009120, 64, 10625570);
    FloatAddIs(680036480, 170009120, 64, 13281962);
  }

  lemma TenNineteens()
    ensures FloatAdd(850045568, 170009120) == 1020054656
    ensures FloatAdd(1020054656, 170009120) == 1190063744
    ensures FloatAdd(1190063744, 170009120) == 1360072832
    ensures FloatAdd(1360072832, 170009120) == 1530081920
    ensures FloatAdd(1530081920, 170009120) == 1700091008
  {
    FloatAddIs(850045568, 170009120, 64, 15938354);
    FloatAddIs(1020054656, 170009120, 128, 9297373);
    FloatAddIs(1190063744, 170009120, 128, 10625569);
    FloatAddIs(1360072832, 170009120, 128, 11953765);
    FloatAddIs(1530081920, 170009120, 128, 13281961);
  }

  lemma FifteenNineteens()
    ensures FloatAdd(1700091008, 170009120) == 1870100096
    ensures FloatAdd(1870100096, 170009120) == 2040109184
    ensures FloatAdd(2040109184, 170009120) == 2210118400
    ensures FloatAdd(2210118400, 170009120) == 2380127488
    ensures FloatAdd(2380127488, 170009120) == 2550136576
  {
    FloatAddIs(1700091008, 170009120, 128, 14610157);
    FloatAddIs(1870100096, 170009120, 128, 15938353);
    FloatAddIs(2040109184, 170009120, 256, 8633275);
    FloatAddIs(2210118400, 170009120, 256, 9297373);
    FloatAddIs(2380127488, 170009120, 256, 9961471);
  }

  lemma FlatSumSteps(v: nat, m: nat, totals: seq<nat>)
    requires |totals| > 0 && FlatSum(v, m) == totals[0]
    requires forall i :: 0 <= i < |totals| - 1 ==> FloatAdd(totals[i], Fifteenth(v)) == totals[i + 1]
    ensures FlatSum(v, m + |totals| - 1) == totals[|totals| - 1]
    decreases |totals|
  {
    if |totals| > 1 {
      FlatSumSteps(v, m + 1, totals[1..]);
    }
  }

  lemma LosesBySteps(v: nat, totals: seq<nat>)
    requires |totals| == BLUR_WIDTH + 1 && totals[0] == 0 && totals[BLUR_WIDTH] < v * ONE
    requires forall i :: 0 <= i < BLUR_WIDTH ==> FloatAdd(totals[i], Fifteenth(v)) == totals[i + 1]
    ensures Loses(v)
  {
    FlatSumSteps(v, 0, totals);
  }

  lemma NineteenLoses()
    ensures Loses(19)
  {
    FifteenthOf19();
    FiveNineteens();
    TenNineteens();
    FifteenNineteens();
    LosesBySteps(19, [
      0, 170009120, 340018240, 510027360, 680036480, 850045568, 1020054656, 1190063744, 1360072832, 1530081920,
      1700091008, 1870100096, 2040109184, 2210118400, 2380127488, 2550136576
    ]);
  }

  /** A picture of the grey 19 comes out with the grey 18. */
  lemma GreyGetsDarker(src: seq<Pixel>, index: int)
    requires src != [] && forall i :: 0 <= i < |src| ==> src[i] == Opaque(19, 19, 19)
    ensures Blurred(src, index) == Opaque(18, 18, 18)
  {
    NineteenLoses();
    GetOpaque(19, 19, 19);
    forall c: Channel
      ensures Average(src, c, index) == 18
    {
      BlurKeepsFlatPictures(src, index, c);
      ChannelOfBlurred(src, c, index);
    }
  }

  /** What the range start .. start+length of a destination should become. */
  ghost function Expected(src: seq<Pixel>, dst: seq<Pixel>, start: int, length: int): (r: seq<Pixel>)
    requires length > 0 ==> src != []
    ensures |r| == |dst|
    ensures forall i :: 0 <= i < |dst| ==>
      r[i] == if start <= i < start + length then Blurred(src, i) else dst[i]
  {
    seq(|dst|, i requires 0 <= i < |dst| => if start <= i < start + length then Blurred(src, i) else dst[i])
  }

  /** What a round of the loop over the window adds. */
  lemma FloatSumStep(src: seq<Pixel>, c: Channel, index: int, mi: int, total: nat)
    requires src != [] && mi + SIDE_PIXELS >= 0 && total == FloatSum(src, c, index, mi + SIDE_PIXELS)
    ensures FloatAdd(total, Fifteenth(Get(c, src[Clamp(mi + index, |src|)]))) ==
      FloatSum(src, c, index, mi + 1 + SIDE_PIXELS)
  {
    var m := mi + SIDE_PIXELS;
    assert mi + index == index - SIDE_PIXELS + m;
  }

  /** `rt += (float) channel / mBlurWidth`, over the window, then `(int) rt`. */
  method AverageChannel(src: array<Pixel>, c: Channel, index: int) returns (average: int)
    requires src.Length > 0
    ensures average == Average(src[..], c, index)
  {
    ghost var pixels := src[..];
    var total: nat := 0;
    var mi := -SIDE_PIXELS;
    while mi <= SIDE_PIXELS
      invariant -SIDE_PIXELS <= mi <= SIDE_PIXELS + 1
      invariant total == FloatSum(pixels, c, index, mi + SIDE_PIXELS)
    {
      FloatSumStep(pixels, c, index, mi, total);
      var pixel := src[Clamp(mi + index, src.Length)];
      total := FloatAdd(total, Fifteenth(Get(c, pixel)));
      mi := mi + 1;
    }
    average := total / ONE;
  }

  method ComputeDirectly(src: array<Pixel>, start: int, length: int, dst: array<Pixel>)
    requires src != dst
    requires length > 0 ==> 0 <= start && start + length <= dst.Length && src.Length > 0
    modifies dst
    ensures dst[..] == Expected(src[..], old(dst[..]), start, length)
  {
    var index := start;
    while index < start + length
      invariant length > 0 ==> start <= index <= start + length
      invariant length <= 0 ==> index == start
      invariant dst[..] == Expected(src[..], old(dst[..]), start, index - start)
    {
      var r := AverageChannel(src, Red, index);
      var g := AverageChannel(src, Green, index);
      var b := AverageChannel(src, Blue, index);
      dst[index] := Opaque(r, g, b);
      index := index + 1;
    }
  }

  datatype Range = Range(start: int, length: int)

  /** The ranges whose tasks compute directly. */
  function Leaves(start: int, length: int): (r: seq<Range>)
    decreases length
  {
    if length < THRESHOLD then [Range(start, length)]
    else Leaves(start, length / 2) + Leaves(start + length / 2, length - length / 2)
  }

  /** `compute`, with the two forked tasks run one after the other. */
  method Compute(src: array<Pixel>, start: int, length: int, dst: array<Pixel>)
    requires src != dst
    requires length > 0 ==> 0 <= start && start + length <= dst.Length && src.Length > 0
    modifies dst
    ensures dst[..] == Expected(src[..], old(dst[..]), start, length)
    decreases length
  {
    if length < THRESHOLD {
      ComputeDirectly(src, start, length, dst);
      return;
    }
    var split := length / 2;
    Compute(src, start, split, dst);
    Compute(src, start + split, length - split, dst);
  }

  predicate Covers(r: Range, i: int) {
    r.start <= i < r.start + r.length
  }

  lemma {:induction false} LeavesStayInside(start: int, length: int, k: nat, i: int)
    requires k < |Leaves(start, length)| && Covers(Leaves(start, length)[k], i)
    ensures Covers(Range(start, length), i)
    decreases length
  {
    if length >= THRESHOLD {
      var h := length / 2;
      var left := Leaves(start, h);
      if k < |left| {
        LeavesStayInside(start, h, k, i);
      } else {
        LeavesStayInside(start + h, length - h, k - |left|, i);
      }
    }
  }

  lemma {:induction false} LeavesCover(start: int, length: int, i: int) returns (k: nat)
    requires Covers(Range(start, length), i)
    ensures k < |Leaves(start, length)| && Covers(Leaves(start, length)[k], i)
    decreases length
  {
    if length < THRESHOLD {
      k := 0;
    } else if i < start + length / 2 {
      k := LeavesCover(start, length / 2, i);
    } else {
      k := LeavesCover(start + length / 2, length - length / 2, i);
      k := |Leaves(start, length / 2)| + k;
    }
  }

  /** Of two neighbouring lists of disjoint leaves, each inside its own half. */
  lemma HalvesAreDisjoint(start: int, length: int, j: nat, k: nat, i: int)
    requires length >= THRESHOLD
    requires j < |Leaves(start, length / 2)| && Covers(Leaves(start, length / 2)[j], i)
    requires k < |Leaves(start + length / 2, length - length / 2)|
    ensures !Covers(Leaves(start + length / 2, length - length / 2)[k], i)
  {
    LeavesStayInside(start, length / 2, j, i);
    if Covers(Leaves(start + length / 2, length - length / 2)[k], i) {
      LeavesStayInside(start + length / 2, length - length / 2, k, i);
    }
  }

  lemma {:induction false} LeavesAreDisjoint(start: int, length: int, j: nat, k: nat, i: int)
    requires j < k < |Leaves(start, length)| && Covers(Leaves(start, length)[j], i)
    ensures !Covers(Leaves(start, length)[k], i)
    decreases length
  {
    if length >= THRESHOLD {
      var h := length / 2;
      var left, right := Leaves(start, h), Leaves(start + h, length - h);
      var n := |left|;
      assert Leaves(start, length) == left + right;
      if k < n {
        assert Leaves(start, length)[j] == left[j] && Leaves(start, length)[k] == left[k];
        LeavesAreDisjoint(start, h, j, k, i);
      } else if j >= n {
        assert Leaves(start, length)[j] == right[j - n] && Leaves(start, length)[k] == right[k - n];
        LeavesAreDisjoint(start + h, length - h, j - n, k - n, i);
      } else {
        HalvesAreDisjoint(start, length, j, k - n, i);
      }
    }
  }

  lemma {:induction false} LeafSizes(start: int, length: int, k: nat)
    requires k < |Leaves(start, length)|
    ensures Leaves(start, length)[k].length < 10000
    ensures length >= 10000 ==> Leaves(start, length)[k].length >= 5000
    ensures length < 10000 ==> Leaves(start, length)[k] == Range(start, length)
    decreases length
  {
    if length >= THRESHOLD {
      var n := |Leaves(start, length / 2)|;
      if k < n {
        LeafSizes(start, length / 2, k);
      } else {
        LeafSizes(start + length / 2, length - length / 2, k - n);
      }
    }
  }

  /** Every index of the task is in exactly one leaf, and no leaf goes outside the task. A task of fewer than 10000
      indices is one leaf; a larger one is split into leaves of 5000 to 9999. */
  lemma LeavesPartition(start: int, length: int, i: int)
    ensures Covers(Range(start, length), i) <==>
      exists k :: 0 <= k < |Leaves(start, length)| && Covers(Leaves(start, length)[k], i)
    ensures forall j, k :: 0 <= j < k < |Leaves(start, length)| && Covers(Leaves(start, length)[j], i) ==>
      !Covers(Leaves(start, length)[k], i)
    ensures forall k :: 0 <= k < |Leaves(start, length)| ==>
      var leaf := Leaves(start, length)[k];
      && leaf.length < 10000 && (length >= 10000 ==> leaf.length >= 5000)
      && (length < 10000 ==> leaf == Range(start, length))
  {
    var all := Leaves(start, length);
    if Covers(Range(start, length), i) {
      var k := LeavesCover(start, length, i);
    }
    if k :| 0 <= k < |all| && Covers(all[k], i) {
      LeavesStayInside(start, length, k, i);
    }
    forall j, k | 0 <= j < k < |all| && Covers(all[j], i)
      ensures !Covers(all[k], i)
    {
      LeavesAreDisjoint(start, length, j, k, i);
    }
    forall k | 0 <= k < |all|
      ensures all[k].length < 10000 && (length >= 10000 ==> all[k].length >= 5000)
      ensures length < 10000 ==> all[k] == Range(start, length)
    {
      LeafSizes(start, length, k);
    }
  }

  /** Leaf tasks at work together: `done[k]` is how many pixels task k has written. */
  datatype Work = Work(dst: seq<Pixel>, done: seq<nat>)

  predicate CanWrite(ts: seq<Range>, w: Work, k: nat) {
    && k < |ts| == |w.done|
    && w.done[k] < ts[k].length
    && 0 <= ts[k].start + w.done[k] < |w.dst|
  }

  /** Task k writes its next pixel. */
  function Write(src: seq<Pixel>, ts: seq<Range>, w: Work, k: nat): Work
    requires src != [] && CanWrite(ts, w, k)
  {
    var i := ts[k].start + w.done[k];
    Work(w.dst[i := Blurred(src, i)], w.done[k := w.done[k] + 1])
  }

  ghost predicate Runs(src: seq<Pixel>, ts: seq<Range>, w: Work, schedule: seq<nat>, w': Work)
    requires src != []
    decreases |schedule|
  {
    if schedule == [] then w == w'
    else CanWrite(ts, w, schedule[0]) && Runs(src, ts, Write(src, ts, w, schedule[0]), schedule[1..], w')
  }

  predicate HasWritten(ts: seq<Range>, w: Work, k: nat, i: int)
    requires k < |ts| == |w.done|
  {
    ts[k].start <= i < ts[k].start + w.done[k]
  }

  /** Every index holds the blurred pixel if some task has written it and its first value otherwise. */
  ghost predicate WorkAgrees(src: seq<Pixel>, ts: seq<Range>, dst0: seq<Pixel>, w: Work)
    requires src != []
  {
    && |w.dst| == |dst0| && |w.done| == |ts|
    && (forall k :: 0 <= k < |ts| ==> w.done[k] == 0 || w.done[k] <= ts[k].length)
    && forall i :: 0 <= i < |dst0| ==>
      w.dst[i] == if exists k :: 0 <= k < |ts| && HasWritten(ts, w, k, i) then Blurred(src, i) else dst0[i]
  }

  lemma WriteAgrees(src: seq<Pixel>, ts: seq<Range>, dst0: seq<Pixel>, w: Work, k: nat)
    requires src != [] && WorkAgrees(src, ts, dst0, w) && CanWrite(ts, w, k)
    ensures WorkAgrees(src, ts, dst0, Write(src, ts, w, k))
  {
    var w' := Write(src, ts, w, k);
    forall i | 0 <= i < |dst0|
      ensures w'.dst[i] ==
        if exists m :: 0 <= m < |ts| && HasWritten(ts, w', m, i) then Blurred(src, i) else dst0[i]
    {
      if i == ts[k].start + w.done[k] {
        assert HasWritten(ts, w', k, i);
      } else {
        forall m | 0 <= m < |ts|
          ensures HasWritten(ts, w', m, i) <==> HasWritten(ts, w, m, i)
        {
        }
      }
    }
  }

  lemma {:induction false} RunAgrees(src: seq<Pixel>, ts: seq<Range>, dst0: seq<Pixel>, w: Work, schedule: seq<nat>,
                                     w': Work)
    requires src != [] && WorkAgrees(src, ts, dst0, w) && Runs(src, ts, w, schedule, w')
    ensures WorkAgrees(src, ts, dst0, w')
    decreases |schedule|
  {
    if schedule != [] {
      WriteAgrees(src, ts, dst0, w, schedule[0]);
      RunAgrees(src, ts, dst0, Write(src, ts, w, schedule[0]), schedule[1..], w');
    }
  }

  ghost predicate Complete(ts: seq<Range>, w: Work) {
    |ts| == |w.done| && forall k :: 0 <= k < |ts| ==> ts[k].length <= w.done[k]
  }

  /** However the pixel writes of the forked leaf tasks are interleaved, when all of them are done the destination
      is what one direct computation over the whole range leaves. */
  lemma AnyInterleavingBlurs(src: seq<Pixel>, dst0: seq<Pixel>, start: int, length: int, schedule: seq<nat>, w: Work)
    requires length > 0 ==> 0 <= start && start + length <= |dst0|
    requires src != []
    requires var ts := Leaves(start, length);
      Runs(src, ts, Work(dst0, seq(|ts|, _ => 0)), schedule, w) && Complete(ts, w)
    ensures w.dst == Expected(src, dst0, start, length)
  {
    var ts := Leaves(start, length);
    var w0 := Work(dst0, seq(|ts|, _ => 0));
    assert WorkAgrees(src, ts, dst0, w0);
    RunAgrees(src, ts, dst0, w0, schedule, w);
    forall i | 0 <= i < |dst0|
      ensures w.dst[i] == Expected(src, dst0, start, length)[i]
    {
      LeavesPartition(start, length, i);
      if Covers(Range(start, length), i) {
        var k :| 0 <= k < |ts| && Covers(ts[k], i);
        assert HasWritten(ts, w, k, i);
      } else {
        forall k | 0 <= k < |ts|
          ensures !HasWritten(ts, w, k, i)
        {
          assert Covers(ts[k], i) ==> Covers(Range(start, length), i);
        }
      }
    }
  }

  /** The tasks never stop one another: while one is unfinished it can write, and the pixels left go down by one. */
  lemma UnfinishedTaskCanWrite(src: seq<Pixel>, dst0: seq<Pixel>, start: int, length: int, schedule: seq<nat>, w: Work,
                               k: nat)
    requires length > 0 ==> 0 <= start && start + length <= |dst0|
    requires src != [] && k < |Leaves(start, length)|
    requires var ts := Leaves(start, length);
      && Runs(src, ts, Work(dst0, seq(|ts|, _ => 0)), schedule, w)
      && |w.done| == |ts| && w.done[k] < ts[k].length
    ensures CanWrite(Leaves(start, length), w, k)
  {
    var ts := Leaves(start, length);
    var w0 := Work(dst0, seq(|ts|, _ => 0));
    assert WorkAgrees(src, ts, dst0, w0);
    RunAgrees(src, ts, dst0, w0, schedule, w);
    LeavesStayInside(start, length, k, ts[k].start + w.done[k]);
  }
}
