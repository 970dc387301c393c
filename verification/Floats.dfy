/** The binary32 arithmetic that src_java/ForkBlur.java needs, rounded to nearest with ties to even. Its floats are zero
    or lie between 1/15 and 256; such a float is a multiple of 2^-27, and floats are natural numbers of that unit. */
module Floats {

  /** The float 1.0. */
  const ONE: int := 0x800_0000

  /** num / den rounded to an integer, ties to even. */
  function Nearest(num: nat, den: nat): nat
    requires den > 0
  {
    var q, r := num / den, num % den;
    if 2 * r < den || (2 * r == den && q % 2 == 0) then q else q + 1
  }

  /** The float nearest to num / den: 24 bits, and twice the distance between floats whenever they do not suffice. */
  function Rounded(num: nat, den: nat): nat
    requires den > 0
    decreases num - den
  {
    if num < 0x100_0000 * den then Nearest(num, den) else 2 * Rounded(num, 2 * den)
  }

  function FloatAdd(a: nat, b: nat): nat {
    Rounded(a + b, 1)
  }

  predicate PowerOfTwo(u: nat) {
    u == 1 || (u > 1 && u % 2 == 0 && PowerOfTwo(u / 2))
  }

  lemma NearestIsClose(num: nat, den: nat)
    requires den > 0
    ensures 2 * num - den <= 2 * (den * Nearest(num, den)) <= 2 * num + den
  {
    var q, r := num / den, num % den;
    assert num == den * q + r && 0 <= r < den;
    assert den * (q + 1) == den * q + den;
  }

  /** A float below 2^24 u is at most u / 2 away from the number that was rounded. */
  lemma {:induction false} RoundedIsClose(num: nat, den: nat, u: nat)
    requires den > 0 && PowerOfTwo(u) && num < 0x100_0000 * (den * u)
    ensures 2 * num - den * u <= 2 * (den * Rounded(num, den)) <= 2 * num + den * u
    decreases u
  {
    if num < 0x100_0000 * den {
      NearestIsClose(num, den);
      AtLeast(den, u, 1);
    } else {
      Regroup(den, u);
      RoundedIsClose(num, 2 * den, u / 2);
      Twice(den, Rounded(num, 2 * den));
    }
  }

  lemma AtLeast(den: nat, u: nat, k: nat)
    requires u >= k
    ensures den * u >= den * k
  {
    assert den * (u - k) >= 0;
  }

  lemma Twice(den: nat, r: nat)
    ensures (2 * den) * r == den * (2 * r) == 2 * (den * r)
  {
  }

  lemma Regroup(den: nat, u: nat)
    requires u % 2 == 0
    ensures (2 * den) * (u / 2) == den * u
  {
    assert 2 * (u / 2) == u;
    assert (2 * den) * (u / 2) == den * (2 * (u / 2));
  }

  predicate RoundsTo(num: nat, den: nat, q: nat) {
    || 2 * num - den < 2 * (den * q) < 2 * num + den
    || (q % 2 == 0 && (2 * num == 2 * (den * q) + den || 2 * num == 2 * (den * q) - den))
  }

  lemma MulOrder(den: nat, a: int, b: int)
    requires a <= b
    ensures den * a <= den * b
  {
    var d := b - a;
    assert den * d >= 0;
    assert den * b == den * a + den * d;
  }

  lemma Distribute(den: nat, k: int)
    ensures den * (k - 1) == den * k - den
    ensures den * (k + 1) == den * k + den
    ensures den * (k + 2) == den * k + 2 * den
  {
  }

  /** Products keep the order of their second factors, at distance den. */
  lemma ProductsInOrder(den: nat, q: int, k: int)
    ensures q <= k - 1 ==> den * q <= den * k - den
    ensures q >= k + 2 ==> den * q >= den * k + 2 * den
    ensures q == k + 1 ==> den * q == den * k + den
  {
    Distribute(den, k);
    if q <= k - 1 {
      MulOrder(den, q, k - 1);
    } else if q >= k + 2 {
      MulOrder(den, k + 2, q);
    }
  }

  /** NearestIs with its products named: dk is den * k and dq is den * q. */
  lemma NearestOfProducts(num: nat, den: nat, q: nat, k: nat, r: nat, dk: int, dq: int)
    requires 0 <= r < den && num == dk + r
    requires q <= k - 1 ==> dq <= dk - den
    requires q >= k + 2 ==> dq >= dk + 2 * den
    requires q == k ==> dq == dk
    requires q == k + 1 ==> dq == dk + den
    requires || 2 * num - den < 2 * dq < 2 * num + den
             || (q % 2 == 0 && (2 * num == 2 * dq + den || 2 * num == 2 * dq - den))
    ensures q == if 2 * r < den || (2 * r == den && k % 2 == 0) then k else k + 1
  {
  }

  lemma Division(num: nat, den: nat) returns (k: nat, r: nat)
    requires den > 0
    ensures r < den && num == den * k + r
    ensures Nearest(num, den) == if 2 * r < den || (2 * r == den && k % 2 == 0) then k else k + 1
  {
    k, r := num / den, num % den;
  }

  lemma NearestIs(num: nat, den: nat, q: nat)
    requires den > 0 && RoundsTo(num, den, q)
    ensures Nearest(num, den) == q
  {
    var k, r := Division(num, den);
    ProductsInOrder(den, q, k);
    NearestOfProducts(num, den, q, k, r, den * k, den * q);
  }

  /** What rounding is: where floats are u apart, so that 24 bits are needed and enough, the result is the nearest
      multiple of u, and of two that are equally near the one with an even last bit. */
  lemma {:induction false} RoundedIs(num: nat, den: nat, u: nat, q: nat)
    requires den > 0 && PowerOfTwo(u)
    requires (u == 1 || 0x80_0000 * (den * u) <= num) && num < 0x100_0000 * (den * u)
    requires RoundsTo(num, den * u, q)
    ensures Rounded(num, den) == u * q
    decreases u
  {
    if u == 1 {
      assert den * u == den;
      NearestIs(num, den, q);
    } else {
      Regroup(den, u);
      RoundedIs(num, 2 * den, u / 2, q);
      AtLeast(den, u, 2);
      assert num >= 0x100_0000 * den;
      Twice(u / 2, q);
    }
  }

  lemma FloatAddIs(a: nat, b: nat, u: nat, q: nat)
    requires PowerOfTwo(u) && 0x80_0000 * u <= a + b < 0x100_0000 * u && RoundsTo(a + b, u, q)
    ensures FloatAdd(a, b) == u * q
  {
    RoundedIs(a + b, 1, u, q);
  }

  /** RoundedIsExact with its products named. */
  lemma {:induction false} RoundedIsMultiple(num: nat, den: nat, u: nat, y: nat, x: nat)
    requires den > 0 && PowerOfTwo(u) && y < 0x100_0000 && x == u * y && num == den * x
    ensures Rounded(num, den) == x
    decreases u
  {
    if num < 0x100_0000 * den {
      NearestIs(num, den, x);
    } else {
      var half := u / 2 * y;
      if u == 1 {
        AtMost(den, x);
      }
      Twice(u / 2, y);
      Twice(den, half);
      RoundedIsMultiple(num, 2 * den, u / 2, y, half);
    }
  }

  lemma AtMost(den: nat, x: nat)
    requires den > 0 && x < 0x100_0000
    ensures den * x < 0x100_0000 * den
  {
    AtLeast(den, 0xff_ffff, x);
  }

  /** A multiple of a distance between floats that is large enough needs no rounding. */
  lemma RoundedIsExact(den: nat, u: nat, y: nat)
    requires den > 0 && PowerOfTwo(u) && y < 0x100_0000
    ensures Rounded(den * (u * y), den) == u * y
  {
    RoundedIsMultiple(den * (u * y), den, u, y, u * y);
  }

  // ----- doubling -----

  lemma DivisionIs(n: nat, d: nat, q: nat, r: nat)
    requires r < d && n == d * q + r
    ensures n / d == q && n % d == r
  {
    var k, t := n / d, n % d;
    assert n == d * k + t && 0 <= t < d;
    ProductsInOrder(d, q, k);
    ProductsInOrder(d, k, q);
  }

  lemma NearestOfDoubles(num: nat, den: nat)
    requires den > 0
    ensures Nearest(2 * num, 2 * den) == Nearest(num, den)
  {
    var q, r := num / den, num % den;
    assert num == den * q + r && 0 <= r < den;
    Twice(den, q);
    DivisionIs(2 * num, 2 * den, q, 2 * r);
  }

  lemma {:induction false} RoundedOfDoubles(num: nat, den: nat)
    requires den > 0
    ensures Rounded(2 * num, 2 * den) == Rounded(num, den)
    decreases num - den
  {
    if num < 0x100_0000 * den {
      NearestOfDoubles(num, den);
    } else {
      RoundedOfDoubles(num, 2 * den);
    }
  }

  /** A number that needs all 24 bits, or more, is rounded as its double is. */
  lemma RoundedDouble(num: nat, den: nat)
    requires den > 0 && num >= 0x80_0000 * den
    ensures Rounded(2 * num, den) == 2 * Rounded(num, den)
  {
    RoundedOfDoubles(num, den);
  }
}
