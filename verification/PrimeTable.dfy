/** The prime table built by src_C/findzs.c: every number is tried against all table entries but the last. */
module PrimeTable {

  const FIRST: seq<int> := [2, 3, 5, 7, 11, 13]

  ghost predicate IsPrime(n: int) {
    n >= 2 && forall d :: 2 <= d < n ==> n % d != 0
  }

  predicate Divided(t: seq<int>, m: int, x: int) {
    exists j :: 0 <= j < m && j < |t| && t[j] > 0 && x % t[j] == 0
  }

  /** The table before number `x` is tried. */
  function Table(x: int): seq<int> {
    if x <= 14 then FIRST
    else
      var t := Table(x - 1);
      if Divided(t, |t| - 1, x - 1) then t else t + [x - 1]
  }

  lemma {:induction false} TableShape(x: int)
    ensures var t := Table(x);
      && |t| >= 6 && t[..6] == FIRST
      && 13 <= t[|t| - 1] && (x >= 14 ==> t[|t| - 1] < x)
      && (forall i, j :: 0 <= i < j < |t| ==> t[i] < t[j])
      && (forall i :: 0 <= i < |t| ==> 2 <= t[i])
  {
    if x > 14 {
      TableShape(x - 1);
    }
  }

  /** The first inner loop of `main`: the index before the last entry above `halfx`, if there is one. */
  method LastAbove(zhishu: array<int>, idx: nat, halfx: int, before: int) returns (maxidx: int)
    requires 0 < idx <= zhishu.Length
    requires forall i, j :: 0 <= i < j < idx ==> zhishu[i] < zhishu[j]
    ensures maxidx == if zhishu[idx - 1] > halfx then idx - 2 else before
  {
    maxidx := before;
    var i := 0;
    while i < idx
      invariant 0 <= i <= idx
      invariant maxidx == if i > 0 && zhishu[i - 1] > halfx then i - 2 else before
    {
      if zhishu[i] > halfx {
        maxidx := i - 1;
      }
      i := i + 1;
    }
  }

  /** The second inner loop of `main`: trial division up to `maxidx`. */
  method TrialDivision(zhishu: array<int>, maxidx: int, x: int) returns (skip: bool)
    requires 0 <= maxidx < zhishu.Length
    requires forall i :: 0 <= i <= maxidx ==> zhishu[i] > 0
    ensures skip <==> exists j :: 0 <= j <= maxidx && x % zhishu[j] == 0
  {
    var j := 0;
    while j <= maxidx
      invariant 0 <= j <= maxidx + 1
      invariant forall k :: 0 <= k < j ==> x % zhishu[k] != 0
    {
      if x % zhishu[j] == 0 {
        return true;
      }
      j := j + 1;
    }
    return false;
  }

  /** One round of the loop: `maxidx` is the index before the last whenever the divisor loop starts, although
      it is only set while the last entry is above half of x. */
  method TryNumber(zhishu: array<int>, idx0: nat, maxidx0: int, x: int) returns (idx: nat, maxidx: int)
    requires x >= 14 && 6 <= idx0 <= zhishu.Length && zhishu[..idx0] == Table(x)
    requires |Table(x + 1)| <= zhishu.Length
    requires maxidx0 == idx0 - 2 || zhishu[idx0 - 1] > x / 2 + 1
    modifies zhishu
    ensures 6 <= idx <= zhishu.Length && zhishu[..idx] == Table(x + 1)
    ensures maxidx == idx0 - 2
    ensures idx == idx0 || (idx == idx0 + 1 && zhishu[idx - 1] == x)
  {
    idx := idx0;
    TableShape(x);
    ghost var t := Table(x);
    assert forall k :: 0 <= k < idx ==> zhishu[k] == t[k];
    maxidx := LastAbove(zhishu, idx, x / 2 + 1, maxidx0);
    var skip := TrialDivision(zhishu, maxidx, x);
    assert skip <==> Divided(t, |t| - 1, x);
    if !skip {
      zhishu[idx] := x;
      idx := idx + 1;
      assert zhishu[..idx] == t + [x];
    }
  }

  method EnterFirst(zhishu: array<int>, limit: int) returns (idx: nat)
    requires |Table(limit)| <= zhishu.Length
    modifies zhishu
    ensures idx == 6 <= zhishu.Length && zhishu[..6] == FIRST == Table(14)
    ensures zhishu[5] == 13 && (limit <= 14 ==> Table(limit) == FIRST)
  {
    TableShape(limit);
    zhishu[0], zhishu[1], zhishu[2], zhishu[3], zhishu[4], zhishu[5] := 2, 3, 5, 7, 11, 13;
    idx := 6;
  }

  /** The loop of `main`, for any limit and any table large enough for its result. */
  method FillTable(zhishu: array<int>, limit: int) returns (idx: nat)
    requires |Table(limit)| <= zhishu.Length
    modifies zhishu
    ensures 6 <= idx <= zhishu.Length
    ensures zhishu[..idx] == Table(limit)
  {
    idx := EnterFirst(zhishu, limit);
    var maxidx := 0;
    var x := 14;
    while x < limit
      invariant 14 <= x && (x <= limit || x == 14)
      invariant 6 <= idx <= zhishu.Length && zhishu[..idx] == Table(x)
      invariant maxidx == idx - 2 || zhishu[idx - 1] > x / 2 + 1
    {
      TableGrows(x + 1, limit);
      idx, maxidx := TryNumber(zhishu, idx, maxidx, x);
      x := x + 1;
    }
  }

  lemma {:induction false} TableGrows(x: int, y: int)
    requires x <= y
    ensures Table(x) <= Table(y)
    decreases y - x
  {
    if x < y {
      TableGrows(x, y - 1);
    }
  }

  lemma TableMembers(x: int, y: int, i: nat)
    requires x <= y && i < |Table(x)|
    ensures i < |Table(y)| && Table(y)[i] == Table(x)[i]
  {
    TableGrows(x, y);
  }

  /** Every number from 2 up has a prime divisor. */
  lemma {:induction false} PrimeDivisor(n: int) returns (p: int)
    requires n >= 2
    ensures IsPrime(p) && p <= n && n % p == 0
  {
    if IsPrime(n) {
      p := n;
    } else {
      var d :| 2 <= d < n && n % d == 0;
      p := PrimeDivisor(d);
      DividesTrans(p, d, n);
    }
  }

  lemma MulAtLeast(m: int, p: int)
    requires m >= 1 && p > 0
    ensures m * p >= p
  {
    assert (m - 1) * p >= 0;
  }

  lemma MultipleOf(k: int, p: int)
    requires p > 0
    ensures (k * p) % p == 0
  {
    var q, r := (k * p) / p, (k * p) % p;
    assert r == (k - q) * p;
    if k - q >= 1 {
      MulAtLeast(k - q, p);
      assert false;
    } else if q - k >= 1 {
      MulAtLeast(q - k, p);
      assert false;
    }
  }

  lemma DividesTrans(p: int, d: int, n: int)
    requires p > 0 && d > 0 && d % p == 0 && n % d == 0
    ensures n % p == 0
  {
    var a, b := n / d, d / p;
    assert n == a * d && d == b * p;
    assert a * (b * p) == (a * b) * p;
    MultipleOf(a * b, p);
  }

  /** Euclid's lemma: a prime that divides a*b, with a below it, divides b. */
  lemma {:induction false} PrimeDividesProduct(p: int, a: int, b: int, c: int) returns (k: int)
    requires IsPrime(p) && 0 < a < p && a * b == c * p
    ensures b == k * p
    decreases a
  {
    if a == 1 {
      k := c;
    } else {
      var q, r := p / a, p % a;
      assert p == q * a + r && 0 < r < a;
      calc {
        r * b;
        (p - q * a) * b;
        p * b - (q * a) * b;
        { assert (q * a) * b == q * (a * b); }
        p * b - q * (c * p);
        { assert q * (c * p) == (q * c) * p; }
        (b - q * c) * p;
      }
      k := PrimeDividesProduct(p, r, b, b - q * c);
    }
  }

  lemma RemainderTimes(q: int, m: int, d: int, a: int, c: int)
    requires q == m * d + a && q * q == c * d
    ensures a * q == (c - m * q) * d
  {
    calc {
      a * q;
      (q - m * d) * q;
      q * q - (m * d) * q;
      { assert (m * d) * q == (m * q) * d; }
      (c - m * q) * d;
    }
  }

  /** A prime below the prime q does not divide q*q. */
  lemma SquareHasOnePrime(d: int, q: int)
    requires IsPrime(d) && IsPrime(q) && d < q
    ensures (q * q) % d != 0
  {
    if (q * q) % d == 0 {
      var a, m, c := q % d, q / d, (q * q) / d;
      assert q == m * d + a && 0 < a < d;
      assert q * q == c * d;
      RemainderTimes(q, m, d, a, c);
      var k := PrimeDividesProduct(d, a, q, c - m * q);
      MultipleOf(k, d);
      assert false;
    }
  }

  lemma SmallComposite(n: int)
    requires n == 4 || n == 6 || n == 8 || n == 9 || n == 10 || n == 12
    ensures !IsPrime(n)
  {
    if n == 9 {
      assert n % 3 == 0;
    } else {
      assert n % 2 == 0;
    }
  }

  lemma SmallPrimes(p: int)
    requires IsPrime(p) && p < 14
    ensures p in FIRST
  {
    if p == 4 || p == 6 || p == 8 || p == 9 || p == 10 || p == 12 {
      SmallComposite(p);
    }
    assert FIRST[0] == 2 && FIRST[1] == 3 && FIRST[2] == 5 && FIRST[3] == 7 && FIRST[4] == 11 && FIRST[5] == 13;
  }

  lemma PrimeIsAppended(p: int)
    requires p >= 14 && IsPrime(p)
    ensures Table(p + 1) == Table(p) + [p]
  {
    var t := Table(p);
    TableShape(p);
    assert forall j :: 0 <= j < |t| - 1 ==> 2 <= t[j] < t[|t| - 1] < p;
  }

  /** No prime is ever missed. */
  lemma TableHasEveryPrime(x: int, p: int)
    requires x >= 14 && IsPrime(p) && p < x
    ensures p in Table(x)
  {
    if p < 14 {
      SmallPrimes(p);
      TableShape(x);
      var i :| 0 <= i < 6 && FIRST[i] == p;
      assert Table(x)[..6][i] == p;
    } else {
      PrimeIsAppended(p);
      TableMembers(p + 1, x, |Table(p)|);
      assert Table(x)[|Table(p)|] == p;
    }
  }

  /** Between every prime q from 13 on and q*q, as far as q*q is below the limit, there is a prime. */
  ghost predicate GapsAreFilled(limit: int) {
    forall q :: IsPrime(q) && q >= 13 && q * q < limit ==> exists p :: IsPrime(p) && q < p < q * q
  }

  ghost predicate AllPrime(t: seq<int>) {
    forall i :: 0 <= i < |t| ==> IsPrime(t[i])
  }

  lemma MulCompare(a: int, b: int, c: int)
    requires a <= b && 0 <= c
    ensures a * c <= b * c
  {
    assert (b - a) * c >= 0;
  }

  lemma CoDivisor(x: int, d: int) returns (e: int)
    requires 2 <= d < x && x % d == 0
    ensures 2 <= e < x && x == e * d && x % e == 0
  {
    e := x / d;
    assert x == e * d;
    if e <= 1 {
      MulCompare(e, 1, d);
      assert false;
    }
    MulCompare(2, d, e);
    MultipleOf(d, e);
    assert d * e == x;
  }

  lemma MulMonotone(a: int, b: int, c: int, d: int)
    requires 0 <= a <= c && 0 <= b <= d
    ensures a * b <= c * d
  {
    assert (c - a) * b >= 0;
    assert c * (d - b) >= 0;
  }

  /** If the only prime divisor a composite x has is q then x is at least q*q. */
  lemma PowerOfOnePrime(x: int, q: int)
    requires x >= 2 && !IsPrime(x) && IsPrime(q)
    requires forall p :: IsPrime(p) && p < x && x % p == 0 ==> p == q
    ensures q * q <= x
  {
    var d :| 2 <= d < x && x % d == 0;
    var e := CoDivisor(x, d);
    var p1 := PrimeDivisor(d);
    DividesTrans(p1, d, x);
    var p2 := PrimeDivisor(e);
    DividesTrans(p2, e, x);
    MulMonotone(q, q, e, d);
  }

  lemma FirstIsPrime()
    ensures AllPrime(FIRST)
  {
    forall i | 0 <= i < 6
      ensures IsPrime(FIRST[i])
    {
      assert FIRST[i] == 2 || FIRST[i] == 3 || FIRST[i] == 5 || FIRST[i] == 7 || FIRST[i] == 11 || FIRST[i] == 13;
    }
  }

  lemma CompositeAppendedLeavesGap(y: int)
    requires y >= 14 && AllPrime(Table(y)) && !IsPrime(y)
    requires !Divided(Table(y), |Table(y)| - 1, y)
    ensures Table(y) != []
    ensures var q := Table(y)[|Table(y)| - 1];
      IsPrime(q) && q >= 13 && q * q <= y && !exists p :: IsPrime(p) && q < p < q * q
  {
    var t := Table(y);
    TableShape(y);
    var q := t[|t| - 1];
    forall p | IsPrime(p) && p < y && y % p == 0
      ensures p == q
    {
      TableHasEveryPrime(y, p);
    }
    PowerOfOnePrime(y, q);
    forall p | IsPrime(p)
      ensures !(q < p < q * q)
    {
      if q < p < q * q {
        TableHasEveryPrime(y, p);
        assert false;
      }
    }
  }

  lemma {:induction false} GapsMakeTablePrime(x: int)
    requires GapsAreFilled(x)
    ensures AllPrime(Table(x))
  {
    if x <= 14 {
      FirstIsPrime();
    } else {
      GapsMakeTablePrime(x - 1);
      var t := Table(x - 1);
      if !Divided(t, |t| - 1, x - 1) && !IsPrime(x - 1) {
        CompositeAppendedLeavesGap(x - 1);
        assert false;
      }
    }
  }

  lemma LastPrimeSquareIsAppended(q: int)
    requires IsPrime(q) && q >= 13 && q * q >= 14
    requires var t := Table(q * q); t != [] && AllPrime(t) && t[|t| - 1] == q
    ensures Table(q * q + 1) == Table(q * q) + [q * q]
    ensures !IsPrime(q * q)
  {
    var t := Table(q * q);
    TableShape(q * q);
    forall j | 0 <= j < |t| - 1
      ensures (q * q) % t[j] != 0
    {
      SquareHasOnePrime(t[j], q);
    }
    MultipleOf(q, q);
    MulAtLeast(q - 1, q);
    assert q * q == (q - 1) * q + q;
  }

  lemma PrefixIsPrime(x: int, y: int)
    requires x <= y && AllPrime(Table(y))
    ensures AllPrime(Table(x))
  {
    TableGrows(x, y);
    var t, u := Table(x), Table(y);
    assert forall i :: 0 <= i < |t| ==> t[i] == u[i];
  }

  lemma LastIsPrime(t: seq<int>, x: int)
    requires AllPrime(t + [x])
    ensures IsPrime(x)
  {
    assert (t + [x])[|t|] == x;
  }

  lemma PrimeTableFillsGap(limit: int, q: int)
    requires AllPrime(Table(limit)) && IsPrime(q) && q >= 13 && q * q < limit
    ensures exists p :: IsPrime(p) && q < p < q * q
  {
    MulMonotone(13, q, q, q);
    var t := Table(q * q);
    TableShape(q * q);
    var last := t[|t| - 1];
    PrefixIsPrime(q * q, limit);
    TableHasEveryPrime(q * q, q);
    if last == q {
      LastPrimeSquareIsAppended(q);
      PrefixIsPrime(q * q + 1, limit);
      LastIsPrime(t, q * q);
      assert false;
    }
    assert IsPrime(last);
  }

  /** Leaving the last entry out of the trial divisions is harmless exactly when no prime q below the square root
      of the limit stays the last prime up to q*q. */
  lemma TableIsPrimeIffGapsFilled(limit: int)
    ensures AllPrime(Table(limit)) <==> GapsAreFilled(limit)
  {
    if GapsAreFilled(limit) {
      GapsMakeTablePrime(limit);
    }
    if AllPrime(Table(limit)) {
      forall q | IsPrime(q) && q >= 13 && q * q < limit
        ensures exists p :: IsPrime(p) && q < p < q * q
      {
        PrimeTableFillsGap(limit, q);
      }
    }
  }
}
