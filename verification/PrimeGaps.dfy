/** Every prime q is followed by another one below q*q, so the table of src_C/findzs.c is right for every limit. If
    there were none, the numbers up to q*q would have a common multiple with one factor of at most q*q for 2 and for
    each odd number up to q; but a common multiple of 1 .. 2m + 1 is a multiple of (2m + 1) * Choose(2m, m), which is
    larger. */
module PrimeGaps {
  import opened PrimeTable

  function Power(p: nat, e: nat): (r: nat)
    ensures p >= 1 ==> r >= 1
  {
    if e == 0 then 1 else p * Power(p, e - 1)
  }

  lemma {:induction false} PowerSum(p: nat, e: nat, f: nat)
    ensures Power(p, e + f) == Power(p, e) * Power(p, f)
  {
    if e > 0 {
      PowerSum(p, e - 1, f);
      Associate(p, Power(p, e - 1), Power(p, f));
    }
  }

  lemma Associate(a: int, b: int, c: int)
    ensures a * (b * c) == (a * b) * c
  {
  }

  lemma {:induction false} PowerProduct(p: nat, e: nat, f: nat)
    ensures Power(p, e * f) == Power(Power(p, e), f)
  {
    if f == 0 {
      assert e * f == 0;
    } else {
      assert e * f == e + e * (f - 1);
      PowerProduct(p, e, f - 1);
      PowerSum(p, e, e * (f - 1));
    }
  }

  lemma {:induction false} PowerMonotone(p: nat, q: nat, e: nat)
    requires p <= q
    ensures Power(p, e) <= Power(q, e)
  {
    if e > 0 {
      PowerMonotone(p, q, e - 1);
      MulMonotone(p, Power(p, e - 1), q, Power(q, e - 1));
    }
  }

  // ----- a small common multiple -----

  /** The greatest exponent up to e with a power of at most n. */
  function Greatest(p: nat, n: nat, e: nat): nat {
    if e == 0 || Power(p, e) <= n then e else Greatest(p, n, e - 1)
  }

  function MaxExp(p: nat, n: nat): nat {
    Greatest(p, n, n)
  }

  lemma {:induction false} GreatestFits(p: nat, n: nat, e: nat, f: nat)
    requires n >= 1
    ensures Power(p, Greatest(p, n, e)) <= n
    ensures f <= e && Power(p, f) <= n ==> f <= Greatest(p, n, e)
  {
    if e > 0 && Power(p, e) > n {
      GreatestFits(p, n, e - 1, f);
    }
  }

  lemma {:induction false} PowerExceedsExponent(p: nat, e: nat)
    requires p >= 2
    ensures Power(p, e) > e
  {
    if e > 0 {
      PowerExceedsExponent(p, e - 1);
      MulCompare(2, p, Power(p, e - 1));
    }
  }

  lemma MaxPowerFits(p: nat, n: nat)
    requires p >= 2 && n >= 1
    ensures Power(p, MaxExp(p, n)) <= n
  {
    GreatestFits(p, n, n, 0);
  }

  lemma FittingPower(p: nat, n: nat, e: nat)
    requires p >= 2 && n >= 1 && Power(p, e) <= n
    ensures e <= MaxExp(p, n)
  {
    PowerExceedsExponent(p, e);
    GreatestFits(p, n, n, e);
  }

  /** 2, 3, 5, 7, 9 and so on. */
  function Base(r: nat): nat {
    if r == 0 then 2 else 2 * r + 1
  }

  /** For each of the first r + 1 bases its greatest power up to n. */
  function Multiple(r: nat, n: nat): (d: nat)
    ensures d >= 1
  {
    var a := Power(Base(r), MaxExp(Base(r), n));
    if r == 0 then a
    else
      MulAtLeast(Multiple(r - 1, n), a);
      a * Multiple(r - 1, n)
  }

  lemma {:induction false} MultipleIsSmall(r: nat, n: nat)
    requires n >= 1
    ensures Multiple(r, n) <= Power(n, r + 1)
  {
    MaxPowerFits(Base(r), n);
    if r == 0 {
      assert Power(n, 1) == n * Power(n, 0) == n;
    } else {
      MultipleIsSmall(r - 1, n);
      MulMonotone(Power(Base(r), MaxExp(Base(r), n)), Multiple(r - 1, n), n, Power(n, r));
    }
  }

  /** No prime above b divides m. */
  ghost predicate Smooth(m: nat, b: nat) {
    forall p :: IsPrime(p) && m % p == 0 ==> p <= b
  }

  /** All powers of p split off. */
  lemma {:induction false} Strip(m: nat, p: nat) returns (e: nat, rest: nat)
    requires m >= 1 && p >= 2
    ensures m == Power(p, e) * rest && rest >= 1 && rest % p != 0
  {
    if m % p != 0 {
      e, rest := 0, m;
    } else {
      var k := m / p;
      assert m == p * k;
      if k >= m {
        MulCompare(2, p, k);
      }
      e, rest := Strip(k, p);
      e := e + 1;
      Associate(p, Power(p, e - 1), rest);
    }
  }

  lemma FactorDivides(a: nat, b: nat)
    requires b >= 1
    ensures (a * b) % b == 0
  {
    MultipleOf(a, b);
  }

  lemma EvenIsComposite(r: nat)
    requires r > 1
    ensures !IsPrime(2 * r)
  {
    assert (2 * r) % 2 == 0;
  }

  lemma SmoothRest(m: nat, a: nat, rest: nat, r: nat)
    requires r > 0 && m == a * rest && rest >= 1 && rest % Base(r) != 0 && Smooth(m, Base(r))
    ensures Smooth(rest, Base(r - 1))
  {
    FactorDivides(a, rest);
    forall p | IsPrime(p) && rest % p == 0
      ensures p <= Base(r - 1)
    {
      DividesTrans(p, rest, m);
      assert p <= Base(r) && p != Base(r);
      if r > 1 {
        EvenIsComposite(r);
      }
    }
  }

  lemma OddRestIsOne(m: nat, a: nat, rest: nat)
    requires m == a * rest && rest >= 1 && rest % 2 != 0 && Smooth(m, 2)
    ensures rest == 1
  {
    if rest > 1 {
      var p := PrimeDivisor(rest);
      FactorDivides(a, rest);
      DividesTrans(p, rest, m);
    }
  }

  /** A number up to n whose primes are among the bases divides the multiple. */
  lemma {:induction false} SmoothDivides(m: nat, r: nat, n: nat) returns (c: nat)
    requires 1 <= m <= n && Smooth(m, Base(r))
    ensures m * c == Multiple(r, n)
    decreases r
  {
    var p := Base(r);
    var e, rest := Strip(m, p);
    var a := Power(p, e);
    FactorsAreSmall(a, rest);
    FittingPower(p, n, e);
    var d := Power(p, MaxExp(p, n) - e);
    PowerSum(p, e, MaxExp(p, n) - e);
    if r == 0 {
      OddRestIsOne(m, a, rest);
      c := d;
    } else {
      SmoothRest(m, a, rest, r);
      var c' := SmoothDivides(rest, r - 1, n);
      c := d * c';
      Rearrange(a, rest, d, c');
    }
  }

  lemma FactorsAreSmall(a: nat, b: nat)
    requires a >= 1 && b >= 1
    ensures a <= a * b && b <= a * b
  {
    MulAtLeast(b, a);
    MulAtLeast(a, b);
  }

  lemma Rearrange(a: int, b: int, c: int, d: int)
    ensures (a * b) * (c * d) == (a * c) * (b * d)
  {
    Associate(a * b, c, d);
    Associate(a * c, b, d);
    Associate(a, b, c);
    Associate(a, c, b);
  }

  // ----- common multiples are large -----

  function Choose(n: nat, k: nat): nat {
    if k == 0 then 1 else if n == 0 then 0 else Choose(n - 1, k - 1) + Choose(n - 1, k)
  }

  lemma {:induction false} CentralIsLarge(m: nat)
    ensures Choose(2 * m, m) >= Power(2, m)
  {
    if m > 0 {
      CentralIsLarge(m - 1);
      var n := 2 * m - 2;
      assert Choose(n + 2, m) == Choose(n + 1, m - 1) + Choose(n + 1, m);
      assert Choose(n + 1, m) == Choose(n, m - 1) + Choose(n, m);
      assert Choose(n + 1, m - 1) >= Choose(n, m - 1);
    }
  }

  lemma Column(n: nat)
    ensures Choose(n, 1) == n
  {
    if n > 0 {
      Column(n - 1);
    }
  }

  lemma {:induction false} Absorb(n: nat, k: nat)
    requires n >= 1
    ensures (k + 1) * Choose(n, k + 1) == n * Choose(n - 1, k)
    ensures (n - k) * Choose(n, k) == n * Choose(n - 1, k)
  {
    if k == 0 {
      Column(n);
    } else if n == 1 {
      assert Choose(1, k + 1) == 0 && Choose(0, k) == 0;
      assert k > 1 ==> Choose(1, k) == Choose(0, k - 1) + Choose(0, k) == 0;
    } else {
      Absorb(n - 1, k);
      Absorb(n - 1, k - 1);
      var a, b, c := Choose(n - 1, k - 1), Choose(n - 1, k), Choose(n - 1, k + 1);
      AbsorbStep(n, k, a, b, c);
    }
  }

  lemma AbsorbStep(n: int, k: int, a: int, b: int, c: int)
    requires (k + 1) * c == (n - 1 - k) * b && k * b == (n - k) * a
    ensures (k + 1) * (b + c) == n * b && (n - k) * (a + b) == n * b
  {
  }

  ghost predicate CommonMultiple(d: nat, n: nat) {
    d >= 1 && forall i: nat :: 1 <= i <= n ==> d % i == 0
  }

  lemma ExactQuotient(d: nat, n: nat)
    requires n >= 1 && d % n == 0
    ensures (d / n) * (n * 1) == d
  {
  }

  /** The denominators of Leibniz's harmonic triangle divide every common multiple of 1 .. n: the quotient in one row is
      the difference of two quotients further left. */
  lemma {:induction false} DenominatorDivides(d: nat, top: nat, n: nat, k: nat) returns (e: int)
    requires CommonMultiple(d, top) && k < n <= top
    ensures e * (n * Choose(n - 1, k)) == d
    decreases k
  {
    if k == 0 {
      e := d / n;
      assert d % n == 0;
      ExactQuotient(d, n);
    } else {
      var e1 := DenominatorDivides(d, top, n, k - 1);
      var e0 := DenominatorDivides(d, top, n - 1, k - 1);
      e := e0 - e1;
      Absorb(n - 1, k - 1);
      var u, v, b := Choose(n - 1, k - 1), Choose(n - 1, k), Choose(n - 2, k - 1);
      LeibnizStep(d, n, k, e0, e1, u, v, b);
    }
  }

  lemma LeibnizStep(d: int, n: int, k: int, e0: int, e1: int, u: int, v: int, b: int)
    requires k > 0
    requires (n - k) * u == (n - 1) * b && k * v == (n - 1) * b
    requires e1 * (n * u) == d && e0 * ((n - 1) * b) == d
    ensures (e0 - e1) * (n * v) == d
  {
    calc {
      k * ((e0 - e1) * (n * v));
      { Associate(k, e0 - e1, n * v); Associate(k, n, v); }
      { assert k * ((e0 - e1) * (n * v)) == ((e0 - e1) * n) * (k * v); }
      ((e0 - e1) * n) * (k * v);
      ((e0 - e1) * n) * ((n - 1) * b);
      n * (e0 * ((n - 1) * b)) - n * (e1 * ((n - k) * u));
      { assert n * (e1 * ((n - k) * u)) == (n - k) * (e1 * (n * u)); }
      n * d - (n - k) * d;
      k * d;
    }
    Cancel(k, (e0 - e1) * (n * v), d);
  }

  lemma Cancel(k: int, x: int, y: int)
    requires k > 0 && k * x == k * y
    ensures x == y
  {
    assert (x - y) * k == k * x - k * y == -((y - x) * k);
    if x > y {
      MulAtLeast(x - y, k);
    } else if x < y {
      MulAtLeast(y - x, k);
    }
  }

  lemma CommonMultipleIsLarge(d: nat, m: nat)
    requires m >= 1 && CommonMultiple(d, 2 * m + 1)
    ensures d > Power(2, m)
  {
    var n, c := 2 * m + 1, Choose(2 * m, m);
    var e := DenominatorDivides(d, n, n, m);
    CentralIsLarge(m);
    MulCompare(2, n, c);
    if e <= 0 {
      MulCompare(e, 0, n * c);
    } else {
      MulAtLeast(e, n * c);
    }
  }

  // ----- the gap -----

  lemma {:induction false} SquareBelowPower(r: nat)
    requires r >= 3
    ensures (2 * r + 1) * (2 * r + 1) <= Power(2, 2 * r)
  {
    if r == 3 {
      assert Power(2, 6) == 64;
    } else {
      SquareBelowPower(r - 1);
      assert Power(2, 2 * r) == 2 * (2 * Power(2, 2 * (r - 1)));
      MulMonotone(2 * r + 1, 2 * r + 1, 2 * (2 * r - 1), 2 * (2 * r - 1));
    }
  }

  lemma NoPrimeMakesSmooth(q: nat, m: nat)
    requires q >= 2 && 1 <= m <= q * q && !exists p :: IsPrime(p) && q < p < q * q
    ensures Smooth(m, q)
  {
    forall p | IsPrime(p) && m % p == 0
      ensures p <= q
    {
      DivisorIsSmaller(p, m);
      if p == q * q {
        MultipleOf(q, q);
        MulCompare(2, q, q);
        assert p % q == 0;
      }
    }
  }

  lemma DivisorIsSmaller(p: nat, m: nat)
    requires p >= 1 && m >= 1 && m % p == 0
    ensures p <= m
  {
  }

  lemma MultipleIsCommon(q: nat, r: nat)
    requires r >= 1 && q == 2 * r + 1 && !exists p :: IsPrime(p) && q < p < q * q
    ensures CommonMultiple(Multiple(r, q * q), q * q)
  {
    forall m: nat | 1 <= m <= q * q
      ensures Multiple(r, q * q) % m == 0
    {
      NoPrimeMakesSmooth(q, m);
      var c := SmoothDivides(m, r, q * q);
      MultipleOf(c, m);
      assert c * m == m * c;
    }
  }

  lemma OddGapIsFilled(q: nat, r: nat)
    requires r >= 3 && q == 2 * r + 1
    ensures exists p :: IsPrime(p) && q < p < q * q
  {
    if !exists p :: IsPrime(p) && q < p < q * q {
      var n, m := q * q, 2 * r * (r + 1);
      assert n == 2 * m + 1;
      MultipleIsCommon(q, r);
      CommonMultipleIsLarge(Multiple(r, n), m);
      MultipleIsSmall(r, n);
      SquareBelowPower(r);
      PowerMonotone(n, Power(2, 2 * r), r + 1);
      PowerProduct(2, 2 * r, r + 1);
      assert false;
    }
  }

  /** Every prime is followed by another below its square. */
  lemma GapIsFilled(q: int)
    requires IsPrime(q)
    ensures exists p :: IsPrime(p) && q < p < q * q
  {
    if q == 2 {
      assert IsPrime(3);
    } else if q == 3 {
      assert IsPrime(5);
    } else if q == 5 {
      FirstIsPrime();
      assert IsPrime(FIRST[3]);
    } else {
      assert q % 2 == 1;
      if q == 1 + 2 * 1 || q == 1 + 2 * 2 {
        assert false;
      }
      OddGapIsFilled(q, q / 2);
    }
  }

  /** The table is right for every limit: it holds exactly the primes below it. */
  lemma TableIsThePrimes(limit: int, n: int)
    requires limit >= 14
    ensures n in Table(limit) <==> IsPrime(n) && n < limit
  {
    forall q | IsPrime(q) && q >= 13 && q * q < limit
      ensures exists p :: IsPrime(p) && q < p < q * q
    {
      GapIsFilled(q);
    }
    GapsMakeTablePrime(limit);
    if IsPrime(n) && n < limit {
      TableHasEveryPrime(limit, n);
    }
    TableShape(limit);
  }
}
