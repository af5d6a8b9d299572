/** How many primes there are at least, and so how large the primes of key generation get.

    The product of the greatest powers up to n of all primes is a multiple of every number up to
    n. By Leibniz's triangle it is then a multiple of k times the central binomial coefficient of
    n = 2 k, which is at least 2^k; and it has one factor of at most n for each prime. */
module PrimeBound {
  import opened NumberTheory
  import opened Fermat
  import opened Algorithm

  // ------------------------------------------------------------- powers of one prime

  /** The exponent of the greatest power of q up to n. */
  function Log(q: nat, n: nat): nat
    requires q >= 2
  {
    if n < q then 0
    else
      QuotientBelow(n, q);
      1 + Log(q, n / q)
  }

  lemma QuotientBelow(n: nat, q: nat)
    requires 2 <= q <= n
    ensures 1 <= n / q < n
  {
    Quotient(n, q);
    ProductsOrdered(2, n / q, q, n / q);
  }

  lemma {:induction false} PowPositive(q: nat, e: nat)
    requires q >= 1
    ensures Pow(q, e) >= 1
  {
    if e > 0 {
      PowPositive(q, e - 1);
      ProductsOrdered(1, 1, q, Pow(q, e - 1));
    }
  }

  lemma {:induction false} LogPower(q: nat, n: nat)
    requires q >= 2 && n >= 1
    ensures 1 <= Pow(q, Log(q, n)) <= n
  {
    PowPositive(q, Log(q, n));
    if n >= q {
      QuotientBelow(n, q);
      LogPower(q, n / q);
      LogUnfolds(q, n);
      hide Pow, Log;
      Quotient(n, q);
      ProductsOrdered(q, Pow(q, Log(q, n / q)), q, n / q);
    }
  }

  lemma LogUnfolds(q: nat, n: nat)
    requires 2 <= q <= n
    ensures Pow(q, Log(q, n)) == q * Pow(q, Log(q, n / q))
  {}

  lemma {:induction false} PowerBelow(q: nat, e: nat, n: nat)
    requires q >= 2 && 1 <= n && Pow(q, e) <= n
    ensures e <= Log(q, n)
  {
    if e > 0 {
      PowPositive(q, e - 1);
      FactorAtMost(q, Pow(q, e - 1), n);
      PowerBelow(q, e - 1, n / q);
    }
  }

  lemma FactorAtMost(q: nat, p: nat, n: nat)
    requires q >= 2 && p >= 1 && q * p <= n
    ensures q <= n && 1 <= p <= n / q
  {
    ProductsOrdered(q, 1, q, p);
    Quotient(n, q);
    if p > n / q {
      ProductsOrdered(q, n / q + 1, q, p);
    }
  }

  lemma PowerDivides(q: nat, e: nat, n: nat)
    requires q >= 2 && 1 <= n && Pow(q, e) <= n
    ensures Divides(Pow(q, e), Pow(q, Log(q, n)))
  {
    PowerBelow(q, e, n);
    PowAdd(q, e, Log(q, n) - e);
    MultipleIsDivisible(Pow(q, e), Pow(q, Log(q, n) - e));
  }

  // -------------------------------------------------------- a common multiple up to n

  /** The product over the primes up to m of their greatest powers up to n. */
  ghost function PrimePowers(m: nat, n: nat): int {
    if m < 2 then 1 else PrimePowers(m - 1, n) * if IsPrime(m) then Pow(m, Log(m, n)) else 1
  }

  lemma {:induction false} PrimePowersBound(m: nat, n: nat)
    requires n >= 1
    ensures 1 <= PrimePowers(m, n) <= Pow(n, PrimeCount(m))
  {
    hide IsPrime;
    if m >= 2 {
      PrimePowersBound(m - 1, n);
      if IsPrime(m) {
        LogPower(m, n);
        PowPositive(n, PrimeCount(m - 1));
        ProductsOrdered(PrimePowers(m - 1, n), Pow(m, Log(m, n)), Pow(n, PrimeCount(m - 1)), n);
        ProductsOrdered(1, 1, PrimePowers(m - 1, n), Pow(m, Log(m, n)));
        assert Pow(n, PrimeCount(m)) == n * Pow(n, PrimeCount(m - 1));
      }
    }
  }

  /** All prime divisors of i are at most m. */
  ghost predicate Smooth(i: nat, m: nat) {
    forall p: nat :: IsPrime(p) && Divides(p, i) ==> p <= m
  }

  /** A number without its factors q. */
  lemma {:induction false} SplitPower(i: nat, q: nat) returns (e: nat, r: nat)
    requires i >= 1 && q >= 2
    ensures i == Pow(q, e) * r && 1 <= r <= i && Pow(q, e) <= i && !Divides(q, r) && Divides(r, i)
    decreases i
  {
    if Divides(q, i) {
      var k := Cofactor(q, i);
      CofactorSmaller(i, q, k);
      e, r := SplitPower(k, q);
      assert i == Pow(q, e + 1) * r by { Regroup(q, Pow(q, e), r); }
      ProductsOrdered(q, Pow(q, e), q, k);
      MultipleIsDivisible(k, q);
      DividesTransitive(r, k, i);
      e := e + 1;
    } else {
      MultipleIsDivisible(i, 1);
      e, r := 0, i;
    }
  }

  lemma CofactorSmaller(i: nat, q: nat, k: int)
    requires i >= 1 && q >= 2 && i == q * k
    ensures 1 <= k < i
  {
    assert k <= 0 ==> q * k <= 0;
    assert k >= 1 ==> q * k >= 2 * k;
  }

  lemma Regroup(a: int, b: int, c: int)
    ensures a * (b * c) == a * b * c
  {}

  lemma SmoothBelow(i: nat, r: nat, m: nat)
    requires Smooth(i, m) && m >= 1 && Divides(r, i)
    requires !Divides(m, r) || !IsPrime(m)
    ensures Smooth(r, m - 1)
  {
    forall p: nat | IsPrime(p) && Divides(p, r)
      ensures p <= m - 1
    {
      DividesTransitive(p, r, i);
    }
  }

  lemma ProductDivides(a: int, b: int, c: int, d: int)
    requires Divides(a, c) && Divides(b, d)
    ensures Divides(a * b, c * d)
  {
    var i, j := Cofactor(a, c), Cofactor(b, d);
    assert c * d == a * b * (i * j);
    MultipleIsDivisible(a * b, i * j);
  }

  lemma AddPrime(r: nat, m: nat, e: nat, n: nat)
    requires IsPrime(m) && 1 <= n && Pow(m, e) <= n && Divides(r, PrimePowers(m - 1, n))
    ensures Divides(Pow(m, e) * r, PrimePowers(m, n))
  {
    PrimeIsPositive(m);
    assert PrimePowers(m, n) == PrimePowers(m - 1, n) * Pow(m, Log(m, n));
    hide IsPrime, Divides, Log, Pow, PrimePowers;
    PowerDivides(m, e, n);
    ProductDivides(r, Pow(m, e), PrimePowers(m - 1, n), Pow(m, Log(m, n)));
  }

  lemma {:induction false} SmoothDivides(i: nat, m: nat, n: nat)
    requires 1 <= i <= n && Smooth(i, m)
    ensures Divides(i, PrimePowers(m, n))
    decreases m
  {
    hide IsPrime, Divides, Log, Smooth, Pow, PrimePowers;
    if m < 2 {
      NoPrimeFactors(i, m);
      OneDivides(PrimePowers(m, n));
    } else if IsPrime(m) {
      var e, r := SplitPower(i, m);
      SmoothBelow(i, r, m);
      SmoothDivides(r, m - 1, n);
      AddPrime(r, m, e, n);
    } else {
      SelfDivides(i);
      SmoothBelow(i, i, m);
      SmoothDivides(i, m - 1, n);
      NoPrime(m, n);
    }
  }

  lemma NoPrime(m: nat, n: nat)
    requires m >= 2 && !IsPrime(m)
    ensures PrimePowers(m, n) == PrimePowers(m - 1, n)
  {}

  lemma NoPrimeFactors(i: nat, m: nat)
    requires i >= 1 && m < 2 && Smooth(i, m)
    ensures i == 1
  {
    if i >= 2 {
      var p := PrimeDivisor(i);
    }
  }

  lemma OneDivides(x: int)
    ensures Divides(1, x)
  {}

  lemma SelfDivides(x: int)
    ensures Divides(x, x)
  {
    MultipleIsDivisible(x, 1);
  }

  /** Every number up to n divides the product. */
  lemma UpToDivides(i: nat, n: nat)
    requires 1 <= i <= n
    ensures Divides(i, PrimePowers(n, n))
  {
    forall p: nat | IsPrime(p) && Divides(p, i)
      ensures p <= n
    {
      DividesAtMost(p, i);
    }
    SmoothDivides(i, n, n);
  }

  // ----------------------------------------------------------------- Leibniz's triangle

  /** With 1/b + 1/a = 1/d, a multiple of b and of d is one of a. */
  lemma LeibnizStep(a: nat, b: nat, d: nat, x: int)
    requires b > 0 && d > 0 && d * (a + b) == a * b && Divides(b, x) && Divides(d, x)
    ensures Divides(a, x)
  {
    var i, j := Cofactor(b, x), Cofactor(d, x);
    calc {
      (d * b) * (a * (j - i));
      a * b * (d * j) - a * d * (b * i);
      (a * b - a * d) * x;
      { assert d * (a + b) == d * a + d * b; assert a * d == d * a; }
      (d * b) * x;
    }
    Cancel(d * b, a * (j - i), x);
    MultipleIsDivisible(a, j - i);
  }

  lemma Cancel(c: int, x: int, y: int)
    requires c != 0 && c * x == c * y
    ensures x == y
  {
    assert c * (x - y) == 0;
  }

  lemma {:induction false} ChoosePositive(n: nat, k: nat)
    requires k <= n
    ensures Choose(n, k) >= 1
  {
    if k > 0 {
      ChoosePositive(n - 1, k - 1);
    }
  }

  lemma LeibnizIdentity(n: nat, k: nat)
    requires 1 <= k < n
    ensures var a, b, d := k * Choose(n, k), (k + 1) * Choose(n, k + 1), k * Choose(n - 1, k);
            b > 0 && d > 0 && d * (a + b) == a * b
  {
    ChooseAbsorb(n, k);
    ChooseAbsorb(n, k + 1);
    ChoosePositive(n, k + 1);
    ChoosePositive(n - 1, k);
    var c, u, v := Choose(n, k), Choose(n - 1, k - 1), Choose(n - 1, k);
    assert c == u + v;
    ProductsOrdered(1, 1, k + 1, Choose(n, k + 1));
    ProductsOrdered(1, 1, k, v);
    LeibnizProduct(n, k, c, u, v);
  }

  lemma LeibnizProduct(n: int, k: int, c: int, u: int, v: int)
    requires c == u + v && k * c == n * u
    ensures k * v * (k * c + n * v) == k * c * (n * v)
  {
    assert k * c + n * v == n * c;
    assert k * v * (n * c) == k * c * (n * v);
  }

  /** A multiple of all numbers up to n is a multiple of k times n over k. */
  lemma {:induction false} LeibnizDivides(n: nat, k: nat, x: int)
    requires 1 <= k <= n && forall i :: 1 <= i <= n ==> Divides(i, x)
    ensures Divides(k * Choose(n, k), x)
    decreases n, n - k
  {
    if k == n {
      ChooseBeyond(n, n);
      assert Divides(n, x);
    } else {
      LeibnizDivides(n - 1, k, x);
      LeibnizDivides(n, k + 1, x);
      LeibnizIdentity(n, k);
      LeibnizStep(k * Choose(n, k), (k + 1) * Choose(n, k + 1), k * Choose(n - 1, k), x);
    }
  }

  // ------------------------------------------------------------------ counting primes

  lemma {:induction false} CentralIsLarge(k: nat)
    ensures Choose(2 * k, k) >= Pow(2, k)
  {
    if k > 0 {
      CentralIsLarge(k - 1);
      var n := 2 * k;
      assert Choose(n, k) == Choose(n - 1, k - 1) + Choose(n - 1, k);
      assert Choose(n - 1, k) == Choose(n - 2, k - 1) + Choose(n - 2, k);
      if k > 1 {
        assert Choose(n - 1, k - 1) == Choose(n - 2, k - 2) + Choose(n - 2, k - 1);
      }
    }
  }

  /** There are enough primes up to 2 k for 2^k <= (2 k)^count. */
  lemma ManyPrimes(k: nat)
    requires k >= 1
    ensures Pow(2, k) <= Pow(2 * k, PrimeCount(2 * k))
  {
    hide Choose, Pow, PrimeCount, PrimePowers, Divides;
    var n := 2 * k;
    var x := PrimePowers(n, n);
    forall i | 1 <= i <= n
      ensures Divides(i, x)
    {
      UpToDivides(i, n);
    }
    LeibnizDivides(n, k, x);
    PrimePowersBound(n, n);
    DividesAtMost(k * Choose(n, k), x);
    CentralIsLarge(k);
    ProductsOrdered(1, Choose(n, k), k, Choose(n, k));
  }

  lemma {:induction false} PowStrict(a: nat, b: nat)
    requires Pow(2, a) <= Pow(2, b)
    ensures a <= b
  {
    if a > b {
      PowAdd(2, b, a - b);
      PowPositive(2, b);
      PowPositive(2, a - b - 1);
      assert Pow(2, a - b) == 2 * Pow(2, a - b - 1);
      ProductsOrdered(Pow(2, b), 2, Pow(2, b), Pow(2, a - b));
    }
  }

  lemma TwoToTwenty()
    ensures Pow(2, 20) == 0x10_0000
  {
    assert Pow(2, 5) == 32 by { assert Pow(2, 2) == 4; assert Pow(2, 3) == 8; assert Pow(2, 4) == 16; }
    PowAdd(2, 5, 5);
    PowAdd(2, 10, 10);
  }

  /** More than 26000 primes lie below 2^20. */
  lemma PrimesBelowMillion()
    ensures 20 * PrimeCount(0x10_0000) >= 0x8_0000
  {
    hide Pow, PrimeCount;
    ManyPrimes(0x8_0000);
    TwoToTwenty();
    PowMultiply(2, 20, PrimeCount(0x10_0000));
    PowStrict(0x8_0000, 20 * PrimeCount(0x10_0000));
  }

  /** A prime of rank up to 26214 is below 2^20. */
  lemma RankBoundsPrime(p: nat)
    requires IsPrime(p) && PrimeCount(p) <= 26214
    ensures p < 0x10_0000
  {
    hide PrimeCount, IsPrime;
    PrimesBelowMillion();
    if p >= 0x10_0000 {
      PrimeCountMonotone(0x10_0000, p);
    }
  }

  /** At least 2048 primes lie below 2^16. */
  lemma SmallRankBelow(p: nat)
    requires IsPrime(p) && PrimeCount(p) < 2048
    ensures p < 0x1_0000
  {
    hide Pow, PrimeCount, IsPrime;
    ManyPrimes(0x8000);
    SixteenBits();
    PowMultiply(2, 16, PrimeCount(0x1_0000));
    PowStrict(0x8000, 16 * PrimeCount(0x1_0000));
    if p >= 0x1_0000 {
      PrimeCountMonotone(0x1_0000, p);
    }
  }

  lemma SixteenBits()
    ensures Pow(2, 16) == 0x1_0000
  {
    assert Pow(2, 2) == 4 && Pow(2, 3) == 8 && Pow(2, 4) == 16;
    PowAdd(2, 4, 4);
    PowAdd(2, 8, 8);
  }
}
