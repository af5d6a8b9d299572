/** How many primes there are at most, and so how small the primes of key generation can be.

    The numbers Super(a, b) = C(2a, a) C(a, b) / C(2b, b) form a triangle like Pascal's, so they
    are whole. For a <= 3 b every prime above 2 b and up to 2 a divides Super(a, b), which is at
    most 6^a / 2^b. That bounds the product of all primes, and so their number. */
module FewPrimes {
  import opened NumberTheory
  import opened Fermat
  import opened Algorithm
  import opened PrimeBound

  // --------------------------------------------------------------------- the triangle

  function Super(a: nat, b: nat): nat {
    if b > a then 0
    else if b == a then 1
    else if b == 0 then Choose(2 * a, a)
    else 4 * Super(a - 1, b) + Super(a - 1, b - 1)
  }

  lemma {:induction false} ChooseAtMost(n: nat, k: nat)
    ensures Choose(n, k) <= Pow(2, n)
  {
    if n == 0 {
    } else if k == 0 {
      PowPositive(2, n);
    } else {
      ChooseAtMost(n - 1, k - 1);
      ChooseAtMost(n - 1, k);
    }
  }

  lemma {:induction false} PowMonotone(x: nat, y: nat, n: nat)
    requires x <= y
    ensures 0 <= Pow(x, n) <= Pow(y, n)
  {
    if n > 0 {
      PowMonotone(x, y, n - 1);
      ProductsOrdered(x, Pow(x, n - 1), y, Pow(y, n - 1));
    }
  }

  lemma {:induction false} SuperAtMost(a: nat, b: nat)
    requires b <= a
    ensures Super(a, b) * Pow(2, b) <= Pow(6, a)
  {
    if b == a {
      PowMonotone(2, 6, a);
    } else if b == 0 {
      ChooseAtMost(2 * a, a);
      PowMultiply(2, 2, a);
      assert Pow(2, 2) == 2 * Pow(2, 1) == 4;
      PowMonotone(4, 6, a);
    } else {
      SuperAtMost(a - 1, b);
      SuperAtMost(a - 1, b - 1);
      AddBounds(Super(a - 1, b), Super(a - 1, b - 1), Pow(2, b - 1), Pow(6, a - 1));
    }
  }

  lemma AddBounds(t: int, s: int, p: int, q: int)
    requires t * (2 * p) <= q && s * p <= q
    ensures (4 * t + s) * (2 * p) <= 6 * q
  {
    assert (4 * t + s) * (2 * p) == 4 * (t * (2 * p)) + 2 * (s * p);
  }

  // ------------------------------------------------------------- its closed form

  function Central(a: nat): nat {
    Choose(2 * a, a)
  }

  lemma CentralStep(a: nat)
    requires a >= 1
    ensures a * Central(a) == 2 * (2 * a - 1) * Central(a - 1)
  {
    ChooseAbsorb(2 * a, a);
    ChooseAbsorb(2 * a - 1, a);
    CentralSplits(a);
    hide Choose;
    CentralHalves(a, Central(a), Choose(2 * a - 1, a - 1), Choose(2 * a - 1, a), Central(a - 1));
  }

  lemma CentralHalves(a: int, c: int, u: int, v: int, d: int)
    requires a * c == 2 * a * u && c == u + v && a * v == (2 * a - 1) * d
    ensures a * c == 2 * (2 * a - 1) * d
  {
    assert a * (u + v) == a * u + a * v;
    assert 2 * a * u == 2 * (a * u);
    assert 2 * (2 * a - 1) * d == 2 * ((2 * a - 1) * d);
  }

  lemma CentralSplits(a: nat)
    requires a >= 1
    ensures Central(a) == Choose(2 * a - 1, a - 1) + Choose(2 * a - 1, a)
  {}

  lemma ChooseDrop(n: nat, k: nat)
    requires 1 <= k <= n
    ensures (n - k) * Choose(n, k) == n * Choose(n - 1, k)
  {
    ChooseAbsorb(n, k);
    var c, u, v := Choose(n, k), Choose(n - 1, k - 1), Choose(n - 1, k);
    assert c == u + v && k * c == n * u;
    hide Choose;
    assert (n - k) * c == n * c - k * c;
    assert n * (u + v) == n * u + n * v;
  }

  lemma {:induction false} SuperIs(a: nat, b: nat)
    requires b <= a
    ensures Super(a, b) * Central(b) == Central(a) * Choose(a, b)
  {
    if b == a {
      ChooseBeyond(a, a);
    } else if b == 0 {
      assert Central(0) == 1;
    } else {
      SuperIs(a - 1, b);
      SuperIs(a - 1, b - 1);
      CentralStep(a);
      CentralStep(b);
      ChooseAbsorb(a, b);
      ChooseDrop(a, b);
      SuperStep(a, b, Super(a - 1, b), Super(a - 1, b - 1), Central(b), Central(b - 1), Central(a), Central(a - 1),
                Choose(a, b), Choose(a - 1, b), Choose(a - 1, b - 1));
    }
  }

  lemma SuperStep(a: int, b: int, t: int, s: int, cb: int, cb1: int, ca: int, ca1: int, w: int, u: int, v: int)
    requires 1 <= b < a
    requires t * cb == ca1 * u && s * cb1 == ca1 * v
    requires a * ca == 2 * (2 * a - 1) * ca1 && b * cb == 2 * (2 * b - 1) * cb1
    requires b * w == a * v && (a - b) * w == a * u
    ensures (4 * t + s) * cb == ca * w
  {
    var z := ca1 * w;
    Exchange(a, t * cb, ca1, u, a - b, w);
    Exchange(a, s * cb1, ca1, v, b, w);
    Spread(a, b, t, s, cb);
    Recombine(a, b, s, cb, cb1, ca1 * v);
    Tail(a, b, ca, ca1, w);
    Collect(a, b, z);
    Cancel(b, a * ((4 * t + s) * cb), a * (ca * w));
    Cancel(a, (4 * t + s) * cb, ca * w);
  }

  /** With x = c y and a y = m w, a x is m (c w). */
  lemma Exchange(a: int, x: int, c: int, y: int, m: int, w: int)
    requires x == c * y && m * w == a * y
    ensures a * x == m * (c * w)
  {
    assert a * (c * y) == c * (a * y);
    assert c * (m * w) == m * (c * w);
  }

  lemma Spread(a: int, b: int, t: int, s: int, cb: int)
    ensures b * (a * ((4 * t + s) * cb)) == 4 * (b * (a * (t * cb))) + a * (s * (b * cb))
  {
    var x, y := t * cb, s * cb;
    assert (4 * t + s) * cb == 4 * x + y;
    assert a * (4 * x + y) == 4 * (a * x) + a * y;
    assert b * (4 * (a * x) + a * y) == 4 * (b * (a * x)) + b * (a * y);
    assert s * (b * cb) == b * y;
    assert a * (b * y) == b * (a * y);
  }

  lemma Recombine(a: int, b: int, s: int, cb: int, cb1: int, x: int)
    requires b * cb == 2 * (2 * b - 1) * cb1 && s * cb1 == x
    ensures a * (s * (b * cb)) == 2 * (2 * b - 1) * (a * x)
  {
    var d := 2 * (2 * b - 1);
    assert s * (d * cb1) == d * (s * cb1);
    assert a * (d * x) == d * (a * x);
  }

  lemma Tail(a: int, b: int, ca: int, ca1: int, w: int)
    requires a * ca == 2 * (2 * a - 1) * ca1
    ensures b * (a * (ca * w)) == b * (2 * (2 * a - 1) * (ca1 * w))
  {
    var d := 2 * (2 * a - 1);
    Regroup(a, ca, w);
    Regroup(d, ca1, w);
  }

  lemma Collect(a: int, b: int, z: int)
    ensures 4 * (b * ((a - b) * z)) + 2 * (2 * b - 1) * (b * z) == b * (2 * (2 * a - 1) * z)
  {
    var y := b * z;
    assert b * ((a - b) * z) == (a - b) * y;
    assert b * (2 * (2 * a - 1) * z) == 2 * (2 * a - 1) * y;
    assert 4 * ((a - b) * y) == 4 * (a * y) - 4 * (b * y);
    assert 2 * (2 * b - 1) * y == 4 * (b * y) - 2 * y;
    assert 2 * (2 * a - 1) * y == 4 * (a * y) - 2 * y;
  }

  // ------------------------------------------------------------------ prime divisors

  lemma MultipleOfDivisible(p: int, x: int, k: int)
    requires Divides(p, x)
    ensures Divides(p, k * x) && Divides(p, x * k)
  {
    DividesCombination(p, x, k, 0, 0);
  }

  /** Prime divisors of n over k are at most n. */
  lemma {:induction false} LargePrimeMisses(p: nat, n: nat, k: nat)
    requires IsPrime(p) && n < p && k <= n
    ensures !Divides(p, Choose(n, k))
  {
    if k == 0 {
      PrimeIsPositive(p);
    } else {
      hide IsPrime, Choose, Divides;
      LargePrimeMisses(p, n - 1, k - 1);
      ChooseAbsorb(n, k);
      if Divides(p, Choose(n, k)) {
        MultipleOfDivisible(p, Choose(n, k), k);
        PrimeDividesProduct(p, n, Choose(n - 1, k - 1));
        DividesAtMost(p, n);
      }
    }
  }

  /** A prime up to n, but above k and n - k, divides n over k. */
  lemma {:induction false} MiddlePrimeHits(p: nat, n: nat, k: nat)
    requires IsPrime(p) && k < p <= n < k + p
    ensures Divides(p, Choose(n, k))
  {
    hide IsPrime, Choose, Divides;
    if n == p {
      PrimeDividesChoose(p, k);
    } else {
      MiddlePrimeHits(p, n - 1, k);
      ChooseDrop(n, k);
      MultipleOfDivisible(p, Choose(n - 1, k), n);
      PrimeDividesProduct(p, n - k, Choose(n, k));
      if Divides(p, n - k) {
        DividesAtMost(p, n - k);
      }
    }
  }

  lemma PrimeDividesSuper(p: nat, a: nat, b: nat)
    requires IsPrime(p) && 2 * b < p <= 2 * a && b <= a <= 3 * b
    ensures Divides(p, Super(a, b))
  {
    hide IsPrime, Choose, Super, Divides;
    if p > a {
      MiddlePrimeHits(p, 2 * a, a);
      MultipleOfDivisible(p, Central(a), Choose(a, b));
    } else {
      MiddlePrimeHits(p, a, b);
      MultipleOfDivisible(p, Choose(a, b), Central(a));
    }
    SuperIs(a, b);
    LargePrimeMisses(p, 2 * b, b);
    PrimeDividesProduct(p, Super(a, b), Central(b));
  }

  // --------------------------------------------------------- the product of primes

  /** The product of the primes above lo and up to hi. */
  ghost function PrimeProduct(lo: nat, hi: nat): nat {
    if hi <= lo then 1 else PrimeProduct(lo, hi - 1) * if IsPrime(hi) then hi else 1
  }

  lemma {:induction false} PrimeProductPositive(lo: nat, hi: nat)
    ensures PrimeProduct(lo, hi) >= 1
  {
    if hi > lo {
      PrimeProductPositive(lo, hi - 1);
      ProductsOrdered(1, 1, PrimeProduct(lo, hi - 1), if IsPrime(hi) then hi else 1);
    }
  }

  lemma {:induction false} PrimeProductSplits(lo: nat, mid: nat, hi: nat)
    requires lo <= mid <= hi
    ensures PrimeProduct(lo, hi) == PrimeProduct(lo, mid) * PrimeProduct(mid, hi)
  {
    if mid < hi {
      PrimeProductSplits(lo, mid, hi - 1);
      Regroup(PrimeProduct(lo, mid), PrimeProduct(mid, hi - 1), if IsPrime(hi) then hi else 1);
    }
  }

  /** A prime above hi does not divide the product. */
  lemma {:induction false} LaterPrimeMisses(p: nat, lo: nat, hi: nat)
    requires IsPrime(p) && hi < p
    ensures !Divides(p, PrimeProduct(lo, hi))
  {
    if hi <= lo {
    } else {
      LaterPrimeMisses(p, lo, hi - 1);
      if IsPrime(hi) && Divides(p, PrimeProduct(lo, hi)) {
        PrimeDividesProduct(p, PrimeProduct(lo, hi - 1), hi);
        DividesAtMost(p, hi);
      }
    }
  }

  lemma {:induction false} ProductDividesCommon(lo: nat, hi: nat, x: int)
    requires forall p: nat :: IsPrime(p) && lo < p <= hi ==> Divides(p, x)
    ensures Divides(PrimeProduct(lo, hi), x)
  {
    if hi <= lo {
      OneDivides(x);
    } else {
      ProductDividesCommon(lo, hi - 1, x);
      if IsPrime(hi) {
        var q := PrimeProduct(lo, hi - 1);
        var y := Cofactor(q, x);
        LaterPrimeMisses(hi, lo, hi - 1);
        PrimeDividesSigned(hi, q, y);
        SelfDivides(q);
        ProductDivides(q, hi, q, y);
      }
    }
  }

  lemma PrimeDividesSigned(p: nat, q: nat, y: int)
    requires IsPrime(p) && Divides(p, q * y) && !Divides(p, q)
    ensures Divides(p, y)
  {
    if y >= 0 {
      PrimeDividesProduct(p, q, y);
    } else {
      DividesCombination(p, q * y, -1, 0, 0);
      assert q * y * -1 == q * -y;
      PrimeDividesProduct(p, q, -y);
      DividesCombination(p, -y, -1, 0, 0);
    }
  }

  lemma SuperBoundsProduct(a: nat, b: nat)
    requires 1 <= b <= a <= 3 * b
    ensures PrimeProduct(2 * b, 2 * a) * Pow(2, b) <= Pow(6, a)
  {
    hide IsPrime, PrimeProduct, Divides, Choose, Super;
    forall p: nat | IsPrime(p) && 2 * b < p <= 2 * a
      ensures Divides(p, Super(a, b))
    {
      PrimeDividesSuper(p, a, b);
    }
    ProductDividesCommon(2 * b, 2 * a, Super(a, b));
    SuperPositive(a, b);
    PrimeProductPositive(2 * b, 2 * a);
    DividesAtMost(PrimeProduct(2 * b, 2 * a), Super(a, b));
    PowPositive(2, b);
    ProductsOrdered(PrimeProduct(2 * b, 2 * a), Pow(2, b), Super(a, b), Pow(2, b));
    SuperAtMost(a, b);
  }

  lemma {:induction false} SuperPositive(a: nat, b: nat)
    requires b <= a
    ensures Super(a, b) >= 1
  {
    if b == a {
    } else if b == 0 {
      ChoosePositive(2 * a, a);
    } else {
      SuperPositive(a - 1, b);
    }
  }

  // ------------------------------------------------------------------------ in bits

  /** 108^a is at most 2 to this power, by 108^17 <= 2^115. */
  function BitsOf108(a: nat): nat {
    (115 * a + 16) / 17
  }

  lemma {:induction false} RootsOrdered(x: nat, y: nat, n: nat)
    requires n >= 1 && Pow(x, n) <= Pow(y, n)
    ensures x <= y
  {
    if x > y {
      PowMonotone(y, x - 1, n);
      PowStrictlyGrows(x - 1, n);
    }
  }

  lemma {:induction false} PowStrictlyGrows(x: nat, n: nat)
    requires n >= 1
    ensures Pow(x, n) < Pow(x + 1, n)
  {
    if n == 1 {
      PowOne(x);
      PowOne(x + 1);
    } else {
      PowStrictlyGrows(x, n - 1);
      PowMonotone(x, x + 1, n - 1);
      ProductsOrdered(x, Pow(x, n - 1), x, Pow(x + 1, n - 1));
      assert Pow(x + 1, n) == (x + 1) * Pow(x + 1, n - 1) == x * Pow(x + 1, n - 1) + Pow(x + 1, n - 1);
    }
  }

  lemma PowersOf108()
    ensures Pow(108, 17) <= Pow(2, 115)
  {
    HalfOf108();
    HalfOf2();
    hide Pow;
    PowAdd(108, 8, 8);
    PowAdd(108, 16, 1);
    PowOne(108);
    PowAdd(2, 55, 55);
    PowAdd(2, 110, 5);
  }

  lemma HalfOf108()
    ensures Pow(108, 8) == 11664 * 11664 * (11664 * 11664)
  {
    assert Pow(108, 2) == 108 * Pow(108, 1) == 11664;
    hide Pow;
    PowAdd(108, 2, 2);
    PowAdd(108, 4, 4);
  }

  lemma HalfOf2()
    ensures Pow(2, 5) == 32 && Pow(2, 55) == 0x10_0000 * 0x10_0000 * 0x8000
  {
    assert Pow(2, 3) == 8;
    assert Pow(2, 5) == 32;
    TwoToTwenty();
    hide Pow;
    PowAdd(2, 5, 5);
    PowAdd(2, 10, 5);
    PowAdd(2, 20, 20);
    PowAdd(2, 40, 15);
  }

  lemma In108Bits(a: nat)
    ensures Pow(108, a) <= Pow(2, BitsOf108(a))
  {
    var e := BitsOf108(a);
    PowersOf108();
    hide Pow;
    PowMultiply(108, 17, a);
    PowMultiply(108, a, 17);
    PowMultiply(2, 115, a);
    PowMultiply(2, e, 17);
    PowPositive(108, 17);
    PowPositive(108, a);
    PowPositive(2, e);
    PowMonotone(Pow(108, 17), Pow(2, 115), a);
    PowIncreases(115 * a, e * 17);
    RootsOrdered(Pow(108, a), Pow(2, e), 17);
  }

  lemma PowIncreases(a: nat, b: nat)
    requires a <= b
    ensures Pow(2, a) <= Pow(2, b)
  {
    PowAdd(2, a, b - a);
    PowPositive(2, a);
    PowPositive(2, b - a);
    ProductsOrdered(Pow(2, a), 1, Pow(2, a), Pow(2, b - a));
  }

  /** c times 3^k, and the sum of such numbers below k. */
  function Tripled(c: nat, k: nat): nat {
    if k == 0 then c else 3 * Tripled(c, k - 1)
  }

  function TripledBelow(c: nat, k: nat): nat {
    if k == 0 then 0 else TripledBelow(c, k - 1) + Tripled(c, k - 1)
  }

  /** From one range of primes to one three times as far, the product grows by 108^b at most. */
  lemma TripleStep(b: nat)
    requires b >= 1
    ensures PrimeProduct(0, 6 * b) <= PrimeProduct(0, 2 * b) * Pow(108, b)
  {
    hide PrimeProduct, Pow;
    SuperBoundsProduct(3 * b, b);
    PrimeProductSplits(0, 2 * b, 6 * b);
    PowMultiply(6, 3, b);
    SixCubed();
    PowOfProduct(108, 2, b);
    PowPositive(2, b);
    PrimeProductPositive(0, 2 * b);
    CancelFactor(PrimeProduct(2 * b, 6 * b), Pow(108, b), Pow(2, b));
    ProductsOrdered(PrimeProduct(0, 2 * b), PrimeProduct(2 * b, 6 * b), PrimeProduct(0, 2 * b), Pow(108, b));
  }

  lemma SixCubed()
    ensures Pow(6, 3) == 108 * 2
  {
    assert Pow(6, 2) == 36;
  }

  lemma {:induction false} PowOfProduct(x: int, y: int, n: nat)
    ensures Pow(x * y, n) == Pow(x, n) * Pow(y, n)
  {
    if n > 0 {
      PowOfProduct(x, y, n - 1);
      Interchange(x, y, Pow(x, n - 1), Pow(y, n - 1));
    }
  }

  lemma Interchange(x: int, y: int, u: int, v: int)
    ensures x * y * (u * v) == x * u * (y * v)
  {
    Regroup(x * y, u, v);
    Regroup(x * u, y, v);
    assert x * y * u == x * u * y;
  }

  lemma CancelFactor(x: nat, y: nat, f: nat)
    requires f >= 1 && x * f <= y * f
    ensures x <= y && y >= 0
  {
    assert (y + 1) * f == y * f + f;
    if x > y {
      ProductsOrdered(y + 1, f, x, f);
    }
  }

  lemma {:induction false} TripledProduct(c: nat, k: nat)
    requires c >= 1
    ensures Tripled(c, k) >= 1
    ensures PrimeProduct(0, 2 * Tripled(c, k)) <= PrimeProduct(0, 2 * c) * Pow(108, TripledBelow(c, k))
  {
    hide PrimeProduct, Pow;
    if k == 0 {
      PowZero(108);
    } else {
      TripledProduct(c, k - 1);
      var b, e := Tripled(c, k - 1), TripledBelow(c, k - 1);
      TripleStep(b);
      PowAdd(108, e, b);
      PowPositive(108, b);
      PrimeProductPositive(0, 2 * b);
      ProductsOrdered(PrimeProduct(0, 2 * b), Pow(108, b), PrimeProduct(0, 2 * c) * Pow(108, e), Pow(108, b));
      Regroup(PrimeProduct(0, 2 * c), Pow(108, e), Pow(108, b));
    }
  }

  /** The room for the product of all primes up to 2 c 3^k, in bits. */
  lemma Room(c: nat, k: nat, small: nat) returns (bits: nat)
    requires c >= 1 && PrimeProduct(0, 2 * c) <= Pow(2, small)
    ensures bits == small + BitsOf108(TripledBelow(c, k))
    ensures 1 <= PrimeProduct(0, 2 * Tripled(c, k)) <= Pow(2, bits)
  {
    hide PrimeProduct, Pow, BitsOf108;
    var e := TripledBelow(c, k);
    bits := small + BitsOf108(e);
    TripledProduct(c, k);
    In108Bits(e);
    PowPositive(108, e);
    PrimeProductPositive(0, 2 * c);
    PrimeProductPositive(0, 2 * Tripled(c, k));
    ProductsOrdered(PrimeProduct(0, 2 * c), Pow(108, e), Pow(2, small), Pow(2, BitsOf108(e)));
    PowAdd(2, small, BitsOf108(e));
  }

  lemma SmallProducts()
    ensures PrimeProduct(0, 2) <= Pow(2, 1) && PrimeProduct(0, 4) <= Pow(2, 3) && PrimeProduct(0, 8) <= Pow(2, 8)
    ensures PrimeProduct(0, 10) <= Pow(2, 8) && PrimeProduct(0, 14) <= Pow(2, 15)
  {
    assert Divides(2, 4) && Divides(2, 6) && Divides(2, 8) && Divides(3, 9);
    assert Divides(2, 10) && Divides(2, 12) && Divides(2, 14);
    assert PrimeProduct(0, 1) == 1;
    assert PrimeProduct(0, 2) <= 2;
    assert PrimeProduct(0, 4) == PrimeProduct(0, 3) <= 6;
    assert PrimeProduct(0, 6) == PrimeProduct(0, 5) <= 30;
    assert PrimeProduct(0, 8) == PrimeProduct(0, 7) <= 210;
    assert PrimeProduct(0, 10) == PrimeProduct(0, 9) == PrimeProduct(0, 8);
    assert PrimeProduct(0, 12) == PrimeProduct(0, 11) <= 2310;
    assert PrimeProduct(0, 14) == PrimeProduct(0, 13) <= 30030;
    assert Pow(2, 1) == 2 && Pow(2, 3) == 8 && Pow(2, 5) == 32;
    PowAdd(2, 5, 3);
    PowAdd(2, 5, 5);
    PowAdd(2, 10, 5);
  }

  // ------------------------------------------------------------------------ counting

  /** Each prime above lo adds its bits, here counted twice, to the product. */
  lemma {:induction false} WeighPrimes(lo: nat, hi: nat, l: nat, s: nat)
    requires lo <= hi && Pow(2, l) <= lo * lo
    requires Pow(2, s) <= PrimeProduct(0, lo) * PrimeProduct(0, lo)
    ensures PrimeCount(lo) <= PrimeCount(hi)
    ensures Pow(2, s + l * (PrimeCount(hi) - PrimeCount(lo))) <= PrimeProduct(0, hi) * PrimeProduct(0, hi)
  {
    hide IsPrime, Pow, PrimeProduct, PrimeCount;
    if lo < hi {
      WeighPrimes(lo, hi - 1, l, s);
      AddOne(hi);
      if IsPrime(hi) {
        PrimeIsPositive(hi);
        var n := PrimeCount(hi - 1) - PrimeCount(lo);
        AddWeight(s, l, n, PrimeProduct(0, hi - 1), lo, hi);
      }
    }
  }

  lemma AddOne(hi: nat)
    requires hi >= 1
    ensures PrimeProduct(0, hi) == PrimeProduct(0, hi - 1) * if IsPrime(hi) then hi else 1
    ensures PrimeCount(hi) == PrimeCount(hi - 1) + if IsPrime(hi) then 1 else 0
  {}

  lemma AddWeight(s: nat, l: nat, n: nat, q: int, lo: nat, p: nat)
    requires lo <= p && Pow(2, l) <= lo * lo && Pow(2, s + l * n) <= q * q
    ensures Pow(2, s + l * (n + 1)) <= q * p * (q * p)
  {
    assert l * (n + 1) == l * n + l;
    PowAdd(2, s + l * n, l);
    PowPositive(2, s + l * n);
    PowPositive(2, l);
    hide Pow;
    ProductsOrdered(lo, lo, p, p);
    ProductsOrdered(Pow(2, s + l * n), Pow(2, l), q * q, p * p);
    assert q * p * (q * p) == q * q * (p * p);
  }

  /** The weight of the primes up to hi, and the room there is for it. */
  lemma NextWeight(lo: nat, c: nat, k: nat, small: nat, l: nat, s: nat) returns (t: nat)
    requires lo <= 2 * Tripled(c, k) && Pow(2, l) <= lo * lo
    requires Pow(2, s) <= PrimeProduct(0, lo) * PrimeProduct(0, lo)
    requires c >= 1 && PrimeProduct(0, 2 * c) <= Pow(2, small)
    ensures var hi := 2 * Tripled(c, k);
            && PrimeCount(lo) <= PrimeCount(hi) && t == s + l * (PrimeCount(hi) - PrimeCount(lo))
            && Pow(2, t) <= PrimeProduct(0, hi) * PrimeProduct(0, hi)
    ensures t <= 2 * (small + BitsOf108(TripledBelow(c, k)))
  {
    hide Pow, PrimeCount, PrimeProduct, BitsOf108, TripledBelow;
    var hi := 2 * Tripled(c, k);
    WeighPrimes(lo, hi, l, s);
    var n := PrimeCount(hi) - PrimeCount(lo);
    assert l * n >= 0;
    t := s + l * n;
    var bits := Room(c, k, small);
    ProductsOrdered(PrimeProduct(0, hi), PrimeProduct(0, hi), Pow(2, bits), Pow(2, bits));
    PowAdd(2, bits, bits);
    PowStrict(t, 2 * bits);
  }

  lemma SquaresUsed()
    ensures Pow(2, 4) <= 4 * 4
    ensures Pow(2, 9) <= 24 * 24
    ensures Pow(2, 12) <= 72 * 72
    ensures Pow(2, 17) <= 378 * 378
    ensures Pow(2, 19) <= 810 * 810
    ensures Pow(2, 21) <= 1458 * 1458
    ensures Pow(2, 23) <= 2916 * 2916
    ensures Pow(2, 24) <= 4374 * 4374
    ensures Pow(2, 25) <= 5832 * 5832
    ensures Pow(2, 26) <= 8748 * 8748
    ensures Pow(2, 27) <= 13122 * 13122
    ensures Pow(2, 28) <= 17496 * 17496
    ensures Pow(2, 29) <= 26244 * 26244
    ensures Pow(2, 30) <= 39366 * 39366
    ensures Pow(2, 31) <= 52488 * 52488
  {
    assert Pow(2, 3) == 8 && Pow(2, 4) == 16;
    TwoToTwenty();
    assert Pow(2, 5) == 32 && Pow(2, 6) == 64 && Pow(2, 7) == 128 && Pow(2, 8) == 256 && Pow(2, 9) == 512;
    PowAdd(2, 9, 3);
    PowAdd(2, 12, 5);
    PowAdd(2, 12, 7);
    PowAdd(2, 17, 4);
    PowAdd(2, 20, 3);
    PowAdd(2, 21, 3);
    PowAdd(2, 21, 4);
    PowAdd(2, 23, 3);
    PowAdd(2, 24, 3);
    PowAdd(2, 25, 3);
    PowAdd(2, 26, 3);
    PowAdd(2, 27, 3);
    PowAdd(2, 28, 3);
  }

  lemma TriplesUsed()
    ensures 2 * Tripled(4, 1) == 24 && 8 + BitsOf108(TripledBelow(4, 1)) == 36
    ensures 2 * Tripled(4, 2) == 72 && 8 + BitsOf108(TripledBelow(4, 2)) == 117
    ensures 2 * Tripled(7, 3) == 378 && 15 + BitsOf108(TripledBelow(7, 3)) == 631
    ensures 2 * Tripled(5, 4) == 810 && 8 + BitsOf108(TripledBelow(5, 4)) == 1361
    ensures 2 * Tripled(1, 6) == 1458 && 1 + BitsOf108(TripledBelow(1, 6)) == 2464
    ensures 2 * Tripled(2, 6) == 2916 && 3 + BitsOf108(TripledBelow(2, 6)) == 4928
    ensures 2 * Tripled(1, 7) == 4374 && 1 + BitsOf108(TripledBelow(1, 7)) == 7395
    ensures 2 * Tripled(4, 6) == 5832 && 8 + BitsOf108(TripledBelow(4, 6)) == 9858
    ensures 2 * Tripled(2, 7) == 8748 && 3 + BitsOf108(TripledBelow(2, 7)) == 14791
    ensures 2 * Tripled(1, 8) == 13122 && 1 + BitsOf108(TripledBelow(1, 8)) == 22190
    ensures 2 * Tripled(4, 7) == 17496 && 8 + BitsOf108(TripledBelow(4, 7)) == 29584
    ensures 2 * Tripled(2, 8) == 26244 && 3 + BitsOf108(TripledBelow(2, 8)) == 44380
    ensures 2 * Tripled(1, 9) == 39366 && 1 + BitsOf108(TripledBelow(1, 9)) == 66573
    ensures 2 * Tripled(4, 8) == 52488 && 8 + BitsOf108(TripledBelow(4, 8)) == 88761
    ensures 2 * Tripled(5, 8) == 65610 && 8 + BitsOf108(TripledBelow(5, 8)) == 110950
  {}

  /** The primes up to m weigh at least s. */
  ghost predicate Weighs(m: nat, s: nat) {
    Pow(2, s) <= PrimeProduct(0, m) * PrimeProduct(0, m)
  }

  lemma FirstPrimes()
    ensures PrimeCount(4) <= 3 && Weighs(4, 0)
  {
    PrimeProductPositive(0, 4);
    ProductsOrdered(1, 1, PrimeProduct(0, 4), PrimeProduct(0, 4));
  }

  lemma PrimesUpTo1458() returns (s: nat)
    ensures Weighs(1458, s) && 19 * PrimeCount(1458) <= 1274 + s && s <= 4928
  {
    hide Pow, PrimeCount, PrimeProduct, IsPrime, Tripled, TripledBelow, BitsOf108;
    FirstPrimes();
    s := 0;
    SquaresUsed();
    TriplesUsed();
    SmallProducts();
    s := NextWeight(4, 4, 1, 8, 4, s);
    assert 4 * PrimeCount(24) <= 12 + s;
    s := NextWeight(24, 4, 2, 8, 9, s);
    assert 9 * PrimeCount(72) <= 117 + s;
    s := NextWeight(72, 7, 3, 15, 12, s);
    assert 12 * PrimeCount(378) <= 234 + s;
    s := NextWeight(378, 5, 4, 8, 17, s);
    assert 17 * PrimeCount(810) <= 854 + s;
    s := NextWeight(810, 1, 6, 1, 19, s);
  }

  lemma PrimesUpTo13122() returns (s: nat)
    ensures Weighs(13122, s) && 26 * PrimeCount(13122) <= 6178 + s && s <= 44380
  {
    hide Pow, PrimeCount, PrimeProduct, IsPrime, Tripled, TripledBelow, BitsOf108;
    s := PrimesUpTo1458();
    SquaresUsed();
    TriplesUsed();
    SmallProducts();
    s := NextWeight(1458, 2, 6, 3, 21, s);
    assert 21 * PrimeCount(2916) <= 1926 + s;
    s := NextWeight(2916, 1, 7, 1, 23, s);
    assert 23 * PrimeCount(4374) <= 3048 + s;
    s := NextWeight(4374, 4, 6, 8, 24, s);
    assert 24 * PrimeCount(5832) <= 3823 + s;
    s := NextWeight(5832, 2, 7, 3, 25, s);
    assert 25 * PrimeCount(8748) <= 4803 + s;
    s := NextWeight(8748, 1, 8, 1, 26, s);
  }

  lemma PrimesUpTo65610() returns (s: nat)
    ensures Weighs(65610, s) && 31 * PrimeCount(65610) <= 25800 + s && s <= 221900
  {
    hide Pow, PrimeCount, PrimeProduct, IsPrime, Tripled, TripledBelow, BitsOf108;
    s := PrimesUpTo13122();
    SquaresUsed();
    TriplesUsed();
    SmallProducts();
    s := NextWeight(13122, 4, 7, 8, 27, s);
    assert 27 * PrimeCount(17496) <= 8122 + s;
    s := NextWeight(17496, 2, 8, 3, 28, s);
    assert 28 * PrimeCount(26244) <= 10614 + s;
    s := NextWeight(26244, 1, 9, 1, 29, s);
    assert 29 * PrimeCount(39366) <= 14163 + s;
    s := NextWeight(39366, 4, 8, 8, 30, s);
    assert 30 * PrimeCount(52488) <= 19242 + s;
    s := NextWeight(52488, 5, 8, 8, 31, s);
  }

  /** A prime of rank 7999 or more is above 2^16. */
  lemma RankExceeds(p: nat)
    requires IsPrime(p) && PrimeCount(p) >= 7999
    ensures p > 65536
  {
    hide PrimeCount, IsPrime;
    var s := PrimesUpTo65610();
    if p <= 65536 {
      PrimeCountMonotone(p, 65610);
    }
  }
}
