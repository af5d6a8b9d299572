/** The number-theoretic routines of common/util/algorithm.h. */
module Algorithm {
  import opened Wrappers
  import opened NumberTheory
  import opened Fermat
  import opened Words

  // ------------------------------------------------------------------------ gcd

  method SubtractiveGcd(a0: nat, b0: nat) returns (g: nat)
    ensures g == Gcd(a0, b0)
  {
    var a, b := a0, b0;
    if a == 0 {
      return b;
    }
    if b == 0 {
      GcdSymmetric(a, 0);
      return a;
    }
    while a != b
      invariant a > 0 && b > 0 && Gcd(a, b) == Gcd(a0, b0)
      decreases a + b
    {
      if a > b {
        GcdSubtract(a, b);
        a := a - b;
      } else {
        GcdSymmetric(a, b);
        GcdSubtract(b, a);
        GcdSymmetric(b - a, a);
        b := b - a;
      }
    }
    GcdSelf(b);
    return b;
  }

  // ------------------------------------------------------------ extended Euclid

  function OrOne(n: nat): int {
    if n == 0 then 1 else n
  }

  /** The coefficients are computed in mixed signed and unsigned 64-bit arithmetic; they
      never leave the signed range, because each is bounded by the other argument, or by 1. */
  method GcdExtended(a: u64, b: u64) returns (g: u64, x: i64, y: i64)
    requires a < TWO_63 && b < TWO_63
    ensures g == Gcd(a, b)
    ensures a * x + b * y == g
    ensures -OrOne(b) <= x <= OrOne(b) && -OrOne(a) <= y <= OrOne(a)
    ensures a == 0 ==> x == 0 && y == 1
    decreases a
  {
    hide Gcd, WrapU64, ToI64, Divides, Cong, OrOne;
    GcdUnfolds(a, b);
    if a == 0 {
      OrOneIs(a);
      OrOneIs(b);
      return b, 0, 1;
    }
    var q, r, x1, y1 := b / a, b % a, 0, 0;
    QuotientAndRest(a, b);
    g, x1, y1 := GcdExtended(r, a);
    CoefficientStep(a, b, q, r, g, x1, y1);
    x := ToI64(WrapU64(WrapU64(y1) - WrapU64(WrapU64(x1) * q)));
    y := x1;
  }

  lemma OrOneIs(n: nat)
    ensures OrOne(n) == if n == 0 then 1 else n
  {}

  lemma QuotientAndRest(a: nat, b: nat)
    requires a > 0
    ensures b == a * (b / a) + b % a && b % a < a && 0 <= b / a <= b
  {
    Quotient(b, a);
    ProductsOrdered(1, b / a, a, b / a);
  }

  lemma GcdUnfolds(a: nat, b: nat)
    ensures Gcd(a, b) == if a == 0 then b else Gcd(b % a, a)
  {}

  /** The new coefficient in the machine's arithmetic is the true one, and in range again. */
  lemma CoefficientStep(a: nat, b: nat, q: u64, r: nat, g: nat, x1: i64, y1: i64)
    requires 0 < a && b == a * q + r && r < a && b < TWO_63
    requires r * x1 + a * y1 == g
    requires -OrOne(a) <= x1 <= OrOne(a) && -OrOne(r) <= y1 <= OrOne(r)
    requires r == 0 ==> x1 == 0 && y1 == 1
    ensures var x := ToI64(WrapU64(WrapU64(y1) - WrapU64(WrapU64(x1) * q)));
            && a * x + b * x1 == g
            && -OrOne(b) <= x <= OrOne(b) && -OrOne(a) <= x1 <= OrOne(a)
  {
    hide WrapU64, ToI64;
    Distribute(a, x1, y1, q, r);
    ProductRange(x1, a, q);
    MixedUpdateIsExact(x1, y1, q);
  }

  lemma Distribute(a: int, x: int, y: int, q: int, r: int)
    ensures a * (y - x * q) + (a * q + r) * x == r * x + a * y
  {
    assert a * (x * q) == a * q * x;
    assert a * (y - x * q) == a * y - a * (x * q);
    assert (a * q + r) * x == a * q * x + r * x;
  }

  lemma ProductRange(x: int, a: nat, q: nat)
    requires -(a as int) <= x <= a
    ensures -(a * q) <= x * q <= a * q
  {
    assert (a - x) * q >= 0;
    assert (a + x) * q >= 0;
  }

  // ------------------------------------------------------------ modular inverse

  /** An inverse is returned exactly for coprime arguments. The one excluded input,
      (1, 0), divides by zero in the original. */
  method ModInverse(a: u64, m: u64) returns (r: Result<u64, string>)
    requires a < TWO_63 && m < TWO_63 && (m == 0 ==> a != 1)
    ensures r.Ok? <==> Gcd(a, m) == 1
    ensures r.Ok? ==> m > 0 && r.value < m && (a * r.value) % m == 1 % m
  {
    var g, x, y := GcdExtended(a, m);
    if g != 1 {
      return Err("GCD of a and m should be 1");
    }
    assert m > 0 by { GcdWithZero(a); }
    var res: i64 := TruncatedMod(x, m);
    var inverse := WrapU64(WrapU64(res) + m) % m;
    ReducedCoefficient(a, m, x, y, inverse);
    r := Ok(inverse);
  }

  lemma ReducedCoefficient(a: u64, m: u64, x: i64, y: int, r: nat)
    requires 0 < m < TWO_63 && a * x + m * y == 1
    requires r == WrapU64(WrapU64(TruncatedMod(x, m)) + m) % m
    ensures (a * r) % m == 1 % m
  {
    TruncatedModRange(x, m);
    var shifted := TruncatedMod(x, m) + m;
    WrappedSum(TruncatedMod(x, m), m);
    TruncatedModIsCongruent(x, m);
    CongMod(shifted, m);
    CongTrans(r, shifted, x, m);
    InverseFromBezout(a, m, x, y, r);
  }

  lemma TruncatedModRange(x: int, m: int)
    requires m > 0
    ensures -m < TruncatedMod(x, m) < m
  {}

  lemma WrappedSum(res: int, m: int)
    requires -m < res < m < TWO_63
    ensures WrapU64(WrapU64(res) + m) == res + m
  {}

  lemma TruncatedModIsCongruent(x: int, m: int)
    requires m > 0
    ensures Cong(TruncatedMod(x, m) + m, x, m)
  {
    var s := if x >= 0 then 1 else -1;
    MultipleIsDivisible(m, 1);
    CongMod(s * x, m);
    DividesCombination(m, (s * x) % m - s * x, s, m, 1);
  }

  lemma InverseFromBezout(a: int, m: int, x: int, y: int, r: int)
    requires m > 0 && a * x + m * y == 1 && Cong(r, x, m)
    ensures (a * r) % m == 1 % m
  {
    MultipleIsDivisible(m, 1);
    DividesCombination(m, r - x, a, m, -y);
    assert (r - x) * a + m * -y == a * r - 1;
    CongIffSameMod(a * r, 1, m);
  }

  // ------------------------------------------------------------------ primality

  method IsPrimeNumber(n: nat) returns (r: bool)
    ensures r <==> IsPrime(n)
  {
    if n <= 1 {
      return false;
    }
    if n % 2 == 0 {
      assert n > 2 ==> Divides(2, n);
      return n == 2;
    }
    if n % 3 == 0 {
      assert n > 3 ==> Divides(3, n);
      return n == 3;
    }
    var mid := n / 2;
    var i := 5;
    while i < mid
      invariant i >= 5 && forall d :: 5 <= d < i ==> !Divides(d, n)
    {
      if n % i == 0 {
        assert Divides(i, n);
        return false;
      }
      i := i + 1;
    }
    NoDivisorFromMid(n, i);
    return true;
  }

  /** A number with no divisor from 2 up to its half has none at all. */
  lemma NoDivisorFromMid(n: nat, i: nat)
    requires n >= 2 && n % 2 != 0 && n % 3 != 0 && i >= 5 && i >= n / 2
    requires forall d :: 5 <= d < i ==> !Divides(d, n)
    ensures IsPrime(n)
  {
    forall d | 2 <= d < n
      ensures !Divides(d, n)
    {
      if Divides(d, n) {
        var k := Cofactor(d, n);
        MultipleIsDivisible(2, 2 * k);
        MultipleIsDivisible(2, d);
        CofactorOfLarge(d, k, n);
        assert false;
      }
    }
  }

  lemma CofactorOfLarge(d: nat, k: int, n: nat)
    requires n == d * k && 2 <= d < n
    ensures d >= n / 2 && d >= 3 ==> k == 2
    ensures d == 4 ==> n == 2 * (2 * k)
  {
    MulAtLeast(d, k - 1);
    MulAtLeast(d, k - 3);
  }

  // ------------------------------------------------------------- nth prime search

  /** How many primes are at most n. */
  ghost function PrimeCount(n: nat): nat {
    if n < 2 then 0 else PrimeCount(n - 1) + if IsPrime(n) then 1 else 0
  }

  /** The least prime at or above n. */
  ghost function NextPrime(n: nat): (p: nat)
    ensures n <= p && IsPrime(p)
    ensures forall q :: n <= q < p ==> !IsPrime(q)
  {
    PrimesAreUnbounded(n);
    var top: nat :| n <= top && IsPrime(top);
    LeastPrime(n, top)
  }

  ghost function LeastPrime(n: nat, top: nat): (p: nat)
    requires n <= top && IsPrime(top)
    ensures n <= p && IsPrime(p)
    ensures forall q :: n <= q < p ==> !IsPrime(q)
    decreases top - n
  {
    if IsPrime(n) then n else LeastPrime(n + 1, top)
  }

  /** The naive search. Its counter starts at 1 before any prime was counted, so from
      argument 2 on it returns the prime before the one its name promises. */
  method NthPrime(nth: nat) returns (r: nat)
    ensures nth == 0 ==> r == 1
    ensures nth == 1 ==> r == 2
    ensures nth >= 2 ==> IsPrime(r) && PrimeCount(r) == nth - 1
  {
    if nth == 1 {
      return 2;
    }
    var counter, number := 1, 2;
    while counter < nth
      invariant number >= 2 && counter == PrimeCount(number - 1) + 1
      invariant nth == 0 ==> number == 2
      invariant nth >= 2 ==> counter <= nth && (counter == nth ==> IsPrime(number - 1))
      decreases nth - counter, NextPrime(number) - number
    {
      var prime := IsPrimeNumber(number);
      if prime {
        counter := counter + 1;
      }
      number := number + 1;
    }
    return number - 1;
  }

  lemma {:induction false} PrimeCountMonotone(a: nat, b: nat)
    requires a <= b
    ensures PrimeCount(a) <= PrimeCount(b)
    ensures a < b && IsPrime(b) ==> PrimeCount(a) < PrimeCount(b)
  {
    if a < b {
      PrimeCountMonotone(a, b - 1);
    }
  }

  /** Primes of increasing rank increase, so results of the search strictly increase
      from argument 2 on. */
  lemma RankOrdersPrimes(p: nat, q: nat)
    requires IsPrime(p) && IsPrime(q)
    ensures p < q <==> PrimeCount(p) < PrimeCount(q)
  {
    if p < q {
      PrimeCountMonotone(p, q);
    } else {
      PrimeCountMonotone(q, p);
    }
  }

  /** What NthPrime returns has the promised rank only for argument 1. */
  lemma NthPrimeHasItsRankOnlyAtOne(nth: nat, r: nat)
    requires nth == 0 ==> r == 1
    requires nth == 1 ==> r == 2
    requires nth >= 2 ==> IsPrime(r) && PrimeCount(r) == nth - 1
    ensures IsPrime(r) && PrimeCount(r) == nth <==> nth == 1
  {
    assert IsPrime(2);
    assert PrimeCount(2) == PrimeCount(1) + 1;
  }

  // ------------------------------------------------------- modular exponentiation

  /** Square and multiply on 128-bit words. For moduli up to 2^64 no product wraps, and the
      result is the power modulo m, except that the early return answers 0 for a base
      divisible by m even when the exponent is 0. */
  method ModExponential(base: u128, exponent: u128, m: u128) returns (res: u128)
    requires m > 0
    ensures m <= TWO_64 ==> res == if base % m == 0 && exponent == 0 then 0 else Pow(base, exponent) % m
  {
    hide Pow, Cong;
    res := 1;
    var a, b := base % m, exponent;
    if a == 0 {
      ZeroBase(base, exponent, m);
      return 0;
    }
    CongMod(base, m);
    CongPow(a, base, b, m);
    assert 1 * Pow(a, b) == Pow(a, b);
    while b > 0
      invariant 0 <= a < m && 0 <= b
      invariant res < m || res == 1
      invariant m <= TWO_64 ==> Cong(res * Pow(a, b), Pow(base, exponent), m)
      decreases b
    {
      if m <= TWO_64 {
        LoopStep(res, a, b, m, Pow(base, exponent));
      }
      if b % 2 == 1 {
        res := WrapU128(res * a) % m;
      }
      b := b / 2;
      a := WrapU128(a * a) % m;
    }
    PowZero(a);
    if m <= TWO_64 {
      CongIffSameMod(res, Pow(base, exponent), m);
      SmallMod(res, m);
    }
  }

  /** The library function that a build may choose instead; its intermediate products have room. */
  method Powm(base: nat, exponent: nat, m: nat) returns (res: nat)
    requires m > 0
    ensures res == Pow(base, exponent) % m
  {
    hide Pow, Cong;
    res := 1 % m;
    var a, b := base % m, exponent;
    CongMod(base, m);
    CongPow(a, base, b, m);
    CongMod(1, m);
    CongReflexive(Pow(a, b), m);
    CongMul(res, 1, Pow(a, b), Pow(a, b), m);
    assert 1 * Pow(a, b) == Pow(a, b);
    CongTrans(res * Pow(a, b), Pow(a, b), Pow(base, exponent), m);
    while b > 0
      invariant 0 <= a < m && 0 <= res < m && 0 <= b
      invariant Cong(res * Pow(a, b), Pow(base, exponent), m)
      decreases b
    {
      SquareStep(res, a, b, m);
      ghost var was := res * Pow(a, b);
      if b % 2 == 1 {
        res := res * a % m;
      }
      b := b / 2;
      a := a * a % m;
      CongTrans(res * Pow(a, b), was, Pow(base, exponent), m);
    }
    PowZero(a);
    CongIffSameMod(res, Pow(base, exponent), m);
    SmallMod(res, m);
  }

  /** One turn of the loop keeps the product of the result and the power that is left. */
  lemma LoopStep(res: u128, a: u128, b: u128, m: u128, target: int)
    requires 0 < m <= TWO_64 && a < m && (res < m || res == 1) && b > 0
    requires Cong(res * Pow(a, b), target, m)
    ensures var next := if b % 2 == 1 then WrapU128(res * a) % m else res;
            Cong(next * Pow(WrapU128(a * a) % m, b / 2), target, m)
  {
    ProductFits(res, a, m);
    ProductFits(a, a, m);
    SmallMod(res * a, TWO_128);
    SmallMod(a * a, TWO_128);
    hide Pow, Cong;
    SquareStep(res, a, b, m);
    var next := if b % 2 == 1 then res * a % m else res;
    CongTrans(next * Pow(a * a % m, b / 2), res * Pow(a, b), target, m);
  }

  lemma ProductFits(x: nat, y: nat, m: nat)
    requires y < m <= TWO_64 && (x < m || x == 1)
    ensures 0 <= x * y < TWO_128
  {
    ProductsOrdered(x, y, TWO_64, TWO_64 - 1);
  }

  lemma SquareStep(res: nat, a: nat, b: nat, m: nat)
    requires m > 0 && b > 0
    ensures Cong((if b % 2 == 1 then res * a % m else res) * Pow(a * a % m, b / 2), res * Pow(a, b), m)
  {
    hide Pow, Cong, Divides;
    var h := b / 2;
    CongMod(a * a, m);
    CongPow(a * a % m, a * a, h, m);
    var factor := if b % 2 == 1 then res * a else res;
    var reduced := if b % 2 == 1 then res * a % m else res;
    CongMod(res * a, m);
    CongReflexive(res, m);
    CongMul(reduced, factor, Pow(a * a % m, h), Pow(a * a, h), m);
    SplitExponent(res, a, b);
  }

  lemma SplitExponent(res: nat, a: nat, b: nat)
    ensures (if b % 2 == 1 then res * a else res) * Pow(a * a, b / 2) == res * Pow(a, b)
  {
    hide Pow;
    var h := b / 2;
    PowOne(a);
    PowAdd(a, 1, 1);
    PowMultiply(a, 2, h);
    PowAdd(a, 1, 2 * h);
    if b % 2 == 1 {
      Associate(res, a, Pow(a, 2 * h));
    }
  }

  lemma Associate(x: int, y: int, z: int)
    ensures x * y * z == x * (y * z)
  {}

  lemma ZeroBase(base: nat, exponent: nat, m: nat)
    requires m > 0 && base % m == 0
    ensures exponent > 0 ==> Pow(base, exponent) % m == 0
  {
    if exponent > 0 {
      DividesCombination(m, base, Pow(base, exponent - 1), base, 0);
    }
  }

  /** The early return is wrong for exactly one family of inputs. */
  lemma EarlyReturnIsWrongIff(base: nat, exponent: nat, m: nat)
    requires m > 0
    ensures (if base % m == 0 && exponent == 0 then 0 else Pow(base, exponent) % m) == Pow(base, exponent) % m
       <==> !(base % m == 0 && exponent == 0 && m > 1)
  {
    if m > 1 { SmallMod(1, m); }
  }

  // --------------------------------------------------------------- exponent search

  lemma GcdOfNeighbours(n: nat)
    requires n >= 1
    ensures Gcd(n - 1, n) == 1
  {
    GcdSymmetric(n - 1, n);
    GcdSubtract(n, n - 1);
  }

  /** The loop that picks a public exponent: the first one from phi / 5 on that is coprime
      to phi. It always finds one below phi. */
  method FindExponent(phi: u64) returns (e: u64)
    ensures phi >= 2 ==> 1 <= e && phi / 5 <= e < phi && Gcd(e, phi) == 1
    ensures phi < 2 ==> e == 0
    ensures forall c: nat :: phi / 5 <= c < e ==> Gcd(c, phi) != 1
  {
    e := phi / 5;
    while e < phi
      invariant phi / 5 <= e <= phi
      invariant forall c: nat :: phi / 5 <= c < e ==> Gcd(c, phi) != 1
      invariant phi >= 1 ==> e <= phi - 1
    {
      var g := SubtractiveGcd(e, phi);
      if g == 1 {
        break;
      }
      GcdOfNeighbours(phi);
      e := e + 1;
    }
  }
}
