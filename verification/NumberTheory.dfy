/** Divisibility, congruence, greatest common divisors and primes over the integers. */
module NumberTheory {

  predicate Divides(d: int, n: int) {
    if d == 0 then n == 0 else n % d == 0
  }

  lemma MultipleIsDivisible(d: int, k: int)
    ensures Divides(d, d * k)
  {
    if d != 0 {
      var t := k - (d * k) / d;
      assert d * t == (d * k) % d;
      if d > 0 {
        MulAtLeast(d, t);
      } else {
        assert d * t == -d * -t;
        MulAtLeast(-d, -t);
      }
    }
  }

  lemma MulAtLeast(d: int, t: int)
    requires d > 0
    ensures t >= 1 ==> d * t >= d
    ensures t <= -1 ==> d * t <= -d
  {}

  function Cofactor(d: int, n: int): (k: int)
    requires Divides(d, n)
    ensures n == d * k
  {
    if d == 0 then 0 else n / d
  }

  lemma DividesCombination(d: int, a: int, x: int, b: int, y: int)
    requires Divides(d, a) && Divides(d, b)
    ensures Divides(d, a * x + b * y)
  {
    var i, j := Cofactor(d, a), Cofactor(d, b);
    assert a * x + b * y == d * (i * x + j * y);
    MultipleIsDivisible(d, i * x + j * y);
  }

  lemma DividesTransitive(d: int, e: int, n: int)
    requires Divides(d, e) && Divides(e, n)
    ensures Divides(d, n)
  {
    var k := Cofactor(e, n);
    DividesCombination(d, e, k, e, 0);
  }

  lemma DividesAtMost(d: int, n: int)
    requires n > 0 && d >= 0 && Divides(d, n)
    ensures 1 <= d <= n
  {}

  // ---------------------------------------------------------------- congruence

  predicate Cong(a: int, b: int, m: int) {
    Divides(m, a - b)
  }

  lemma CongReflexive(a: int, m: int)
    requires m > 0
    ensures Cong(a, a, m)
  {
    MultipleIsDivisible(m, 0);
  }

  lemma ProductsOrdered(a: nat, b: nat, c: nat, d: nat)
    requires a <= c && b <= d
    ensures a * b <= c * d
  {
    assert a * b <= a * d && a * d <= c * d;
  }

  lemma Quotient(n: nat, q: nat)
    requires q >= 1
    ensures q * (n / q) <= n < q * (n / q) + q
  {
    assert n == q * (n / q) + n % q;
  }

  lemma CongTrans(a: int, b: int, c: int, m: int)
    requires Cong(a, b, m) && Cong(b, c, m)
    ensures Cong(a, c, m)
  {
    DividesCombination(m, a - b, 1, b - c, 1);
  }

  lemma CongAdd(a: int, b: int, c: int, d: int, m: int)
    requires Cong(a, b, m) && Cong(c, d, m)
    ensures Cong(a + c, b + d, m)
  {
    DividesCombination(m, a - b, 1, c - d, 1);
  }

  lemma CongMul(a: int, b: int, c: int, d: int, m: int)
    requires Cong(a, b, m) && Cong(c, d, m)
    ensures Cong(a * c, b * d, m)
  {
    DividesCombination(m, a - b, d, c - d, a);
    assert (a - b) * d + (c - d) * a == a * c - b * d;
  }

  lemma CongMod(a: int, m: int)
    requires m > 0
    ensures Cong(a % m, a, m)
  {
    assert a % m - a == m * -(a / m);
    MultipleIsDivisible(m, -(a / m));
  }

  lemma SmallMod(a: nat, m: nat)
    requires a < m
    ensures a % m == a
  {}

  /** Two numbers are congruent exactly when they leave the same remainder. */
  lemma CongIffSameMod(a: int, b: int, m: int)
    requires m > 0
    ensures Cong(a, b, m) <==> a % m == b % m
  {
    var qa, qb := a / m, b / m;
    if a % m == b % m {
      assert a - b == m * (qa - qb);
      MultipleIsDivisible(m, qa - qb);
    }
    if Cong(a, b, m) {
      var k := Cofactor(m, a - b);
      var t := k - (qa - qb);
      assert a % m - b % m == m * t by {
        assert a - b == m * qa + a % m - (m * qb + b % m);
        assert m * qa - m * qb == m * (qa - qb);
        assert m * k - m * (qa - qb) == m * t;
      }
      MulAtLeast(m, t);
    }
  }

  // ------------------------------------------------------- greatest common divisor

  ghost predicate IsGcd(g: nat, a: int, b: int) {
    && Divides(g, a)
    && Divides(g, b)
    && forall d :: Divides(d, a) && Divides(d, b) ==> Divides(d, g)
  }

  function Gcd(a: nat, b: nat): (g: nat)
    decreases a
  {
    if a == 0 then b else Gcd(b % a, a)
  }

  lemma {:induction false} GcdIsGcd(a: nat, b: nat)
    ensures IsGcd(Gcd(a, b), a, b)
    decreases a
  {
    if a == 0 {
      assert Divides(b, 0) by { MultipleIsDivisible(b, 0); }
      assert Divides(b, b) by { MultipleIsDivisible(b, 1); }
    } else {
      GcdIsGcd(b % a, a);
      var g, q := Gcd(b % a, a), b / a;
      assert b == b % a * 1 + a * q;
      DividesCombination(g, b % a, 1, a, q);
      forall d | Divides(d, a) && Divides(d, b)
        ensures Divides(d, g)
      {
        DividesCombination(d, b, 1, a, -q);
        assert b * 1 + a * -q == b % a;
      }
    }
  }

  lemma GcdUnique(g: nat, h: nat, a: int, b: int)
    requires IsGcd(g, a, b) && IsGcd(h, a, b)
    ensures g == h
  {
    assert Divides(g, h) && Divides(h, g);
    if g > 0 { DividesAtMost(h, g); }
    if h > 0 { DividesAtMost(g, h); }
  }

  lemma GcdSymmetric(a: nat, b: nat)
    ensures Gcd(a, b) == Gcd(b, a)
  {
    GcdIsGcd(a, b);
    GcdIsGcd(b, a);
    GcdUnique(Gcd(a, b), Gcd(b, a), a, b);
  }

  lemma GcdWithZero(a: nat)
    ensures Gcd(a, 0) == a
  {
    GcdSymmetric(a, 0);
  }

  /** The step of the subtractive algorithm keeps the greatest common divisor. */
  lemma GcdSubtract(a: nat, b: nat)
    requires b <= a
    ensures Gcd(a, b) == Gcd(a - b, b)
  {
    GcdIsGcd(a, b);
    GcdIsGcd(a - b, b);
    var g := Gcd(a - b, b);
    DividesCombination(g, a - b, 1, b, 1);
    forall d | Divides(d, a) && Divides(d, b)
      ensures Divides(d, g)
    {
      DividesCombination(d, a, 1, b, -1);
    }
    GcdUnique(Gcd(a, b), g, a, b);
  }

  lemma GcdSelf(a: nat)
    ensures Gcd(a, a) == a
  {
    GcdSubtract(a, a);
  }

  /** Bezout: the greatest common divisor is an integer combination of the two numbers. */
  lemma {:induction false} Bezout(a: nat, b: nat) returns (x: int, y: int)
    ensures a * x + b * y == Gcd(a, b)
    decreases a
  {
    if a == 0 {
      x, y := 0, 1;
    } else {
      var x1, y1 := Bezout(b % a, a);
      x, y := y1 - x1 * (b / a), x1;
      assert a * x + b * y == (b - a * (b / a)) * x1 + a * y1 by {
        assert a * x == a * y1 - a * (x1 * (b / a));
        assert a * (x1 * (b / a)) == (a * (b / a)) * x1;
      }
    }
  }

  // --------------------------------------------------------------------- primes

  ghost predicate IsPrime(p: int) {
    2 <= p && forall d :: 2 <= d < p ==> !Divides(d, p)
  }

  /** Euclid's lemma. */
  lemma PrimeDividesProduct(p: nat, a: nat, b: nat)
    requires IsPrime(p) && Divides(p, a * b)
    ensures Divides(p, a) || Divides(p, b)
  {
    GcdIsGcd(p, a);
    var g := Gcd(p, a);
    DividesAtMost(g, p);
    if g < p {
      assert g == 1;
      var x, y := Bezout(p, a);
      MultipleIsDivisible(p, 1);
      DividesCombination(p, p, x * b, a * b, y);
      calc {
        p * (x * b) + (a * b) * y;
        (p * x) * b + (a * y) * b;
        (p * x + a * y) * b;
        b;
      }
    }
  }

  /** Two different primes that both divide x have a product that divides x. */
  lemma ChineseRemainder(p: nat, q: nat, x: int)
    requires IsPrime(p) && IsPrime(q) && p != q
    requires Divides(p, x) && Divides(q, x)
    ensures Divides(p * q, x)
  {
    var k := Cofactor(p, x);
    var a := if k < 0 then -k else k;
    assert Divides(q, p * a) by {
      DividesCombination(q, x, 1, x, 0);
      DividesCombination(q, x, -1, x, 0);
      assert p * -k == -x;
    }
    PrimeDividesProduct(q, p, a);
    if Divides(q, p) {
      DividesAtMost(q, p);
      assert false;
    }
    var j := Cofactor(q, a);
    var s := if k < 0 then -j else j;
    assert x == (p * q) * s;
    MultipleIsDivisible(p * q, s);
  }

  /** Every number above 1 has a prime divisor. */
  lemma {:induction false} PrimeDivisor(n: nat) returns (p: nat)
    requires n >= 2
    ensures IsPrime(p) && Divides(p, n) && p <= n
    decreases n
  {
    if IsPrime(n) {
      MultipleIsDivisible(n, 1);
      p := n;
    } else {
      var d :| 2 <= d < n && Divides(d, n);
      p := PrimeDivisor(d);
      DividesTransitive(p, d, n);
    }
  }

  function Factorial(n: nat): (f: nat)
    ensures f >= 1
  {
    if n == 0 then 1 else n * Factorial(n - 1)
  }

  lemma {:induction false} DividesFactorial(d: nat, n: nat)
    requires 1 <= d <= n
    ensures Divides(d, Factorial(n))
  {
    if d == n {
      MultipleIsDivisible(d, Factorial(n - 1));
    } else {
      DividesFactorial(d, n - 1);
      DividesCombination(d, Factorial(n - 1), n, 0, 0);
    }
  }

  /** There is a prime at or above every number. */
  lemma PrimesAreUnbounded(n: nat)
    ensures exists p: nat :: n <= p && IsPrime(p)
  {
    var p := PrimeDivisor(Factorial(n) + 1);
    if p < n {
      DividesFactorial(p, n);
      DividesCombination(p, Factorial(n) + 1, 1, Factorial(n), -1);
      DividesAtMost(p, 1);
      assert false;
    }
  }
}
