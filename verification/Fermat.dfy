/** Powers, Fermat's little theorem and the exponent rule behind RSA decryption. */
module Fermat {
  import opened NumberTheory

  function Pow(a: int, n: nat): int {
    if n == 0 then 1 else a * Pow(a, n - 1)
  }

  lemma {:induction false} PowAdd(a: int, m: nat, n: nat)
    ensures Pow(a, m + n) == Pow(a, m) * Pow(a, n)
  {
    if m == 0 {
    } else {
      PowAdd(a, m - 1, n);
      assert a * (Pow(a, m - 1) * Pow(a, n)) == a * Pow(a, m - 1) * Pow(a, n);
    }
  }

  lemma {:induction false} PowMultiply(a: int, m: nat, n: nat)
    ensures Pow(Pow(a, m), n) == Pow(a, m * n)
  {
    if n == 0 {
    } else {
      PowMultiply(a, m, n - 1);
      PowAdd(a, m, m * (n - 1));
      assert m + m * (n - 1) == m * n;
    }
  }

  lemma {:induction false} CongPow(a: int, b: int, n: nat, m: int)
    requires Cong(a, b, m)
    ensures Cong(Pow(a, n), Pow(b, n), m)
  {
    if n == 0 {
      MultipleIsDivisible(m, 0);
    } else {
      CongPow(a, b, n - 1, m);
      CongMul(a, b, Pow(a, n - 1), Pow(b, n - 1), m);
    }
  }

  // ------------------------------------------------------- binomial coefficients

  function Choose(n: nat, k: nat): nat {
    if k == 0 then 1
    else if n == 0 then 0
    else Choose(n - 1, k - 1) + Choose(n - 1, k)
  }

  lemma {:induction false} ChooseBeyond(n: nat, k: nat)
    requires k >= n
    ensures Choose(n, k) == if k == n then 1 else 0
  {
    if n == 0 || k == 0 {
    } else {
      ChooseBeyond(n - 1, k - 1);
      ChooseBeyond(n - 1, k);
    }
  }

  lemma {:induction false} ChooseAbsorb(n: nat, k: nat)
    requires n >= 1 && k >= 1
    ensures k * Choose(n, k) == n * Choose(n - 1, k - 1)
  {
    if n == 1 {
      ChooseBeyond(1, k);
      ChooseBeyond(0, k - 1);
    } else if k == 1 {
      ChooseAbsorb(n - 1, 1);
      assert Choose(n, 1) == 1 + Choose(n - 1, 1);
    } else {
      ChooseAbsorb(n - 1, k - 1);
      ChooseAbsorb(n - 1, k);
      AbsorbStep(n, k, Choose(n - 1, k - 1), Choose(n - 1, k), Choose(n - 2, k - 2), Choose(n - 2, k - 1));
    }
  }

  lemma AbsorbStep(n: int, k: int, c: int, u: int, s: int, t: int)
    requires (k - 1) * c == (n - 1) * s && k * u == (n - 1) * t && c == s + t
    ensures k * (c + u) == n * c
  {
    calc {
      k * (c + u);
      (k - 1) * c + c + k * u;
      (n - 1) * s + (n - 1) * t + c;
      (n - 1) * c + c;
    }
  }

  /** A prime divides every inner entry of its row of binomial coefficients. */
  lemma PrimeDividesChoose(p: nat, k: nat)
    requires IsPrime(p) && 1 <= k < p
    ensures Divides(p, Choose(p, k))
  {
    ChooseAbsorb(p, k);
    MultipleIsDivisible(p, Choose(p - 1, k - 1));
    PrimeDividesProduct(p, k, Choose(p, k));
    if Divides(p, k) {
      DividesAtMost(p, k);
      assert false;
    }
  }

  /** The terms 0 to k of the binomial expansion of (a + 1)^n. */
  function Expansion(a: int, n: nat, k: nat): int {
    Choose(n, k) * Pow(a, k) + if k == 0 then 0 else Expansion(a, n, k - 1)
  }

  lemma {:induction false} ExpansionStep(a: int, n: nat, k: nat)
    ensures Expansion(a, n + 1, k) == Expansion(a, n, k) + if k == 0 then 0 else a * Expansion(a, n, k - 1)
  {
    if k == 0 {
    } else {
      ExpansionStep(a, n, k - 1);
      var c, d, w := Choose(n, k), Choose(n, k - 1), Pow(a, k - 1);
      var rest := if k == 1 then 0 else Expansion(a, n, k - 2);
      assert Expansion(a, n, k - 1) == d * w + rest;
      assert Choose(n + 1, k) == d + c && Pow(a, k) == a * w;
      ShiftTerm(a, c, d, w, rest);
    }
  }

  lemma ShiftTerm(a: int, c: int, d: int, w: int, rest: int)
    ensures (d + c) * (a * w) + a * rest == c * (a * w) + a * (d * w + rest)
  {
    assert d * (a * w) == a * (d * w);
  }

  lemma {:induction false} Binomial(a: int, n: nat)
    ensures Expansion(a, n, n) == Pow(a + 1, n)
  {
    if n == 0 {
    } else {
      var prior := Expansion(a, n - 1, n - 1);
      Binomial(a, n - 1);
      ExpansionStep(a, n - 1, n);
      ChooseBeyond(n - 1, n);
      assert Expansion(a, n - 1, n) == 0 * Pow(a, n) + prior;
      assert (a + 1) * prior == prior + a * prior;
    }
  }

  lemma {:induction false} ExpansionModPrime(a: int, p: nat, k: nat)
    requires IsPrime(p) && k < p
    ensures Cong(Expansion(a, p, k), 1, p)
  {
    if k == 0 {
      MultipleIsDivisible(p, 0);
    } else {
      ExpansionModPrime(a, p, k - 1);
      PrimeDividesChoose(p, k);
      DividesCombination(p, Choose(p, k), Pow(a, k), Expansion(a, p, k - 1) - 1, 1);
    }
  }

  /** Fermat's little theorem, in the form that needs no coprimality. */
  lemma {:induction false} FermatLittle(a: nat, p: nat)
    requires IsPrime(p)
    ensures Cong(Pow(a, p), a, p)
  {
    PrimeIsPositive(p);
    hide IsPrime, Cong, Choose, Pow;
    if a == 0 {
      PowOfZero(p);
      CongReflexive(0, p);
    } else {
      FermatLittle(a - 1, p);
      TopTerm(a - 1, p);
      ExpansionModPrime(a - 1, p, p - 1);
      CongAdd(Pow(a - 1, p), a - 1, Expansion(a - 1, p, p - 1), 1, p);
    }
  }

  lemma PowOfZero(n: nat)
    requires n > 0
    ensures Pow(0, n) == 0
  {}

  lemma TopTerm(a: int, n: nat)
    requires n > 0
    ensures Pow(a + 1, n) == Pow(a, n) + Expansion(a, n, n - 1)
  {
    hide Choose, Pow;
    Binomial(a, n);
    ChooseBeyond(n, n);
    assert Choose(n, n) * Pow(a, n) == Pow(a, n);
  }

  lemma PrimeIsPositive(p: nat)
    requires IsPrime(p)
    ensures p >= 2
  {}

  lemma OneCycleLess(p: nat, j: nat) returns (rest: nat)
    requires p >= 2 && j >= 1
    ensures rest == (j - 1) * (p - 1) && 1 + j * (p - 1) == p + rest
  {
    ProductsOrdered(0, 0, j - 1, p - 1);
    rest := (j - 1) * (p - 1);
  }

  lemma PowOne(a: int)
    ensures Pow(a, 1) == a
  {
    assert Pow(a, 1) == a * Pow(a, 0);
  }

  lemma PowZero(a: int)
    ensures Pow(a, 0) == 1
  {}

  /** Raising to any power 1 + j (p - 1) changes nothing modulo the prime p. */
  lemma {:induction false} PowerCycle(a: nat, p: nat, j: nat)
    requires IsPrime(p)
    ensures Cong(Pow(a, 1 + j * (p - 1)), a, p)
  {
    hide Pow, Cong, IsPrime;
    PrimeIsPositive(p);
    if j == 0 {
      PowOne(a);
      CongReflexive(a, p);
    } else {
      var rest := OneCycleLess(p, j);
      PowAdd(a, p, rest);
      PowAdd(a, 1, rest);
      PowOne(a);
      FermatLittle(a, p);
      CongReflexive(Pow(a, rest), p);
      CongMul(Pow(a, p), a, Pow(a, rest), Pow(a, rest), p);
      PowerCycle(a, p, j - 1);
      CongTrans(Pow(a, p + rest), Pow(a, 1 + rest), a, p);
    }
  }

  /** With e d = 1 modulo (p - 1)(q - 1), exponent d undoes exponent e modulo p q,
      also for messages that share a factor with the modulus. */
  lemma ExponentsCancel(m: nat, p: nat, q: nat, n: nat, phi: nat, e: nat, d: nat)
    requires IsPrime(p) && IsPrime(q) && p != q && n == p * q
    requires phi == (p - 1) * (q - 1) > 0 && e * d >= 1 && (e * d) % phi == 1 % phi
    requires m < n
    ensures Pow(Pow(m, e) % n, d) % n == m
  {
    ExponentIsIdentity(m, p, q, e * d);
    PowPowMod(m, e, d, n);
    CongIffSameMod(Pow(m, e * d), m, n);
    SmallMod(m, n);
  }

  lemma PowPowMod(m: int, e: nat, d: nat, n: nat)
    requires n > 0
    ensures Pow(Pow(m, e) % n, d) % n == Pow(m, e * d) % n
  {
    PowMultiply(m, e, d);
    CongMod(Pow(m, e), n);
    CongPow(Pow(m, e) % n, Pow(m, e), d, n);
    CongIffSameMod(Pow(Pow(m, e) % n, d), Pow(m, e * d), n);
  }

  lemma ExponentIsIdentity(m: nat, p: nat, q: nat, ed: nat)
    requires IsPrime(p) && IsPrime(q) && p != q
    requires (p - 1) * (q - 1) > 0 && ed >= 1 && ed % ((p - 1) * (q - 1)) == 1 % ((p - 1) * (q - 1))
    ensures Cong(Pow(m, ed), m, p * q)
  {
    var k := ExponentCycles(p - 1, q - 1, ed);
    PowerCycle(m, p, k * (q - 1));
    PowerCycle(m, q, k * (p - 1));
    ChineseRemainder(p, q, Pow(m, ed) - m);
  }

  lemma ExponentCycles(r: nat, s: nat, ed: nat) returns (k: nat)
    requires r * s > 0 && ed >= 1 && ed % (r * s) == 1 % (r * s)
    ensures ed == 1 + (k * s) * r == 1 + (k * r) * s
  {
    CongIffSameMod(ed, 1, r * s);
    var c := Cofactor(r * s, ed - 1);
    MulAtLeast(r * s, c);
    k := c;
    assert (r * s) * k == (k * s) * r == (k * r) * s;
  }
}
