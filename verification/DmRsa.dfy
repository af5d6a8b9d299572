/** RSA with two moduli: a block m is encrypted to (m^e1 mod n1)^e2 mod n2. */
module DmRsa {
  import opened Wrappers
  import opened NumberTheory
  import opened Fermat
  import opened Words
  import opened Convert
  import opened Algorithm
  import opened PrimeBound
  import opened FewPrimes

  const BLOCK_SIZE := 4
  const CIPHER_SIZE := 8

  datatype PublicKey = PublicKey(e1: u64, e2: u64, n1: u128, n2: u128)

  datatype PrivateKey = PrivateKey(d1: u64, d2: u64, n1: u128, n2: u128)

  datatype KeyPair = KeyPair(p1: u64, p2: u64, q1: u64, q2: u64, n1: u128, n2: u128,
                             e1: u64, e2: u64, d1: u64, d2: u64) {
    function Public(): PublicKey {
      PublicKey(e1, e2, n1, n2)
    }

    function Private(): PrivateKey {
      PrivateKey(d1, d2, n1, n2)
    }

    /** What the constructor establishes from two pairs of different primes. */
    ghost predicate Valid() {
      && HalfValid(p1, p2, n1, e1, d1)
      && HalfValid(q1, q2, n2, e2, d2)
    }

    /** Both public exponents are the searched ones, and both private ones are reduced. */
    ghost predicate Drawn() {
      && IsSearched(e1, (p1 - 1) * (p2 - 1)) && d1 < (p1 - 1) * (p2 - 1)
      && IsSearched(e2, (q1 - 1) * (q2 - 1)) && d2 < (q1 - 1) * (q2 - 1)
    }
  }

  ghost predicate PrimePair(p: int, q: int) {
    && IsPrime(p) && IsPrime(q) && p != q
    && p < TWO_32 && q < TWO_32
    && (p - 1) * (q - 1) < TWO_63
  }

  ghost predicate HalfValid(p: int, q: int, n: nat, e: nat, d: nat) {
    && PrimePair(p, q)
    && n == p * q
    && e >= 1 && d >= 1
    && (p - 1) * (q - 1) > 0
    && (e * d) % ((p - 1) * (q - 1)) == 1 % ((p - 1) * (q - 1))
  }

  /** The exponent that is taken when the caller fixes none: the first one from phi / 5 on that is
      coprime to phi. */
  ghost predicate IsSearched(e: nat, phi: int) {
    && phi > 0 && phi / 5 <= e < phi && Gcd(e, phi) == 1
    && forall c: nat :: phi / 5 <= c < e ==> Gcd(c, phi) != 1
  }

  lemma PairProducts(p: int, q: int)
    requires PrimePair(p, q)
    ensures 6 <= p * q < TWO_64 && 2 <= (p - 1) * (q - 1) < TWO_63
  {
    ProductBounds(p, q);
    SmallFactors(p, q);
  }

  lemma SmallFactors(p: int, q: int)
    requires 0 <= p < TWO_32 && 0 <= q < TWO_32
    ensures p * q < TWO_64
  {
    ProductsOrdered(p, q, TWO_32, TWO_32 - 1);
  }

  lemma ProductBounds(p: int, q: int)
    requires 2 <= p && 2 <= q && p != q
    ensures 6 <= p * q && 2 <= (p - 1) * (q - 1)
  {
    if p < q {
      assert p * q >= 2 * q && (p - 1) * (q - 1) >= 1 * (q - 1);
    } else {
      assert p * q >= p * 2 && (p - 1) * (q - 1) >= (p - 1) * 1;
    }
  }

  // ------------------------------------------------------------------ key generation

  /** One half of the constructor: the modulus product and the totient are computed in 64
      bits, a zero exponent is replaced by the searched one, and d is its inverse. */
  method GenerateHalf(p: u64, q: u64, e0: u64) returns (r: Result<(u64, u64, u64), string>)
    requires PrimePair(p, q) && e0 < TWO_63
    ensures r.Ok? <==> e0 == 0 || Gcd(e0, (p - 1) * (q - 1)) == 1
    ensures r.Ok? ==> var (n, e, d) := r.value; HalfValid(p, q, n, e, d) && (e0 != 0 ==> e == e0)
    ensures r.Ok? ==> var (n, e, d) := r.value;
              && (e0 == 0 ==> IsSearched(e, (p - 1) * (q - 1)))
              && d < (p - 1) * (q - 1)
  {
    hide IsPrime, Gcd;
    PairProducts(p, q);
    var n := WrapU64(p * q);
    var phi := WrapU64(WrapU64(p - 1) * WrapU64(q - 1));
    ProductsDoNotWrap(p, q);
    var e := e0;
    if e == 0 {
      e := FindExponent(phi);
    }
    var d := ModInverse(e, phi);
    if d.Err? {
      return Err(d.error);
    }
    NonZeroInverse(e, d.value, phi);
    r := Ok((n, e, d.value));
  }

  lemma ProductsDoNotWrap(p: u64, q: u64)
    requires PrimePair(p, q)
    ensures WrapU64(p * q) == p * q
    ensures WrapU64(WrapU64(p - 1) * WrapU64(q - 1)) == (p - 1) * (q - 1)
  {
    assert p >= 2 && q >= 2;
    hide IsPrime;
    PairProducts(p, q);
    SmallMod(p - 1, TWO_64);
    SmallMod(q - 1, TWO_64);
    SmallMod(p * q, TWO_64);
    SmallMod((p - 1) * (q - 1), TWO_64);
  }

  lemma NonZeroInverse(e: nat, d: nat, phi: nat)
    requires phi >= 2 && (e * d) % phi == 1 % phi
    ensures d >= 1
  {
    SmallMod(1, phi);
    assert d == 0 ==> e * d == 0;
  }

  /** Succeeds exactly when every exponent the caller fixed is coprime to its totient. The
      original aborts the process where this returns an error. */
  method Generate(p1: u64, p2: u64, q1: u64, q2: u64, e1: u64, e2: u64) returns (r: Result<KeyPair, string>)
    requires PrimePair(p1, p2) && PrimePair(q1, q2) && e1 < TWO_63 && e2 < TWO_63
    ensures r.Ok? <==> (e1 == 0 || Gcd(e1, (p1 - 1) * (p2 - 1)) == 1) && (e2 == 0 || Gcd(e2, (q1 - 1) * (q2 - 1)) == 1)
    ensures r.Ok? ==> r.value.Valid()
    ensures r.Ok? ==> r.value.p1 == p1 && r.value.p2 == p2 && r.value.q1 == q1 && r.value.q2 == q2
    ensures r.Ok? ==> (e1 != 0 ==> r.value.e1 == e1) && (e2 != 0 ==> r.value.e2 == e2)
    ensures r.Ok? && e1 == 0 ==> IsSearched(r.value.e1, (p1 - 1) * (p2 - 1))
    ensures r.Ok? && e2 == 0 ==> IsSearched(r.value.e2, (q1 - 1) * (q2 - 1))
    ensures r.Ok? ==> r.value.d1 < (p1 - 1) * (p2 - 1) && r.value.d2 < (q1 - 1) * (q2 - 1)
  {
    hide HalfValid, IsSearched;
    var half1 := GenerateHalf(p1, p2, e1);
    if half1.Err? {
      return Err("failed to create d1");
    }
    var half2 := GenerateHalf(q1, q2, e2);
    if half2.Err? {
      return Err("failed to create d2");
    }
    var (n1, e1', d1) := half1.value;
    var (n2, e2', d2) := half2.value;
    r := Ok(KeyPair(p1, p2, q1, q2, n1, n2, e1', e2', d1, d2));
  }

  /** The constructors that draw four indices of primes from ranges one above the other, of
      which the middle two may meet in one index: key generation cannot fail, and the first
      modulus is always below the second. */
  method GenerateFromIndices(i1: nat, i2: nat, j1: nat, j2: nat) returns (r: Result<KeyPair, string>)
    requires 2 <= i1 < i2 <= j1 < j2 <= 11000
    ensures r.Ok? && r.value.Valid() && r.value.n1 < r.value.n2
    ensures PrimeCount(r.value.p1) == i1 - 1 && PrimeCount(r.value.p2) == i2 - 1 && r.value.p1 < r.value.p2
    ensures PrimeCount(r.value.q1) == j1 - 1 && PrimeCount(r.value.q2) == j2 - 1 && r.value.q1 < r.value.q2
    ensures r.value.Drawn()
  {
    hide IsPrime, PrimeCount, IsSearched;
    var p1 := NthPrime(i1);
    var p2 := NthPrime(i2);
    var q1 := NthPrime(j1);
    var q2 := NthPrime(j2);
    RankOrdersPrimes(p1, p2);
    RankOrdersPrimes(q1, p2);
    RankOrdersPrimes(q1, q2);
    RankBoundsPrime(q2);
    SmallPrimesPair(p1, p2);
    SmallPrimesPair(q1, q2);
    ProductsIncrease(p1, p2, q1, q2);
    r := Generate(p1, p2, q1, q2, 0, 0);
  }

  /** The default constructor, for every draw from its ranges: no block is ever refused. */
  method GenerateDefault(i1: nat, i2: nat, j1: nat, j2: nat) returns (key: KeyPair)
    requires i1 == 8000 && 8001 <= i2 <= 9000 && 9001 <= j1 <= 10000 && 10001 <= j2 <= 11000
    ensures key.Valid() && key.Drawn() && TWO_32 <= key.n1 < key.n2
    ensures PrimeCount(key.p1) == i1 - 1 && PrimeCount(key.p2) == i2 - 1
    ensures PrimeCount(key.q1) == j1 - 1 && PrimeCount(key.q2) == j2 - 1
    ensures forall b: u32 :: EncryptWord(key.Public(), b).Ok?
  {
    hide IsPrime, PrimeCount, EncryptWord, IsSearched;
    var r := GenerateFromIndices(i1, i2, j1, j2);
    key := r.value;
    LargePrimes(key);
    forall b: u32
      ensures EncryptWord(key.Public(), b).Ok?
    {
      EncryptsIff(key, b);
    }
  }

  /** The constructors for smaller primes: some block is refused under each of their keys. */
  method GenerateLow(i1: nat, i2: nat, j1: nat, j2: nat) returns (key: KeyPair)
    requires 50 <= i1 <= 100 && 101 <= i2 <= 200 && 201 <= j1 <= 250 && 251 <= j2 <= 300
    ensures key.Valid() && key.Drawn() && key.n1 < key.n2 && key.n1 < TWO_32
    ensures PrimeCount(key.p1) == i1 - 1 && PrimeCount(key.p2) == i2 - 1
    ensures PrimeCount(key.q1) == j1 - 1 && PrimeCount(key.q2) == j2 - 1
    ensures exists b: u32 :: EncryptWord(key.Public(), b).Err?
  {
    hide IsPrime, PrimeCount, EncryptWord, IsSearched;
    var r := GenerateFromIndices(i1, i2, j1, j2);
    key := r.value;
    SmallPrimes(key);
  }

  method GenerateMid(i1: nat, i2: nat, j1: nat, j2: nat) returns (key: KeyPair)
    requires 1001 <= i1 <= 1500 && 1501 <= i2 <= 2000 && 2000 <= j1 <= 2500 && 2501 <= j2 <= 3000
    ensures key.Valid() && key.Drawn() && key.n1 < key.n2 && key.n1 < TWO_32
    ensures PrimeCount(key.p1) == i1 - 1 && PrimeCount(key.p2) == i2 - 1
    ensures PrimeCount(key.q1) == j1 - 1 && PrimeCount(key.q2) == j2 - 1
    ensures exists b: u32 :: EncryptWord(key.Public(), b).Err?
  {
    hide IsPrime, PrimeCount, EncryptWord, IsSearched;
    var r := GenerateFromIndices(i1, i2, j1, j2);
    key := r.value;
    SmallPrimes(key);
  }

  lemma LargePrimes(key: KeyPair)
    requires key.Valid() && PrimeCount(key.p1) >= 7999 && key.p1 < key.p2
    ensures TWO_32 <= key.n1
  {
    hide PrimeCount;
    RankExceeds(key.p1);
    ProductsOrdered(65536, 65536, key.p1, key.p2);
  }

  lemma SmallPrimes(key: KeyPair)
    requires key.Valid() && PrimeCount(key.p2) < 2048 && key.p1 < key.p2
    ensures key.n1 < TWO_32 && exists b: u32 :: EncryptWord(key.Public(), b).Err?
  {
    hide PrimeCount;
    SmallRankBelow(key.p2);
    ProductsOrdered(key.p1, key.p2, 65535, 65535);
    var b: u32 := key.n1;
    EncryptsIff(key, b);
    assert EncryptWord(key.Public(), b).Err?;
  }

  lemma ProductsIncrease(a: nat, b: nat, c: nat, d: nat)
    requires a < c && b < d
    ensures a * b < c * d
  {
    assert a * b <= a * d && a * d < c * d;
  }

  lemma SmallPrimesPair(p: nat, q: nat)
    requires IsPrime(p) && IsPrime(q) && p < q < TWO_31
    ensures PrimePair(p, q)
  {
    ProductsOrdered(p - 1, q - 1, TWO_31, TWO_31);
  }

  // -------------------------------------------------------------------- single blocks

  function EncryptWord(key: PublicKey, block: u32): Result<u64, string> {
    if key.e1 == 0 || key.e2 == 0 then Err("failed to encrypt due to the e1 and e2 value is 0")
    else if block >= key.n1 then Err("block should be less than n1, choose bigger prime numbers!")
    else
      var first := Pow(block, key.e1) % key.n1;
      if first >= key.n2 then Err("first result should be less than n2, choose bigger prime numbers!")
      else
        var second := Pow(first, key.e2) % key.n2;
        if second >= TWO_64 then Err("result has different value with second")
        else var word: u64 := second; Ok(word)
  }

  function DecryptWord(key: PrivateKey, cipher: u64): u32
    requires key.n1 > 0 && key.n2 > 0
  {
    var first := Pow(cipher, key.d2) % key.n2;
    Pow(first, key.d1) % key.n1 % TWO_32
  }

  /** The cipher word of a block, as the holder of the private half sees it: the second private
      exponent takes it back to the residue that the first public exponent makes of the block. */
  ghost predicate IsCipher(key: KeyPair, block: nat, c: nat) {
    key.n1 > 0 && c < key.n2 && Pow(c, key.d2) % key.n2 == Pow(block, key.e1) % key.n1
  }

  method Encrypt(key: PublicKey, block: u32) returns (r: Result<u64, string>)
    ensures r == EncryptWord(key, block)
    ensures r.Ok? ==> key.n1 > 0 && key.n2 > 0
    ensures key.n2 <= TWO_64 ==>
              (r.Ok? <==> key.e1 != 0 && key.e2 != 0 && block < key.n1 && Pow(block, key.e1) % key.n1 < key.n2)
    ensures r.Ok? ==> r.value == Pow(Pow(block, key.e1) % key.n1, key.e2) % key.n2
    ensures r.Ok? ==> forall pair: KeyPair :: pair.Valid() && pair.Public() == key ==> IsCipher(pair, block, r.value)
  {
    forall pair: KeyPair | pair.Valid() && pair.Public() == key && EncryptWord(key, block).Ok?
      ensures IsCipher(pair, block, EncryptWord(key, block).value)
    {
      CipherWordIs(pair, block);
    }
    if key.e1 == 0 || key.e2 == 0 {
      return Err("failed to encrypt due to the e1 and e2 value is 0");
    }
    if block >= key.n1 {
      return Err("block should be less than n1, choose bigger prime numbers!");
    }
    var first := Powm(block, key.e1, key.n1);
    if first >= key.n2 {
      return Err("first result should be less than n2, choose bigger prime numbers!");
    }
    var second := Powm(first, key.e2, key.n2);
    var result := WrapU64(second);
    if second != result {
      return Err("result has different value with second");
    }
    r := Ok(result);
  }

  /** The original aborts on a key without private exponents, so they are required here. */
  method Decrypt(key: PrivateKey, cipher: u64) returns (block: u32)
    requires key.d1 > 0 && key.d2 > 0 && key.n1 > 0 && key.n2 > 0
    ensures block == DecryptWord(key, cipher)
    ensures block == Pow(Pow(cipher, key.d2) % key.n2, key.d1) % key.n1 % TWO_32
  {
    var first := Powm(cipher, key.d2, key.n2);
    var second := Powm(first, key.d1, key.n1);
    block := second % TWO_32;
  }

  lemma HalfInverts(m: nat, p: nat, q: nat, n: nat, e: nat, d: nat)
    requires HalfValid(p, q, n, e, d) && m < n
    ensures Pow(Pow(m, e) % n, d) % n == m
  {
    PairProducts(p, q);
    MulAtLeast(d, e);
    ExponentsCancel(m, p, q, n, (p - 1) * (q - 1), e, d);
  }

  /** Swapping the exponents of a half gives a half. */
  lemma HalfReverts(c: nat, p: nat, q: nat, n: nat, e: nat, d: nat)
    requires HalfValid(p, q, n, e, d) && c < n
    ensures Pow(Pow(c, d) % n, e) % n == c
  {
    assert d * e == e * d;
    HalfInverts(c, p, q, n, d, e);
  }

  /** What encrypts becomes its cipher word, and no other number is one. */
  lemma CipherWordIs(key: KeyPair, block: u32)
    requires key.Valid()
    ensures var r := EncryptWord(key.Public(), block);
            r.Ok? ==> IsCipher(key, block, r.value) && forall c: nat :: IsCipher(key, block, c) ==> c == r.value
  {
    hide HalfValid;
    Moduli(key);
    var r := EncryptWord(key.Public(), block);
    if r.Ok? {
      var first := Pow(block, key.e1) % key.n1;
      HalfInverts(first, key.q1, key.q2, key.n2, key.e2, key.d2);
      forall c: nat | IsCipher(key, block, c)
        ensures c == r.value
      {
        HalfReverts(c, key.q1, key.q2, key.n2, key.e2, key.d2);
      }
    }
  }

  lemma Moduli(key: KeyPair)
    requires key.Valid()
    ensures 6 <= key.n1 < TWO_64 && 6 <= key.n2 < TWO_64
  {
    PairProducts(key.p1, key.p2);
    PairProducts(key.q1, key.q2);
  }

  /** The number whose first residue is what the second private exponent makes of the word. */
  ghost predicate IsPlain(key: KeyPair, c: nat, x: nat) {
    key.n2 > 0 && x < key.n1 && Pow(x, key.e1) % key.n1 == Pow(c, key.d2) % key.n2 % key.n1
  }

  /** Every word decrypts to the low 32 bits of the one number below n1 that it stands for. */
  lemma DecryptedWordIs(key: KeyPair, c: u64) returns (x: nat)
    requires key.Valid()
    ensures key.n1 > 0 && key.n2 > 0
    ensures IsPlain(key, c, x) && DecryptWord(key.Private(), c) == x % TWO_32
    ensures forall y: nat :: IsPlain(key, c, y) ==> y == x
  {
    hide HalfValid;
    Moduli(key);
    var first := Pow(c, key.d2) % key.n2;
    x := Pow(first, key.d1) % key.n1;
    PowOfResidue(first, key.d1, key.n1);
    HalfReverts(first % key.n1, key.p1, key.p2, key.n1, key.e1, key.d1);
    forall y: nat | IsPlain(key, c, y)
      ensures y == x
    {
      HalfInverts(y, key.p1, key.p2, key.n1, key.e1, key.d1);
    }
  }

  lemma PowOfResidue(a: nat, n: nat, m: nat)
    requires m > 0
    ensures Pow(a % m, n) % m == Pow(a, n) % m
  {
    CongMod(a, m);
    CongPow(a % m, a, n, m);
    CongIffSameMod(Pow(a % m, n), Pow(a, n), m);
  }

  /** The scheme is correct: whatever encrypts decrypts to the same block. */
  lemma WordRoundTrip(key: KeyPair, block: u32)
    requires key.Valid()
    ensures key.n1 > 0 && key.n2 > 0
    ensures var c := EncryptWord(key.Public(), block);
            c.Ok? ==> DecryptWord(key.Private(), c.value) == block
  {
    PairProducts(key.p1, key.p2);
    PairProducts(key.q1, key.q2);
    var c := EncryptWord(key.Public(), block);
    if c.Ok? {
      var first := Pow(block, key.e1) % key.n1;
      HalfInverts(first, key.q1, key.q2, key.n2, key.e2, key.d2);
      HalfInverts(block, key.p1, key.p2, key.n1, key.e1, key.d1);
      SmallMod(block, TWO_32);
    }
  }

  /** Exactly which blocks encrypt under a generated key. */
  lemma EncryptsIff(key: KeyPair, block: u32)
    requires key.Valid()
    ensures key.n1 > 0
    ensures EncryptWord(key.Public(), block).Ok? <==> block < key.n1 && Pow(block, key.e1) % key.n1 < key.n2
    ensures key.n1 <= key.n2 ==> (EncryptWord(key.Public(), block).Ok? <==> block < key.n1)
  {
    PairProducts(key.p1, key.p2);
    PairProducts(key.q1, key.q2);
  }

  /** Different numbers below a bound are no more than the bound. */
  lemma {:induction false} Pigeonhole(vals: seq<nat>, bound: nat)
    requires forall i :: 0 <= i < |vals| ==> vals[i] < bound
    requires forall i, j :: 0 <= i < j < |vals| ==> vals[i] != vals[j]
    ensures |vals| <= bound
    decreases bound
  {
    if vals != [] {
      assert vals[0] < bound;
      if k :| 0 <= k < |vals| && vals[k] == bound - 1 {
        var rest := vals[..k] + vals[k + 1..];
        assert forall i :: 0 <= i < |rest| ==> rest[i] == vals[if i < k then i else i + 1];
        Pigeonhole(rest, bound - 1);
      } else {
        Pigeonhole(vals, bound - 1);
      }
    }
  }

  /** Different blocks have different first results. */
  lemma FirstIsInjective(key: KeyPair, a: nat, b: nat)
    requires key.Valid() && a < key.n1 && b < key.n1
    requires Pow(a, key.e1) % key.n1 == Pow(b, key.e1) % key.n1
    ensures a == b
  {
    HalfInverts(a, key.p1, key.p2, key.n1, key.e1, key.d1);
    HalfInverts(b, key.p1, key.p2, key.n1, key.e1, key.d1);
  }

  lemma TooManyHoles(vals: seq<nat>, bound: nat) returns (i: nat)
    requires |vals| > bound && forall i, j :: 0 <= i < j < |vals| ==> vals[i] != vals[j]
    ensures i < |vals| && vals[i] >= bound
  {
    if forall i :: 0 <= i < |vals| ==> vals[i] < bound {
      Pigeonhole(vals, bound);
    }
    i :| 0 <= i < |vals| && vals[i] >= bound;
  }

  function FirstResult(key: KeyPair, c: nat): (r: nat)
    requires key.n1 > 0
  {
    Pow(c, key.e1) % key.n1
  }

  /** When n2 is a block below n1, the blocks up to it have too many different first results for
      all of them to lie below n2. */
  lemma SmallSecondModulusRefuses(key: KeyPair) returns (b: u32)
    requires key.Valid() && key.n2 < TWO_32 && key.n2 < key.n1
    ensures EncryptWord(key.Public(), b).Err?
  {
    hide EncryptWord, IsPrime;
    PairProducts(key.p1, key.p2);
    var vals := seq(key.n2 + 1, c requires 0 <= c < key.n2 + 1 => FirstResult(key, c));
    forall i, j | 0 <= i < j < |vals|
      ensures vals[i] != vals[j]
    {
      if vals[i] == vals[j] {
        FirstIsInjective(key, i, j);
      }
    }
    b := TooManyHoles(vals, key.n2);
    EncryptsIff(key, b);
  }

  /** If every block encrypts, both moduli are at least 2^32; under n1 <= n2 that is enough. */
  lemma AlwaysEncryptsNeeds(key: KeyPair)
    requires key.Valid()
    ensures (forall b: u32 :: EncryptWord(key.Public(), b).Ok?) ==> TWO_32 <= key.n1 && TWO_32 <= key.n2
    ensures key.n1 <= key.n2 ==> ((forall b: u32 :: EncryptWord(key.Public(), b).Ok?) <==> TWO_32 <= key.n1)
  {
    hide EncryptWord;
    if key.n1 < TWO_32 {
      EncryptsIff(key, key.n1);
    } else if key.n2 < TWO_32 {
      var b := SmallSecondModulusRefuses(key);
    } else if key.n1 <= key.n2 {
      forall b: u32
        ensures EncryptWord(key.Public(), b).Ok?
      {
        EncryptsIff(key, b);
      }
    }
  }

  // --------------------------------------------------------------------- byte strings

  function Filler(length: nat): (fill: nat)
    ensures fill < BLOCK_SIZE && (length + fill) % BLOCK_SIZE == 0
  {
    if length % BLOCK_SIZE == 0 then 0 else BLOCK_SIZE - length % BLOCK_SIZE
  }

  /** The bytes as little-endian blocks, the last one filled up with zeros. */
  function Blocks(bytes: seq<byte>): (blocks: seq<u32>)
    ensures |blocks| == (|bytes| + Filler(|bytes|)) / BLOCK_SIZE
  {
    var padded := bytes + seq(Filler(|bytes|), _ => 0);
    var ws := BytesToWords(padded, BLOCK_SIZE);
    BlocksAreWords(padded);
    ws
  }

  lemma BlocksAreWords(padded: seq<byte>)
    ensures forall i :: 0 <= i < |padded| / BLOCK_SIZE ==> BytesToWords(padded, BLOCK_SIZE)[i] < TWO_32
  {
    BytesToWordsBound(padded, BLOCK_SIZE);
    assert Pow(256, 4) == TWO_32 by { PowOf256(); }
  }

  lemma PowOf256()
    ensures Pow(256, 4) == TWO_32 && Pow(256, 8) == TWO_64 && Pow(256, 16) == TWO_128
  {
    assert Pow(256, 2) == 256 * Pow(256, 1) == 65536;
    PowAdd(256, 2, 2);
    PowAdd(256, 4, 4);
    PowAdd(256, 8, 8);
  }

  function EncryptAll(key: PublicKey, blocks: seq<u32>): (r: Result<seq<u64>, string>)
    ensures r.Ok? ==> |r.value| == |blocks|
  {
    if blocks == [] then Ok([])
    else
      var n := |blocks| - 1;
      match EncryptAll(key, blocks[..n])
      case Err(e) => Err(e)
      case Ok(cs) =>
        match EncryptWord(key, blocks[n])
        case Err(e) => Err(e)
        case Ok(c) => Ok(cs + [c])
  }

  function DecryptAll(key: PrivateKey, ciphers: seq<u64>): (blocks: seq<u32>)
    requires key.n1 > 0 && key.n2 > 0
    ensures |blocks| == |ciphers|
  {
    seq(|ciphers|, i requires 0 <= i < |ciphers| => DecryptWord(key, ciphers[i]))
  }

  /** One cipher word for every four bytes, the last of which may be filled up with zeros. */
  ghost predicate AreCiphers(key: KeyPair, bytes: seq<byte>, words: seq<nat>) {
    && |words| == (|bytes| + 3) / 4
    && forall i :: 0 <= i < |words| ==> IsCipher(key, LeNat((bytes + [0, 0, 0])[4 * i..4 * i + 4]), words[i])
  }

  lemma BlockIs(bytes: seq<byte>, i: nat)
    requires i < (|bytes| + 3) / 4
    ensures |Blocks(bytes)| == (|bytes| + 3) / 4 && Blocks(bytes)[i] == LeNat((bytes + [0, 0, 0])[4 * i..4 * i + 4])
  {
    if i < |bytes| / BLOCK_SIZE {
      FullBlock(bytes, i);
      assert bytes[i * BLOCK_SIZE..i * BLOCK_SIZE + BLOCK_SIZE] == (bytes + [0, 0, 0])[4 * i..4 * i + 4];
    } else {
      LastBlock(bytes);
      assert bytes[i * BLOCK_SIZE..] + seq(BLOCK_SIZE - |bytes| % BLOCK_SIZE, _ => 0)
          == (bytes + [0, 0, 0])[4 * i..4 * i + 4];
    }
  }

  lemma {:induction false} EncryptAllAt(key: PublicKey, blocks: seq<u32>, i: nat)
    requires EncryptAll(key, blocks).Ok? && i < |blocks|
    ensures EncryptWord(key, blocks[i]) == Ok(EncryptAll(key, blocks).value[i])
    decreases |blocks|
  {
    hide EncryptWord;
    var n := |blocks| - 1;
    if i < n {
      EncryptAllAt(key, blocks[..n], i);
    }
  }

  lemma CipherWordsAre(key: KeyPair, bytes: seq<byte>)
    requires key.Valid() && EncryptAll(key.Public(), Blocks(bytes)).Ok?
    ensures AreCiphers(key, bytes, EncryptAll(key.Public(), Blocks(bytes)).value)
  {
    hide EncryptWord, EncryptAll, Blocks, IsCipher, HalfValid;
    var blocks := Blocks(bytes);
    forall i | 0 <= i < |blocks|
      ensures IsCipher(key, LeNat((bytes + [0, 0, 0])[4 * i..4 * i + 4]), EncryptAll(key.Public(), blocks).value[i])
    {
      BlockIs(bytes, i);
      EncryptAllAt(key.Public(), blocks, i);
      CipherWordIs(key, blocks[i]);
    }
  }

  method Encrypts(key: PublicKey, bytes: seq<byte>) returns (r: Result<(nat, seq<u64>), string>)
    ensures r.Ok? ==> r.value.0 < 4 && (|bytes| + r.value.0) % 4 == 0
    ensures r.Ok? ==> forall pair: KeyPair :: pair.Valid() && pair.Public() == key ==>
              AreCiphers(pair, bytes, r.value.1)
    ensures var all := EncryptAll(key, Blocks(bytes));
            r == if all.Ok? then Ok((Filler(|bytes|), all.value)) else Err(all.error)
  {
    hide Blocks, EncryptWord, AreCiphers, HalfValid;
    forall pair: KeyPair | pair.Valid() && pair.Public() == key && EncryptAll(key, Blocks(bytes)).Ok?
      ensures AreCiphers(pair, bytes, EncryptAll(key, Blocks(bytes)).value)
    {
      CipherWordsAre(pair, bytes);
    }
    var remaining, blockCount := |bytes| % BLOCK_SIZE, |bytes| / BLOCK_SIZE;
    ghost var blocks := Blocks(bytes);
    var result: seq<u64> := [];
    for i := 0 to blockCount
      invariant EncryptAll(key, blocks[..i]) == Ok(result)
    {
      FullBlock(bytes, i);
      var cipher := Encrypt(key, LeNat(bytes[i * BLOCK_SIZE..i * BLOCK_SIZE + BLOCK_SIZE]));
      assert blocks[..i + 1][..i] == blocks[..i];
      if cipher.Err? {
        EncryptAllFails(key, blocks, i);
        return Err(cipher.error);
      }
      result := result + [cipher.value];
    }
    if remaining == 0 {
      assert blocks[..blockCount] == blocks;
      return Ok((0, result));
    }
    LastBlock(bytes);
    var cipher := Encrypt(key, LeNat(bytes[blockCount * BLOCK_SIZE..] + seq(BLOCK_SIZE - remaining, _ => 0)));
    assert blocks[..blockCount + 1] == blocks && blocks[..blockCount + 1][..blockCount] == blocks[..blockCount];
    if cipher.Err? {
      EncryptAllFails(key, blocks, blockCount);
      return Err(cipher.error);
    }
    r := Ok((BLOCK_SIZE - remaining, result + [cipher.value]));
  }

  lemma FullBlock(bytes: seq<byte>, i: nat)
    requires i < |bytes| / BLOCK_SIZE
    ensures i < |Blocks(bytes)| && Blocks(bytes)[i] == LeNat(bytes[i * BLOCK_SIZE..i * BLOCK_SIZE + BLOCK_SIZE])
  {
    var padded := bytes + seq(Filler(|bytes|), _ => 0);
    WordAt(padded, BLOCK_SIZE, i);
    assert padded[i * BLOCK_SIZE..i * BLOCK_SIZE + BLOCK_SIZE] == bytes[i * BLOCK_SIZE..i * BLOCK_SIZE + BLOCK_SIZE];
  }

  lemma LastBlock(bytes: seq<byte>)
    requires |bytes| % BLOCK_SIZE != 0
    ensures var full, left := |bytes| / BLOCK_SIZE, |bytes| % BLOCK_SIZE;
            && |Blocks(bytes)| == full + 1
            && Blocks(bytes)[full] == LeNat(bytes[full * BLOCK_SIZE..] + seq(BLOCK_SIZE - left, _ => 0))
  {
    var padded, full := bytes + seq(Filler(|bytes|), _ => 0), |bytes| / BLOCK_SIZE;
    WordAt(padded, BLOCK_SIZE, full);
    assert padded[full * BLOCK_SIZE..full * BLOCK_SIZE + BLOCK_SIZE]
        == bytes[full * BLOCK_SIZE..] + seq(BLOCK_SIZE - |bytes| % BLOCK_SIZE, _ => 0);
  }

  /** The first block that fails decides the result. */
  lemma {:induction false} EncryptAllFails(key: PublicKey, blocks: seq<u32>, i: nat)
    requires i < |blocks| && EncryptAll(key, blocks[..i]).Ok? && EncryptWord(key, blocks[i]).Err?
    ensures EncryptAll(key, blocks) == Err(EncryptWord(key, blocks[i]).error)
    decreases |blocks|
  {
    var n := |blocks| - 1;
    if i < n {
      assert blocks[..n][..i] == blocks[..i];
      EncryptAllFails(key, blocks[..n], i);
    }
  }

  /** One block for every eight bytes, each by both private exponents in turn. */
  ghost predicate AreDeciphered(key: PrivateKey, bytes: seq<byte>, blocks: seq<u32>)
    requires key.n1 > 0 && key.n2 > 0
  {
    && |blocks| == |bytes| / 8
    && forall i :: 0 <= i < |blocks| ==>
         blocks[i] == Pow(Pow(LeNat(bytes[8 * i..8 * i + 8]), key.d2) % key.n2, key.d1) % key.n1 % TWO_32
  }

  lemma DeciphersAre(key: PrivateKey, bytes: seq<byte>)
    requires key.n1 > 0 && key.n2 > 0
    ensures AreDeciphered(key, bytes, DecryptAll(key, CipherWords(bytes)))
  {
    forall i | 0 <= i < |bytes| / 8
      ensures CipherWords(bytes)[i] == LeNat(bytes[8 * i..8 * i + 8])
    {
      WordAt(bytes, CIPHER_SIZE, i);
      assert bytes[i * 8..i * 8 + 8] == bytes[8 * i..8 * i + 8];
    }
  }

  method Decrypts(key: PrivateKey, bytes: seq<byte>) returns (r: Result<seq<u32>, string>)
    requires key.d1 > 0 && key.d2 > 0 && key.n1 > 0 && key.n2 > 0
    ensures r == if |bytes| % CIPHER_SIZE != 0 then Err("cipher text should be multiple of 8")
                 else Ok(DecryptAll(key, CipherWords(bytes)))
    ensures r.Ok? <==> |bytes| % 8 == 0
    ensures r.Ok? ==> AreDeciphered(key, bytes, r.value)
  {
    DeciphersAre(key, bytes);
    if |bytes| % CIPHER_SIZE != 0 {
      return Err("cipher text should be multiple of 8");
    }
    ghost var ciphers := CipherWords(bytes);
    var result: seq<u32> := [];
    for i := 0 to |bytes| / CIPHER_SIZE
      invariant result == DecryptAll(key, ciphers[..i])
    {
      var word := bytes[i * CIPHER_SIZE..i * CIPHER_SIZE + CIPHER_SIZE];
      WordAt(bytes, CIPHER_SIZE, i);
      assert LeNat(word) == ciphers[i];
      var decipher := Decrypt(key, LeNat(word));
      result := result + [decipher];
    }
    assert ciphers[..|ciphers|] == ciphers;
    r := Ok(result);
  }

  function CipherWords(bytes: seq<byte>): (ws: seq<u64>)
    ensures |ws| == |bytes| / CIPHER_SIZE
  {
    BytesToWordsBound(bytes, CIPHER_SIZE);
    PowOf256();
    BytesToWords(bytes, CIPHER_SIZE)
  }

  lemma {:induction false} DecryptAllOfEncryptAll(key: KeyPair, blocks: seq<u32>)
    requires key.Valid() && EncryptAll(key.Public(), blocks).Ok?
    ensures key.n1 > 0 && key.n2 > 0
    ensures DecryptAll(key.Private(), EncryptAll(key.Public(), blocks).value) == blocks
    decreases |blocks|
  {
    hide EncryptWord, DecryptWord, IsPrime;
    WordRoundTrip(key, 0);
    if blocks == [] {
    } else {
      var n := |blocks| - 1;
      DecryptAllOfEncryptAll(key, blocks[..n]);
      WordRoundTrip(key, blocks[n]);
      assert blocks == blocks[..n] + [blocks[n]];
    }
  }

  /** The decrypted blocks viewed as bytes, without the filler at the end. */
  function ByteSpan(blocks: seq<u32>, filler: nat): (bs: seq<byte>)
    requires filler <= |blocks| * BLOCK_SIZE
    ensures |bs| == |blocks| * BLOCK_SIZE - filler
  {
    WordsToBytes(blocks, BLOCK_SIZE)[..|blocks| * BLOCK_SIZE - filler]
  }

  /** Byte strings of every length come back through the byte view of the cipher blocks. */
  lemma BytesRoundTrip(key: KeyPair, bytes: seq<byte>)
    requires key.Valid()
    ensures key.n1 > 0 && key.n2 > 0 && Filler(|bytes|) <= |Blocks(bytes)| * BLOCK_SIZE
    ensures var all := EncryptAll(key.Public(), Blocks(bytes));
            all.Ok? ==>
              var wire := WordsToBytes(all.value, CIPHER_SIZE);
              && |wire| % CIPHER_SIZE == 0
              && DecryptAll(key.Private(), CipherWords(wire)) == Blocks(bytes)
              && ByteSpan(DecryptAll(key.Private(), CipherWords(wire)), Filler(|bytes|)) == bytes
  {
    WordRoundTrip(key, 0);
    var all := EncryptAll(key.Public(), Blocks(bytes));
    if all.Ok? {
      PowOf256();
      BytesToWordsOfWordsToBytes(all.value, CIPHER_SIZE);
      DecryptAllOfEncryptAll(key, Blocks(bytes));
      var padded := bytes + seq(Filler(|bytes|), _ => 0);
      WordsToBytesOfBytesToWords(padded, BLOCK_SIZE);
      assert padded[..|bytes|] == bytes;
      MultipleIsDivisible(CIPHER_SIZE, |all.value|);
    }
  }

  /** With a first modulus of at least 2^32, below the second, every byte string encrypts. */
  lemma {:induction false} LargeKeysAlwaysEncrypt(key: KeyPair, blocks: seq<u32>)
    requires key.Valid() && TWO_32 <= key.n1 <= key.n2
    ensures EncryptAll(key.Public(), blocks).Ok?
    decreases |blocks|
  {
    if blocks == [] {
    } else {
      EncryptsIff(key, blocks[|blocks| - 1]);
      LargeKeysAlwaysEncrypt(key, blocks[..|blocks| - 1]);
    }
  }

  // -------------------------------------------------------------- keys on the wire

  function Serialize(key: PublicKey): (bs: seq<byte>)
    ensures |bs| == 48
  {
    LeBytes(key.e1, 8) + LeBytes(key.e2, 8) + LeBytes(key.n1, 16) + LeBytes(key.n2, 16)
  }

  function Deserialize(bs: seq<byte>): Result<PublicKey, string> {
    if |bs| != 48 then Err("provided bytes has different size from expected")
    else
      PowOf256();
      LeBytesOfLeNat(bs[0..8]);
      LeBytesOfLeNat(bs[8..16]);
      LeBytesOfLeNat(bs[16..32]);
      LeBytesOfLeNat(bs[32..48]);
      Ok(PublicKey(LeNat(bs[0..8]), LeNat(bs[8..16]), LeNat(bs[16..32]), LeNat(bs[32..48])))
  }

  lemma KeyRoundTrip(key: PublicKey)
    ensures Deserialize(Serialize(key)) == Ok(key)
  {
    var bs := Serialize(key);
    PowOf256();
    assert bs[0..8] == LeBytes(key.e1, 8) && bs[8..16] == LeBytes(key.e2, 8);
    assert bs[16..32] == LeBytes(key.n1, 16) && bs[32..48] == LeBytes(key.n2, 16);
    LeNatOfLeBytes(key.e1, 8);
    LeNatOfLeBytes(key.e2, 8);
    LeNatOfLeBytes(key.n1, 16);
    LeNatOfLeBytes(key.n2, 16);
  }

  /** Where each number of the key lies, byte by byte. */
  lemma KeyLayout(key: PublicKey)
    ensures var bs := Serialize(key);
            && FieldAt(bs, 0, 8, key.e1) && FieldAt(bs, 8, 8, key.e2)
            && FieldAt(bs, 16, 16, key.n1) && FieldAt(bs, 32, 16, key.n2)
  {
    hide LeBytes, FieldAt;
    var bs := Serialize(key);
    assert bs[0..0 + 8] == LeBytes(key.e1, 8) && bs[8..8 + 8] == LeBytes(key.e2, 8);
    assert bs[16..16 + 16] == LeBytes(key.n1, 16) && bs[32..32 + 16] == LeBytes(key.n2, 16);
    FieldIs(bs, 0, 8, key.e1);
    FieldIs(bs, 8, 8, key.e2);
    FieldIs(bs, 16, 16, key.n1);
    FieldIs(bs, 32, 16, key.n2);
  }

  /** Every 48-byte string is the serialization of exactly the key it is read as. */
  lemma WireRoundTrip(bs: seq<byte>)
    requires |bs| == 48
    ensures Deserialize(bs).Ok? && Serialize(Deserialize(bs).value) == bs
  {
    LeBytesOfLeNat(bs[0..8]);
    LeBytesOfLeNat(bs[8..16]);
    LeBytesOfLeNat(bs[16..32]);
    LeBytesOfLeNat(bs[32..48]);
    assert bs == bs[0..8] + bs[8..16] + bs[16..32] + bs[32..48];
  }
}
