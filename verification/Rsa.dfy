/** RSA with one modulus, on the key generation and the number theory of the dual scheme. */
module Rsa {
  import opened Wrappers
  import opened NumberTheory
  import opened Fermat
  import opened Words
  import opened Convert
  import opened Algorithm
  import opened PrimeBound
  import opened FewPrimes
  import opened DmRsa

  datatype Public = Public(e: u64, n: u128)

  datatype Pair = Pair(p: u64, q: u64, n: u128, e: u64, d: u64) {
    ghost predicate Valid() {
      HalfValid(p, q, n, e, d)
    }
  }

  /** The constructor; where this returns an error the original aborts. */
  method GeneratePair(p: u64, q: u64, e: u64) returns (r: Result<Pair, string>)
    requires PrimePair(p, q) && e < TWO_63
    ensures r.Ok? <==> e == 0 || Gcd(e, (p - 1) * (q - 1)) == 1
    ensures r.Ok? ==> r.value.Valid() && r.value.p == p && r.value.q == q && (e != 0 ==> r.value.e == e)
    ensures r.Ok? ==> (e == 0 ==> IsSearched(r.value.e, (p - 1) * (q - 1))) && r.value.d < (p - 1) * (q - 1)
  {
    var half := GenerateHalf(p, q, e);
    if half.Err? {
      return Err("failed to create d");
    }
    var (n, e', d) := half.value;
    r := Ok(Pair(p, q, n, e', d));
  }

  /** The default constructor, for every draw from its ranges. */
  method GenerateDefault(i: nat, j: nat) returns (key: Pair)
    requires 8000 <= i <= 9000 && 9001 <= j <= 10000
    ensures key.Valid() && PrimeCount(key.p) == i - 1 && PrimeCount(key.q) == j - 1
    ensures IsSearched(key.e, (key.p - 1) * (key.q - 1)) && key.d < (key.p - 1) * (key.q - 1)
    ensures TWO_32 <= key.n && forall b: u32 :: EncryptBlock(Public(key.e, key.n), b).Ok?
  {
    hide IsPrime, PrimeCount, IsSearched;
    var p := NthPrime(i);
    var q := NthPrime(j);
    RankOrdersPrimes(p, q);
    RankBoundsPrime(q);
    SmallPrimesPair(p, q);
    var r := GeneratePair(p, q, 0);
    key := r.value;
    RankExceeds(key.p);
    ProductsOrdered(65536, 65536, key.p, key.q);
  }

  function EncryptBlock(key: Public, block: u32): Result<u64, string> {
    if key.e == 0 || key.n == 0 then Err("failed to encrypt due to e or n is 0")
    else if block >= key.n then Err("block should be less than n, choose bigger prime numbers!")
    else
      var word: u64 := Pow(block, key.e) % key.n % TWO_64;
      Ok(word)
  }

  function DecryptBlock(d: u64, n: u128, cipher: u64): u32
    requires n > 0
  {
    Pow(cipher, d) % n % TWO_32
  }

  method Encrypt(key: Public, block: u32) returns (r: Result<u64, string>)
    requires key.n <= TWO_64
    ensures r == EncryptBlock(key, block)
    ensures r.Ok? <==> key.e != 0 && block < key.n
    ensures r.Ok? ==> key.n > 0 && r.value == Pow(block, key.e) % key.n
  {
    if key.e == 0 || key.n == 0 {
      return Err("failed to encrypt due to e or n is 0");
    }
    if block >= key.n {
      return Err("block should be less than n, choose bigger prime numbers!");
    }
    var cipher := ModExponential(block, key.e, key.n);
    r := Ok(cipher % TWO_64);
  }

  method Decrypt(d: u64, n: u128, cipher: u64) returns (block: u32)
    requires d > 0 && 0 < n <= TWO_64
    ensures block == DecryptBlock(d, n, cipher) == Pow(cipher, d) % n % TWO_32
  {
    var message := ModExponential(cipher, d, n);
    block := message % TWO_32;
  }

  /** Exactly the blocks below the modulus encrypt; each becomes the one number below the modulus
      that the private exponent takes back to it. */
  lemma RoundTrip(key: Pair, block: u32)
    requires key.Valid()
    ensures key.n > 0
    ensures var c := EncryptBlock(Public(key.e, key.n), block);
            && (c.Ok? <==> block < key.n)
            && (c.Ok? ==> DecryptBlock(key.d, key.n, c.value) == block)
            && (c.Ok? ==> c.value < key.n && Pow(c.value, key.d) % key.n == block)
            && (c.Ok? ==> forall x: nat :: x < key.n && Pow(x, key.d) % key.n == block ==> x == c.value)
  {
    PairProducts(key.p, key.q);
    if block < key.n {
      forall x: nat | x < key.n && Pow(x, key.d) % key.n == block
        ensures x == Pow(block, key.e) % key.n
      {
        HalfReverts(x, key.p, key.q, key.n, key.e, key.d);
      }
      HalfInverts(block, key.p, key.q, key.n, key.e, key.d);
      SmallMod(Pow(block, key.e) % key.n, TWO_64);
      SmallMod(block, TWO_32);
    }
  }

  function Serialize(key: Public): (bs: seq<byte>)
    ensures |bs| == 24
  {
    LeBytes(key.e, 8) + LeBytes(key.n, 16)
  }

  function Deserialize(bs: seq<byte>): Result<Public, string> {
    if |bs| != 24 then Err("provided bytes has different size from expected")
    else
      PowOf256();
      LeBytesOfLeNat(bs[0..8]);
      LeBytesOfLeNat(bs[8..24]);
      Ok(Public(LeNat(bs[0..8]), LeNat(bs[8..24])))
  }

  lemma KeyRoundTrip(key: Public, bs: seq<byte>)
    ensures Deserialize(Serialize(key)) == Ok(key)
    ensures |bs| == 24 ==> Deserialize(bs).Ok? && Serialize(Deserialize(bs).value) == bs
  {
    var wire := Serialize(key);
    PowOf256();
    assert wire[0..8] == LeBytes(key.e, 8) && wire[8..24] == LeBytes(key.n, 16);
    LeNatOfLeBytes(key.e, 8);
    LeNatOfLeBytes(key.n, 16);
    if |bs| == 24 {
      LeBytesOfLeNat(bs[0..8]);
      LeBytesOfLeNat(bs[8..24]);
      assert bs == bs[0..8] + bs[8..24];
    }
  }
  lemma KeyLayout(key: Public)
    ensures FieldAt(Serialize(key), 0, 8, key.e) && FieldAt(Serialize(key), 8, 16, key.n)
  {
    hide LeBytes, FieldAt;
    var bs := Serialize(key);
    assert bs[0..0 + 8] == LeBytes(key.e, 8) && bs[8..8 + 16] == LeBytes(key.n, 16);
    FieldIs(bs, 0, 8, key.e);
    FieldIs(bs, 8, 16, key.n);
  }
}
