/** The Camellia block cipher over 16-byte blocks and its padded use on byte strings. */
module Camellia {
  import opened Wrappers
  import opened Convert
  import opened Rotation

  const KEY_BYTE := 16

  const SIGMA: seq<bv64> := [0xA09E667F3BCC908B, 0xB67AE8584CAA73B2, 0xC6EF372FE94F82BE, 0x54FF53A5F1D36F1C]

  /** The two halves of a block. */
  datatype Halves = Halves(d1: bv64, d2: bv64) {
    function Swap(): Halves {
      Halves(d2, d1)
    }

    function Xor(w1: bv64, w2: bv64): Halves {
      Halves(Xor64(d1, w1), Xor64(d2, w2))
    }
  }

  /** The round function, which maps a half block and a subkey to a half block. Everything
      below holds whatever this function is. */
  type RoundFunction = (bv64, bv64) -> bv64

  /** The subkeys: four whitening words, eighteen round words and four FL words. */
  datatype Subkeys = Subkeys(kw: seq<bv64>, k: seq<bv64>, ke: seq<bv64>) {
    predicate Valid() {
      |kw| == 4 && |k| == 18 && |ke| == 4
    }

    /** The order in which decryption uses the subkeys. */
    function Reversed(): (r: Subkeys)
      requires Valid()
      ensures r.Valid()
    {
      Subkeys([kw[2], kw[3], kw[0], kw[1]], Reverse(k), Reverse(ke))
    }
  }

  function Reverse(s: seq<bv64>): (r: seq<bv64>)
    ensures |r| == |s| && forall i :: 0 <= i < |s| ==> r[i] == s[|s| - 1 - i]
  {
    seq(|s|, i requires 0 <= i < |s| => s[|s| - 1 - i])
  }

  // ------------------------------------------------------------ the FL functions

  function RotateStep(left: bv32, right: bv32, k: bv32): bv32 {
    right ^ (((left & k) << 1) | ((left & k) >> 31))
  }

  function OrStep(left: bv32, right: bv32, k: bv32): bv32 {
    left ^ (right | k)
  }

  function FL(word: bv64, subkey: bv64): bv64 {
    var left, right := High32(word), Low32(word);
    var right' := RotateStep(left, right, High32(subkey));
    var left' := OrStep(left, right', Low32(subkey));
    Combine(right', left')
  }

  function FLINV(word: bv64, subkey: bv64): bv64 {
    var left, right := High32(word), Low32(word);
    var left' := OrStep(left, right, Low32(subkey));
    var right' := RotateStep(left', right, High32(subkey));
    Combine(right', left')
  }

  lemma StepsCancel()
    ensures forall left, right, k: bv32 :: RotateStep(left, RotateStep(left, right, k), k) == right
    ensures forall left, right, k: bv32 :: OrStep(OrStep(left, right, k), right, k) == left
  {}

  /** FL and FLINV undo each other, in both orders. */
  lemma FLInverse(word: bv64, subkey: bv64)
    ensures FLINV(FL(word, subkey), subkey) == word
    ensures FL(FLINV(word, subkey), subkey) == word
  {
    hide RotateStep, OrStep, High32, Low32, Combine;
    var left, right := High32(word), Low32(word);
    CombineOfParts(word);
    StepsCancel();
    var r1 := RotateStep(left, right, High32(subkey));
    PartsOfCombine(r1, OrStep(left, r1, Low32(subkey)));
    var l2 := OrStep(left, right, Low32(subkey));
    PartsOfCombine(RotateStep(l2, right, High32(subkey)), l2);
  }

  predicate Bit32(w: bv32, i: bv5) {
    (w >> i) & 1 == 1
  }

  /** Bit i of one half is flipped by bit i - 1, modulo 32, of the other half and the subkey. */
  ghost predicate IsRotateStep(left: bv32, right: bv32, k: bv32, right2: bv32) {
    forall i: bv5 :: Bit32(right2, i) == (Bit32(right, i) != (Bit32(left, i - 1) && Bit32(k, i - 1)))
  }

  ghost predicate IsOrStep(left: bv32, right: bv32, k: bv32, left2: bv32) {
    forall i: bv5 :: Bit32(left2, i) == (Bit32(left, i) != (Bit32(right, i) || Bit32(k, i)))
  }

  lemma RotateStepBits()
    ensures forall left, right, k: bv32, i: bv5 ::
              Bit32(RotateStep(left, right, k), i) == (Bit32(right, i) != (Bit32(left, i - 1) && Bit32(k, i - 1)))
  {}

  lemma OrStepBits()
    ensures forall left, right, k: bv32, i: bv5 ::
              Bit32(OrStep(left, right, k), i) == (Bit32(left, i) != (Bit32(right, i) || Bit32(k, i)))
  {}

  lemma StepBits()
    ensures forall left, right, k: bv32 :: IsRotateStep(left, right, k, RotateStep(left, right, k))
    ensures forall left, right, k: bv32 :: IsOrStep(left, right, k, OrStep(left, right, k))
  {
    hide RotateStep, OrStep, Bit32;
    RotateStepBits();
    OrStepBits();
  }

  /** FL and FLINV as in RFC 3713, section 2.4.2, bit by bit: FL changes the low half first, and
      FLINV the high one. */
  lemma FLBits(word: bv64, subkey: bv64)
    ensures var y := FL(word, subkey);
            && IsRotateStep(High32(word), Low32(word), High32(subkey), Low32(y))
            && IsOrStep(High32(word), Low32(y), Low32(subkey), High32(y))
    ensures var x := FLINV(word, subkey);
            && IsOrStep(High32(word), Low32(word), Low32(subkey), High32(x))
            && IsRotateStep(High32(x), Low32(word), High32(subkey), Low32(x))
  {
    hide RotateStep, OrStep, High32, Low32, Combine, IsRotateStep, IsOrStep;
    var left, right := High32(word), Low32(word);
    StepBits();
    var r1 := RotateStep(left, right, High32(subkey));
    PartsOfCombine(r1, OrStep(left, r1, Low32(subkey)));
    var l2 := OrStep(left, right, Low32(subkey));
    PartsOfCombine(RotateStep(l2, right, High32(subkey)), l2);
  }

  function FLLayer(s: Halves, a: bv64, b: bv64): Halves {
    Halves(FL(s.d1, a), FLINV(s.d2, b))
  }

  // ----------------------------------------------------------- the Feistel network

  function DoubleRound(f: RoundFunction, a: bv64, b: bv64, s: Halves): Halves {
    var d2 := Xor64(s.d2, f(s.d1, a));
    Halves(Xor64(s.d1, f(d2, b)), d2)
  }

  function Feistel(f: RoundFunction, ks: seq<bv64>, s: Halves): Halves
    requires |ks| % 2 == 0
  {
    if ks == [] then s
    else DoubleRound(f, ks[|ks| - 2], ks[|ks| - 1], Feistel(f, ks[..|ks| - 2], s))
  }

  lemma FeistelNone(f: RoundFunction, s: Halves)
    ensures Feistel(f, [], s) == s
  {}

  lemma FeistelBack(f: RoundFunction, ks: seq<bv64>, a: bv64, b: bv64, s: Halves)
    requires |ks| % 2 == 0
    ensures Feistel(f, ks + [a, b], s) == DoubleRound(f, a, b, Feistel(f, ks, s))
  {
    assert (ks + [a, b])[..|ks|] == ks;
  }

  lemma {:induction false} FeistelFront(f: RoundFunction, a: bv64, b: bv64, ks: seq<bv64>, s: Halves)
    requires |ks| % 2 == 0
    ensures Feistel(f, [a, b] + ks, s) == Feistel(f, ks, DoubleRound(f, a, b, s))
    decreases |ks|
  {
    hide DoubleRound;
    var all := [a, b] + ks;
    if ks == [] {
      assert all[..0] == [];
    } else {
      FeistelFront(f, a, b, ks[..|ks| - 2], s);
      assert all[..|all| - 2] == [a, b] + ks[..|ks| - 2];
    }
  }

  lemma DoubleRoundInverse(f: RoundFunction, a: bv64, b: bv64, s: Halves)
    ensures DoubleRound(f, b, a, DoubleRound(f, a, b, s).Swap()) == s.Swap()
  {
    hide Xor64;
    var d2 := Xor64(s.d2, f(s.d1, a));
    Xor64Cancels(s.d1, f(d2, b));
    Xor64Cancels(s.d2, f(s.d1, a));
  }

  /** The network with its keys reversed undoes the network, on swapped halves. */
  lemma {:induction false} FeistelInverse(f: RoundFunction, ks: seq<bv64>, s: Halves)
    requires |ks| % 2 == 0
    ensures Feistel(f, Reverse(ks), Feistel(f, ks, s).Swap()) == s.Swap()
    decreases |ks|
  {
    hide DoubleRound;
    if ks == [] {
    } else {
      var front, a, b := ks[..|ks| - 2], ks[|ks| - 2], ks[|ks| - 1];
      var mid := Feistel(f, front, s);
      assert Reverse(ks) == [b, a] + Reverse(front);
      FeistelFront(f, b, a, Reverse(front), Feistel(f, ks, s).Swap());
      DoubleRoundInverse(f, a, b, mid);
      FeistelInverse(f, front, s);
    }
  }

  // ------------------------------------------------------------------- the cipher

  /** Encryption of the two halves: whitening, three groups of six rounds with an FL layer
      between them, whitening. */
  function Cipher(f: RoundFunction, keys: Subkeys, s: Halves): Halves
    requires keys.Valid()
  {
    var s1 := Feistel(f, keys.k[0..6], s.Xor(keys.kw[0], keys.kw[1]));
    var s2 := Feistel(f, keys.k[6..12], FLLayer(s1, keys.ke[0], keys.ke[1]));
    var s3 := Feistel(f, keys.k[12..18], FLLayer(s2, keys.ke[2], keys.ke[3]));
    s3.Xor(keys.kw[3], keys.kw[2])
  }

  /** The halves after n of the eighteen rounds, one round at a time: a round replaces the right
      half and exchanges the two; FL and its inverse come before rounds 7 and 13. */
  ghost function NetworkState(f: RoundFunction, keys: Subkeys, s: Halves, n: nat): Halves
    requires keys.Valid() && n <= 18
  {
    if n == 0 then Halves(Xor64(s.d1, keys.kw[0]), Xor64(s.d2, keys.kw[1]))
    else
      var t := NetworkState(f, keys, s, n - 1);
      var u := if n == 7 then Halves(FL(t.d1, keys.ke[0]), FLINV(t.d2, keys.ke[1]))
               else if n == 13 then Halves(FL(t.d1, keys.ke[2]), FLINV(t.d2, keys.ke[3]))
               else t;
      Halves(Xor64(u.d2, f(u.d1, keys.k[n - 1])), u.d1)
  }

  /** Two rounds without an FL layer between or before them. */
  lemma TwoRounds(f: RoundFunction, keys: Subkeys, s: Halves, n: nat)
    requires keys.Valid() && n <= 16 && n % 2 == 0
    ensures var t := NetworkState(f, keys, s, n);
            var u := if n == 6 then FLLayer(t, keys.ke[0], keys.ke[1])
                     else if n == 12 then FLLayer(t, keys.ke[2], keys.ke[3]) else t;
            NetworkState(f, keys, s, n + 2) == DoubleRound(f, keys.k[n], keys.k[n + 1], u)
  {
    hide FL, FLINV, Xor64;
  }

  lemma ThreeDoubleRounds(f: RoundFunction, ks: seq<bv64>, s: Halves)
    requires |ks| == 6
    ensures Feistel(f, ks, s)
         == DoubleRound(f, ks[4], ks[5], DoubleRound(f, ks[2], ks[3], DoubleRound(f, ks[0], ks[1], s)))
  {
    hide DoubleRound, Feistel;
    FeistelNone(f, s);
    FeistelBack(f, [], ks[0], ks[1], s);
    FeistelBack(f, ks[..2], ks[2], ks[3], s);
    FeistelBack(f, ks[..4], ks[4], ks[5], s);
    assert ks[..2] == [] + [ks[0], ks[1]];
    assert ks[..4] == ks[..2] + [ks[2], ks[3]];
    assert ks == ks[..4] + [ks[4], ks[5]];
  }

  lemma SixRounds(f: RoundFunction, keys: Subkeys, s: Halves, n: nat)
    requires keys.Valid() && (n == 0 || n == 6 || n == 12)
    ensures var t := NetworkState(f, keys, s, n);
            var u := if n == 6 then FLLayer(t, keys.ke[0], keys.ke[1])
                     else if n == 12 then FLLayer(t, keys.ke[2], keys.ke[3]) else t;
            NetworkState(f, keys, s, n + 6) == Feistel(f, keys.k[n..n + 6], u)
  {
    hide FLLayer, DoubleRound, NetworkState, Feistel;
    var t := NetworkState(f, keys, s, n);
    var u := if n == 6 then FLLayer(t, keys.ke[0], keys.ke[1])
             else if n == 12 then FLLayer(t, keys.ke[2], keys.ke[3]) else t;
    TwoRounds(f, keys, s, n);
    TwoRounds(f, keys, s, n + 2);
    TwoRounds(f, keys, s, n + 4);
    ThreeDoubleRounds(f, keys.k[n..n + 6], u);
  }

  /** The cipher is the eighteen rounds and the last whitening. */
  lemma CipherIsNetwork(f: RoundFunction, keys: Subkeys, s: Halves)
    requires keys.Valid()
    ensures var t := NetworkState(f, keys, s, 18);
            Cipher(f, keys, s) == Halves(Xor64(t.d1, keys.kw[3]), Xor64(t.d2, keys.kw[2]))
  {
    hide FLLayer, Feistel, Xor64;
    SixRounds(f, keys, s, 0);
    SixRounds(f, keys, s, 6);
    SixRounds(f, keys, s, 12);
  }

  lemma FLLayerInverse(s: Halves, a: bv64, b: bv64)
    ensures FLLayer(FLLayer(s, a, b).Swap(), b, a) == s.Swap()
  {
    hide FL, FLINV;
    FLInverse(s.d1, a);
    FLInverse(s.d2, b);
  }

  lemma XorInverse(s: Halves, a: bv64, b: bv64)
    ensures s.Xor(a, b).Xor(a, b) == s
  {
    hide Xor64;
    Xor64Cancels(s.d1, a);
    Xor64Cancels(s.d2, b);
  }

  lemma ReversedGroups(k: seq<bv64>)
    requires |k| == 18
    ensures Reverse(k)[0..6] == Reverse(k[12..18])
    ensures Reverse(k)[6..12] == Reverse(k[6..12])
    ensures Reverse(k)[12..18] == Reverse(k[0..6])
  {}

  /** The whole cipher with reversed subkeys undoes the cipher, on swapped halves. */
  lemma CipherInverse(f: RoundFunction, keys: Subkeys, s: Halves)
    requires keys.Valid()
    ensures Cipher(f, keys.Reversed(), Cipher(f, keys, s).Swap()) == s.Swap()
  {
    hide Feistel, FLLayer, Xor64;
    var kw, k, ke := keys.kw, keys.k, keys.ke;
    var s0 := s.Xor(kw[0], kw[1]);
    var s1 := Feistel(f, k[0..6], s0);
    var t1 := FLLayer(s1, ke[0], ke[1]);
    var s2 := Feistel(f, k[6..12], t1);
    var t2 := FLLayer(s2, ke[2], ke[3]);
    var s3 := Feistel(f, k[12..18], t2);
    ReversedGroups(k);
    XorInverse(s3.Swap(), kw[2], kw[3]);
    FeistelInverse(f, k[12..18], t2);
    FLLayerInverse(s2, ke[2], ke[3]);
    FeistelInverse(f, k[6..12], t1);
    FLLayerInverse(s1, ke[0], ke[1]);
    FeistelInverse(f, k[0..6], s0);
    XorInverse(s.Swap(), kw[1], kw[0]);
  }

  /** A block is read low half first, and written with the halves exchanged. */
  function Split(block: seq<byte>): Halves
    requires |block| == KEY_BYTE
  {
    Halves(Load64(block[..8]), Load64(block[8..]))
  }

  function Join(s: Halves): (block: seq<byte>)
    ensures |block| == KEY_BYTE
  {
    Store64(s.d2) + Store64(s.d1)
  }

  function EncryptBlock(f: RoundFunction, keys: Subkeys, block: seq<byte>): (cipher: seq<byte>)
    requires keys.Valid() && |block| == KEY_BYTE
    ensures |cipher| == KEY_BYTE
  {
    Join(Cipher(f, keys, Split(block)))
  }

  /** A block is encrypted from its two halves, and leaves with its halves exchanged. */
  lemma BlockIs(f: RoundFunction, keys: Subkeys, block: seq<byte>)
    requires keys.Valid() && |block| == 16
    ensures var t := NetworkState(f, keys, Halves(Load64(block[..8]), Load64(block[8..])), 18);
            var cipher := EncryptBlock(f, keys, block);
            Load64(cipher[..8]) == Xor64(t.d2, keys.kw[2]) && Load64(cipher[8..]) == Xor64(t.d1, keys.kw[3])
  {
    hide Load64, Store64, Cipher, Xor64, NetworkState;
    var s := Split(block);
    var c := Cipher(f, keys, s);
    CipherIsNetwork(f, keys, s);
    LoadOfStore(c.d1);
    LoadOfStore(c.d2);
    assert Join(c)[..8] == Store64(c.d2) && Join(c)[8..] == Store64(c.d1);
  }

  /** Decryption is encryption under the reversed subkeys. */
  function DecryptBlock(f: RoundFunction, keys: Subkeys, block: seq<byte>): (plain: seq<byte>)
    requires keys.Valid() && |block| == KEY_BYTE
    ensures |plain| == KEY_BYTE
  {
    EncryptBlock(f, keys.Reversed(), block)
  }

  lemma ReversedKeysUndo(f: RoundFunction, keys: Subkeys, block: seq<byte>)
    requires keys.Valid() && |block| == KEY_BYTE
    ensures EncryptBlock(f, keys.Reversed(), EncryptBlock(f, keys, block)) == block
  {
    hide Load64, Store64, Cipher;
    var s := Split(block);
    var c := Cipher(f, keys, s);
    LoadOfStore(c.d1);
    LoadOfStore(c.d2);
    assert Join(c)[..8] == Store64(c.d2) && Join(c)[8..] == Store64(c.d1);
    CipherInverse(f, keys, s);
    StoreOfLoad(block[..8]);
    StoreOfLoad(block[8..]);
    assert block == block[..8] + block[8..];
  }

  /** Under every key the cipher is a permutation of the blocks: decryption undoes
      encryption and encryption undoes decryption. */
  lemma BlockRoundTrip(f: RoundFunction, keys: Subkeys, block: seq<byte>)
    requires keys.Valid() && |block| == KEY_BYTE
    ensures DecryptBlock(f, keys, EncryptBlock(f, keys, block)) == block
    ensures EncryptBlock(f, keys, DecryptBlock(f, keys, block)) == block
  {
    hide EncryptBlock;
    ReversedKeysUndo(f, keys, block);
    ReversedKeysUndo(f, keys.Reversed(), block);
    assert keys.Reversed().Reversed() == keys;
  }

  // ------------------------------------------------------------------ byte strings

  /** One cipher call per block of 16 bytes. */
  function Ecb(f: RoundFunction, keys: Subkeys, bytes: seq<byte>): (r: seq<byte>)
    requires keys.Valid() && |bytes| % KEY_BYTE == 0
    ensures |r| == |bytes|
    decreases |bytes|
  {
    if bytes == [] then []
    else
      var n := |bytes| - KEY_BYTE;
      Ecb(f, keys, bytes[..n]) + EncryptBlock(f, keys, bytes[n..])
  }

  lemma {:induction false} EcbInverse(f: RoundFunction, keys: Subkeys, bytes: seq<byte>)
    requires keys.Valid() && |bytes| % KEY_BYTE == 0
    ensures Ecb(f, keys.Reversed(), Ecb(f, keys, bytes)) == bytes
    decreases |bytes|
  {
    hide EncryptBlock;
    if bytes == [] {
    } else {
      var n := |bytes| - KEY_BYTE;
      var r := Ecb(f, keys, bytes);
      assert r[..n] == Ecb(f, keys, bytes[..n]) && r[n..] == EncryptBlock(f, keys, bytes[n..]);
      EcbInverse(f, keys, bytes[..n]);
      ReversedKeysUndo(f, keys, bytes[n..]);
      assert bytes == bytes[..n] + bytes[n..];
    }
  }

  function Fill(length: nat): (fill: nat)
    ensures 1 <= fill <= KEY_BYTE && (length + fill) % KEY_BYTE == 0
  {
    KEY_BYTE - length % KEY_BYTE
  }

  function Zeros(n: nat): (z: seq<byte>)
    ensures |z| == n
  {
    seq(n, _ => 0)
  }

  function EncryptBytes(f: RoundFunction, keys: Subkeys, bytes: seq<byte>): (cipher: seq<byte>)
    requires keys.Valid()
    ensures |cipher| == |bytes| + Fill(|bytes|)
  {
    Ecb(f, keys, bytes + Zeros(Fill(|bytes|)))
  }

  function DecryptBytes(f: RoundFunction, keys: Subkeys, bytes: seq<byte>, garbage: nat): Result<seq<byte>, string>
    requires keys.Valid() && (|bytes| % KEY_BYTE == 0 ==> garbage <= |bytes|)
  {
    if |bytes| % KEY_BYTE != 0 then Err("the ciphertext size is not multiple of 16")
    else Ok(Ecb(f, keys.Reversed(), bytes)[..|bytes| - garbage])
  }

  lemma EcbParts(f: RoundFunction, keys: Subkeys, bytes: seq<byte>)
    requires keys.Valid() && |bytes| % KEY_BYTE == 0 && bytes != []
    ensures var n, r := |bytes| - KEY_BYTE, Ecb(f, keys, bytes);
            r[..n] == Ecb(f, keys, bytes[..n]) && r[n..] == EncryptBlock(f, keys, bytes[n..])
  {
    hide EncryptBlock;
  }

  lemma SliceOfPrefix(s: seq<byte>, n: nat, a: nat, b: nat)
    requires a <= b <= n <= |s|
    ensures s[..n][a..b] == s[a..b]
  {}

  lemma {:induction false} EcbAt(f: RoundFunction, keys: Subkeys, bytes: seq<byte>, i: nat)
    requires keys.Valid() && |bytes| % 16 == 0 && 16 * i < |bytes|
    ensures 16 * i + 16 <= |bytes|
    ensures Ecb(f, keys, bytes)[16 * i..16 * i + 16] == EncryptBlock(f, keys, bytes[16 * i..16 * i + 16])
    decreases |bytes|
  {
    hide EncryptBlock, Ecb;
    var n := |bytes| - KEY_BYTE;
    EcbParts(f, keys, bytes);
    if 16 * i < n {
      EcbAt(f, keys, bytes[..n], i);
      SliceOfPrefix(Ecb(f, keys, bytes), n, 16 * i, 16 * i + 16);
      SliceOfPrefix(bytes, n, 16 * i, 16 * i + 16);
    } else {
      assert 16 * i == n && bytes[n..] == bytes[n..n + 16];
      assert Ecb(f, keys, bytes)[n..] == Ecb(f, keys, bytes)[n..n + 16];
    }
  }

  /** Every sixteen bytes of the padded input become sixteen bytes of the output, each for itself;
      the padding is zeros, and there is always some. */
  lemma CipherBytesAre(f: RoundFunction, keys: Subkeys, bytes: seq<byte>, i: nat)
    requires keys.Valid() && i <= |bytes| / 16
    ensures |EncryptBytes(f, keys, bytes)| == |bytes| / 16 * 16 + 16
    ensures EncryptBytes(f, keys, bytes)[16 * i..16 * i + 16]
         == EncryptBlock(f, keys, (bytes + seq(16, _ => 0))[16 * i..16 * i + 16])
  {
    hide EncryptBlock, Ecb;
    var padded := bytes + Zeros(Fill(|bytes|));
    EcbAt(f, keys, padded, i);
    assert padded[16 * i..16 * i + 16] == (bytes + seq(16, _ => 0))[16 * i..16 * i + 16];
  }

  /** Byte strings of every length come back, and the fill always fits a byte. */
  lemma BytesRoundTrip(f: RoundFunction, keys: Subkeys, bytes: seq<byte>)
    requires keys.Valid()
    ensures DecryptBytes(f, keys, EncryptBytes(f, keys, bytes), Fill(|bytes|)) == Ok(bytes)
  {
    hide Ecb;
    EcbInverse(f, keys, bytes + Zeros(Fill(|bytes|)));
  }

  /** Whatever whole blocks arrive, decryption gives what encrypts to them, cut by the garbage. */
  lemma PlainBytesAre(f: RoundFunction, keys: Subkeys, bytes: seq<byte>, garbage: nat, i: nat)
    requires keys.Valid() && |bytes| % 16 == 0 && garbage <= |bytes| && 16 * i < |bytes|
    ensures 16 * i + 16 <= |bytes|
    ensures var whole, cut := DecryptBytes(f, keys, bytes, 0), DecryptBytes(f, keys, bytes, garbage);
            && whole.Ok? && |whole.value| == |bytes|
            && EncryptBlock(f, keys, whole.value[16 * i..16 * i + 16]) == bytes[16 * i..16 * i + 16]
            && cut == Ok(whole.value[..|bytes| - garbage])
  {
    hide Ecb, EncryptBlock;
    var whole := DecryptBytes(f, keys, bytes, 0).value;
    EcbInverse(f, keys.Reversed(), bytes);
    assert keys.Reversed().Reversed() == keys;
    assert whole == Ecb(f, keys.Reversed(), bytes);
    EcbAt(f, keys, whole, i);
  }

  // ---------------------------------------------------------------- the key schedule

  function Whitened(f: RoundFunction, key: seq<byte>): bv128
    requires |key| == KEY_BYTE
  {
    var high, low := Load64(key[8..]), Load64(key[..8]);
    var s := DoubleRound(f, SIGMA[0], SIGMA[1], Halves(high, low)).Xor(high, low);
    var t := DoubleRound(f, SIGMA[2], SIGMA[3], s);
    Join64(t.d1, t.d2)
  }

  function Schedule(f: RoundFunction, key: seq<byte>): (keys: Subkeys)
    requires |key| == KEY_BYTE
    ensures keys.Valid()
  {
    var kl := Join64(Load64(key[8..]), Load64(key[..8]));
    var ka := Whitened(f, key);
    Subkeys(WhiteningWords(kl, ka), RoundWords(kl, ka), FLWords(kl, ka))
  }

  function WhiteningWords(kl: bv128, ka: bv128): (w: seq<bv64>)
    ensures |w| == 4
  {
    [High64(kl), Low64(kl), High64(Rotl128(ka, 111)), Low64(Rotl128(ka, 111))]
  }

  function FLWords(kl: bv128, ka: bv128): (w: seq<bv64>)
    ensures |w| == 4
  {
    [High64(Rotl128(ka, 30)), Low64(Rotl128(ka, 30)), High64(Rotl128(kl, 77)), Low64(Rotl128(kl, 77))]
  }

  function RoundWords(kl: bv128, ka: bv128): (w: seq<bv64>)
    ensures |w| == 18
  {
    [High64(ka), Low64(ka),
     High64(Rotl128(kl, 15)), Low64(Rotl128(kl, 15)), High64(Rotl128(ka, 15)), Low64(Rotl128(ka, 15)),
     High64(Rotl128(kl, 45)), Low64(Rotl128(kl, 45)), High64(Rotl128(ka, 45)), Low64(Rotl128(kl, 60)),
     High64(Rotl128(ka, 60)), Low64(Rotl128(ka, 60)),
     High64(Rotl128(kl, 94)), Low64(Rotl128(kl, 94)), High64(Rotl128(ka, 94)), Low64(Rotl128(ka, 94)),
     High64(Rotl128(kl, 111)), Low64(Rotl128(kl, 111))]
  }

  /** The halves of the derived key, from those of the key: the key itself cancels out of the
      second pair of rounds. */
  function DerivedLow(f: RoundFunction, h: bv64, l: bv64): bv64 {
    var c := f(Xor64(l, f(h, 0xA09E667F3BCC908B)), 0xB67AE8584CAA73B2);
    Xor64(f(h, 0xA09E667F3BCC908B), f(c, 0xC6EF372FE94F82BE))
  }

  function DerivedHigh(f: RoundFunction, h: bv64, l: bv64): bv64 {
    var c := f(Xor64(l, f(h, 0xA09E667F3BCC908B)), 0xB67AE8584CAA73B2);
    Xor64(c, f(DerivedLow(f, h, l), 0x54FF53A5F1D36F1C))
  }

  /** The key schedule of RFC 3713, section 2.2, for 128-bit keys, bit by bit: every pair of
      subkeys is the key (h, l) or the derived key (a, b) rotated to the left, and two round
      words are the high and the low half of such a pair. */
  ghost predicate IsSchedule(f: RoundFunction, key: seq<byte>, keys: Subkeys)
    requires |key| == 16 && keys.Valid()
  {
    var h, l := Load64(key[8..]), Load64(key[..8]);
    var a, b := DerivedHigh(f, h, l), DerivedLow(f, h, l);
    var kw, ke := keys.kw, keys.ke;
    && kw[0] == h && kw[1] == l && Rotated(a, b, 111, kw[2], kw[3])
    && Rotated(a, b, 30, ke[0], ke[1]) && Rotated(h, l, 77, ke[2], ke[3])
    && AreRoundWords(h, l, a, b, keys.k)
  }

  ghost predicate AreRoundWords(h: bv64, l: bv64, a: bv64, b: bv64, k: seq<bv64>)
    requires |k| == 18
  {
    && AreEarlyWords(h, l, a, b, k)
    && AreLateWords(h, l, a, b, k)
  }

  ghost predicate AreEarlyWords(h: bv64, l: bv64, a: bv64, b: bv64, k: seq<bv64>)
    requires |k| == 18
  {
    && k[0] == a && k[1] == b
    && Rotated(h, l, 15, k[2], k[3]) && Rotated(a, b, 15, k[4], k[5])
  }

  ghost predicate AreLateWords(h: bv64, l: bv64, a: bv64, b: bv64, k: seq<bv64>)
    requires |k| == 18
  {
    && Rotated(h, l, 45, k[6], k[7])
    && (exists low :: Rotated(a, b, 45, k[8], low)) && (exists high :: Rotated(h, l, 60, high, k[9]))
    && Rotated(a, b, 60, k[10], k[11])
    && Rotated(h, l, 94, k[12], k[13]) && Rotated(a, b, 94, k[14], k[15])
    && Rotated(h, l, 111, k[16], k[17])
  }

  lemma WhitenedIsDerived(f: RoundFunction, key: seq<byte>)
    requires |key| == KEY_BYTE
    ensures var h, l := Load64(key[8..]), Load64(key[..8]);
            Whitened(f, key) == Join64(DerivedHigh(f, h, l), DerivedLow(f, h, l))
  {
    hide Load64, Join64, Xor64;
    var h, l := Load64(key[8..]), Load64(key[..8]);
    var p := f(h, SIGMA[0]);
    Xor64Returns(l, p);
    Xor64Returns(h, f(Xor64(l, p), SIGMA[1]));
  }

  lemma EarlyWordsAre(kl: bv128, ka: bv128)
    ensures AreEarlyWords(High64(kl), Low64(kl), High64(ka), Low64(ka), RoundWords(kl, ka))
  {
    hide High64, Low64, Rotl128, Rotated;
    RotationMovesBits(kl);
    RotationMovesBits(ka);
  }

  lemma LateWordsAre(kl: bv128, ka: bv128)
    ensures AreLateWords(High64(kl), Low64(kl), High64(ka), Low64(ka), RoundWords(kl, ka))
  {
    hide High64, Low64, Rotl128, Rotated;
    RotationMovesBits(kl);
    RotationMovesBits(ka);
    var k := RoundWords(kl, ka);
    assert Rotated(High64(ka), Low64(ka), 45, k[8], Low64(Rotl128(ka, 45)));
    assert Rotated(High64(kl), Low64(kl), 60, High64(Rotl128(kl, 60)), k[9]);
  }

  /** What the schedule computes, without the tables that compute it. */
  lemma ScheduleIs(f: RoundFunction, key: seq<byte>)
    requires |key| == KEY_BYTE
    ensures IsSchedule(f, key, Schedule(f, key))
  {
    hide Load64, Join64, High64, Low64, Rotl128, Rotated, Whitened, DerivedHigh, DerivedLow, AreEarlyWords,
      AreLateWords, RoundWords;
    var h, l := Load64(key[8..]), Load64(key[..8]);
    var a, b := DerivedHigh(f, h, l), DerivedLow(f, h, l);
    WhitenedIsDerived(f, key);
    PartsOfJoin(h, l);
    PartsOfJoin(a, b);
    RotationMovesBits(Join64(h, l));
    RotationMovesBits(Join64(a, b));
    EarlyWordsAre(Join64(h, l), Join64(a, b));
    LateWordsAre(Join64(h, l), Join64(a, b));
  }

  // --------------------------------------------------------------- the cipher object

  class Cipher128 {
    const f: RoundFunction
    var initialized: bool
    var key: seq<byte>
    var kw: array<bv64>
    var k: array<bv64>
    var ke: array<bv64>

    ghost predicate Valid()
      reads this, kw, k, ke
    {
      && kw.Length == 4 && k.Length == 18 && ke.Length == 4
      && kw != k && kw != ke && k != ke
    }

    ghost function Keys(): Subkeys
      reads this, kw, k, ke
    {
      Subkeys(kw[..], k[..], ke[..])
    }

    constructor Empty(f: RoundFunction)
      ensures Valid() && !initialized && this.f == f && fresh(kw) && fresh(k) && fresh(ke)
    {
      this.f := f;
      initialized, key := false, [];
      kw, k, ke := new bv64[4], new bv64[18], new bv64[4];
    }

    constructor (f: RoundFunction, key: seq<byte>)
      requires |key| == KEY_BYTE
      ensures Valid() && initialized && this.f == f && fresh(kw) && fresh(k) && fresh(ke)
      ensures this.key == key && Keys() == Schedule(f, key) && IsSchedule(f, key, Keys())
    {
      hide Schedule, IsSchedule;
      this.f := f;
      initialized, this.key := false, [];
      kw, k, ke := new bv64[4], new bv64[18], new bv64[4];
      new;
      ScheduleKey(key);
    }

    method ScheduleKey(key: seq<byte>)
      requires Valid() && |key| == KEY_BYTE
      modifies this, kw, k, ke
      ensures Valid() && initialized && this.key == key
      ensures Keys() == Schedule(f, key) && IsSchedule(f, key, Keys())
      ensures kw == old(kw) && k == old(k) && ke == old(ke)
    {
      hide Xor64, Rotl128, High64, Low64, Join64, Load64, IsSchedule;
      ScheduleIs(f, key);
      this.key := key;
      var kl := Join64(Load64(key[8..]), Load64(key[..8]));
      var d1, d2 := Load64(key[8..]), Load64(key[..8]);
      d2 := Xor64(d2, f(d1, SIGMA[0]));
      d1 := Xor64(d1, f(d2, SIGMA[1]));
      d1 := Xor64(d1, Load64(key[8..]));
      d2 := Xor64(d2, Load64(key[..8]));
      d2 := Xor64(d2, f(d1, SIGMA[2]));
      d1 := Xor64(d1, f(d2, SIGMA[3]));
      var ka := Join64(d1, d2);
      assert ka == Whitened(f, key);
      hide RoundWords, WhiteningWords, FLWords;
      WriteTable(kw, WhiteningWords(kl, ka));
      WriteTable(k, RoundWords(kl, ka));
      WriteTable(ke, FLWords(kl, ka));
      initialized := true;
    }

    static method WriteTable(table: array<bv64>, words: seq<bv64>)
      requires table.Length == |words|
      modifies table
      ensures table[..] == words
    {
      forall i | 0 <= i < |words| {
        table[i] := words[i];
      }
    }

    /** Three double rounds with the keys from position i upwards. */
    method RoundsForward(d1: bv64, d2: bv64, i: nat) returns (r1: bv64, r2: bv64)
      requires Valid() && i <= 12
      ensures Halves(r1, r2) == Feistel(f, k[i..i + 6], Halves(d1, d2))
    {
      hide Xor64, Feistel;
      r1, r2 := d1, d2;
      FeistelNone(f, Halves(d1, d2));
      assert k[i..i] == [];
      for j := 0 to 3
        invariant Halves(r1, r2) == Feistel(f, k[i..i + 2 * j], Halves(d1, d2))
      {
        var x := i + j * 2;
        assert k[i..x + 2] == k[i..x] + [k[x], k[x + 1]];
        FeistelBack(f, k[i..x], k[x], k[x + 1], Halves(d1, d2));
        r2 := Xor64(r2, f(r1, k[x]));
        r1 := Xor64(r1, f(r2, k[x + 1]));
      }
    }

    /** Three double rounds with the keys from position i downwards. */
    method RoundsBackward(d1: bv64, d2: bv64, i: nat) returns (r1: bv64, r2: bv64)
      requires Valid() && 5 <= i < 18
      ensures Halves(r1, r2) == Feistel(f, Reverse(k[i - 5..i + 1]), Halves(d1, d2))
    {
      hide Xor64, Feistel;
      r1, r2 := d1, d2;
      FeistelNone(f, Halves(d1, d2));
      for j := 0 to 3
        invariant Halves(r1, r2) == Feistel(f, Reverse(k[i + 1 - 2 * j..i + 1]), Halves(d1, d2))
      {
        var x := i - j * 2;
        assert Reverse(k[x - 1..i + 1]) == Reverse(k[x + 1..i + 1]) + [k[x], k[x - 1]];
        FeistelBack(f, Reverse(k[x + 1..i + 1]), k[x], k[x - 1], Halves(d1, d2));
        r2 := Xor64(r2, f(r1, k[x]));
        r1 := Xor64(r1, f(r2, k[x - 1]));
      }
    }

    method Encrypt(block: seq<byte>) returns (r: Result<seq<byte>, string>)
      requires Valid()
      ensures r == if !initialized then Err("key is empty")
                   else if |block| != KEY_BYTE then Err("block should be 16 bytes long!")
                   else Ok(EncryptBlock(f, Keys(), block))
    {
      hide Xor64, Feistel, FL, FLINV, Load64, Store64;
      if !initialized {
        return Err("key is empty");
      }
      if |block| != KEY_BYTE {
        return Err("block should be 16 bytes long!");
      }
      var d1, d2 := Load64(block[..8]), Load64(block[8..]);
      d1 := Xor64(d1, kw[0]);
      d2 := Xor64(d2, kw[1]);
      ghost var s0 := Halves(d1, d2);
      ghost var s1 := FLLayer(Feistel(f, k[0..6], s0), ke[0], ke[1]);
      ghost var s2 := FLLayer(Feistel(f, k[6..12], s1), ke[2], ke[3]);
      for i := 0 to 3
        invariant i == 0 ==> Halves(d1, d2) == s0
        invariant i == 1 ==> Halves(d1, d2) == s1
        invariant i == 2 ==> Halves(d1, d2) == s2
        invariant i == 3 ==> Halves(d1, d2) == Feistel(f, k[12..18], s2)
      {
        d1, d2 := RoundsForward(d1, d2, i * 6);
        if i < 2 {
          d1 := FL(d1, ke[i * 2]);
          d2 := FLINV(d2, ke[i * 2 + 1]);
        }
      }
      d2 := Xor64(d2, kw[2]);
      d1 := Xor64(d1, kw[3]);
      r := Ok(Store64(d2) + Store64(d1));
    }

    method Decrypt(block: seq<byte>) returns (r: Result<seq<byte>, string>)
      requires Valid()
      ensures r == if !initialized then Err("key is empty")
                   else if |block| != KEY_BYTE then Err("block should be 16 bytes long!")
                   else Ok(DecryptBlock(f, Keys(), block))
    {
      hide Xor64, Feistel, FL, FLINV, Load64, Store64;
      if !initialized {
        return Err("key is empty");
      }
      if |block| != KEY_BYTE {
        return Err("block should be 16 bytes long!");
      }
      ReversedGroups(k[..]);
      assert k[12..18] == k[..][12..18] && k[6..12] == k[..][6..12] && k[0..6] == k[..][0..6];
      var d1, d2 := Load64(block[..8]), Load64(block[8..]);
      d1 := Xor64(d1, kw[2]);
      d2 := Xor64(d2, kw[3]);
      ghost var s0 := Halves(d1, d2);
      ghost var s1 := FLLayer(Feistel(f, Reverse(k[12..18]), s0), ke[3], ke[2]);
      ghost var s2 := FLLayer(Feistel(f, Reverse(k[6..12]), s1), ke[1], ke[0]);
      for i := 0 to 3
        invariant i == 0 ==> Halves(d1, d2) == s0
        invariant i == 1 ==> Halves(d1, d2) == s1
        invariant i == 2 ==> Halves(d1, d2) == s2
        invariant i == 3 ==> Halves(d1, d2) == Feistel(f, Reverse(k[0..6]), s2)
      {
        d1, d2 := RoundsBackward(d1, d2, 18 - i * 6 - 1);
        if i < 2 {
          d1 := FL(d1, ke[3 - i * 2]);
          d2 := FLINV(d2, ke[3 - (i * 2 + 1)]);
        }
      }
      d2 := Xor64(d2, kw[0]);
      d1 := Xor64(d1, kw[1]);
      r := Ok(Store64(d2) + Store64(d1));
    }

    /** The last block is always written, so a whole number of blocks gains one of zeros. */
    method Encrypts(bytes: seq<byte>) returns (fill: nat, result: seq<byte>)
      requires Valid() && initialized
      ensures fill == Fill(|bytes|) && result == EncryptBytes(f, Keys(), bytes)
    {
      hide EncryptBlock;
      var remaining, totalBlock := |bytes| % KEY_BYTE, |bytes| / KEY_BYTE;
      fill := KEY_BYTE - remaining;
      result := [];
      ghost var padded := bytes + Zeros(fill);
      for i := 0 to totalBlock
        invariant result == Ecb(f, Keys(), padded[..i * KEY_BYTE])
      {
        var offset := i * KEY_BYTE;
        var cipher := Encrypt(bytes[offset..offset + KEY_BYTE]);
        assert padded[..offset + KEY_BYTE][..offset] == padded[..offset];
        assert padded[..offset + KEY_BYTE][offset..] == bytes[offset..offset + KEY_BYTE];
        result := result + cipher.value;
      }
      var lastBlock := bytes[totalBlock * KEY_BYTE..] + Zeros(fill);
      var cipher := Encrypt(lastBlock);
      assert padded[totalBlock * KEY_BYTE..] == lastBlock;
      result := result + cipher.value;
    }

    method Decrypts(bytes: seq<byte>, garbage: nat) returns (r: Result<seq<byte>, string>)
      requires Valid() && initialized && (|bytes| % KEY_BYTE == 0 ==> garbage <= |bytes|)
      ensures r == DecryptBytes(f, Keys(), bytes, garbage)
    {
      hide EncryptBlock;
      if |bytes| % KEY_BYTE != 0 {
        return Err("the ciphertext size is not multiple of 16");
      }
      var result := [];
      var pos := 0;
      while pos < |bytes|
        invariant pos <= |bytes| && pos % KEY_BYTE == 0
        invariant result == Ecb(f, Keys().Reversed(), bytes[..pos])
      {
        var decipher := Decrypt(bytes[pos..pos + KEY_BYTE]);
        assert bytes[..pos + KEY_BYTE][..pos] == bytes[..pos];
        assert bytes[..pos + KEY_BYTE][pos..] == bytes[pos..pos + KEY_BYTE];
        result := result + decipher.value;
        pos := pos + KEY_BYTE;
      }
      assert bytes[..pos] == bytes && result == result[..|bytes|];
      if garbage > 0 {
        result := result[..|bytes| - garbage];
      }
      r := Ok(result);
    }
  }
}
