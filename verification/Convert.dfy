/** Little-endian views of words as bytes. */
module Convert {
  import opened NumberTheory
  import opened Fermat

  type byte = bv8

  // ------------------------------------------------- words of any width, as numbers

  function LeBytes(v: nat, n: nat): (bs: seq<byte>)
    ensures |bs| == n
  {
    if n == 0 then [] else [(v % 256) as byte] + LeBytes(v / 256, n - 1)
  }

  function LeNat(bs: seq<byte>): nat {
    if bs == [] then 0 else bs[0] as nat + 256 * LeNat(bs[1..])
  }

  lemma NatOfByte(b: byte)
    ensures (b as nat) as byte == b && b as nat < 256
  {}

  lemma Successor(b: byte)
    requires b as nat < 255
    ensures (b + 1) as nat == b as nat + 1
  {}

  lemma {:induction false} ByteWithValue(v: nat) returns (b: byte)
    requires v < 256
    ensures b as nat == v
  {
    if v == 0 {
      b := 0;
    } else {
      b := ByteWithValue(v - 1);
      Successor(b);
      b := b + 1;
    }
  }

  lemma ByteOfNat(v: nat)
    requires v < 256
    ensures (v as byte) as nat == v
  {
    var b := ByteWithValue(v);
    NatOfByte(b);
  }

  lemma QuotientIs(v: nat, m: nat, k: nat, s: nat)
    requires v == m * k + s && s < m
    ensures v / m == k
  {
    var t := v / m - k;
    assert m * t == s - v % m;
    MulAtLeast(m, t);
  }

  lemma QuotientTwice(v: nat, p: nat)
    requires p > 0
    ensures v / 256 / p == v / (256 * p)
  {
    var k, s := v / 256 / p, v / 256 % p;
    assert v / 256 == p * k + s;
    assert 256 * (p * k) == 256 * p * k;
    QuotientIs(v, 256 * p, k, 256 * s + v % 256);
  }

  /** The byte at each offset of a word: the lowest comes first. */
  lemma {:induction false} LeByteAt(v: nat, n: nat, i: nat)
    requires i < n
    ensures Pow(256, i) > 0 && LeBytes(v, n)[i] as nat == v / Pow(256, i) % 256
  {
    hide Pow;
    if i == 0 {
      PowZero(256);
      ByteOfNat(v % 256);
    } else {
      LeByteAt(v / 256, n - 1, i - 1);
      PowStep(256, i);
      QuotientTwice(v, Pow(256, i - 1));
    }
  }

  lemma PowStep(a: int, n: nat)
    requires n > 0
    ensures Pow(a, n) == a * Pow(a, n - 1)
  {}

  /** The field of n bytes at offset o holds v, lowest byte first. */
  ghost predicate FieldAt(bs: seq<byte>, o: nat, n: nat, v: nat) {
    && o + n <= |bs|
    && forall i: nat :: i < n ==> Pow(256, i) > 0 && bs[o + i] as nat == v / Pow(256, i) % 256
  }

  lemma FieldIs(bs: seq<byte>, o: nat, n: nat, v: nat)
    requires o + n <= |bs| && bs[o..o + n] == LeBytes(v, n)
    ensures FieldAt(bs, o, n, v)
  {
    hide Pow;
    forall i: nat | i < n
      ensures Pow(256, i) > 0 && bs[o + i] as nat == v / Pow(256, i) % 256
    {
      LeByteAt(v, n, i);
      assert bs[o + i] == bs[o..o + n][i];
    }
  }

  /** Writing a word that fits and reading it back gives the word. */
  lemma {:induction false} LeNatOfLeBytes(v: nat, n: nat)
    requires v < Pow(256, n)
    ensures LeNat(LeBytes(v, n)) == v
  {
    if n == 0 {
    } else {
      assert v / 256 < Pow(256, n - 1);
      LeNatOfLeBytes(v / 256, n - 1);
      ByteOfNat(v % 256);
      assert LeBytes(v, n)[1..] == LeBytes(v / 256, n - 1);
    }
  }

  /** Reading bytes and writing the word back gives the bytes. */
  lemma {:induction false} LeBytesOfLeNat(bs: seq<byte>)
    ensures LeNat(bs) < Pow(256, |bs|)
    ensures LeBytes(LeNat(bs), |bs|) == bs
  {
    if bs == [] {
    } else {
      LeBytesOfLeNat(bs[1..]);
      NatOfByte(bs[0]);
      var v := LeNat(bs);
      assert v % 256 == bs[0] as nat && v / 256 == LeNat(bs[1..]);
      assert bs == [bs[0]] + bs[1..];
    }
  }

  /** A vector of words of n bytes each, viewed as one run of bytes. */
  function WordsToBytes(ws: seq<nat>, n: nat): (bs: seq<byte>)
    ensures |bs| == |ws| * n
  {
    if ws == [] then [] else LeBytes(ws[0], n) + WordsToBytes(ws[1..], n)
  }

  function BytesToWords(bs: seq<byte>, n: nat): (ws: seq<nat>)
    requires n > 0
    ensures |ws| == |bs| / n
  {
    if |bs| < n then [] else
      assert |bs| / n == (|bs| - n) / n + 1 by { WholeWords(|bs|, n); }
      [LeNat(bs[..n])] + BytesToWords(bs[n..], n)
  }

  lemma WholeWords(len: nat, n: nat)
    requires 0 < n <= len
    ensures len / n == (len - n) / n + 1 && len % n == (len - n) % n
  {
    CongIffSameMod(len, len - n, n);
    MultipleIsDivisible(n, 1);
    var t := len / n - (len - n) / n - 1;
    assert n * t == 0;
  }

  lemma {:induction false} BytesToWordsBound(bs: seq<byte>, n: nat)
    requires n > 0
    ensures forall i :: 0 <= i < |bs| / n ==> BytesToWords(bs, n)[i] < Pow(256, n)
    decreases |bs|
  {
    if |bs| >= n {
      LeBytesOfLeNat(bs[..n]);
      BytesToWordsBound(bs[n..], n);
      WholeWords(|bs|, n);
    }
  }

  lemma {:induction false} WordAt(bs: seq<byte>, n: nat, i: nat)
    requires n > 0 && i < |bs| / n
    ensures i * n + n <= |bs| && BytesToWords(bs, n)[i] == LeNat(bs[i * n..i * n + n])
    decreases |bs|
  {
    WholeWords(|bs|, n);
    if i > 0 {
      WordAt(bs[n..], n, i - 1);
      assert (i - 1) * n == i * n - n;
      assert bs[n..][i * n - n..i * n] == bs[i * n..i * n + n];
    }
  }

  lemma {:induction false} BytesToWordsOfWordsToBytes(ws: seq<nat>, n: nat)
    requires n > 0 && forall i :: 0 <= i < |ws| ==> ws[i] < Pow(256, n)
    ensures BytesToWords(WordsToBytes(ws, n), n) == ws
  {
    if ws == [] {
    } else {
      var bs := WordsToBytes(ws, n);
      assert |bs| == n + |WordsToBytes(ws[1..], n)|;
      assert bs[..n] == LeBytes(ws[0], n) && bs[n..] == WordsToBytes(ws[1..], n);
      LeNatOfLeBytes(ws[0], n);
      BytesToWordsOfWordsToBytes(ws[1..], n);
    }
  }

  lemma {:induction false} WordsToBytesOfBytesToWords(bs: seq<byte>, n: nat)
    requires n > 0 && |bs| % n == 0
    ensures WordsToBytes(BytesToWords(bs, n), n) == bs
    decreases |bs|
  {
    if |bs| < n {
      SmallMod(|bs|, n);
    } else {
      WholeWords(|bs|, n);
      WordsToBytesOfBytesToWords(bs[n..], n);
      LeBytesOfLeNat(bs[..n]);
      var ws := BytesToWords(bs, n);
      assert ws[1..] == BytesToWords(bs[n..], n);
      assert bs == bs[..n] + bs[n..];
    }
  }

  // --------------------------------------------------------- 64-bit words, as bits

  function Load64(b: seq<byte>): bv64
    requires |b| == 8
  {
    b[0] as bv64 | (b[1] as bv64 << 8) | (b[2] as bv64 << 16) | (b[3] as bv64 << 24) |
    (b[4] as bv64 << 32) | (b[5] as bv64 << 40) | (b[6] as bv64 << 48) | (b[7] as bv64 << 56)
  }

  function Store64(w: bv64): (b: seq<byte>)
    ensures |b| == 8
  {
    [(w & 0xFF) as byte, ((w >> 8) & 0xFF) as byte, ((w >> 16) & 0xFF) as byte, ((w >> 24) & 0xFF) as byte,
     ((w >> 32) & 0xFF) as byte, ((w >> 40) & 0xFF) as byte, ((w >> 48) & 0xFF) as byte, ((w >> 56) & 0xFF) as byte]
  }

  lemma LoadOfStore(w: bv64)
    ensures Load64(Store64(w)) == w
  {}

  lemma StoreOfLoad(b: seq<byte>)
    requires |b| == 8
    ensures Store64(Load64(b)) == b
  {}

  /** Byte j of the bytes of a 64-bit word is its bits from 8 j up. */
  lemma ByteOrder(b: seq<byte>)
    requires |b| == 8
    ensures var w := Load64(b);
            && (w % 256) as byte == b[0] && (w / 0x100 % 256) as byte == b[1]
            && (w / 0x1_0000 % 256) as byte == b[2] && (w / 0x100_0000 % 256) as byte == b[3]
            && (w / 0x1_0000_0000 % 256) as byte == b[4] && (w / 0x100_0000_0000 % 256) as byte == b[5]
            && (w / 0x1_0000_0000_0000 % 256) as byte == b[6] && (w / 0x100_0000_0000_0000 % 256) as byte == b[7]
  {}

  function Xor64(a: bv64, b: bv64): bv64 {
    a ^ b
  }

  lemma Xor64Cancels(a: bv64, b: bv64)
    ensures Xor64(Xor64(a, b), b) == a
  {}

  lemma Xor64Returns(a: bv64, b: bv64)
    ensures Xor64(Xor64(a, b), a) == b
  {}

  function High32(w: bv64): bv32 {
    (w >> 32) as bv32
  }

  function Low32(w: bv64): bv32 {
    (w & 0xFFFF_FFFF) as bv32
  }

  function Combine(lsb: bv32, msb: bv32): bv64 {
    (msb as bv64 << 32) | lsb as bv64
  }

  lemma PartsOfCombine(lsb: bv32, msb: bv32)
    ensures Low32(Combine(lsb, msb)) == lsb && High32(Combine(lsb, msb)) == msb
    ensures Combine(lsb, msb) == msb as bv64 * 0x1_0000_0000 + lsb as bv64
  {}

  lemma CombineOfParts(w: bv64)
    ensures Combine(Low32(w), High32(w)) == w
  {}

  function High64(w: bv128): bv64 {
    (w >> 64) as bv64
  }

  function Low64(w: bv128): bv64 {
    (w & 0xFFFF_FFFF_FFFF_FFFF) as bv64
  }

  function Join64(high: bv64, low: bv64): bv128 {
    (high as bv128 << 64) | low as bv128
  }

  lemma PartsOfJoin(high: bv64, low: bv64)
    ensures High64(Join64(high, low)) == high && Low64(Join64(high, low)) == low
  {}

  function Rotl128(w: bv128, rotation: nat): bv128
    requires rotation <= 128
  {
    (w << rotation) | (w >> (128 - rotation))
  }
}
