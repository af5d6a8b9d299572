/** Rotations of a 128-bit word, bit by bit over its two halves. */
module Rotation {
  import opened Convert

  predicate Bit(w: bv64, i: bv6) {
    (w >> i) & 1 == 1
  }

  predicate InLower(i: bv7) {
    i < 64
  }

  function Place(i: bv7): bv6 {
    (i & 63) as bv6
  }

  /** Bit i of the 128-bit word with these halves, counted from the lowest. */
  predicate PairBit(high: bv64, low: bv64, i: bv7) {
    Bit(if InLower(i) then low else high, Place(i))
  }

  /** The second pair is the first one rotated to the left: bit i goes to bit i + r modulo 128. */
  ghost predicate Rotated(high: bv64, low: bv64, r: bv7, high2: bv64, low2: bv64) {
    forall i: bv7 :: PairBit(high2, low2, i + r) == PairBit(high, low, i)
  }

  /** The bits of a from the top down, followed by those of b, after s places to the left. */
  function Funnel(a: bv64, b: bv64, s: bv6): bv64 {
    (a << s) | (b >> (64 - s as bv7))
  }

  ghost predicate Funnels(s: bv6) {
    forall a: bv64, b: bv64, i: bv6 :: Bit(Funnel(a, b, s), i) == Bit(if i >= s then a else b, i - s)
  }

  lemma Funnels13()
    ensures Funnels(13)
  {}

  lemma Funnels15()
    ensures Funnels(15)
  {}

  lemma Funnels30()
    ensures Funnels(30)
  {}

  lemma Funnels45()
    ensures Funnels(45)
  {}

  lemma Funnels47()
    ensures Funnels(47)
  {}

  lemma Funnels60()
    ensures Funnels(60)
  {}

  function Turned(a: bv64, b: bv64, r: bv7): bv64 {
    if InLower(r) then Funnel(a, b, Place(r)) else Funnel(b, a, Place(r))
  }

  /** Where bit i of a word of 128 bits lands: in which half, and at which place of that half. */
  lemma Lands(i: bv7, r: bv7)
    ensures Place(i + r) - Place(r) == Place(i)
    ensures InLower(i + r) <==> (InLower(i) == InLower(r)) == (Place(i + r) >= Place(r))
  {}

  lemma TurnedBit(a: bv64, b: bv64, r: bv7, j: bv6)
    requires Funnels(Place(r))
    ensures Bit(Turned(a, b, r), j) == Bit(if (j >= Place(r)) == InLower(r) then a else b, j - Place(r))
  {
    hide Funnel, Bit, InLower, Place;
  }

  lemma TurnedMovesBit(high: bv64, low: bv64, r: bv7, i: bv7)
    requires Funnels(Place(r))
    ensures PairBit(Turned(high, low, r), Turned(low, high, r), i + r) == PairBit(high, low, i)
  {
    hide Turned, Bit, Funnels, InLower, Place;
    Lands(i, r);
    if InLower(i + r) {
      TurnedBit(low, high, r, Place(i + r));
    } else {
      TurnedBit(high, low, r, Place(i + r));
    }
  }

  lemma TurnedMovesBits(high: bv64, low: bv64, r: bv7)
    requires Funnels(Place(r))
    ensures Rotated(high, low, r, Turned(high, low, r), Turned(low, high, r))
  {
    hide Turned, Bit, Funnels, InLower, Place, PairBit;
    forall i: bv7
      ensures PairBit(Turned(high, low, r), Turned(low, high, r), i + r) == PairBit(high, low, i)
    {
      TurnedMovesBit(high, low, r, i);
    }
  }

  lemma HalvesTurn15(w: bv128)
    ensures High64(Rotl128(w, 15)) == Turned(High64(w), Low64(w), 15)
    ensures Low64(Rotl128(w, 15)) == Turned(Low64(w), High64(w), 15)
  {}

  lemma HalvesTurn30(w: bv128)
    ensures High64(Rotl128(w, 30)) == Turned(High64(w), Low64(w), 30)
    ensures Low64(Rotl128(w, 30)) == Turned(Low64(w), High64(w), 30)
  {}

  lemma HalvesTurn45(w: bv128)
    ensures High64(Rotl128(w, 45)) == Turned(High64(w), Low64(w), 45)
    ensures Low64(Rotl128(w, 45)) == Turned(Low64(w), High64(w), 45)
  {}

  lemma HalvesTurn60(w: bv128)
    ensures High64(Rotl128(w, 60)) == Turned(High64(w), Low64(w), 60)
    ensures Low64(Rotl128(w, 60)) == Turned(Low64(w), High64(w), 60)
  {}

  lemma HalvesTurn77(w: bv128)
    ensures High64(Rotl128(w, 77)) == Turned(High64(w), Low64(w), 77)
    ensures Low64(Rotl128(w, 77)) == Turned(Low64(w), High64(w), 77)
  {}

  lemma HalvesTurn94(w: bv128)
    ensures High64(Rotl128(w, 94)) == Turned(High64(w), Low64(w), 94)
    ensures Low64(Rotl128(w, 94)) == Turned(Low64(w), High64(w), 94)
  {}

  lemma HalvesTurn111(w: bv128)
    ensures High64(Rotl128(w, 111)) == Turned(High64(w), Low64(w), 111)
    ensures Low64(Rotl128(w, 111)) == Turned(Low64(w), High64(w), 111)
  {}

  /** A rotation by any offset of the key schedule moves every bit up by that offset, modulo 128. */
  lemma RotationMovesBits(w: bv128)
    ensures Rotated(High64(w), Low64(w), 15, High64(Rotl128(w, 15)), Low64(Rotl128(w, 15)))
    ensures Rotated(High64(w), Low64(w), 30, High64(Rotl128(w, 30)), Low64(Rotl128(w, 30)))
    ensures Rotated(High64(w), Low64(w), 45, High64(Rotl128(w, 45)), Low64(Rotl128(w, 45)))
    ensures Rotated(High64(w), Low64(w), 60, High64(Rotl128(w, 60)), Low64(Rotl128(w, 60)))
    ensures Rotated(High64(w), Low64(w), 77, High64(Rotl128(w, 77)), Low64(Rotl128(w, 77)))
    ensures Rotated(High64(w), Low64(w), 94, High64(Rotl128(w, 94)), Low64(Rotl128(w, 94)))
    ensures Rotated(High64(w), Low64(w), 111, High64(Rotl128(w, 111)), Low64(Rotl128(w, 111)))
  {
    hide Rotated, Funnels, Turned, High64, Low64, Rotl128;
    Funnels13();
    Funnels15();
    Funnels30();
    Funnels45();
    Funnels47();
    Funnels60();
    HalvesTurn15(w);
    TurnedMovesBits(High64(w), Low64(w), 15);
    HalvesTurn30(w);
    TurnedMovesBits(High64(w), Low64(w), 30);
    HalvesTurn45(w);
    TurnedMovesBits(High64(w), Low64(w), 45);
    HalvesTurn60(w);
    TurnedMovesBits(High64(w), Low64(w), 60);
    HalvesTurn77(w);
    TurnedMovesBits(High64(w), Low64(w), 77);
    HalvesTurn94(w);
    TurnedMovesBits(High64(w), Low64(w), 94);
    HalvesTurn111(w);
    TurnedMovesBits(High64(w), Low64(w), 111);
  }
}
