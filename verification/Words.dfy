/** The machine integers of the program and their C++ conversions. */
module Words {
  import opened NumberTheory

  const TWO_31: int := 0x8000_0000
  const TWO_32: int := 0x1_0000_0000
  const TWO_63: int := 0x8000_0000_0000_0000
  const TWO_64: int := 0x1_0000_0000_0000_0000
  const TWO_128: int := 0x1_0000_0000_0000_0000_0000_0000_0000_0000

  type u32 = x: int | 0 <= x < TWO_32
  type u64 = x: int | 0 <= x < TWO_64
  type u128 = x: int | 0 <= x < TWO_128
  type i64 = x: int | -TWO_63 <= x < TWO_63

  /** Unsigned arithmetic is modulo 2^64; a signed operand is converted this way first. */
  function WrapU64(x: int): u64 {
    x % TWO_64
  }

  /** The two's complement reading of a 64-bit word. */
  function ToI64(x: u64): i64 {
    if x < TWO_63 then x else x - TWO_64
  }

  function WrapU128(x: int): u128 {
    x % TWO_128
  }

  /** The remainder of C++, whose sign is the sign of the dividend. */
  function TruncatedMod(x: int, m: int): int
    requires m > 0
  {
    if x >= 0 then x % m else -(-x % m)
  }

  /** Only the value modulo 2^64 reaches a signed result. */
  lemma SignedFromCongruent(w: u64, v: i64)
    requires Cong(w, v, TWO_64)
    ensures ToI64(w) == v
  {}

  /** The mixed expression y - x * q, computed unsigned and stored signed, is exact
      whenever the true value fits. */
  lemma MixedUpdateIsExact(x: i64, y: i64, q: u64)
    requires -TWO_63 <= y - x * q < TWO_63
    ensures ToI64(WrapU64(WrapU64(y) - WrapU64(WrapU64(x) * q))) == y - x * q
  {
    var p := WrapU64(x) * q;
    CongMod(x, TWO_64);
    MultipleIsDivisible(TWO_64, 0);
    CongMul(WrapU64(x), x, q, q, TWO_64);
    CongMod(p, TWO_64);
    CongTrans(WrapU64(p), p, x * q, TWO_64);
    CongMod(y, TWO_64);
    DividesCombination(TWO_64, WrapU64(y) - y, 1, WrapU64(p) - x * q, -1);
    var s := WrapU64(y) - WrapU64(p);
    CongMod(s, TWO_64);
    CongTrans(WrapU64(s), s, y - x * q, TWO_64);
    SignedFromCongruent(WrapU64(s), y - x * q);
  }
}
