/** Prefix groups are the classes of a quotient, for every prefix length (plan.rs). */
module PrefixGroups {
  import opened Bits
  import opened Wrappers
  import opened Plan

  /** The number of addresses in one group of a prefix length. */
  function GroupSize(prefixLen: u8): (r: nat)
    requires prefixLen <= 32
    ensures r > 0
  {
    Pow2(32 - prefixLen)
  }

  lemma WordFitsWidth(ip: u32)
    ensures ip < Pow2(32)
  {
    WordSize();
  }

  lemma WordSize()
    ensures Pow2(32) == 0x1_0000_0000
  {
    assert Pow2(8) == 0x100;
    Pow2Adds(8, 8);
    Pow2Adds(16, 16);
  }

  /** The wrapped shift is the one that keeps every bit of the remaining ones. */
  lemma MaskIsShiftedOnes(prefixLen: u8)
    requires prefixLen <= 32
    ensures Mask(prefixLen) == ShiftLeft(Pow2(prefixLen) - 1, 32 - prefixLen)
  {
    var s := 32 - prefixLen;
    ShiftLeftIsProduct(Pow2(prefixLen) - 1, s);
    if s < 32 {
      WrappedOnes(prefixLen, s);
    }
  }

  lemma WrappedOnes(k: nat, s: nat)
    requires k + s == 32
    ensures 0xFFFF_FFFF * Pow2(s) % 0x1_0000_0000 == (Pow2(k) - 1) * Pow2(s)
  {
    WordSize();
    Pow2Adds(k, s);
    ShiftIsBounded(s);
    WrappedProduct(Pow2(s));
    OneLess(Pow2(k), Pow2(s));
  }

  lemma OneLess(a: nat, m: nat)
    requires a > 0
    ensures (a - 1) * m == a * m - m
  {
  }

  lemma WrappedProduct(m: nat)
    requires 0 < m <= 0x1_0000_0000
    ensures 0xFFFF_FFFF * m % 0x1_0000_0000 == 0x1_0000_0000 - m
  {
    assert 0xFFFF_FFFF * m == 0x1_0000_0000 * (m - 1) + (0x1_0000_0000 - m);
  }

  lemma ShiftIsBounded(s: nat)
    requires s <= 32
    ensures Pow2(s) <= Pow2(32)
  {
    Pow2Adds(s, 32 - s);
    ProductIsLarger(Pow2(s), Pow2(32 - s));
  }

  lemma ProductIsLarger(a: nat, b: nat)
    requires b > 0
    ensures a * b >= a
  {
  }

  /** Masking rounds an address down to a multiple of its group size. */
  lemma MaskedIsRoundedDown(ip: u32, prefixLen: u8)
    requires prefixLen <= 32
    ensures And(ip, Mask(prefixLen)) == ip / GroupSize(prefixLen) * GroupSize(prefixLen)
  {
    var s := 32 - prefixLen;
    MaskIsShiftedOnes(prefixLen);
    WordFitsWidth(ip);
    AndShiftedOnes(ip, prefixLen, s);
    ShiftRightIsQuotient(ip, s);
    ShiftLeftIsProduct(ip / Pow2(s), s);
  }

  lemma RoundingDown(a: nat, m: nat)
    requires m > 0
    ensures a / m * m <= a && a / m * m / m == a / m
  {
    assert a == m * (a / m) + a % m;
    QuotientOfMultiple(a / m, m);
  }

  lemma QuotientOfMultiple(q: nat, m: nat)
    requires m > 0
    ensures q * m / m == q
  {
    QuotientIs(q * m, m, q, 0);
  }

  /** Two addresses share a group exactly when prefixes and quotients agree. */
  lemma SameGroupIffSameQuotient(a: u32, p: u8, b: u32, q: u8)
    requires p <= 32 && q <= 32
    ensures Masked(a, p) == Masked(b, q)
       <==> p == q && a / GroupSize(p) == b / GroupSize(p)
  {
    if p == q {
      MaskedIsRoundedDown(a, p);
      MaskedIsRoundedDown(b, p);
      EqualMultiples(a / GroupSize(p), b / GroupSize(p), GroupSize(p));
    }
  }

  lemma EqualMultiples(x: nat, y: nat, m: nat)
    requires m > 0
    ensures x * m == y * m <==> x == y
  {
    if x > y {
      ProductGap(m, x, y);
    } else if x < y {
      ProductGap(m, y, x);
    }
  }

  /** Masking a network again changes nothing, and the network is still a word. */
  lemma MaskingIsIdempotent(ip: u32, prefixLen: u8)
    requires prefixLen <= 32
    ensures var network := And(ip, Mask(prefixLen));
            network <= ip && Masked(network, prefixLen) == Masked(ip, prefixLen)
  {
    MaskedIsRoundedDown(ip, prefixLen);
    RoundingDown(ip, GroupSize(prefixLen));
    SameGroupIffSameQuotient(And(ip, Mask(prefixLen)), prefixLen, ip, prefixLen);
  }

  /**
   The rule of the kernel, which xors two addresses and masks the difference,
   is equality of groups.
   */
  lemma KernelXorRule(a: u32, b: u32, prefixLen: u8)
    requires prefixLen <= 32
    ensures And(Xor(a, b), Mask(prefixLen)) == 0 <==> Masked(a, prefixLen) == Masked(b, prefixLen)
  {
    var s := 32 - prefixLen;
    WordFitsWidth(a);
    WordFitsWidth(b);
    XorBound(a, b, 32);
    MaskIsShiftedOnes(prefixLen);
    AndShiftedOnes(Xor(a, b), prefixLen, s);
    ShiftLeftIsProduct(ShiftRight(Xor(a, b), s), s);
    XorShifts(a, b, s);
    XorZero(ShiftRight(a, s), ShiftRight(b, s));
    ShiftRightIsQuotient(a, s);
    ShiftRightIsQuotient(b, s);
    SameGroupIffSameQuotient(a, prefixLen, b, prefixLen);
    ProductIsZero(Xor(ShiftRight(a, s), ShiftRight(b, s)), Pow2(s));
  }

  lemma ProductIsZero(a: nat, m: nat)
    requires m > 0
    ensures a * m == 0 <==> a == 0
  {
  }
}
