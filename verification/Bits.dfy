/** Bitwise operations on unsigned integers, bit by bit. */
module Bits {

  function Pow2(n: nat): (r: nat)
    ensures r > 0
  {
    if n == 0 then 1 else 2 * Pow2(n - 1)
  }

  function And(a: nat, b: nat): nat {
    if a == 0 || b == 0 then 0
    else 2 * And(a / 2, b / 2) + (if a % 2 == 1 && b % 2 == 1 then 1 else 0)
  }

  function Xor(a: nat, b: nat): nat
    decreases a + b
  {
    if a == 0 && b == 0 then 0
    else 2 * Xor(a / 2, b / 2) + (if a % 2 != b % 2 then 1 else 0)
  }

  /** A left shift of a 32-bit word: the bits beyond the width are lost. */
  function ShiftLeft32(a: nat, n: nat): nat {
    a * Pow2(n) % 0x1_0000_0000
  }

  lemma {:induction false} Pow2Adds(m: nat, n: nat)
    ensures Pow2(m + n) == Pow2(m) * Pow2(n)
  {
    if m > 0 {
      Pow2Adds(m - 1, n);
      assert Pow2(m + n) == 2 * Pow2(m - 1 + n);
    }
  }

  lemma ProductGap(m: nat, x: nat, y: nat)
    requires x > y
    ensures m * x >= m * y + m
  {
    var k: nat := x - y - 1;
    assert m * x == m * y + m + m * k;
    assert m * k >= 0;
  }

  /** A quotient and a remainder determine the division. */
  lemma QuotientIs(a: nat, m: nat, q: nat, r: nat)
    requires 0 <= r < m && a == m * q + r
    ensures a / m == q
  {
    var actual := a / m;
    assert a == m * actual + a % m;
    if actual > q {
      ProductGap(m, actual, q);
    } else if actual < q {
      ProductGap(m, q, actual);
    }
  }

  lemma HalvedQuotient(a: nat, m: nat)
    requires m > 0
    ensures a / (2 * m) == a / 2 / m
  {
    var h := a / 2;
    var q, r := h / m, h % m;
    assert h == m * q + r;
    QuotientIs(a, 2 * m, q, 2 * r + a % 2);
  }

  lemma AndHalves(a: nat, b: nat)
    requires b % 2 == 0
    ensures And(a, b) == 2 * And(a / 2, b / 2)
  {
  }

  lemma {:induction false} AndOnes(a: nat, k: nat)
    requires a < Pow2(k)
    ensures And(a, Pow2(k) - 1) == a
  {
    if k > 0 {
      var ones := Pow2(k) - 1;
      assert ones / 2 == Pow2(k - 1) - 1 && ones % 2 == 1;
      AndOnes(a / 2, k - 1);
    }
  }

  function ShiftRight(a: nat, s: nat): nat {
    if s == 0 then a else ShiftRight(a / 2, s - 1)
  }

  lemma {:induction false} ShiftRightIsQuotient(a: nat, s: nat)
    ensures ShiftRight(a, s) == a / Pow2(s)
  {
    if s == 0 {
      assert Pow2(s) == 1;
    } else {
      ShiftRightIsQuotient(a / 2, s - 1);
      HalvedQuotient(a, Pow2(s - 1));
    }
  }

  /** Append s zero bits. */
  function ShiftLeft(a: nat, s: nat): nat {
    if s == 0 then a else 2 * ShiftLeft(a, s - 1)
  }

  lemma {:induction false} ShiftLeftIsProduct(a: nat, s: nat)
    ensures ShiftLeft(a, s) == a * Pow2(s)
  {
    if s > 0 {
      ShiftLeftIsProduct(a, s - 1);
      assert a * Pow2(s) == 2 * (a * Pow2(s - 1));
    }
  }

  /** A word and-ed with k ones shifted left by s keeps exactly its bits from s on. */
  lemma {:induction false} AndShiftedOnes(a: nat, k: nat, s: nat)
    requires a < Pow2(k + s)
    ensures And(a, ShiftLeft(Pow2(k) - 1, s)) == ShiftLeft(ShiftRight(a, s), s)
  {
    if s == 0 {
      AndOnes(a, k);
    } else {
      assert Pow2(k + s) == 2 * Pow2(k + s - 1);
      AndHalves(a, ShiftLeft(Pow2(k) - 1, s));
      AndShiftedOnes(a / 2, k, s - 1);
    }
  }

  lemma XorHalves(a: nat, b: nat)
    ensures Xor(a, b) / 2 == Xor(a / 2, b / 2)
  {
  }

  lemma {:induction false} XorShifts(a: nat, b: nat, s: nat)
    ensures ShiftRight(Xor(a, b), s) == Xor(ShiftRight(a, s), ShiftRight(b, s))
  {
    if s > 0 {
      XorHalves(a, b);
      XorShifts(a / 2, b / 2, s - 1);
    }
  }

  lemma {:induction false} XorZero(a: nat, b: nat)
    ensures Xor(a, b) == 0 <==> a == b
    decreases a + b
  {
    if a + b > 0 {
      XorZero(a / 2, b / 2);
    }
  }

  lemma {:induction false} XorBound(a: nat, b: nat, n: nat)
    requires a < Pow2(n) && b < Pow2(n)
    ensures Xor(a, b) < Pow2(n)
    decreases n
  {
    if n > 0 {
      XorBound(a / 2, b / 2, n - 1);
    }
  }
}
