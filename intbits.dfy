/**
 * Python's bitwise operators on non-negative ints, which are unbounded:
 * `a << k` is `a * 2^k`, `a >> k` is `a / 2^k`, `a & (2^k - 1)` is
 * `a % 2^k`, and `^` and `|` work one binary digit at a time, as defined
 * here.
 */
module IntBits {

  function Pow2(k: nat): (p: nat)
    ensures p >= 1
  {
    if k == 0 then 1 else 2 * Pow2(k - 1)
  }

  /** The powers of two the cipher's shifts, bytes and words use. */
  lemma Pow2Facts()
    ensures Pow2(5) == 32 && Pow2(8) == 0x100
    ensures Pow2(27) == 0x800_0000 && Pow2(32) == 0x1_0000_0000
  {
    assert Pow2(8) == 0x100;
    assert Pow2(16) == 0x1_0000;
    assert Pow2(24) == 0x100_0000;
  }

  /** Binary digit `k` of `x` (`(x >> k) & 1`). */
  function Digit(x: nat, k: nat): nat
  {
    (x / Pow2(k)) % 2
  }

  /** Python's `a ^ b`: a digit of the result is 1 where the digits of a and b differ. */
  function Xor(a: nat, b: nat): nat
    decreases a + b
  {
    if a == 0 && b == 0 then 0
    else 2 * Xor(a / 2, b / 2) + (if a % 2 == b % 2 then 0 else 1)
  }

  /** Python's `a | b`: a digit of the result is 1 where a digit of a or of b is 1. */
  function Or(a: nat, b: nat): nat
    decreases a + b
  {
    if a == 0 && b == 0 then 0
    else 2 * Or(a / 2, b / 2) + (if a % 2 == 1 || b % 2 == 1 then 1 else 0)
  }

  lemma MulNat(a: nat, b: nat)
    ensures a * b >= 0
  {
  }

  lemma DivNat(a: nat, d: nat)
    requires d >= 1
    ensures a / d >= 0
  {
  }

  lemma {:induction false} MulAtLeast(d: int, k: int)
    requires d > 0 && k >= 1
    ensures d * k >= d
    decreases k
  {
    if k > 1 {
      MulAtLeast(d, k - 1);
      assert d * k == d * (k - 1) + d;
    }
  }

  /** Quotient and remainder are determined by `x == d * q + r` with `0 <= r < d`. */
  lemma DivModUnique(x: int, d: int, q: int, r: int)
    requires d > 0 && x == d * q + r && 0 <= r < d
    ensures x / d == q && x % d == r
  {
    var q', r' := x / d, x % d;
    assert d * (q - q') == r' - r;
    if q > q' {
      MulAtLeast(d, q - q');
    } else if q < q' {
      assert d * (q' - q) == r - r';
      MulAtLeast(d, q' - q);
    }
  }

  /** Dividing by 2 and then by p is dividing by 2p. */
  lemma DivDouble(x: nat, p: nat)
    requires p >= 1
    ensures x / 2 / p == x / (2 * p)
  {
    var q, r := x / 2 / p, x / 2 % p;
    assert x == (2 * p) * q + (2 * r + x % 2) by {
      assert x == 2 * (x / 2) + x % 2;
      assert x / 2 == p * q + r;
    }
    DivModUnique(x, 2 * p, q, 2 * r + x % 2);
  }

  /** Digit k + 1 of x is digit k of x / 2. */
  lemma DigitOfHalf(x: nat, k: nat)
    ensures Digit(x, k + 1) == Digit(x / 2, k)
  {
    DivDouble(x, Pow2(k));
  }

  /** A digit of `a ^ b` is 1 exactly where the digits of a and b differ. */
  lemma {:induction false} XorDigit(a: nat, b: nat, k: nat)
    ensures Digit(Xor(a, b), k) == if Digit(a, k) == Digit(b, k) then 0 else 1
    decreases k
  {
    if k == 0 {
      XorHalf(a, b);
      assert Digit(a, 0) == a % 2 && Digit(b, 0) == b % 2;
      assert Digit(Xor(a, b), 0) == Xor(a, b) % 2;
    } else {
      XorDigit(a / 2, b / 2, k - 1);
      DigitOfHalf(a, k - 1);
      DigitOfHalf(b, k - 1);
      DigitOfHalf(Xor(a, b), k - 1);
      XorHalf(a, b);
    }
  }

  /** `(a ^ b) >> 1 == (a >> 1) ^ (b >> 1)`, and the lowest digit of `a ^ b`. */
  lemma XorHalf(a: nat, b: nat)
    ensures Xor(a, b) / 2 == Xor(a / 2, b / 2)
    ensures Xor(a, b) % 2 == if a % 2 == b % 2 then 0 else 1
  {
    if a != 0 || b != 0 {
      var x := Xor(a / 2, b / 2);
      var d := if a % 2 == b % 2 then 0 else 1;
      assert Xor(a, b) == 2 * x + d;
      DivModUnique(Xor(a, b), 2, x, d);
    }
  }

  lemma {:induction false} OrZero(a: nat)
    ensures Or(a, 0) == a
    decreases a
  {
    if a > 0 {
      OrZero(a / 2);
    }
  }

  /**
   * Or-ing a value below 2^k into `a << k` is adding it: the two have no
   * binary digit in common.
   */
  lemma {:induction false} OrShifted(a: nat, b: nat, k: nat)
    requires b < Pow2(k)
    ensures Or(a * Pow2(k), b) == a * Pow2(k) + b
    decreases k
  {
    if k == 0 {
      OrZero(a);
    } else {
      var x := a * Pow2(k - 1);
      assert a * Pow2(k) == 2 * x;
      OrShifted(a, b / 2, k - 1);
      if 2 * x != 0 || b != 0 {
        assert Or(2 * x, b) == 2 * Or(x, b / 2) + b % 2;
      }
    }
  }
}
